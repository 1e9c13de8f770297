/** The loop of `serveAPI` (server.go) over the method calls of one request.  The method handlers
    are one function on the server state `S`. */
module Batch {
  import opened Prelude
  import opened Json
  import opened Paths
  import opened Evaluator

  const SERVER_FAIL := "serverFail"

  datatype Call = Call(name: string, args: Option<Json>, id: string)

  datatype Reply =
    | Success(name: string, result: Json, id: string)
    | Failure(name: string, errType: string, description: string, id: string)

  type Handler<!S> = (S, string, Option<Json>) -> (S, Result<Json>)

  datatype Progress<S> = Progress(state: S, results: Results, replies: seq<Reply>)

  // ---------- decoding one call ----------

  /** A missing or ill-typed name or call id decodes to the empty string; the error is dropped. */
  function TextAt(items: seq<Json>, i: nat): string {
    if i < |items| && items[i].Str? then items[i].s else ""
  }

  /** Decoding into an array of three: missing elements stay unset, further ones are dropped. */
  function DecodeCall(raw: Json): Option<Call> {
    match raw
    case Null => Some(Call("", None, ""))
    case Arr(items) => Some(Call(TextAt(items, 0), if |items| > 1 then Some(items[1]) else None, TextAt(items, 2)))
    case _ => None
  }

  /** The three elements of an invocation (section 3.2 of RFC 8620), and what becomes of other values. */
  lemma CallMeans(raw: Json)
    ensures DecodeCall(raw).Some? <==> raw.Arr? || raw == Null
    ensures raw == Null ==> DecodeCall(raw) == Some(Call("", None, ""))
    ensures raw.Arr? ==>
              && (forall n, a, i :: |raw.items| >= 3 && raw.items[..3] == [Str(n), a, Str(i)] ==>
                    DecodeCall(raw) == Some(Call(n, Some(a), i)))
              && (|raw.items| < 1 || !raw.items[0].Str? ==> DecodeCall(raw).value.name == "")
              && (|raw.items| < 2 ==> DecodeCall(raw).value.args == None)
              && (|raw.items| < 3 || !raw.items[2].Str? ==> DecodeCall(raw).value.id == "")
  {
    if raw.Arr? && |raw.items| >= 3 {
      assert raw.items[..3] == [raw.items[0], raw.items[1], raw.items[2]];
    }
  }

  // ---------- one call ----------

  predicate OrderFor(raw: Json, order: seq<string>) {
    DecodeCall(raw).Some? ==> Order(DecodeCall(raw).value.args, order)
  }

  function ErrorType(message: string): string {
    if message == CANNOT_CALCULATE then CANNOT_CALCULATE else SERVER_FAIL
  }

  function Invoke<S>(h: Handler<S>, p: Progress<S>, call: Call, args: Option<Json>): Progress<S> {
    var (state, r) := h(p.state, call.name, args);
    match r
    case Err(e) => Progress(state, p.results, p.replies + [Failure(call.name, ErrorType(e), e, call.id)])
    case Ok(v) => Progress(state, p.results[call.id := v], p.replies + [Success(call.name, v, call.id)])
  }

  function Perform<S>(h: Handler<S>, p: Progress<S>, raw: Json, order: seq<string>): Progress<S>
    requires OrderFor(raw, order)
  {
    match DecodeCall(raw)
    case None => p
    case Some(call) =>
      match ResolveIn(call.args, p.results, order)
      case Err(e) => p.(replies := p.replies + [Failure(call.name, SERVER_FAIL, e, call.id)])
      case Ok(args) => Invoke(h, p, call, args)
  }

  // ---------- the whole request ----------

  predicate OrdersFor(calls: seq<Json>, orders: seq<seq<string>>) {
    |orders| == |calls| && forall i :: 0 <= i < |calls| ==> OrderFor(calls[i], orders[i])
  }

  function Eval<S>(h: Handler<S>, s0: S, calls: seq<Json>, orders: seq<seq<string>>): Progress<S>
    requires OrdersFor(calls, orders)
  {
    if calls == [] then Progress(s0, map[], [])
    else
      var n := |calls| - 1;
      Perform(h, Eval(h, s0, calls[..n], orders[..n]), calls[n], orders[n])
  }

  method PerformCall<S>(h: Handler<S>, p: Progress<S>, raw: Json) returns (q: Progress<S>, ghost order: seq<string>)
    ensures OrderFor(raw, order) && q == Perform(h, p, raw, order)
  {
    order := [];
    var decoded := DecodeCall(raw);
    if decoded.None? {
      return p, order;
    }
    var call := decoded.value;
    var args := ResolveRefs(call.args, p.results);
    order :| Order(call.args, order) && args == ResolveIn(call.args, p.results, order);
    if args.Err? {
      q := p.(replies := p.replies + [Failure(call.name, SERVER_FAIL, args.error, call.id)]);
      return;
    }
    var (state, r) := h(p.state, call.name, args.value);
    match r {
      case Err(e) =>
        var errType := SERVER_FAIL;
        if e == CANNOT_CALCULATE {
          errType := CANNOT_CALCULATE;
        }
        q := Progress(state, p.results, p.replies + [Failure(call.name, errType, e, call.id)]);
      case Ok(v) =>
        q := Progress(state, p.results[call.id := v], p.replies + [Success(call.name, v, call.id)]);
    }
  }

  /** `s` and `responses` are what the request leads to in some iteration orders. */
  ghost predicate IsOutcome<S(!new)>(h: Handler<S>, s0: S, calls: seq<Json>, s: S, responses: seq<Reply>) {
    exists orders :: OrdersFor(calls, orders) &&
      Eval(h, s0, calls, orders).state == s && Eval(h, s0, calls, orders).replies == responses
  }

  /** The state and the responses are those of `Eval`; every readable call gets its one answer. */
  method ServeApi<S(!new)>(h: Handler<S>, s0: S, calls: seq<Json>) returns (s: S, responses: seq<Reply>)
    ensures IsOutcome(h, s0, calls, s, responses)
    ensures Labels(responses) == Asked(calls)
  {
    var p := Progress(s0, map[], []);
    ghost var orders: seq<seq<string>> := [];
    for i := 0 to |calls|
      invariant OrdersFor(calls[..i], orders) && p == Eval(h, s0, calls[..i], orders)
    {
      ghost var order;
      ghost var before := orders;
      p, order := PerformCall(h, p, calls[i]);
      orders := before + [order];
      assert calls[..i + 1][..i] == calls[..i] && orders[..i] == before;
    }
    assert calls[..|calls|] == calls;
    OneReplyPerCall(h, s0, calls, orders);
    return p.state, p.replies;
  }

  // ---------- a prefix of the calls ----------

  /** The responses to the first calls do not depend on the later ones. */
  lemma {:induction false} PrefixStable<S>(h: Handler<S>, s0: S, calls: seq<Json>, orders: seq<seq<string>>, n: nat)
    requires OrdersFor(calls, orders) && n <= |calls|
    ensures OrdersFor(calls[..n], orders[..n])
    ensures Eval(h, s0, calls[..n], orders[..n]).replies <= Eval(h, s0, calls, orders).replies
  {
    if n == |calls| {
      assert calls[..n] == calls && orders[..n] == orders;
    } else {
      var m := |calls| - 1;
      PrefixStable(h, s0, calls[..m], orders[..m], n);
      assert calls[..m][..n] == calls[..n] && orders[..m][..n] == orders[..n];
    }
  }

  // ---------- what a reference sees ----------

  /** The latest success under a call id. */
  function Latest(replies: seq<Reply>, id: string): Option<Json> {
    if replies == [] then None
    else
      var last := replies[|replies| - 1];
      if last.Success? && last.id == id then Some(last.result) else Latest(replies[..|replies| - 1], id)
  }

  /** `Latest` is what it says: a success under that id after which there is no other. */
  lemma {:induction false} LatestMeaning(replies: seq<Reply>, id: string)
    ensures match Latest(replies, id)
            case None => forall r :: r in replies && r.Success? ==> r.id != id
            case Some(v) =>
              exists i :: 0 <= i < |replies| && LastSuccess(replies, id, i) && replies[i].result == v
  {
    if replies == [] {
    } else {
      var n := |replies| - 1;
      LatestMeaning(replies[..n], id);
      if replies[n].Success? && replies[n].id == id {
        assert LastSuccess(replies, id, n);
      } else if Latest(replies[..n], id).Some? {
        var i :| 0 <= i < n && LastSuccess(replies[..n], id, i) && replies[..n][i].result == Latest(replies, id).value;
        assert LastSuccess(replies, id, i);
      } else {
        forall r | r in replies && r.Success?
          ensures r.id != id
        {
          assert r in replies[..n] || r == replies[n];
        }
      }
    }
  }

  predicate LastSuccess(replies: seq<Reply>, id: string, i: nat) {
    && i < |replies| && replies[i].Success? && replies[i].id == id
    && forall j :: i < j < |replies| && replies[j].Success? ==> replies[j].id != id
  }

  ghost predicate Sees(results: Results, replies: seq<Reply>) {
    forall id :: Latest(replies, id) == if id in results then Some(results[id]) else None
  }

  /** The result table that references are resolved against holds the latest earlier success of
      every call id, at every point of the request. */
  lemma {:induction false} ReferencesSeeLatest<S>(h: Handler<S>, s0: S, calls: seq<Json>, orders: seq<seq<string>>)
    requires OrdersFor(calls, orders)
    ensures var p := Eval(h, s0, calls, orders); Sees(p.results, p.replies)
  {
    hide Sees, Perform;
    if calls != [] {
      var n := |calls| - 1;
      ReferencesSeeLatest(h, s0, calls[..n], orders[..n]);
      PerformSees(h, Eval(h, s0, calls[..n], orders[..n]), calls[n], orders[n]);
    } else {
      NothingSeen();
    }
  }

  lemma NothingSeen()
    ensures Sees(map[], [])
  {
  }

  lemma PerformSees<S>(h: Handler<S>, p: Progress<S>, raw: Json, order: seq<string>)
    requires OrderFor(raw, order) && Sees(p.results, p.replies)
    ensures var q := Perform(h, p, raw, order); Sees(q.results, q.replies)
  {
    hide ResolveIn, OrderFor, ErrorType;
    var q := Perform(h, p, raw, order);
    if q.replies != p.replies {
      var last := q.replies[|q.replies| - 1];
      assert q.replies == p.replies + [last];
      assert q.replies[..|p.replies|] == p.replies;
    }
  }

  /** A call with a reference that does not resolve never reaches its handler: the state and the
      result table stay, and the answer is a server failure. */
  lemma BadReferenceIsHarmless<S>(h: Handler<S>, p: Progress<S>, raw: Json, order: seq<string>, k: string)
    requires OrderFor(raw, order) && DecodeCall(raw).Some?
    requires var m := Fields(DecodeCall(raw).value.args); k in m && IsRef(k) && ResolveRef(m[k], p.results).Err?
    ensures var q := Perform(h, p, raw, order);
            && q.state == p.state && q.results == p.results
            && |q.replies| == |p.replies| + 1 && q.replies[..|p.replies|] == p.replies
            && var r := q.replies[|p.replies|];
               r.Failure? && r.errType == SERVER_FAIL &&
               r.name == DecodeCall(raw).value.name && r.id == DecodeCall(raw).value.id
  {
    ResolvesIff(DecodeCall(raw).value.args, p.results, order);
  }

  /** In particular a reference to a call that comes later, or that did not succeed, is harmless. */
  lemma ForwardReference<S>(h: Handler<S>, s0: S, calls: seq<Json>, orders: seq<seq<string>>, k: string)
    requires OrdersFor(calls, orders) && calls != []
    requires DecodeCall(calls[|calls| - 1]).Some?
    requires var m := Fields(DecodeCall(calls[|calls| - 1]).value.args);
             && k in m && IsRef(k) && DecodeRef(m[k]).Some?
             && forall r :: r in Eval(h, s0, calls[..|calls| - 1], orders[..|calls| - 1]).replies && r.Success? ==>
                  r.id != DecodeRef(m[k]).value.resultOf
    ensures var p, q := Eval(h, s0, calls[..|calls| - 1], orders[..|calls| - 1]), Eval(h, s0, calls, orders);
            && q.state == p.state && q.results == p.results
            && exists r: Reply :: r.Failure? && r.errType == SERVER_FAIL && q.replies == p.replies + [r]
  {
    var n := |calls| - 1;
    var p := Eval(h, s0, calls[..n], orders[..n]);
    var m := Fields(DecodeCall(calls[n]).value.args);
    ReferencesSeeLatest(h, s0, calls[..n], orders[..n]);
    LatestMeaning(p.replies, DecodeRef(m[k]).value.resultOf);
    BadReferenceIsHarmless(h, p, calls[n], orders[n], k);
    var q := Eval(h, s0, calls, orders);
    assert q.replies == p.replies + [q.replies[|p.replies|]];
  }

  // ---------- what the handler of a call receives ----------

  /** The value of the reference `v` after the answers `replies`: that at its path in the latest success
      of its call id. */
  ghost predicate ResolvesTo(v: Json, replies: seq<Reply>, value: Json) {
    exists resultOf, path ::
      && RefersTo(v, resultOf, path)
      && Latest(replies, resultOf).Some? && Resolve(Latest(replies, resultOf).value, path) == Ok(value)
  }

  predicate Plain(x: string) {
    x == "" || x[0] != '#'
  }

  /** The arguments `out` are `m` with the references replaced: an argument for every plain key and for
      every `#` key, no other, each with its plain value or that of its reference. */
  ghost predicate Resolved(out: Args, m: Args, replies: seq<Reply>) {
    && (forall x :: x in out <==> (x in m && Plain(x)) || "#" + x in m)
    && (forall x :: x in out ==>
          (x in m && Plain(x) && out[x] == m[x]) || ("#" + x in m && ResolvesTo(m["#" + x], replies, out[x])))
  }

  /** `q` is `p` after the handler was called with `args` and its answer was recorded. */
  ghost predicate Handled<S>(h: Handler<S>, p: Progress<S>, q: Progress<S>, name: string, args: Option<Json>,
                             id: string)
  {
    && q.state == h(p.state, name, args).0
    && match h(p.state, name, args).1
       case Ok(v) => q.results == p.results[id := v] && q.replies == p.replies + [Success(name, v, id)]
       case Err(e) =>
         q.results == p.results &&
         q.replies == p.replies + [Failure(name, if e == "cannotCalculateChanges" then e else "serverFail", e, id)]
  }

  /** The call was answered without its handler. */
  ghost predicate Refused<S>(p: Progress<S>, q: Progress<S>, name: string, id: string) {
    q.state == p.state && q.results == p.results &&
    exists e :: q.replies == p.replies + [Failure(name, "serverFail", e, id)]
  }

  lemma RefResolves(v: Json, results: Results, replies: seq<Reply>)
    requires Sees(results, replies)
    ensures forall value :: ResolvesTo(v, replies, value) <==> ResolveRef(v, results) == Ok(value)
  {
    RefMeans(v);
    if DecodeRef(v).Some? {
      var ref := DecodeRef(v).value;
      assert RefersTo(v, ref.resultOf, ref.path);
      assert Latest(replies, ref.resultOf) ==
             if ref.resultOf in results then Some(results[ref.resultOf]) else None;
    }
  }

  lemma WrittenIsResolved(m: Args, results: Results, replies: seq<Reply>, order: seq<string>)
    requires Sees(results, replies) && AllResolve(m, results) && IsOrder(order, m.Keys) && InArgs(m, order)
    ensures Resolved(Written(m, results, order), m, replies)
  {
    hide Sees, ResolvesTo, Written, IsOrder, Plain;
    forall x
      ensures var out := Written(m, results, order);
              && (x in out <==> (x in m && Plain(x)) || "#" + x in m)
              && (x in out ==>
                    (x in m && Plain(x) && out[x] == m[x]) ||
                    ("#" + x in m && ResolvesTo(m["#" + x], replies, out[x])))
    {
      WrittenAt(m, results, replies, order, x);
    }
  }

  lemma WrittenAt(m: Args, results: Results, replies: seq<Reply>, order: seq<string>, x: string)
    requires Sees(results, replies) && AllResolve(m, results) && IsOrder(order, m.Keys) && InArgs(m, order)
    ensures var out := Written(m, results, order);
            && (x in out <==> (x in m && Plain(x)) || "#" + x in m)
            && (x in out ==>
                  (x in m && Plain(x) && out[x] == m[x]) ||
                  ("#" + x in m && ResolvesTo(m["#" + x], replies, out[x])))
  {
    WrittenFrom(m, results, order);
    OrderedInArgs(m, order);
    hide Sees, ResolvesTo, ResolveRef, Written, IsOrder, Target;
    TargetMeans(x, x);
    TargetMeans("#" + x, x);
    var out := Written(m, results, order);
    if x in out {
      var k :| k in order && Target(k) == x && out[x] == ValueOf(m, results, k);
      TargetMeans(k, x);
      RefResolves(m[k], results, replies);
    }
  }

  /** What the last of the calls does, whatever the orders: an unreadable call nothing; one with a reference
      that does not resolve is refused; one without references gives its handler the arguments as they are,
      any other with every reference replaced by what it refers to in the earlier answers. */
  lemma CallMeaning<S>(h: Handler<S>, s0: S, calls: seq<Json>, orders: seq<seq<string>>)
    requires OrdersFor(calls, orders) && calls != []
    ensures var n := |calls| - 1;
            var p, q := Eval(h, s0, calls[..n], orders[..n]), Eval(h, s0, calls, orders);
            match DecodeCall(calls[n])
            case None => q == p
            case Some(call) =>
              var m := Fields(call.args);
              if forall x :: "#" + x !in m then Handled(h, p, q, call.name, call.args, call.id)
              else if exists x :: "#" + x in m && forall v :: !ResolvesTo(m["#" + x], p.replies, v) then
                Refused(p, q, call.name, call.id)
              else
                exists out :: Resolved(out, m, p.replies) && Handled(h, p, q, call.name, Some(Obj(out)), call.id)
  {
    var n := |calls| - 1;
    var p := Eval(h, s0, calls[..n], orders[..n]);
    ReferencesSeeLatest(h, s0, calls[..n], orders[..n]);
    if DecodeCall(calls[n]).Some? {
      PerformMeans(h, p, calls[n], orders[n]);
    }
  }

  lemma PerformMeans<S>(h: Handler<S>, p: Progress<S>, raw: Json, order: seq<string>)
    requires OrderFor(raw, order) && Sees(p.results, p.replies) && DecodeCall(raw).Some?
    ensures var call, q := DecodeCall(raw).value, Perform(h, p, raw, order);
            var m := Fields(call.args);
            if forall x :: "#" + x !in m then Handled(h, p, q, call.name, call.args, call.id)
            else if exists x :: "#" + x in m && forall v :: !ResolvesTo(m["#" + x], p.replies, v) then
              Refused(p, q, call.name, call.id)
            else
              exists out :: Resolved(out, m, p.replies) && Handled(h, p, q, call.name, Some(Obj(out)), call.id)
  {
    var m := Fields(DecodeCall(raw).value.args);
    KeysOfRefs(m);
    hide Perform, Sees, ResolvesTo, Resolved, Handled, Refused, OrderFor, DecodeCall, Fields, IsRef;
    if forall x :: "#" + x !in m {
      PerformPlain(h, p, raw, order);
    } else if x :| "#" + x in m && forall v :: !ResolvesTo(m["#" + x], p.replies, v) {
      PerformRefused(h, p, raw, order, x);
    } else {
      var out := PerformResolved(h, p, raw, order);
    }
  }

  lemma KeysOfRefs(m: Args)
    ensures (forall x :: "#" + x !in m) <==> !HasRef(m)
    ensures forall k :: k in m && IsRef(k) ==> k == "#" + Target(k)
    ensures forall x :: IsRef("#" + x)
  {
    forall k | k in m && IsRef(k)
      ensures k == "#" + Target(k)
    {
      TargetMeans(k, Target(k));
    }
    forall x
      ensures IsRef("#" + x)
    {
    }
    if x :| "#" + x in m {
      assert IsRef("#" + x);
    }
  }

  lemma PerformPlain<S>(h: Handler<S>, p: Progress<S>, raw: Json, order: seq<string>)
    requires OrderFor(raw, order) && DecodeCall(raw).Some? && !HasRef(Fields(DecodeCall(raw).value.args))
    ensures var call := DecodeCall(raw).value;
            Handled(h, p, Perform(h, p, raw, order), call.name, call.args, call.id)
  {
  }

  lemma PerformRefused<S>(h: Handler<S>, p: Progress<S>, raw: Json, order: seq<string>, x: string)
    requires OrderFor(raw, order) && Sees(p.results, p.replies) && DecodeCall(raw).Some?
    requires var m := Fields(DecodeCall(raw).value.args);
             "#" + x in m && forall v :: !ResolvesTo(m["#" + x], p.replies, v)
    ensures var call := DecodeCall(raw).value;
            Refused(p, Perform(h, p, raw, order), call.name, call.id)
  {
    hide Perform, Sees, ResolvesTo, ResolveRef;
    var call, q := DecodeCall(raw).value, Perform(h, p, raw, order);
    RefResolves(Fields(call.args)["#" + x], p.results, p.replies);
    BadReferenceIsHarmless(h, p, raw, order, "#" + x);
    var last := q.replies[|p.replies|];
    assert q.replies == p.replies + [last] && last == Failure(call.name, "serverFail", last.description, call.id);
  }

  lemma PerformResolved<S>(h: Handler<S>, p: Progress<S>, raw: Json, order: seq<string>) returns (out: Args)
    requires OrderFor(raw, order) && Sees(p.results, p.replies) && DecodeCall(raw).Some?
    requires HasRef(Fields(DecodeCall(raw).value.args))
    requires var m := Fields(DecodeCall(raw).value.args);
             forall x :: "#" + x in m ==> exists v :: ResolvesTo(m["#" + x], p.replies, v)
    ensures var call := DecodeCall(raw).value;
            && Resolved(out, Fields(call.args), p.replies)
            && Handled(h, p, Perform(h, p, raw, order), call.name, Some(Obj(out)), call.id)
  {
    hide Sees, ResolvesTo, ResolveRef, Resolved, ResolveAlong, Written, Target;
    var args := DecodeCall(raw).value.args;
    var m := Fields(args);
    KeysOfRefs(m);
    forall k | k in m && IsRef(k)
      ensures ResolveRef(m[k], p.results).Ok?
    {
      RefResolves(m[k], p.results, p.replies);
      assert "#" + Target(k) in m;
    }
    ResolvesIff(args, p.results, order);
    WrittenIsResolved(m, p.results, p.replies, order);
    out := Written(m, p.results, order);
  }

  // ---------- one answer per call ----------

  function Labels(replies: seq<Reply>): seq<(string, string)> {
    seq(|replies|, i requires 0 <= i < |replies| => (replies[i].name, replies[i].id))
  }

  function Asked(calls: seq<Json>): seq<(string, string)> {
    if calls == [] then []
    else
      var init, last := calls[..|calls| - 1], DecodeCall(calls[|calls| - 1]);
      if last.None? then Asked(init) else Asked(init) + [(last.value.name, last.value.id)]
  }

  /** Every call that can be read gets exactly one answer, in the order of the calls and under its
      own name and call id; calls that cannot be read get none. */
  lemma {:induction false} OneReplyPerCall<S>(h: Handler<S>, s0: S, calls: seq<Json>, orders: seq<seq<string>>)
    requires OrdersFor(calls, orders)
    ensures Labels(Eval(h, s0, calls, orders).replies) == Asked(calls)
  {
    if calls == [] {
    } else {
      var n := |calls| - 1;
      OneReplyPerCall(h, s0, calls[..n], orders[..n]);
    }
  }

  // ---------- iteration orders ----------

  /** Equal but for the text of a server failure, which names the reference met first. */
  predicate Alike(a: Reply, b: Reply) {
    a == b || (a.Failure? && b.Failure? && a.errType == b.errType == SERVER_FAIL && a.name == b.name && a.id == b.id)
  }

  ghost predicate SameProgress<S>(p: Progress<S>, q: Progress<S>) {
    && p.state == q.state && p.results == q.results && |p.replies| == |q.replies|
    && forall i :: 0 <= i < |p.replies| ==> Alike(p.replies[i], q.replies[i])
  }

  /** No call gives an argument both plainly and by reference. */
  ghost predicate NoCollision(calls: seq<Json>) {
    forall i, x :: 0 <= i < |calls| && DecodeCall(calls[i]).Some? ==>
      !Collide(Fields(DecodeCall(calls[i]).value.args), x)
  }

  lemma PerformOrderFree<S>(h: Handler<S>, p: Progress<S>, q: Progress<S>, raw: Json, a: seq<string>, b: seq<string>)
    requires SameProgress(p, q) && OrderFor(raw, a) && OrderFor(raw, b)
    requires DecodeCall(raw).Some? ==> forall x :: !Collide(Fields(DecodeCall(raw).value.args), x)
    ensures SameProgress(Perform(h, p, raw, a), Perform(h, q, raw, b))
  {
    if DecodeCall(raw).Some? {
      var args := DecodeCall(raw).value.args;
      ResolvesIff(args, p.results, a);
      ResolvesIff(args, p.results, b);
      if AllResolve(Fields(args), p.results) {
        OrderIrrelevant(Fields(args), p.results);
        assert ResolveIn(args, p.results, a) == ResolveIn(args, p.results, b);
      }
    }
  }

  /** A request without such a call has one meaning: for any two iteration orders the state, the
      results and the answers are the same, up to the text of reference failures. */
  lemma {:induction false} BatchOrderFree<S>(h: Handler<S>, s0: S, calls: seq<Json>, a: seq<seq<string>>,
                                             b: seq<seq<string>>)
    requires OrdersFor(calls, a) && OrdersFor(calls, b) && NoCollision(calls)
    ensures SameProgress(Eval(h, s0, calls, a), Eval(h, s0, calls, b))
  {
    if calls == [] {
    } else {
      var n := |calls| - 1;
      assert NoCollision(calls[..n]) by {
        forall i, x | 0 <= i < n && DecodeCall(calls[i]).Some?
          ensures !Collide(Fields(DecodeCall(calls[i]).value.args), x)
        {
        }
      }
      BatchOrderFree(h, s0, calls[..n], a[..n], b[..n]);
      PerformOrderFree(h, Eval(h, s0, calls[..n], a[..n]), Eval(h, s0, calls[..n], b[..n]), calls[n], a[n], b[n]);
    }
  }
}
