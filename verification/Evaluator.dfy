/** The request evaluator of server.go: result references (section 3.7 of RFC 8620) and the loop over
    the method calls of one request. */
module Evaluator {
  import opened Prelude
  import opened Json
  import opened Paths

  type Args = map<string, Json>
  type Results = map<string, Json>

  // ---------- one reference ----------

  datatype Ref = Ref(resultOf: string, path: string)

  /** A string field of the decoded struct: missing and null leave it empty. */
  function StringField(fields: Args, name: string): Option<string> {
    if name !in fields || fields[name].Null? then Some("")
    else if fields[name].Str? then Some(fields[name].s)
    else None
  }

  function DecodeRef(v: Json): Option<Ref> {
    match v
    case Null => Some(Ref("", ""))
    case Obj(fields) =>
      var resultOf, path := StringField(fields, "resultOf"), StringField(fields, "path");
      if resultOf.Some? && path.Some? then Some(Ref(resultOf.value, path.value)) else None
    case _ => None
  }

  /** `v` refers to the call `resultOf` and the path `path`: an object with these two strings, either of
      which may be missing or null for an empty one, or null. */
  predicate RefersTo(v: Json, resultOf: string, path: string) {
    match v
    case Null => resultOf == "" && path == ""
    case Obj(fields) => FieldIs(fields, "resultOf", resultOf) && FieldIs(fields, "path", path)
    case _ => false
  }

  predicate FieldIs(fields: Args, name: string, s: string) {
    if name in fields && fields[name] != Null then fields[name] == Str(s) else s == ""
  }

  lemma RefMeans(v: Json)
    ensures forall resultOf, path :: RefersTo(v, resultOf, path) <==> DecodeRef(v) == Some(Ref(resultOf, path))
  {
  }

  function ResolveRef(v: Json, results: Results): Result<Json> {
    match DecodeRef(v)
    case None => Err("bad result reference")
    case Some(ref) =>
      if ref.resultOf !in results then Err("no result for callId")
      else Resolve(results[ref.resultOf], ref.path)
  }

  // ---------- all references of a call ----------

  predicate IsRef(k: string) {
    k != "" && k[0] == '#'
  }

  /** The argument that key `k` writes. */
  function Target(k: string): string {
    if IsRef(k) then k[1..] else k
  }

  predicate AllResolve(m: Args, results: Results) {
    forall k :: k in m && IsRef(k) ==> ResolveRef(m[k], results).Ok?
  }

  function ValueOf(m: Args, results: Results, k: string): Json
    requires k in m && AllResolve(m, results)
  {
    if IsRef(k) then ResolveRef(m[k], results).value else m[k]
  }

  /** The output map after the keys of `order`. */
  function Written(m: Args, results: Results, order: seq<string>): Args
    requires AllResolve(m, results) && forall k :: k in order ==> k in m
  {
    if order == [] then map[]
    else
      var init, k := order[..|order| - 1], order[|order| - 1];
      Written(m, results, init)[Target(k) := ValueOf(m, results, k)]
  }

  /** Two keys write the same argument: `x` and `#x`. */
  predicate Collide(m: Args, x: string) {
    x in m && !IsRef(x) && "#" + x in m
  }

  ghost predicate Agree(m: Args, results: Results)
    requires AllResolve(m, results)
  {
    forall x :: Collide(m, x) ==> ValueOf(m, results, x) == ValueOf(m, results, "#" + x)
  }

  /** Two keys write an argument: its plain name and its name after a `#`. */
  lemma TargetMeans(k: string, x: string)
    ensures Target(k) == x <==> (k == x && (x == "" || x[0] != '#')) || k == "#" + x
    ensures IsRef(k) ==> k == "#" + Target(k)
  {
    if IsRef(k) {
      assert k == [k[0]] + k[1..];
    }
  }

  /** Without disagreement every key finds its own value in the output, whatever the order. */
  lemma {:induction false} WrittenMeaning(m: Args, results: Results, order: seq<string>)
    requires AllResolve(m, results) && Agree(m, results) && forall k :: k in order ==> k in m
    ensures var out := Written(m, results, order);
            && (forall k :: k in order ==> Target(k) in out && out[Target(k)] == ValueOf(m, results, k))
            && (forall x :: x in out ==> exists k :: k in order && Target(k) == x)
  {
    if order == [] {
    } else {
      var init, k := order[..|order| - 1], order[|order| - 1];
      assert order == init + [k];
      WrittenMeaning(m, results, init);
      forall l | l in init && Target(l) == Target(k)
        ensures ValueOf(m, results, l) == ValueOf(m, results, k)
      {
        if l != k {
          TargetMeans(l, Target(k));
          TargetMeans(k, Target(k));
          assert Collide(m, if IsRef(k) then l else k);
        }
      }
      forall x | x in Written(m, results, order)
        ensures exists l :: l in order && Target(l) == x
      {
        if x in Written(m, results, init) {
          var l :| l in init && Target(l) == x;
          assert l in order;
        } else {
          assert k in order;
        }
      }
    }
  }

  /** Even with disagreeing keys, every argument is the value of one of its keys. */
  lemma {:induction false} WrittenFrom(m: Args, results: Results, order: seq<string>)
    requires AllResolve(m, results) && forall k :: k in order ==> k in m
    ensures var out := Written(m, results, order);
            && (forall k :: k in order ==> Target(k) in out)
            && (forall x :: x in out ==> exists k :: k in order && Target(k) == x && out[x] == ValueOf(m, results, k))
  {
    if order == [] {
    } else {
      hide Target;
      var init, k := order[..|order| - 1], order[|order| - 1];
      assert order == init + [k];
      WrittenFrom(m, results, init);
      var before, out := Written(m, results, init), Written(m, results, order);
      forall x | x in out
        ensures exists l :: l in order && Target(l) == x && out[x] == ValueOf(m, results, l)
      {
        if x == Target(k) {
          assert k in order;
        } else {
          var l :| l in init && Target(l) == x && before[x] == ValueOf(m, results, l);
          assert l in order;
        }
      }
    }
  }

  lemma {:induction false} OrderExists(keys: set<string>) returns (order: seq<string>)
    ensures IsOrder(order, keys)
  {
    if keys == {} {
      order := [];
    } else {
      var k :| k in keys;
      var rest := OrderExists(keys - {k});
      OrderSnoc(rest, keys - {k}, k);
      assert keys - {k} + {k} == keys;
      order := rest + [k];
    }
  }

  /** An order that writes `k` last. */
  lemma LastWins(m: Args, results: Results, k: string) returns (order: seq<string>)
    requires AllResolve(m, results) && k in m
    ensures IsOrder(order, m.Keys) && forall l :: l in order ==> l in m
    ensures Target(k) in Written(m, results, order) && Written(m, results, order)[Target(k)] == ValueOf(m, results, k)
  {
    var rest := OrderExists(m.Keys - {k});
    OrderSnoc(rest, m.Keys - {k}, k);
    assert m.Keys - {k} + {k} == m.Keys;
    order := rest + [k];
    assert order[..|rest|] == rest;
    forall l | l in order
      ensures l in m
    {
      assert l in Elems(order);
    }
  }

  ghost predicate SameForAllOrders(m: Args, results: Results)
    requires AllResolve(m, results)
  {
    forall a, b :: IsOrder(a, m.Keys) && IsOrder(b, m.Keys) && InArgs(m, a) && InArgs(m, b) ==>
      Written(m, results, a) == Written(m, results, b)
  }

  predicate InArgs(m: Args, order: seq<string>) {
    forall k :: k in order ==> k in m
  }

  /** The resolved arguments do not depend on the iteration order exactly if no argument is given
      both plainly and by a reference with another value. */
  lemma OrderIrrelevant(m: Args, results: Results)
    requires AllResolve(m, results)
    ensures Agree(m, results) <==> SameForAllOrders(m, results)
  {
    if Agree(m, results) {
      forall a, b | IsOrder(a, m.Keys) && IsOrder(b, m.Keys) && InArgs(m, a) && InArgs(m, b)
        ensures Written(m, results, a) == Written(m, results, b)
      {
        WrittenMeaning(m, results, a);
        WrittenMeaning(m, results, b);
        SameWritten(m, results, a, b);
        SameWritten(m, results, b, a);
      }
    } else {
      var x :| Collide(m, x) && ValueOf(m, results, x) != ValueOf(m, results, "#" + x);
      var a := LastWins(m, results, x);
      var b := LastWins(m, results, "#" + x);
      assert Target("#" + x) == x == Target(x);
      assert InArgs(m, a) && InArgs(m, b);
    }
  }

  lemma SameWritten(m: Args, results: Results, a: seq<string>, b: seq<string>)
    requires AllResolve(m, results) && Agree(m, results) && IsOrder(a, m.Keys) && IsOrder(b, m.Keys) && InArgs(m, a)
    requires InArgs(m, b)
    ensures forall x :: x in Written(m, results, a) ==>
              x in Written(m, results, b) && Written(m, results, b)[x] == Written(m, results, a)[x]
  {
    WrittenMeaning(m, results, a);
    WrittenMeaning(m, results, b);
    forall x | x in Written(m, results, a)
      ensures x in Written(m, results, b) && Written(m, results, b)[x] == Written(m, results, a)[x]
    {
      var k :| k in a && Target(k) == x;
      assert k in Elems(a) && k in Elems(b);
    }
  }

  predicate HasRef(m: Args) {
    exists k :: k in m && IsRef(k)
  }

  /** The loop over the keys in the order `order`: it stops at the first reference that fails. */
  function ResolveAlong(m: Args, results: Results, order: seq<string>): Result<Args>
    requires InArgs(m, order)
  {
    if order == [] then Ok(map[])
    else
      var init, k := order[..|order| - 1], order[|order| - 1];
      match ResolveAlong(m, results, init)
      case Err(e) => Err(e)
      case Ok(out) =>
        if !IsRef(k) then Ok(out[k := m[k]])
        else
          match ResolveRef(m[k], results)
          case Err(e) => Err(e)
          case Ok(v) => Ok(out[k[1..] := v])
  }

  lemma {:induction false} AlongMeaning(m: Args, results: Results, order: seq<string>)
    requires InArgs(m, order)
    ensures ResolveAlong(m, results, order).Ok? <==>
            forall k :: k in order && IsRef(k) ==> ResolveRef(m[k], results).Ok?
    ensures AllResolve(m, results) ==> ResolveAlong(m, results, order) == Ok(Written(m, results, order))
  {
    if order == [] {
    } else {
      var init, k := order[..|order| - 1], order[|order| - 1];
      assert order == init + [k];
      AlongMeaning(m, results, init);
    }
  }

  /** The first failure is the outcome, however the iteration would have gone on. */
  lemma {:induction false} FailureStays(m: Args, results: Results, order: seq<string>, more: seq<string>)
    requires InArgs(m, order) && InArgs(m, more) && ResolveAlong(m, results, order).Err?
    ensures ResolveAlong(m, results, order + more) == ResolveAlong(m, results, order)
  {
    if more == [] {
      assert order + more == order;
    } else {
      var init := more[..|more| - 1];
      FailureStays(m, results, order, init);
      assert (order + more)[..|order + more| - 1] == order + init;
    }
  }

  /** The whole of `resolveRefs` for one iteration order. Arguments that are no object, or hold no
      reference, pass through. */
  function ResolveIn(args: Option<Json>, results: Results, order: seq<string>): Result<Option<Json>>
    requires args.Some? && args.value.Obj? ==> InArgs(args.value.fields, order)
  {
    match args
    case Some(Obj(m)) =>
      if HasRef(m) then
        match ResolveAlong(m, results, order)
        case Err(e) => Err(e)
        case Ok(out) => Ok(Some(Obj(out)))
      else Ok(args)
    case _ => Ok(args)
  }

  /** The arguments to iterate over; none if there is nothing to resolve. */
  function Fields(args: Option<Json>): Args {
    match args
    case Some(Obj(m)) => m
    case _ => map[]
  }

  predicate Order(args: Option<Json>, order: seq<string>) {
    IsOrder(order, Fields(args).Keys) && InArgs(Fields(args), order)
  }

  /** `resolveRefs` succeeds exactly if every reference resolves, in every iteration order. */
  lemma ResolvesIff(args: Option<Json>, results: Results, order: seq<string>)
    requires Order(args, order)
    ensures ResolveIn(args, results, order).Ok? <==> AllResolve(Fields(args), results)
    ensures AllResolve(Fields(args), results) && HasRef(Fields(args)) ==>
              ResolveIn(args, results, order) == Ok(Some(Obj(Written(Fields(args), results, order))))
  {
    AlongMeaning(Fields(args), results, order);
    forall k | k in Fields(args)
      ensures k in order
    {
      assert k in Elems(order);
    }
  }

  /** `r` is what `resolveRefs` gives in some iteration order. */
  ghost predicate IsResolution(args: Option<Json>, results: Results, r: Result<Option<Json>>) {
    exists order :: Order(args, order) && r == ResolveIn(args, results, order)
  }

  /** It succeeds exactly if every reference resolves, with the output of the order that Go took. */
  method ResolveRefs(args: Option<Json>, results: Results) returns (r: Result<Option<Json>>)
    ensures IsResolution(args, results, r)
    ensures r.Ok? <==> AllResolve(Fields(args), results)
    ensures r.Ok? && !HasRef(Fields(args)) ==> r.value == args
  {
    ghost var order := OrderExists(Fields(args).Keys);
    OrderedInArgs(Fields(args), order);
    ResolvesIff(args, results, order);
    if args.None? || !args.value.Obj? {
      return Ok(args);
    }
    var m := args.value.fields;
    var hasRef := exists k :: k in m && IsRef(k);
    if !hasRef {
      return Ok(args);
    }
    var out;
    out, order := ResolveKeys(m, results);
    assert Order(args, order);
    ResolvesIff(args, results, order);
    if out.Err? {
      return Err(out.error);
    }
    return Ok(Some(Obj(out.value)));
  }

  /** The loop over the keys. */
  method ResolveKeys(m: Args, results: Results) returns (r: Result<Args>, ghost order: seq<string>)
    ensures IsOrder(order, m.Keys) && InArgs(m, order) && r == ResolveAlong(m, results, order)
    ensures r.Ok? <==> AllResolve(m, results)
  {
    hide IsOrder;
    var out: Args := map[];
    var rest := m.Keys;
    order := [];
    OrderNone<string>();
    assert m.Keys - rest == {};
    while rest != {}
      invariant rest <= m.Keys && IsOrder(order, m.Keys - rest) && InArgs(m, order)
      invariant ResolveAlong(m, results, order) == Ok(out)
      invariant forall k :: k in m.Keys - rest && IsRef(k) ==> ResolveRef(m[k], results).Ok?
    {
      var k :| k in rest;
      ghost var sofar := order;
      OrderSnoc(order, m.Keys - rest, k);
      assert (m.Keys - rest) + {k} == m.Keys - (rest - {k});
      order := sofar + [k];
      rest := rest - {k};
      assert order[..|order| - 1] == sofar;
      if !IsRef(k) {
        out := out[k := m[k]];
      } else {
        var resolved := ResolveRef(m[k], results);
        if resolved.Err? {
          order := Complete(m, results, order, rest);
          return Err(resolved.error), order;
        }
        out := out[k[1..] := resolved.value];
      }
    }
    assert m.Keys - rest == m.Keys;
    return Ok(out), order;
  }

  /** A failed iteration, continued over the keys that Go did not visit any more. */
  lemma Complete(m: Args, results: Results, order: seq<string>, rest: set<string>) returns (full: seq<string>)
    requires rest <= m.Keys && IsOrder(order, m.Keys - rest) && InArgs(m, order)
    requires ResolveAlong(m, results, order).Err?
    ensures IsOrder(full, m.Keys) && InArgs(m, full)
    ensures ResolveAlong(m, results, full) == ResolveAlong(m, results, order)
  {
    var more := OrderRest(order, m.Keys - rest, rest);
    assert m.Keys - rest + rest == m.Keys;
    full := order + more;
    OrderedInArgs(m, full);
    assert forall k :: k in more ==> k in full;
    FailureStays(m, results, order, more);
  }

  lemma OrderedInArgs(m: Args, order: seq<string>)
    requires IsOrder(order, m.Keys)
    ensures InArgs(m, order)
    ensures forall k :: k in m <==> k in order
  {
    assert forall k :: k in order <==> k in Elems(order);
  }

  lemma {:induction false} OrderRest(order: seq<string>, done: set<string>, rest: set<string>)
    returns (more: seq<string>)
    requires IsOrder(order, done) && done !! rest
    ensures IsOrder(order + more, done + rest)
    decreases rest
  {
    if rest == {} {
      more := [];
      assert order + [] == order && done + rest == done;
    } else {
      var k :| k in rest;
      OrderSnoc(order, done, k);
      var tail := OrderRest(order + [k], done + {k}, rest - {k});
      more := [k] + tail;
      assert order + [k] + tail == order + more && done + {k} + (rest - {k}) == done + rest;
    }
  }
}
