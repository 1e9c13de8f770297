/** EmailSubmission/set (submission.go): drafts are taken from `pending`, given to the submit hook and
    recorded.  The hook's verdict and the clock readings are part of the request entry. */
module SubmissionHandlers {
  import opened Prelude
  import opened Text
  import opened Journal
  import opened Persistence
  import opened Stores

  datatype SubmitItem = SubmitItem(emailId: ID, accepted: bool, idTime: string, sendTime: string)

  datatype SubmissionRequest = SubmissionRequest(configured: bool, create: map<ID, SubmitItem>)

  datatype SubmissionResponse = SubmissionResponse(
    oldState: string, newState: string, created: map<ID, string>, notCreated: set<ID>)

  /** The emails the create entries of `keys` name. */
  function Named(create: map<ID, SubmitItem>, keys: set<ID>): set<ID> {
    set k | k in keys && k in create :: create[k].emailId
  }

  function SubmissionId(key: ID, item: SubmitItem): string {
    "sub-" + key + "-" + item.idTime
  }

  /** Two submissions have different ids unless they have the same key and were made in the same second;
      the times have one length (RFC 3339 in UTC, without fractions). */
  lemma SubmissionIdsClash(k: ID, l: ID, a: SubmitItem, b: SubmitItem)
    requires |a.idTime| == |b.idTime|
    ensures SubmissionId(k, a) == SubmissionId(l, b) <==> k == l && a.idTime == b.idTime
  {
    var x, y := SubmissionId(k, a), SubmissionId(l, b);
    assert x[4..|x| - |a.idTime| - 1] == k && x[|x| - |a.idTime|..] == a.idTime;
    assert y[4..|y| - |b.idTime| - 1] == l && y[|y| - |b.idTime|..] == b.idTime;
  }

  /** Which entries reach the hook, given the ids that are stored and those that are drafts: all that
      name a stored email, and of those that name a mere draft exactly one. */
  ghost predicate RightCalls(create: map<ID, SubmitItem>, done: set<ID>, stored: set<ID>, drafts: set<ID>,
                             called: set<ID>) {
    && (forall k :: k in called ==> k in done && k in create && create[k].emailId in stored + drafts)
    && (forall k :: k in done && k in create && create[k].emailId in stored ==> k in called)
    && (forall k :: k in done && k in create && create[k].emailId in drafts ==>
          exists c :: c in called && create[c].emailId == create[k].emailId)
    && (forall k, c :: k in called && c in called && create[k].emailId == create[c].emailId ==>
          k == c || create[k].emailId in stored)
  }

  /** One more entry: it reaches the hook if its email is stored, or a draft that none took yet. */
  lemma RightCallsNext(create: map<ID, SubmitItem>, done: set<ID>, stored: set<ID>, drafts: set<ID>, called: set<ID>,
                       k: ID)
    requires RightCalls(create, done, stored, drafts, called) && k in create && k !in done
    ensures var id := create[k].emailId;
            RightCalls(create, done + {k}, stored, drafts,
                       if id in stored || id in drafts - Named(create, done) then called + {k} else called)
  {
    var id := create[k].emailId;
    if id in stored || id in drafts - Named(create, done) {
    } else if id in drafts {
      var n :| n in done && n in create && create[n].emailId == id;
    }
  }

  /** The body of the create loop once a hook is configured. */
  method SubmitOne(s: Store, key: ID, item: SubmitItem) returns (called: bool, sub: Option<Submission>)
    modifies s`pending, s`submissions, s`submissionState, s`delta
    ensures s.pending == old(s.pending) - {item.emailId}
    ensures called <==> item.emailId in s.msgs || item.emailId in old(s.pending)
    ensures sub.Some? <==> called && item.accepted
    ensures sub.Some? ==> sub.value.id == "sub-" + key + "-" + item.idTime && sub.value.sendAt == item.sendTime
    ensures sub.Some? ==> var msg := if item.emailId in old(s.pending) then old(s.pending)[item.emailId]
                                     else s.msgs[item.emailId];
                          sub.value.emailId == msg.meta.id && sub.value.threadId == msg.meta.threadId
    ensures s.submissions == old(s.submissions) + (if sub.Some? then [sub.value] else [])
    ensures s.submissionState == old(s.submissionState) + (if sub.Some? then 1 else 0)
    ensures old(s.DeltaSynced()) ==> s.DeltaSynced()
  {
    var msg := s.TakePending(item.emailId);
    if msg.None? {
      msg := s.Get(item.emailId);
    }
    if msg.None? {
      return false, None;
    }
    if !item.accepted {
      return true, None;
    }
    var rec := Submission(SubmissionId(key, item), msg.value.meta.id, msg.value.meta.threadId, item.sendTime);
    s.AddSubmission(rec);
    return true, Some(rec);
  }

  /** The outcome for the keys of `done`: each is in one of created and notCreated. */
  predicate Sorted(create: map<ID, SubmitItem>, done: set<ID>, called: set<ID>, created: map<ID, string>,
                   notCreated: set<ID>) {
    && called <= done <= create.Keys
    && created.Keys == (set k | k in called && create[k].accepted)
    && notCreated == done - created.Keys
    && forall k :: k in created ==> created[k] == SubmissionId(k, create[k])
  }

  lemma SortedNext(create: map<ID, SubmitItem>, done: set<ID>, called: set<ID>, created: map<ID, string>,
                   notCreated: set<ID>,
                   k: ID, reached: bool)
    requires Sorted(create, done, called, created, notCreated) && k in create && k !in done
    ensures var ok := reached && create[k].accepted;
            && k !in created
            && Sorted(create, done + {k}, if reached then called + {k} else called,
                      if ok then created[k := SubmissionId(k, create[k])] else created,
                      if ok then notCreated else notCreated + {k})
  {
  }

  /** The hook calls and the drafts left after the entries of `done`. */
  ghost predicate Drained(req: SubmissionRequest, done: set<ID>, stored: set<ID>, drafts: map<ID, StoredEmail>,
                          called: set<ID>, pending: map<ID, StoredEmail>) {
    if req.configured then
      RightCalls(req.create, done, stored, drafts.Keys, called) && pending == drafts - Named(req.create, done)
    else
      called == {} && pending == drafts
  }

  /** What is recorded for an entry: ids of the draft if there was one, or of the stored email. */
  predicate Records(stored: map<ID, StoredEmail>, drafts: map<ID, StoredEmail>, key: ID, item: SubmitItem,
                    sub: Submission) {
    && sub.id == SubmissionId(key, item) && sub.sendAt == item.sendTime
    && ((item.emailId in drafts && IsOf(sub, drafts[item.emailId])) ||
        (item.emailId in stored && IsOf(sub, stored[item.emailId])))
  }

  predicate IsOf(sub: Submission, m: StoredEmail) {
    sub.emailId == m.meta.id && sub.threadId == m.meta.threadId
  }

  /** The new submissions are the records of the created keys, one each, in some order. */
  ghost predicate Recorded(stored: map<ID, StoredEmail>, drafts: map<ID, StoredEmail>, create: map<ID, SubmitItem>,
                           keys: set<ID>, news: seq<Submission>) {
    exists order :: IsOrder(order, keys) && RecordsInOrder(stored, drafts, create, order, news)
  }

  predicate RecordsInOrder(stored: map<ID, StoredEmail>, drafts: map<ID, StoredEmail>, create: map<ID, SubmitItem>,
                           order: seq<ID>, news: seq<Submission>) {
    |order| == |news| &&
    forall i :: 0 <= i < |news| ==> order[i] in create && Records(stored, drafts, order[i], create[order[i]], news[i])
  }

  lemma RecordedNext(stored: map<ID, StoredEmail>, drafts: map<ID, StoredEmail>, create: map<ID, SubmitItem>,
                     keys: set<ID>, news: seq<Submission>, k: ID, sub: Submission)
    requires Recorded(stored, drafts, create, keys, news) && k !in keys && k in create
    requires Records(stored, drafts, k, create[k], sub)
    ensures Recorded(stored, drafts, create, keys + {k}, news + [sub])
  {
    hide Records, IsOrder;
    var order :| IsOrder(order, keys) && RecordsInOrder(stored, drafts, create, order, news);
    OrderSnoc(order, keys, k);
    assert RecordsInOrder(stored, drafts, create, order + [k], news + [sub]);
  }

  lemma RecordedSize(stored: map<ID, StoredEmail>, drafts: map<ID, StoredEmail>, create: map<ID, SubmitItem>,
                     keys: set<ID>, news: seq<Submission>)
    requires Recorded(stored, drafts, create, keys, news)
    ensures |news| == |keys|
  {
    var order :| IsOrder(order, keys) && RecordsInOrder(stored, drafts, create, order, news);
    OrderSize(order, keys);
  }

  lemma NothingRecorded(stored: map<ID, StoredEmail>, drafts: map<ID, StoredEmail>, create: map<ID, SubmitItem>)
    ensures Recorded(stored, drafts, create, {}, [])
  {
    OrderNone<ID>();
    assert RecordsInOrder(stored, drafts, create, [], []);
  }

  /** The body of the create loop. */
  method SubmitKey(s: Store, req: SubmissionRequest, key: ID, ghost done: set<ID>, ghost drafts: map<ID, StoredEmail>,
                   ghost called: set<ID>)
    returns (reached: bool, sub: Option<Submission>)
    requires key in req.create && key !in done && Drained(req, done, s.msgs.Keys, drafts, called, s.pending)
    modifies s`pending, s`submissions, s`submissionState, s`delta
    ensures Drained(req, done + {key}, s.msgs.Keys, drafts, if reached then called + {key} else called, s.pending)
    ensures sub.Some? <==> reached && req.create[key].accepted
    ensures sub.Some? ==> sub.value.id == SubmissionId(key, req.create[key])
    ensures sub.Some? ==> Records(s.msgs, drafts, key, req.create[key], sub.value)
    ensures s.submissions == old(s.submissions) + (if sub.Some? then [sub.value] else [])
    ensures s.submissionState == old(s.submissionState) + (if sub.Some? then 1 else 0)
    ensures old(s.DeltaSynced()) ==> s.DeltaSynced()
  {
    hide RightCalls, Named, Store.DeltaSynced;
    reached, sub := false, None;
    if req.configured {
      NamedNext(req.create, done, key);
      RightCallsNext(req.create, done, s.msgs.Keys, drafts.Keys, called, key);
      reached, sub := SubmitOne(s, key, req.create[key]);
    }
  }

  /** Where the loop stands after the entries of `done`, if it began with `drafts`, the submissions
      `subs` and the counter `base`. */
  ghost predicate Progress(s: Store, req: SubmissionRequest, done: set<ID>, drafts: map<ID, StoredEmail>,
                           subs: seq<Submission>, base: int,
                           called: set<ID>, created: map<ID, string>, notCreated: set<ID>)
    reads s
  {
    && Sorted(req.create, done, called, created, notCreated)
    && Drained(req, done, s.msgs.Keys, drafts, called, s.pending)
    && subs <= s.submissions
    && Recorded(s.msgs, drafts, req.create, created.Keys, s.submissions[|subs|..])
    && s.submissionState == base + |created|
  }

  /** The body of the create loop and its bookkeeping. */
  method SubmitStep(s: Store, req: SubmissionRequest, key: ID, called0: set<ID>, created0: map<ID, string>,
                    notCreated0: set<ID>,
                    ghost done: set<ID>, ghost drafts: map<ID, StoredEmail>, ghost subs: seq<Submission>,
                    ghost base: int)
    returns (called: set<ID>, created: map<ID, string>, notCreated: set<ID>)
    requires key in req.create && key !in done
    requires Progress(s, req, done, drafts, subs, base, called0, created0, notCreated0)
    modifies s`pending, s`submissions, s`submissionState, s`delta
    ensures Progress(s, req, done + {key}, drafts, subs, base, called, created, notCreated)
    ensures old(s.DeltaSynced()) ==> s.DeltaSynced()
  {
    hide Drained, Sorted, Recorded, Records, SubmissionId, Store.DeltaSynced;
    called, created, notCreated := called0, created0, notCreated0;
    ghost var news := s.submissions[|subs|..];
    var reached, sub := SubmitKey(s, req, key, done, drafts, called);
    SortedNext(req.create, done, called, created, notCreated, key, reached);
    if reached {
      called := called + {key};
    }
    if sub.Some? {
      RecordedNext(s.msgs, drafts, req.create, created.Keys, news, key, sub.value);
      assert s.submissions[|subs|..] == news + [sub.value];
      assert created[key := sub.value.id].Keys == created.Keys + {key};
      created := created[key := sub.value.id];
    } else {
      assert s.submissions[|subs|..] == news;
      notCreated := notCreated + {key};
    }
  }

  /** Every key lands in exactly one of created and notCreated; the counter and the list grow by the
      accepted submissions; each draft that is not also stored reaches the hook once, however many
      entries name it and in whatever order, and is no longer pending afterwards, accepted or not.
      The response reports the new state as the old one too. */
  method HandleEmailSubmissionSet(s: Store, req: SubmissionRequest) returns (r: SubmissionResponse, called: set<ID>)
    modifies s`pending, s`submissions, s`submissionState, s`delta
    ensures old(s.DeltaSynced()) ==> s.DeltaSynced()
    ensures Sorted(req.create, req.create.Keys, called, r.created, r.notCreated)
    ensures Drained(req, req.create.Keys, s.msgs.Keys, old(s.pending), called, s.pending)
    ensures |s.submissions| == |old(s.submissions)| + |r.created| && old(s.submissions) <= s.submissions
    ensures Recorded(s.msgs, old(s.pending), req.create, r.created.Keys, s.submissions[|old(s.submissions)|..])
    ensures s.submissionState == old(s.submissionState) + |r.created|
    ensures r.oldState == r.newState == FormatInt(s.submissionState)
  {
    hide Drained, Sorted, Recorded, FormatInt, Store.DeltaSynced;
    var created: map<ID, string> := map[];
    var notCreated: set<ID> := {};
    called := {};
    ghost var drafts, subs, base := s.pending, s.submissions, s.submissionState;
    var rest := req.create.Keys;
    NoProgress(s, req);
    assert req.create.Keys - rest == {};
    while rest != {}
      invariant rest <= req.create.Keys && (old(s.DeltaSynced()) ==> s.DeltaSynced())
      invariant Progress(s, req, req.create.Keys - rest, drafts, subs, base, called, created, notCreated)
    {
      hide Progress;
      var key :| key in rest;
      ghost var done := req.create.Keys - rest;
      assert req.create.Keys - (rest - {key}) == done + {key};
      called, created, notCreated := SubmitStep(s, req, key, called, created, notCreated, done, drafts, subs, base);
      rest := rest - {key};
    }
    assert req.create.Keys - rest == req.create.Keys;
    RecordedSize(s.msgs, drafts, req.create, created.Keys, s.submissions[|subs|..]);
    r := SubmissionResponse(FormatInt(s.submissionState), FormatInt(s.submissionState), created, notCreated);
  }

  lemma NoProgress(s: Store, req: SubmissionRequest)
    ensures Progress(s, req, {}, s.pending, s.submissions, s.submissionState, {}, map[], {})
  {
    hide Recorded;
    NothingRecorded(s.msgs, s.pending, req.create);
    var created: map<ID, string> := map[];
    assert s.submissions[|s.submissions|..] == [] && created.Keys == {};
  }

  lemma NamedNext(create: map<ID, SubmitItem>, done: set<ID>, k: ID)
    requires k in create
    ensures Named(create, done + {k}) == Named(create, done) + {create[k].emailId}
  {
  }

  /** A draft that is not stored reaches the hook exactly once if an entry names it, else never. */
  lemma DraftSubmittedOnce(create: map<ID, SubmitItem>, stored: set<ID>, drafts: set<ID>, called: set<ID>, id: ID)
    requires RightCalls(create, create.Keys, stored, drafts, called)
    requires id in drafts && id !in stored
    ensures |set k | k in called && create[k].emailId == id| ==
            if exists k :: k in create && create[k].emailId == id then 1 else 0
  {
    var calls := set k | k in called && create[k].emailId == id;
    if k :| k in create && create[k].emailId == id {
      var c :| c in called && create[c].emailId == id;
      assert calls == {c};
    } else {
      assert calls == {};
    }
  }

  // ---------- runs of requests ----------

  /** What happens to the drafts: one is put, a request is answered while `stored` are the ids of the
      stored emails, or the store is reopened. */
  datatype Turn =
    | Drafted(id: ID)
    | Requested(req: SubmissionRequest, stored: set<ID>, called: set<ID>)
    | Reopened

  function DraftsAfter(drafts: set<ID>, turn: Turn): set<ID> {
    match turn
    case Drafted(id) => drafts + {id}
    case Requested(req, _, _) => if req.configured then drafts - Named(req.create, req.create.Keys) else drafts
    case Reopened => {}
  }

  ghost predicate Possible(drafts: set<ID>, turn: Turn) {
    turn.Requested? ==>
      if turn.req.configured then RightCalls(turn.req.create, turn.req.create.Keys, turn.stored, drafts, turn.called)
      else turn.called == {}
  }

  function DraftsAfterAll(drafts: set<ID>, turns: seq<Turn>): set<ID> {
    if turns == [] then drafts else DraftsAfter(DraftsAfterAll(drafts, turns[..|turns| - 1]), turns[|turns| - 1])
  }

  ghost predicate IsHistory(drafts: set<ID>, turns: seq<Turn>) {
    turns == [] ||
    (&& IsHistory(drafts, turns[..|turns| - 1])
     && Possible(DraftsAfterAll(drafts, turns[..|turns| - 1]), turns[|turns| - 1]))
  }

  /** How often the hook was called for an entry that names `id`. */
  function HookCalls(turns: seq<Turn>, id: ID): nat {
    if turns == [] then 0
    else
      var turn := turns[|turns| - 1];
      HookCalls(turns[..|turns| - 1], id) +
      if turn.Requested? then
        |set k | k in turn.called && k in turn.req.create && turn.req.create[k].emailId == id|
      else 0
  }

  function Puts(turns: seq<Turn>, id: ID): nat {
    if turns == [] then 0
    else Puts(turns[..|turns| - 1], id) + if turns[|turns| - 1] == Drafted(id) then 1 else 0
  }

  lemma OneRequest(drafts: set<ID>, turn: Turn, id: ID)
    requires Possible(drafts, turn) && turn.Requested? && id !in turn.stored
    ensures |set k | k in turn.called && k in turn.req.create && turn.req.create[k].emailId == id| ==
            (if id in drafts then 1 else 0) - (if id in DraftsAfter(drafts, turn) then 1 else 0)
  {
    var create := turn.req.create;
    var calls := set k | k in turn.called && k in create && create[k].emailId == id;
    if turn.req.configured && id in drafts {
      DraftSubmittedOnce(create, turn.stored, drafts, turn.called, id);
      assert calls == set k | k in turn.called && create[k].emailId == id;
    } else {
      assert calls == {};
    }
  }

  /** Over every run of drafts, requests and restarts, an email that is not stored reaches the hook at
      most once for each time it was put among the drafts. */
  lemma {:induction false} AtMostOncePerDraft(drafts: set<ID>, turns: seq<Turn>, id: ID)
    requires IsHistory(drafts, turns) && forall t :: t in turns && t.Requested? ==> id !in t.stored
    ensures HookCalls(turns, id) + (if id in DraftsAfterAll(drafts, turns) then 1 else 0) <=
            Puts(turns, id) + if id in drafts then 1 else 0
  {
    hide Possible;
    if turns == [] {
    } else {
      var init, turn := turns[..|turns| - 1], turns[|turns| - 1];
      AtMostOncePerDraft(drafts, init, id);
      if turn.Requested? {
        OneRequest(DraftsAfterAll(drafts, init), turn, id);
      }
    }
  }

  lemma HistorySnoc(drafts: set<ID>, turns: seq<Turn>, turn: Turn)
    requires IsHistory(drafts, turns) && Possible(DraftsAfterAll(drafts, turns), turn)
    ensures IsHistory(drafts, turns + [turn])
    ensures DraftsAfterAll(drafts, turns + [turn]) == DraftsAfter(DraftsAfterAll(drafts, turns), turn)
  {
    assert (turns + [turn])[..|turns|] == turns;
  }

  datatype Input = Draft(m: StoredEmail) | Submit(req: SubmissionRequest) | Reopen

  /** The turn is that of the input, while `stored` are the ids of the stored emails and the entries of
      `called` reached the hook. */
  predicate Tells(turn: Turn, input: Input, stored: set<ID>, called: set<ID>) {
    match input
    case Draft(m) => turn == Drafted(m.meta.id) && called == {}
    case Submit(req) => turn == Requested(req, stored, called)
    case Reopen => turn == Reopened && called == {}
  }

  predicate TellsAll(turns: seq<Turn>, inputs: seq<Input>, stored: set<ID>, calls: seq<set<ID>>) {
    |turns| == |inputs| == |calls| && forall i :: 0 <= i < |inputs| ==> Tells(turns[i], inputs[i], stored, calls[i])
  }

  /** How often the inputs put a draft with the id. */
  function DraftInputs(inputs: seq<Input>, id: ID): nat {
    if inputs == [] then 0
    else
      var input := inputs[|inputs| - 1];
      DraftInputs(inputs[..|inputs| - 1], id) + if input.Draft? && input.m.meta.id == id then 1 else 0
  }

  /** How often an entry that names the id reached the hook. */
  function Reached(inputs: seq<Input>, calls: seq<set<ID>>, id: ID): nat
    requires |inputs| == |calls|
  {
    if inputs == [] then 0
    else
      var n := |inputs| - 1;
      Reached(inputs[..n], calls[..n], id) +
      if inputs[n].Submit? then
        |set k | k in calls[n] && k in inputs[n].req.create && inputs[n].req.create[k].emailId == id|
      else 0
  }

  lemma {:induction false} CountsAgree(turns: seq<Turn>, inputs: seq<Input>, stored: set<ID>, calls: seq<set<ID>>,
                                       id: ID)
    requires TellsAll(turns, inputs, stored, calls)
    ensures HookCalls(turns, id) == Reached(inputs, calls, id) && Puts(turns, id) == DraftInputs(inputs, id)
  {
    if inputs == [] {
    } else {
      var n := |inputs| - 1;
      CountsAgree(turns[..n], inputs[..n], stored, calls[..n], id);
      assert Tells(turns[n], inputs[n], stored, calls[n]);
    }
  }

  /** The entry `k` of the i-th input names the id and reached the hook. */
  predicate ReachedBy(inputs: seq<Input>, calls: seq<set<ID>>, id: ID, i: int, k: ID) {
    && 0 <= i < |inputs| && i < |calls| && inputs[i].Submit?
    && k in calls[i] && k in inputs[i].req.create && inputs[i].req.create[k].emailId == id
  }

  predicate PutBy(inputs: seq<Input>, id: ID, i: int) {
    0 <= i < |inputs| && inputs[i].Draft? && inputs[i].m.meta.id == id
  }

  /** At most one input puts the draft. */
  ghost predicate PutOnce(inputs: seq<Input>, id: ID) {
    forall i, j :: PutBy(inputs, id, i) && PutBy(inputs, id, j) ==> i == j
  }

  /** At most one entry of one input that names the id reaches the hook. */
  ghost predicate ReachedOnce(inputs: seq<Input>, calls: seq<set<ID>>, id: ID) {
    forall i, k, j, l :: ReachedBy(inputs, calls, id, i, k) && ReachedBy(inputs, calls, id, j, l) ==> i == j && k == l
  }

  lemma {:induction false} PutsCounted(inputs: seq<Input>, id: ID)
    ensures DraftInputs(inputs, id) == 0 <==> forall i :: !PutBy(inputs, id, i)
    ensures PutOnce(inputs, id) ==> DraftInputs(inputs, id) <= 1
  {
    if inputs == [] {
    } else {
      var n := |inputs| - 1;
      PutsCounted(inputs[..n], id);
      assert forall i :: i < n ==> (PutBy(inputs, id, i) <==> PutBy(inputs[..n], id, i));
      if PutBy(inputs, id, n) && PutOnce(inputs, id) {
        assert forall i :: !PutBy(inputs[..n], id, i);
      }
    }
  }

  lemma {:induction false} ReachesCounted(inputs: seq<Input>, calls: seq<set<ID>>, id: ID)
    requires |inputs| == |calls|
    ensures Reached(inputs, calls, id) == 0 <==> forall i, k :: !ReachedBy(inputs, calls, id, i, k)
    ensures Reached(inputs, calls, id) <= 1 ==> ReachedOnce(inputs, calls, id)
  {
    if inputs == [] {
    } else {
      var n := |inputs| - 1;
      ReachesCounted(inputs[..n], calls[..n], id);
      assert forall i, k :: i < n ==>
               (ReachedBy(inputs, calls, id, i, k) <==> ReachedBy(inputs[..n], calls[..n], id, i, k));
      if inputs[n].Submit? {
        var here := set k | k in calls[n] && k in inputs[n].req.create && inputs[n].req.create[k].emailId == id;
        assert forall k :: k in here <==> ReachedBy(inputs, calls, id, n, k);
        AtMostOne(here);
      }
    }
  }

  /** The bound on hook calls, for the inputs and answers themselves. */
  lemma ReachedAtMostOnce(drafts: set<ID>, turns: seq<Turn>, inputs: seq<Input>, stored: set<ID>, calls: seq<set<ID>>,
                          id: ID)
    requires IsHistory(drafts, turns) && TellsAll(turns, inputs, stored, calls) && id !in stored
    ensures Reached(inputs, calls, id) + (if id in DraftsAfterAll(drafts, turns) then 1 else 0) <=
            DraftInputs(inputs, id) + if id in drafts then 1 else 0
  {
    CountsAgree(turns, inputs, stored, calls, id);
    forall t | t in turns && t.Requested?
      ensures id !in t.stored
    {
      var i :| 0 <= i < |turns| && turns[i] == t;
      assert Tells(turns[i], inputs[i], stored, calls[i]);
    }
    AtMostOncePerDraft(drafts, turns, id);
  }

  /** A store serving drafts, requests and restarts; `calls[i]` are the entries of the i-th input that
      reached the hook.  The counter stays the number of submissions, the submissions only grow, and an
      email that is not stored reaches the hook at most once for each time it was put. */
  method Serve(s: Store, inputs: seq<Input>) returns (t: Store, calls: seq<set<ID>>, ghost turns: seq<Turn>)
    requires s.Valid() && s.MailboxesValid() && s.DeltaSynced() && Mirror(s.files, s.Msgs())
    requires s.state <= MAX_INT64 && s.mailboxState <= MAX_INT64
    modifies s`pending, s`submissions, s`submissionState, s`delta
    ensures t == s || fresh(t)
    ensures old(s.SubmissionsCounted()) ==> t.SubmissionsCounted()
    ensures old(s.submissions) <= t.submissions && t.msgs.Keys == old(s.msgs.Keys)
    ensures TellsAll(turns, inputs, old(s.msgs.Keys), calls)
    ensures IsHistory(old(s.pending.Keys), turns) && t.pending.Keys == DraftsAfterAll(old(s.pending.Keys), turns)
    ensures forall id :: id !in old(s.msgs) ==>
              Reached(inputs, calls, id) + (if id in t.pending then 1 else 0) <=
              DraftInputs(inputs, id) + if id in old(s.pending) then 1 else 0
    ensures forall id :: id !in old(s.msgs) && id !in old(s.pending) && PutOnce(inputs, id) ==>
              ReachedOnce(inputs, calls, id)
  {
    hide Faithful, LegalLog, Mirror, Possible, Tells, Store.Valid, Store.MailboxesValid, Store.DeltaSynced;
    t, calls, turns := s, [], [];
    ghost var drafts, stored := s.pending.Keys, s.msgs.Keys;
    for i := 0 to |inputs|
      invariant (t == s || fresh(t)) && t.Valid() && t.MailboxesValid() && t.DeltaSynced()
      invariant Mirror(t.files, t.Msgs()) && t.msgs.Keys == stored
      invariant t.state <= MAX_INT64 && t.mailboxState <= MAX_INT64
      invariant old(s.SubmissionsCounted()) ==> t.SubmissionsCounted()
      invariant old(s.submissions) <= t.submissions
      invariant TellsAll(turns, inputs[..i], stored, calls)
      invariant IsHistory(drafts, turns) && t.pending.Keys == DraftsAfterAll(drafts, turns)
    {
      ghost var turn;
      var called;
      t, called, turn := ServeOne(t, inputs[i]);
      HistorySnoc(drafts, turns, turn);
      turns, calls := turns + [turn], calls + [called];
    }
    assert inputs[..|inputs|] == inputs;
    forall id | id !in stored
      ensures Reached(inputs, calls, id) + (if id in t.pending then 1 else 0) <=
              DraftInputs(inputs, id) + if id in drafts then 1 else 0
    {
      ReachedAtMostOnce(drafts, turns, inputs, stored, calls, id);
    }
    forall id | id !in stored && id !in drafts && PutOnce(inputs, id)
      ensures ReachedOnce(inputs, calls, id)
    {
      PutsCounted(inputs, id);
      ReachesCounted(inputs, calls, id);
    }
  }

  lemma DrainedIsPossible(req: SubmissionRequest, stored: set<ID>, drafts: map<ID, StoredEmail>,
                          called: set<ID>, pending: map<ID, StoredEmail>)
    requires Drained(req, req.create.Keys, stored, drafts, called, pending)
    ensures Possible(drafts.Keys, Requested(req, stored, called))
    ensures pending.Keys == DraftsAfter(drafts.Keys, Requested(req, stored, called))
  {
    hide RightCalls;
  }

  method ServeOne(s: Store, input: Input) returns (t: Store, called: set<ID>, ghost turn: Turn)
    requires s.Valid() && s.MailboxesValid() && s.DeltaSynced() && Mirror(s.files, s.Msgs())
    requires s.state <= MAX_INT64 && s.mailboxState <= MAX_INT64
    modifies s`pending, s`submissions, s`submissionState, s`delta
    ensures (t == s || fresh(t)) && t.Valid() && t.MailboxesValid() && t.DeltaSynced()
    ensures Mirror(t.files, t.Msgs()) && t.msgs.Keys == old(s.msgs.Keys)
    ensures t.state <= MAX_INT64 && t.mailboxState <= MAX_INT64
    ensures old(s.SubmissionsCounted()) ==> t.SubmissionsCounted()
    ensures old(s.submissions) <= t.submissions
    ensures Tells(turn, input, old(s.msgs.Keys), called)
    ensures Possible(old(s.pending.Keys), turn) && t.pending.Keys == DraftsAfter(old(s.pending.Keys), turn)
  {
    hide Faithful, LegalLog, Mirror, RightCalls, Drained, Sorted, Recorded, FormatInt;
    hide Store.Valid, Store.MailboxesValid, Store.Msgs, Store.DeltaSynced;
    ghost var values := s.Msgs();
    s.PresentValues();
    match input {
      case Draft(m) =>
        s.PutPending(m);
        s.AsBefore(values);
        t, called, turn := s, {}, Drafted(m.meta.id);
      case Submit(req) =>
        var r;
        r, called := HandleEmailSubmissionSet(s, req);
        s.AsBefore(values);
        DrainedIsPossible(req, s.msgs.Keys, old(s.pending), called, s.pending);
        t, turn := s, Requested(req, s.msgs.Keys, called);
      case Reopen =>
        t := Restart(s);
        s.PresentValues();
        t.PresentValues();
        called, turn := {}, Reopened;
    }
  }
}
