/** The email part of `Store` (store.go) on values: what each mutation does to the emails, the
    counter and the log, and what follows for every run of mutations. */
module Mail {
  import opened Prelude
  import opened Json
  import opened Delta
  import opened Journal

  datatype Header = Header(name: string, value: string)

  /** Everything of an email that the store never changes in place.  `rest` stands for subject,
      addresses and body. */
  datatype Meta = Meta(
    id: ID,
    threadId: ID,
    messageId: seq<string>,
    inReplyTo: seq<string>,
    references: seq<string>,
    headers: seq<Header>,
    receivedAt: Option<int>,
    rest: string)

  datatype Email = Email(meta: Meta, keywords: map<string, bool>, mailboxIds: map<ID, bool>)

  type Patch = map<string, Json>

  // ---------- patches (PatchObject of section 5.3 of RFC 8620) ----------

  const KEYWORDS := "keywords/"
  const MAILBOX_IDS := "mailboxIds/"

  /** The flag `f` after the patch.  `PatchEmail` deletes on null, `PatchKeywords` ignores it. */
  function FlagAfter(flags: map<string, bool>, prefix: string, patch: Patch, nullDeletes: bool,
                     f: string): Option<bool> {
    var k := prefix + f;
    if k in patch && patch[k].Bool? then Some(patch[k].b)
    else if k in patch && patch[k].Null? && nullDeletes then None
    else if f in flags then Some(flags[f])
    else None
  }

  function Targets(prefix: string, patch: Patch): set<string> {
    set k | k in patch && prefix <= k :: k[|prefix|..]
  }

  function PatchFlags(flags: map<string, bool>, prefix: string, patch: Patch, nullDeletes: bool): map<string, bool> {
    map f | f in flags.Keys + Targets(prefix, patch) && FlagAfter(flags, prefix, patch, nullDeletes, f).Some?
      :: FlagAfter(flags, prefix, patch, nullDeletes, f).value
  }

  /** `PatchFlags` is `FlagAfter` at every flag. */
  lemma PatchFlagsAt(flags: map<string, bool>, prefix: string, patch: Patch, nullDeletes: bool, f: string)
    ensures f in PatchFlags(flags, prefix, patch, nullDeletes) <==>
            FlagAfter(flags, prefix, patch, nullDeletes, f).Some?
    ensures f in PatchFlags(flags, prefix, patch, nullDeletes) ==>
              PatchFlags(flags, prefix, patch, nullDeletes)[f] == FlagAfter(flags, prefix, patch, nullDeletes, f).value
  {
    var k := prefix + f;
    if k in patch {
      assert k[|prefix|..] == f;
      assert f in Targets(prefix, patch);
    }
  }

  lemma FlagAfterNext(flags: map<string, bool>, prefix: string, done: Patch, nullDeletes: bool, k: string, v: Json,
                      f: string)
    requires k !in done
    ensures prefix + f == k <==> prefix <= k && f == k[|prefix|..]
    ensures FlagAfter(flags, prefix, done[k := v], nullDeletes, f) ==
            if prefix + f != k then FlagAfter(flags, prefix, done, nullDeletes, f)
            else if v.Bool? then Some(v.b)
            else if v.Null? && nullDeletes then None
            else FlagAfter(flags, prefix, done, nullDeletes, f)
  {
  }

  /** One key of the patch, met after the keys of `done`. */
  lemma PatchFlagsNext(flags: map<string, bool>, prefix: string, done: Patch, nullDeletes: bool, k: string, v: Json)
    requires k !in done
    ensures var before, after := PatchFlags(flags, prefix, done, nullDeletes),
                                 PatchFlags(flags, prefix, done[k := v], nullDeletes);
            if !(prefix <= k) then after == before
            else if v.Bool? then after == before[k[|prefix|..] := v.b]
            else if v.Null? && nullDeletes then after == before - {k[|prefix|..]}
            else after == before
  {
    hide PatchFlags, FlagAfter;
    var before, after := PatchFlags(flags, prefix, done, nullDeletes),
                         PatchFlags(flags, prefix, done[k := v], nullDeletes);
    forall f
      ensures var x, y := FlagAfter(flags, prefix, done, nullDeletes, f),
                          FlagAfter(flags, prefix, done[k := v], nullDeletes, f);
              && (f in before <==> x.Some?) && (f in before ==> before[f] == x.value)
              && (f in after <==> y.Some?) && (f in after ==> after[f] == y.value)
              && y == if !(prefix <= k && f == k[|prefix|..]) then x
                      else if v.Bool? then Some(v.b)
                      else if v.Null? && nullDeletes then None
                      else x
    {
      PatchFlagsAt(flags, prefix, done, nullDeletes, f);
      PatchFlagsAt(flags, prefix, done[k := v], nullDeletes, f);
      FlagAfterNext(flags, prefix, done, nullDeletes, k, v, f);
    }
  }

  lemma PatchNothing(flags: map<string, bool>, prefix: string, nullDeletes: bool)
    ensures PatchFlags(flags, prefix, map[], nullDeletes) == flags
  {
  }

  function PatchedEmail(e: Email, patch: Patch): Email {
    Email(e.meta, PatchFlags(e.keywords, KEYWORDS, patch, true), PatchFlags(e.mailboxIds, MAILBOX_IDS, patch, true))
  }

  /** `PatchEmail` or `PatchKeywords`. */
  datatype PatchKind = WholeEmail | KeywordsOnly

  /** What the patch of one email does to another one, seen through the maps they share. */
  function PatchedThrough(e: Email, patch: Patch, keywords: bool, mailboxIds: bool, kind: PatchKind): Email {
    Email(e.meta,
          if keywords then PatchFlags(e.keywords, KEYWORDS, patch, kind.WholeEmail?) else e.keywords,
          if mailboxIds && kind.WholeEmail? then PatchFlags(e.mailboxIds, MAILBOX_IDS, patch, true) else e.mailboxIds)
  }

  function PatchedKeywords(e: Email, patch: Patch): Email {
    e.(keywords := PatchFlags(e.keywords, KEYWORDS, patch, false))
  }

  /** The flag `f` of `after` is what the value under `key` makes of `before`: a boolean sets it, null
      removes it if `nullDeletes`, anything else and a missing key leave it. */
  predicate FlagPatched(before: map<string, bool>, after: map<string, bool>, patch: Patch, key: string,
                        nullDeletes: bool, f: string)
  {
    if key in patch && patch[key].Bool? then f in after && after[f] == patch[key].b
    else if key in patch && patch[key].Null? && nullDeletes then f !in after
    else (f in after <==> f in before) && (f in after && f in before ==> after[f] == before[f])
  }

  /** What the two patches do to an email, flag by flag. */
  lemma PatchedMeans(e: Email, patch: Patch, f: string)
    ensures var p := PatchedEmail(e, patch);
            && p.meta == e.meta
            && FlagPatched(e.keywords, p.keywords, patch, "keywords/" + f, true, f)
            && FlagPatched(e.mailboxIds, p.mailboxIds, patch, "mailboxIds/" + f, true, f)
    ensures var p := PatchedKeywords(e, patch);
            && p.meta == e.meta && p.mailboxIds == e.mailboxIds
            && FlagPatched(e.keywords, p.keywords, patch, "keywords/" + f, false, f)
  {
    PatchFlagsAt(e.keywords, KEYWORDS, patch, true, f);
    PatchFlagsAt(e.mailboxIds, MAILBOX_IDS, patch, true, f);
    PatchFlagsAt(e.keywords, KEYWORDS, patch, false, f);
  }

  lemma PatchFlagsTwice(flags: map<string, bool>, prefix: string, patch: Patch, nullDeletes: bool)
    ensures var once := PatchFlags(flags, prefix, patch, nullDeletes);
            PatchFlags(once, prefix, patch, nullDeletes) == once
  {
    var once := PatchFlags(flags, prefix, patch, nullDeletes);
    var twice := PatchFlags(once, prefix, patch, nullDeletes);
    forall f
      ensures f in twice <==> f in once
      ensures f in twice ==> twice[f] == once[f]
    {
      PatchFlagsAt(flags, prefix, patch, nullDeletes, f);
      PatchFlagsAt(once, prefix, patch, nullDeletes, f);
    }
  }

  /** Re-applying a patch changes nothing more. */
  lemma PatchTwice(e: Email, patch: Patch)
    ensures PatchedEmail(PatchedEmail(e, patch), patch) == PatchedEmail(e, patch)
    ensures PatchedKeywords(PatchedKeywords(e, patch), patch) == PatchedKeywords(e, patch)
  {
    PatchFlagsTwice(e.keywords, KEYWORDS, patch, true);
    PatchFlagsTwice(e.mailboxIds, MAILBOX_IDS, patch, true);
    PatchFlagsTwice(e.keywords, KEYWORDS, patch, false);
  }

  // ---------- mutations ----------

  datatype Mail = Mail(msgs: map<ID, Email>, state: int, log: Log)

  /** One mutation under `mu`.  `Put` carries the email with its thread already resolved, `Purge`
      the order in which the code met the ids. */
  datatype Op =
    | Put(m: Email)
    | Delete(id: ID)
    | Purge(order: seq<ID>)
    | PatchEmail(id: ID, patch: Patch)
    | PatchKeywords(id: ID, patch: Patch)

  predicate Enabled(s: Mail, op: Op) {
    op.Purge? ==> IsOrder(op.order, s.msgs.Keys)
  }

  /** What the mutation appends to the log, if anything. */
  function RecordOf(s: Mail, op: Op): Option<ChangeRecord> {
    match op
    case Put(m) => if m.meta.id in s.msgs then None else Some(ChangeRecord([m.meta.id], [], []))
    case Delete(id) => if id in s.msgs then Some(ChangeRecord([], [], [id])) else None
    case Purge(order) => if |order| > 0 then Some(ChangeRecord([], [], order)) else None
    case PatchEmail(id, _) => if id in s.msgs then Some(ChangeRecord([], [id], [])) else None
    case PatchKeywords(id, _) => if id in s.msgs then Some(ChangeRecord([], [id], [])) else None
  }

  function MsgsAfter(msgs: map<ID, Email>, op: Op): map<ID, Email> {
    match op
    case Put(m) => msgs[m.meta.id := m]
    case Delete(id) => msgs - {id}
    case Purge(_) => map[]
    case PatchEmail(id, patch) => if id in msgs then msgs[id := PatchedEmail(msgs[id], patch)] else msgs
    case PatchKeywords(id, patch) => if id in msgs then msgs[id := PatchedKeywords(msgs[id], patch)] else msgs
  }

  function Do(s: Mail, op: Op): Mail {
    match RecordOf(s, op)
    case None => Mail(MsgsAfter(s.msgs, op), s.state, s.log)
    case Some(rec) => Mail(MsgsAfter(s.msgs, op), s.state + 1, s.log[s.state + 1 := rec])
  }

  /** The events that the mutation logs. */
  function Logged(s: Mail, op: Op): seq<Event> {
    match RecordOf(s, op)
    case None => []
    case Some(rec) => EventsOf(rec)
  }

  function JournalOf(s: Mail): Journal {
    Journal(s.msgs.Keys, s.state, s.log)
  }

  function PatchOp(id: ID, patch: Patch, kind: PatchKind): Op {
    if kind.WholeEmail? then PatchEmail(id, patch) else PatchKeywords(id, patch)
  }

  lemma DoPatch(s: Mail, id: ID, patch: Patch, kind: PatchKind)
    requires id in s.msgs
    ensures var after := s.msgs[id := PatchedThrough(s.msgs[id], patch, true, true, kind)];
            && MsgsAfter(s.msgs, PatchOp(id, patch, kind)) == after
            && Do(s, PatchOp(id, patch, kind)) ==
               Mail(after, s.state + 1, s.log[s.state + 1 := ChangeRecord([], [id], [])])
  {
  }

  lemma {:induction false} RemovedLegal(live: set<ID>, order: seq<ID>)
    requires NoDup(order) && Elems(order) <= live
    ensures Legal(live, RemovedEvents(order))
  {
    if order == [] {
    } else {
      var init, x := order[..|order| - 1], order[|order| - 1];
      assert order == init + [x];
      RemovedLegal(live, init);
      assert RemovedEvents(order) == RemovedEvents(init) + [Removed(x)];
      RemovedAll(live, init);
      LegalSnoc(live, RemovedEvents(init), Removed(x));
      assert x in order && x !in init;
    }
  }

  lemma OneEvent(live: set<ID>, e: Event)
    ensures LiveAfter(live, [e]) == Apply(live, e)
    ensures Legal(live, [e]) <==> LegalNext(live, e)
  {
    assert [] + [e] == [e];
    LiveSnoc(live, [], e);
    LegalSnoc(live, [], e);
  }

  /** Every mutation is either invisible to the journal or commits one legal record. */
  lemma DoCommits(s: Mail, op: Op)
    requires Enabled(s, op)
    ensures RecordOf(s, op).None? ==> JournalOf(Do(s, op)) == JournalOf(s)
    ensures RecordOf(s, op).Some? ==>
              && JournalOf(Do(s, op)) == Commit(JournalOf(s), RecordOf(s, op).value)
              && Legal(s.msgs.Keys, EventsOf(RecordOf(s, op).value))
  {
    match op
    case Put(m) =>
      if m.meta.id !in s.msgs {
        assert EventsOf(RecordOf(s, op).value) == [Added(m.meta.id)];
        OneEvent(s.msgs.Keys, Added(m.meta.id));
      }
    case Delete(id) =>
      if id in s.msgs {
        assert EventsOf(RecordOf(s, op).value) == [Removed(id)];
        OneEvent(s.msgs.Keys, Removed(id));
      }
    case Purge(order) =>
      if |order| > 0 {
        assert EventsOf(RecordOf(s, op).value) == RemovedEvents(order);
        RemovedAll(s.msgs.Keys, order);
        RemovedLegal(s.msgs.Keys, order);
      }
    case PatchEmail(id, _) =>
      if id in s.msgs {
        assert EventsOf(RecordOf(s, op).value) == [Updated(id)];
        OneEvent(s.msgs.Keys, Updated(id));
      }
    case PatchKeywords(id, _) =>
      if id in s.msgs {
        assert EventsOf(RecordOf(s, op).value) == [Updated(id)];
        OneEvent(s.msgs.Keys, Updated(id));
      }
  }

  /** The store invariant: a faithful log without contradictions, and emails filed by their id. */
  ghost predicate Inv(s: Mail, o: Origin) {
    && Faithful(JournalOf(s), o)
    && LegalLog(JournalOf(s), o)
    && forall id :: id in s.msgs ==> s.msgs[id].meta.id == id
  }

  /** Each mutation keeps the invariant and leaves the past alone. */
  lemma DoKeeps(s: Mail, op: Op, o: Origin)
    requires Inv(s, o) && Enabled(s, op)
    ensures Inv(Do(s, op), o)
    ensures s.state <= Do(s, op).state <= s.state + 1
    ensures forall v :: o.version <= v <= s.state ==>
              IdsAt(JournalOf(Do(s, op)), o, v) == IdsAt(JournalOf(s), o, v)
  {
    hide Window, LiveAfter, Legal, EventsOf;
    DoCommits(s, op);
    if RecordOf(s, op).Some? {
      CommitKeeps(JournalOf(s), RecordOf(s, op).value, o);
    }
  }

  // ---------- runs ----------

  function Exec(s: Mail, ops: seq<Op>): Mail {
    if ops == [] then s else Do(Exec(s, ops[..|ops| - 1]), ops[|ops| - 1])
  }

  predicate Runnable(s: Mail, ops: seq<Op>) {
    ops == [] || (Runnable(s, ops[..|ops| - 1]) && Enabled(Exec(s, ops[..|ops| - 1]), ops[|ops| - 1]))
  }

  lemma ExecSnoc(s: Mail, ops: seq<Op>, op: Op)
    ensures Exec(s, ops + [op]) == Do(Exec(s, ops), op)
    ensures Runnable(s, ops + [op]) <==> Runnable(s, ops) && Enabled(Exec(s, ops), op)
  {
    assert (ops + [op])[..|ops|] == ops;
  }

  /** The invariant holds in every reachable state, and every version that existed when the run
      began still has the ids it had. */
  lemma {:induction false} RunKeeps(s: Mail, ops: seq<Op>, o: Origin)
    requires Inv(s, o) && Runnable(s, ops)
    ensures Inv(Exec(s, ops), o) && s.state <= Exec(s, ops).state <= s.state + |ops|
    ensures forall v :: o.version <= v <= s.state ==>
              IdsAt(JournalOf(Exec(s, ops)), o, v) == IdsAt(JournalOf(s), o, v)
  {
    if ops == [] {
    } else {
      RunKeeps(s, ops[..|ops| - 1], o);
      DoKeeps(Exec(s, ops[..|ops| - 1]), ops[|ops| - 1], o);
    }
  }

  /** Replay over every run: a client that knows the ids of any reachable state reaches the ids
      of any later one through the delta since then, which is never refused. */
  lemma RunReplays(s: Mail, ops: seq<Op>, o: Origin)
    requires Inv(s, o) && Runnable(s, ops)
    ensures var t := Exec(s, ops);
            && Covers(t.log, s.state, t.state)
            && ApplyNet(s.msgs.Keys, Fold(Window(t.log, s.state, t.state))) == t.msgs.Keys
  {
    var t := Exec(s, ops);
    RunKeeps(s, ops, o);
    ReplayBetween(JournalOf(t), o, s.state, t.state);
    ReplayBetween(JournalOf(s), o, s.state, s.state);
  }

  // ---------- the client's cache of contents ----------

  /** Drop `destroyed`, re-fetch `created` and `updated` from the server, keep the rest. */
  function Refresh(cache: map<ID, Email>, n: Net, server: map<ID, Email>): map<ID, Email> {
    map id | id in cache.Keys + server.Keys && id in Refreshed(cache, n, server)
      :: if id in n.created + n.updated && id in server then server[id] else cache[id]
  }

  function Refreshed(cache: map<ID, Email>, n: Net, server: map<ID, Email>): set<ID> {
    (cache.Keys - n.destroyed - n.created - n.updated) + (n.created + n.updated) * server.Keys
  }

  /** The email that the last `Put` of `id` in `ops` wrote. */
  function LastPut(ops: seq<Op>, id: ID): Option<Email> {
    if ops == [] then None
    else
      var op := ops[|ops| - 1];
      if op.Put? && op.m.meta.id == id then Some(op.m) else LastPut(ops[..|ops| - 1], id)
  }

  predicate Mentioned(es: seq<Event>, id: ID) {
    Added(id) in es || Updated(id) in es || Removed(id) in es
  }

  lemma NothingIsMentioned()
    ensures forall id :: !Mentioned([], id)
  {
  }

  lemma WindowAfter(s: Mail, op: Op, since: int, o: Origin)
    requires Inv(s, o) && Enabled(s, op) && o.version <= since <= s.state
    ensures Inv(Do(s, op), o) && s.state <= Do(s, op).state
    ensures Window(Do(s, op).log, since, Do(s, op).state) == Window(s.log, since, s.state) + Logged(s, op)
  {
    hide Window, LiveAfter, Legal, EventsOf;
    DoKeeps(s, op, o);
    DoCommits(s, op);
    if RecordOf(s, op).Some? {
      CommitAppends(JournalOf(s), RecordOf(s, op).value, since);
    } else {
      assert Window(s.log, since, s.state) + [] == Window(s.log, since, s.state);
    }
  }

  lemma MentionedConcat(es: seq<Event>, fs: seq<Event>, id: ID)
    ensures Mentioned(es + fs, id) <==> Mentioned(es, id) || Mentioned(fs, id)
  {
  }

  /** A mutation that does not mention an id leaves its email alone, unless it overwrites it. */
  lemma UnmentionedStep(s: Mail, op: Op, id: ID)
    requires Enabled(s, op)
    ensures !Mentioned(Logged(s, op), id) ==>
              && (id in Do(s, op).msgs <==> id in s.msgs)
              && (id in s.msgs ==>
                    Do(s, op).msgs[id] == if op.Put? && op.m.meta.id == id then op.m else s.msgs[id])
  {
    var es := Logged(s, op);
    match op
    case Put(m) => if m.meta.id !in s.msgs { assert es[0] == Added(m.meta.id); }
    case Delete(i) => if i in s.msgs { assert es[0] == Removed(i); }
    case Purge(order) =>
      if id in s.msgs {
        assert id in Elems(order);
        var k :| 0 <= k < |order| && order[k] == id;
        assert es[k] == Removed(id);
      }
    case PatchEmail(i, _) => if i in s.msgs { assert es[0] == Updated(i); }
    case PatchKeywords(i, _) => if i in s.msgs { assert es[0] == Updated(i); }
  }

  predicate Overwrites(s: Mail, op: Op) {
    op.Put? && op.m.meta.id in s.msgs
  }

  lemma PutIsMentioned(s: Mail, op: Op, id: ID)
    ensures op.Put? && op.m.meta.id == id && !Overwrites(s, op) ==> Mentioned(Logged(s, op), id)
  {
    if op.Put? && op.m.meta.id == id && !Overwrites(s, op) {
      assert Logged(s, op)[0] == Added(id);
    }
  }

  /** An id the log does not mention keeps its email, except for overwriting `Put`s. */
  lemma {:induction false} UnmentionedContent(s: Mail, ops: seq<Op>, o: Origin, id: ID)
    requires Inv(s, o) && Runnable(s, ops)
    ensures Inv(Exec(s, ops), o) && s.state <= Exec(s, ops).state
    ensures var t := Exec(s, ops);
            !Mentioned(Window(t.log, s.state, t.state), id) ==>
              && (id in t.msgs <==> id in s.msgs)
              && (id in s.msgs ==>
                    t.msgs[id] == if LastPut(ops, id).Some? then LastPut(ops, id).value else s.msgs[id])
  {
    if ops == [] {
    } else {
      var init, op := ops[..|ops| - 1], ops[|ops| - 1];
      var r := Exec(s, init);
      UnmentionedContent(s, init, o, id);
      WindowAfter(r, op, s.state, o);
      MentionedConcat(Window(r.log, s.state, r.state), Logged(r, op), id);
      UnmentionedStep(r, op, id);
    }
  }

  /** A mentioned id is re-fetched if it is still there. */
  lemma MentionedIsFetched(live: set<ID>, es: seq<Event>, id: ID)
    requires Legal(live, es) && id in LiveAfter(live, es)
    ensures Mentioned(es, id) <==> id in Fold(es).created + Fold(es).updated
  {
    LegalShape(live, es);
    LegalUpdated(live, es, id);
    Untouched(live, es, id);
  }

  /** A mentioned id that is gone is reported as destroyed. */
  lemma MentionedIsDropped(live: set<ID>, es: seq<Event>, id: ID)
    requires Legal(live, es) && id !in LiveAfter(live, es)
    ensures Mentioned(es, id) <==> id in Fold(es).destroyed
  {
    LegalShape(live, es);
    LegalUpdated(live, es, id);
    Untouched(live, es, id);
  }

  /** Some overwriting `Put` left the client with an old email and no word in the log. */
  ghost predicate SilentlyReplaced(s: Mail, ops: seq<Op>, id: ID)
    requires Covers(Exec(s, ops).log, s.state, Exec(s, ops).state)
  {
    && id in s.msgs
    && !Mentioned(Window(Exec(s, ops).log, s.state, Exec(s, ops).state), id)
    && LastPut(ops, id).Some?
    && LastPut(ops, id).value != s.msgs[id]
  }

  /** The delta a client gets in `t` when it last polled in `s`. */
  function DeltaSince(s: Mail, t: Mail): Net
    requires Covers(t.log, s.state, t.state)
  {
    Fold(Window(t.log, s.state, t.state))
  }

  lemma RunWindow(s: Mail, ops: seq<Op>, o: Origin)
    requires Inv(s, o) && Runnable(s, ops)
    ensures var t := Exec(s, ops);
            && Covers(t.log, s.state, t.state)
            && Legal(s.msgs.Keys, Window(t.log, s.state, t.state))
            && t.msgs.Keys == LiveAfter(s.msgs.Keys, Window(t.log, s.state, t.state))
  {
    var t := Exec(s, ops);
    RunKeeps(s, ops, o);
    IdsSplit(JournalOf(t), o, s.state, t.state);
    LegalBetween(JournalOf(t), o, s.state, t.state);
    assert IdsAt(JournalOf(t), o, s.state) == IdsAt(JournalOf(s), o, s.state);
  }

  lemma RefreshedKeys(s: Mail, ops: seq<Op>, o: Origin)
    requires Inv(s, o) && Runnable(s, ops)
    ensures var t := Exec(s, ops);
            && Covers(t.log, s.state, t.state)
            && Refreshed(s.msgs, DeltaSince(s, t), t.msgs) == t.msgs.Keys
  {
    var t := Exec(s, ops);
    RunWindow(s, ops, o);
    Replay(s.msgs.Keys, Window(t.log, s.state, t.state));
    LegalShape(s.msgs.Keys, Window(t.log, s.state, t.state));
  }

  /** Cache refinement, exactly: a full copy of the emails, refreshed through the delta since it
      was taken, has the server's ids, and differs from the server at precisely the ids that a
      `Put` overwrote without the log mentioning them. */
  lemma CacheRefresh(s: Mail, ops: seq<Op>, o: Origin)
    requires Inv(s, o) && Runnable(s, ops)
    ensures var t := Exec(s, ops);
            && Covers(t.log, s.state, t.state)
            && var c := Refresh(s.msgs, DeltaSince(s, t), t.msgs);
            && c.Keys == t.msgs.Keys
            && (forall id :: id in t.msgs ==> (c[id] == t.msgs[id] <==> !SilentlyReplaced(s, ops, id)))
  {
    var t := Exec(s, ops);
    RefreshedKeys(s, ops, o);
    forall id | id in t.msgs
      ensures id in Refresh(s.msgs, DeltaSince(s, t), t.msgs)
      ensures Refresh(s.msgs, DeltaSince(s, t), t.msgs)[id] == t.msgs[id] <==> !SilentlyReplaced(s, ops, id)
    {
      CacheRefreshAt(s, ops, o, id);
    }
  }

  lemma CacheRefreshAt(s: Mail, ops: seq<Op>, o: Origin, id: ID)
    requires Inv(s, o) && Runnable(s, ops) && id in Exec(s, ops).msgs
    ensures var t := Exec(s, ops);
            && Covers(t.log, s.state, t.state)
            && var c := Refresh(s.msgs, DeltaSince(s, t), t.msgs);
            && id in c
            && (c[id] == t.msgs[id] <==> !SilentlyReplaced(s, ops, id))
  {
    var t := Exec(s, ops);
    RefreshedKeys(s, ops, o);
    RunWindow(s, ops, o);
    MentionedIsFetched(s.msgs.Keys, Window(t.log, s.state, t.state), id);
    UnmentionedContent(s, ops, o, id);
  }

  /** No `Put` of the run hits an id that is stored at that moment. */
  predicate NoOverwrites(s: Mail, ops: seq<Op>) {
    forall i :: 0 <= i < |ops| ==> !Overwrites(Exec(s, ops[..i]), ops[i])
  }

  lemma {:induction false} NoOverwritesMentioned(s: Mail, ops: seq<Op>, o: Origin, id: ID)
    requires Inv(s, o) && Runnable(s, ops) && NoOverwrites(s, ops)
    requires LastPut(ops, id).Some?
    ensures Inv(Exec(s, ops), o) && s.state <= Exec(s, ops).state
    ensures Mentioned(Window(Exec(s, ops).log, s.state, Exec(s, ops).state), id)
  {
    hide LegalLog, LiveAfter, Legal, Window, Do, Logged, Mentioned;
    var init, op := ops[..|ops| - 1], ops[|ops| - 1];
    var r := Exec(s, init);
    RunKeeps(s, init, o);
    WindowAfter(r, op, s.state, o);
    MentionedConcat(Window(r.log, s.state, r.state), Logged(r, op), id);
    if op.Put? && op.m.meta.id == id {
      PutIsMentioned(r, op, id);
    } else {
      assert forall i :: 0 <= i < |init| ==> init[..i] == ops[..i];
      NoOverwritesMentioned(s, init, o, id);
    }
  }

  /** In runs without overwriting `Put`s the refreshed cache is the server. */
  lemma CacheIsExact(s: Mail, ops: seq<Op>, o: Origin)
    requires Inv(s, o) && Runnable(s, ops) && NoOverwrites(s, ops)
    ensures var t := Exec(s, ops);
            && Covers(t.log, s.state, t.state)
            && Refresh(s.msgs, DeltaSince(s, t), t.msgs) == t.msgs
  {
    CacheRefresh(s, ops, o);
    forall id | id in Exec(s, ops).msgs
      ensures !SilentlyReplaced(s, ops, id)
    {
      if LastPut(ops, id).Some? {
        NoOverwritesMentioned(s, ops, o, id);
      }
    }
  }

  lemma SilentlyReplacedByOne(s: Mail, op: Op, o: Origin, id: ID)
    requires Inv(s, o) && Enabled(s, op)
    ensures Exec(s, [op]) == Do(s, op) && Runnable(s, [op]) && Covers(Do(s, op).log, s.state, Do(s, op).state)
    ensures SilentlyReplaced(s, [op], id) <==>
            op.Put? && op.m.meta.id == id && id in s.msgs && s.msgs[id] != op.m
  {
    ExecSnoc(s, [], op);
    assert [] + [op] == [op];
    WindowAfter(s, op, s.state, o);
    assert Window(s.log, s.state, s.state) + Logged(s, op) == Logged(s, op);
    assert [op][..0] == [];
    assert LastPut([op], id) == if op.Put? && op.m.meta.id == id then Some(op.m) else LastPut([], id);
    if op.Put? && op.m.meta.id == id && id in s.msgs {
      assert Logged(s, op) == [];
    }
  }

  /** For one mutation the condition is the guard of the branch that does not log. */
  lemma StaleAfterOne(s: Mail, op: Op, o: Origin)
    requires Inv(s, o) && Enabled(s, op)
    ensures var t := Do(s, op);
            && Covers(t.log, s.state, t.state)
            && (Refresh(s.msgs, DeltaSince(s, t), t.msgs) == t.msgs <==>
                !(op.Put? && op.m.meta.id in s.msgs && s.msgs[op.m.meta.id] != op.m))
  {
    hide Exec, Runnable, SilentlyReplaced, Window, Fold, Inv, DeltaSince, Refresh, RecordOf;
    SilentlyReplacedByOne(s, op, o, "");
    forall id
      ensures Exec(s, [op]) == Do(s, op) && Runnable(s, [op]) && Covers(Do(s, op).log, s.state, Do(s, op).state)
      ensures SilentlyReplaced(s, [op], id) <==>
              op.Put? && op.m.meta.id == id && id in s.msgs && s.msgs[id] != op.m
    {
      SilentlyReplacedByOne(s, op, o, id);
    }
    CacheRefresh(s, [op], o);
  }

  /** An email replaced by one of another subject: the client is told that nothing changed. */
  lemma OverwriteGoesUnnoticed()
    ensures var draft, final := Plain("a", "draft"), Plain("a", "final");
            var s := Mail(map["a" := draft], 0, map[]);
            var t := Do(s, Put(final));
            && Inv(s, Origin(0, {"a"})) && t.msgs["a"] == final
            && Covers(t.log, s.state, t.state) && DeltaSince(s, t) == Net({}, {}, {})
            && Refresh(s.msgs, DeltaSince(s, t), t.msgs) == map["a" := draft]
  {
    var s := Mail(map["a" := Plain("a", "draft")], 0, map[]);
    assert Plain("a", "draft").meta.id == "a" == Plain("a", "final").meta.id;
    assert JournalOf(s).live == {"a"};
  }

  /** An email with nothing but an id and a content. */
  function Plain(id: ID, content: string): Email {
    Email(Meta(id, "", [], [], [], [], None, content), map[], map[])
  }
}
