/** The part of a store that its change log speaks of: the live ids, the counter and the log.
    Both the email log and the mailbox log are journals. */
module Journal {
  import opened Prelude
  import opened Delta

  datatype Journal = Journal(live: set<ID>, state: int, log: Log)

  /** Where the log starts: the version loaded from disk and the ids that were live then. */
  datatype Origin = Origin(version: int, live: set<ID>)

  /** The log holds exactly the versions after the origin, and replaying all of it from the
      origin gives the live ids. */
  ghost predicate Faithful(j: Journal, o: Origin) {
    && 0 <= o.version <= j.state
    && (forall v :: v in j.log <==> o.version < v <= j.state)
    && j.live == LiveAfter(o.live, Window(j.log, o.version, j.state))
  }

  /** Moreover no record contradicts the ids that were live when it was written. */
  ghost predicate LegalLog(j: Journal, o: Origin)
    requires Faithful(j, o)
  {
    Legal(o.live, Window(j.log, o.version, j.state))
  }

  /** The ids that were live when the counter stood at `v`. */
  ghost function IdsAt(j: Journal, o: Origin, v: int): set<ID>
    requires Faithful(j, o) && v <= j.state
  {
    LiveAfter(o.live, Window(j.log, o.version, v))
  }

  /** `s.state++; s.changes[s.state] = rec` together with the change of the live ids. */
  function Commit(j: Journal, rec: ChangeRecord): Journal {
    Journal(LiveAfter(j.live, EventsOf(rec)), j.state + 1, j.log[j.state + 1 := rec])
  }

  lemma CommitWindows(j: Journal, rec: ChangeRecord, since: int, v: int)
    requires Covers(j.log, since, v) && v <= j.state
    ensures Covers(Commit(j, rec).log, since, v)
    ensures Window(Commit(j, rec).log, since, v) == Window(j.log, since, v)
  {
    WindowLocal(Commit(j, rec).log, j.log, since, v);
  }

  lemma CommitAppends(j: Journal, rec: ChangeRecord, since: int)
    requires Covers(j.log, since, j.state) && since <= j.state
    ensures Covers(Commit(j, rec).log, since, j.state + 1)
    ensures Window(Commit(j, rec).log, since, j.state + 1) == Window(j.log, since, j.state) + EventsOf(rec)
  {
    CommitWindows(j, rec, since, j.state);
  }

  /** Committing a record keeps the log faithful and rewrites no past version. */
  lemma CommitKeeps(j: Journal, rec: ChangeRecord, o: Origin)
    requires Faithful(j, o)
    ensures Faithful(Commit(j, rec), o)
    ensures forall v :: o.version <= v <= j.state ==> IdsAt(Commit(j, rec), o, v) == IdsAt(j, o, v)
    ensures IdsAt(Commit(j, rec), o, j.state + 1) == Commit(j, rec).live
    ensures LegalLog(Commit(j, rec), o) <==> LegalLog(j, o) && Legal(j.live, EventsOf(rec))
  {
    hide Window, LiveAfter, Legal, EventsOf;
    CommitAppends(j, rec, o.version);
    LiveConcat(o.live, Window(j.log, o.version, j.state), EventsOf(rec));
    LegalConcat(o.live, Window(j.log, o.version, j.state), EventsOf(rec));
    assert Faithful(Commit(j, rec), o);
    forall v | o.version <= v <= j.state
      ensures IdsAt(Commit(j, rec), o, v) == IdsAt(j, o, v)
    {
      CommitWindows(j, rec, o.version, v);
    }
  }

  ghost function ChangesBetween(j: Journal, o: Origin, a: int, b: int): Net
    requires Faithful(j, o) && o.version <= a <= b <= j.state
  {
    Fold(Window(j.log, a, b))
  }

  lemma IdsSplit(j: Journal, o: Origin, a: int, b: int)
    requires Faithful(j, o) && o.version <= a <= b <= j.state
    ensures IdsAt(j, o, b) == LiveAfter(IdsAt(j, o, a), Window(j.log, a, b))
  {
    WindowSplit(j.log, o.version, a, b);
    LiveConcat(o.live, Window(j.log, o.version, a), Window(j.log, a, b));
  }

  /** No version between the origin and now is refused, and the delta between any two versions
      turns the ids of the one into the ids of the other. */
  lemma ReplayBetween(j: Journal, o: Origin, a: int, b: int)
    requires Faithful(j, o) && o.version <= a <= b <= j.state
    ensures Covers(j.log, a, b)
    ensures ApplyNet(IdsAt(j, o, a), ChangesBetween(j, o, a, b)) == IdsAt(j, o, b)
    ensures IdsAt(j, o, j.state) == j.live
  {
    IdsSplit(j, o, a, b);
    Replay(IdsAt(j, o, a), Window(j.log, a, b));
  }

  lemma LegalBetween(j: Journal, o: Origin, a: int, b: int)
    requires Faithful(j, o) && LegalLog(j, o) && o.version <= a <= b <= j.state
    ensures Legal(IdsAt(j, o, a), Window(j.log, a, b))
  {
    WindowSplit(j.log, o.version, b, j.state);
    LegalConcat(o.live, Window(j.log, o.version, b), Window(j.log, b, j.state));
    WindowSplit(j.log, o.version, a, b);
    LegalConcat(o.live, Window(j.log, o.version, a), Window(j.log, a, b));
  }

  /** What the three sets of a delta up to now are: disjoint, created and updated live, destroyed
      dead; nothing that came or went is missing and nothing else is reported as updated. */
  lemma DeltaToNow(j: Journal, o: Origin, since: int)
    requires Faithful(j, o) && LegalLog(j, o) && o.version <= since <= j.state
    ensures var n := ChangesBetween(j, o, since, j.state);
            && n.created !! n.updated !! n.destroyed
            && n.created <= j.live && n.updated <= j.live && n.destroyed !! j.live
            && n.updated <= IdsAt(j, o, since)
            && j.live - IdsAt(j, o, since) <= n.created
            && IdsAt(j, o, since) - j.live <= n.destroyed
  {
    ReplayBetween(j, o, since, j.state);
    IdsSplit(j, o, since, j.state);
    LegalBetween(j, o, since, j.state);
    LegalShape(IdsAt(j, o, since), Window(j.log, since, j.state));
  }

  /** Polling at a, b and c has the same net result as polling at a and c. */
  lemma DeltasCompose(j: Journal, o: Origin, a: int, b: int, c: int)
    requires Faithful(j, o) && LegalLog(j, o) && o.version <= a <= b <= c <= j.state
    ensures ChangesBetween(j, o, a, c) == Combine(ChangesBetween(j, o, a, b), ChangesBetween(j, o, b, c))
  {
    WindowSplit(j.log, a, b, c);
    LegalBetween(j, o, a, c);
    Composition(IdsAt(j, o, a), Window(j.log, a, b), Window(j.log, b, c));
  }

  // ---------- records that create an id again ----------

  /** No record updates an id that is not there. */
  ghost predicate LiveUpdates(j: Journal, o: Origin)
    requires Faithful(j, o)
  {
    UpdatesLive(o.live, Window(j.log, o.version, j.state))
  }

  lemma CommitLiveUpdates(j: Journal, rec: ChangeRecord, o: Origin)
    requires Faithful(j, o) && LiveUpdates(j, o)
    ensures Faithful(Commit(j, rec), o)
    ensures LiveUpdates(Commit(j, rec), o) <==> Elems(rec.updated) <= j.live + Elems(rec.added)
  {
    CommitKeeps(j, rec, o);
    hide Window, LiveAfter, UpdatesLive, EventsOf;
    CommitAppends(j, rec, o.version);
    UpdatesLiveConcat(o.live, Window(j.log, o.version, j.state), EventsOf(rec));
    RecordUpdatesLive(j.live, rec);
  }

  lemma LiveUpdatesSince(j: Journal, o: Origin, since: int, v: int)
    requires Faithful(j, o) && LiveUpdates(j, o) && o.version <= since <= v <= j.state
    ensures UpdatesLive(IdsAt(j, o, since), Window(j.log, since, v))
  {
    hide LiveAfter, UpdatesLive;
    WindowSplit(j.log, o.version, v, j.state);
    UpdatesLiveConcat(o.live, Window(j.log, o.version, v), Window(j.log, v, j.state));
    WindowSplit(j.log, o.version, since, v);
    UpdatesLiveConcat(o.live, Window(j.log, o.version, since), Window(j.log, since, v));
  }

  /** The three sets since a version are disjoint exactly if since then no id that was updated has been
      created again. */
  lemma DisjointSince(j: Journal, o: Origin, since: int)
    requires Faithful(j, o) && LiveUpdates(j, o) && o.version <= since <= j.state
    ensures Covers(j.log, since, j.state)
    ensures var n := ChangesBetween(j, o, since, j.state);
            n.created !! n.updated !! n.destroyed <==> forall id :: !CreatedAgain(Window(j.log, since, j.state), id)
  {
    LiveUpdatesSince(j, o, since, j.state);
    DisjointExactly(IdsAt(j, o, since), Window(j.log, since, j.state));
  }

  /** Every record since the version creates only ids that were not live when it was written. */
  ghost predicate FreshCreates(j: Journal, o: Origin, since: int)
    requires Faithful(j, o) && o.version <= since <= j.state
  {
    forall v :: since < v <= j.state ==> Elems(j.log[v].added) !! IdsAt(j, o, v - 1)
  }

  lemma FreshStep(j: Journal, o: Origin, since: int, v: int)
    requires Faithful(j, o) && LiveUpdates(j, o) && o.version <= since < v <= j.state
    requires Elems(j.log[v].added) !! IdsAt(j, o, v - 1)
    requires ChangesBetween(j, o, since, v - 1).created !! ChangesBetween(j, o, since, v - 1).updated
    ensures ChangesBetween(j, o, since, v).created !! ChangesBetween(j, o, since, v).updated
  {
    LiveUpdatesSince(j, o, since, v - 1);
    IdsSplit(j, o, since, v - 1);
    hide LiveUpdates, UpdatesLive, LiveAfter, EventsOf, Fold;
    FreshRecordKeepsApart(IdsAt(j, o, since), Window(j.log, since, v - 1), j.log[v]);
  }

  lemma {:induction false} FreshUpTo(j: Journal, o: Origin, since: int, v: int)
    requires Faithful(j, o) && LiveUpdates(j, o) && o.version <= since <= v <= j.state && FreshCreates(j, o, since)
    ensures ChangesBetween(j, o, since, v).created !! ChangesBetween(j, o, since, v).updated
    decreases v - since
  {
    hide LiveUpdates, LiveAfter, EventsOf, Fold;
    if v == since {
      FoldNone();
      NoWindow(j.log, v);
    } else {
      FreshUpTo(j, o, since, v - 1);
      FreshStep(j, o, since, v);
    }
  }

  /** What a caller can see to: if no record creates an id that is live at that moment, no id is reported
      twice. */
  lemma FreshCreatesDisjoint(j: Journal, o: Origin, since: int)
    requires Faithful(j, o) && LiveUpdates(j, o) && o.version <= since <= j.state && FreshCreates(j, o, since)
    ensures var n := ChangesBetween(j, o, since, j.state); n.created !! n.updated !! n.destroyed
  {
    FreshUpTo(j, o, since, j.state);
    LiveUpdatesSince(j, o, since, j.state);
    DestroyedApart(IdsAt(j, o, since), Window(j.log, since, j.state));
  }

  /** Otherwise one may be: x is updated by one record and created by the next. */
  lemma CreatedAndUpdated(j: Journal, o: Origin, x: ID)
    requires Faithful(j, o) && LiveUpdates(j, o) && x in j.live
    ensures var t := Commits(j, [ChangeRecord([], [x], []), ChangeRecord([x], [], [])]);
            && Faithful(t, o) && LiveUpdates(t, o) && t.state == j.state + 2
            && ChangesBetween(t, o, j.state, t.state) == Net({x}, {x}, {})
  {
    hide Window, LiveAfter, Fold, EventsOf, Commits, Faithful, LiveUpdates;
    var u, a := ChangeRecord([], [x], []), ChangeRecord([x], [], []);
    var j1 := Commit(j, u);
    TwoCommits(j, u, a);
    UpdateThenAdd(x);
    CommitLiveUpdates(j, u, o);
    CommitLiveUpdates(j1, a, o);
    NoWindow(j.log, j.state);
    CommitAppends(j, u, j.state);
    CommitAppends(j1, a, j.state);
    assert [] + EventsOf(u) + EventsOf(a) == EventsOf(u) + EventsOf(a);
  }

  lemma TwoCommits(j: Journal, u: ChangeRecord, a: ChangeRecord)
    ensures Commits(j, [u, a]) == Commit(Commit(j, u), a)
  {
    assert [u, a][..1] == [u] && [u][..0] == [];
    assert Commits(j, []) == j && Commits(j, [u]) == Commit(j, u);
  }

  lemma UpdateThenAdd(x: ID)
    ensures var u, a := ChangeRecord([], [x], []), ChangeRecord([x], [], []);
            Fold(EventsOf(u) + EventsOf(a)) == Net({x}, {x}, {})
  {
    var u, a := ChangeRecord([], [x], []), ChangeRecord([x], [], []);
    assert EventsOf(u) == [] + [Updated(x)] && EventsOf(a) == [Added(x)];
    FoldNone();
    FoldSnoc([], Updated(x));
    FoldSnoc([] + [Updated(x)], Added(x));
  }

  lemma NoWindow(log: Log, v: int)
    ensures Covers(log, v, v) && Window(log, v, v) == []
  {
  }

  // ---------- runs of commits ----------

  function Commits(j: Journal, recs: seq<ChangeRecord>): Journal {
    if recs == [] then j else Commit(Commits(j, recs[..|recs| - 1]), recs[|recs| - 1])
  }

  /** Replay over every run of commits, also of records that name one id several times: the ids at
      the start, with the delta since then applied, are the ids at the end. */
  lemma {:induction false} CommitsReplay(j: Journal, recs: seq<ChangeRecord>, o: Origin)
    requires Faithful(j, o)
    ensures var t := Commits(j, recs);
            && Faithful(t, o) && t.state == j.state + |recs|
            && (forall v :: o.version <= v <= j.state ==> IdsAt(t, o, v) == IdsAt(j, o, v))
            && ApplyNet(j.live, ChangesBetween(t, o, j.state, t.state)) == t.live
  {
    if recs == [] {
    } else {
      var init := recs[..|recs| - 1];
      CommitsReplay(j, init, o);
      CommitKeeps(Commits(j, init), recs[|recs| - 1], o);
    }
    ReplayBetween(Commits(j, recs), o, j.state, |recs| + j.state);
    ReplayBetween(j, o, j.state, j.state);
  }

  // ---------- a client from before the log was lost ----------

  /** A client whose version the log does not know but whose counter value it has reached again (a
      lost delta.json restarts the counter at zero) is not refused.  What it gets is right exactly if
      its ids differ from those of the new version of that number only where the delta says so. */
  lemma ReusedVersion(j: Journal, o: Origin, since: int, ids: set<ID>)
    requires Faithful(j, o) && o.version <= since <= j.state
    ensures Covers(j.log, since, j.state)
    ensures var n := ChangesBetween(j, o, since, j.state);
            ApplyNet(ids, n) == j.live <==>
            forall id :: id in n.created + n.destroyed || (id in ids <==> id in IdsAt(j, o, since))
  {
    var n := ChangesBetween(j, o, since, j.state);
    ReplayBetween(j, o, since, j.state);
    hide Faithful, Window, LiveAfter, Fold;
    forall id
      ensures (id in ApplyNet(ids, n) <==> id in j.live) <==>
              id in n.created + n.destroyed || (id in ids <==> id in IdsAt(j, o, since))
    {
      assert id in j.live <==> id in ApplyNet(IdsAt(j, o, since), n);
    }
  }

  /** After the loss, emails a and b are reloaded and c arrives as version 1.  A client that knew only
      a at the old version 1 asks for what changed since then: it is told that nothing did. */
  lemma LostLogGoesUnnoticed()
    ensures var o := Origin(0, {"a", "b"});
            var j := Commit(Journal({"a", "b"}, 0, map[]), ChangeRecord(["c"], [], []));
            && Faithful(j, o) && Covers(j.log, 1, j.state)
            && ChangesBetween(j, o, 1, j.state) == Net({}, {}, {})
            && ApplyNet({"a"}, ChangesBetween(j, o, 1, j.state)) != j.live
  {
    var o, j0 := Origin(0, {"a", "b"}), Journal({"a", "b"}, 0, map[]);
    var rec := ChangeRecord(["c"], [], []);
    hide LiveAfter, Legal, EventsOf, Fold;
    StartsFaithful(j0, o);
    CommitKeeps(j0, rec, o);
    RecordEffect(j0.live, rec);
    assert "b" in Commit(j0, rec).live;
    assert Window(Commit(j0, rec).log, 1, 1) == [];
    FoldNone();
  }

  lemma StartsFaithful(j: Journal, o: Origin)
    requires j.log == map[] && j.state == o.version >= 0 && j.live == o.live
    ensures Faithful(j, o) && LegalLog(j, o)
  {
  }

  lemma FoldNone()
    ensures Fold([]) == Net({}, {}, {})
  {
  }
}
