/** The change log and its folds (email.go, mailbox.go): what `Foo/changes` computes from a
    suffix of the log, what that means for a single id, and why it replays.

    A record lists the ids a version added, updated and removed; the code folds a window of
    records in version order and, inside a record, first the added, then the updated, then the
    removed ids.  A window is therefore a sequence of events. */
module Delta {
  import opened Prelude

  datatype ChangeRecord = ChangeRecord(added: seq<ID>, updated: seq<ID>, removed: seq<ID>)

  type Log = map<int, ChangeRecord>

  datatype Event = Added(id: ID) | Updated(id: ID) | Removed(id: ID)

  datatype Net = Net(created: set<ID>, updated: set<ID>, destroyed: set<ID>)

  // ---------- windows ----------

  function AddedEvents(ids: seq<ID>): (es: seq<Event>) {
    seq(|ids|, i requires 0 <= i < |ids| => Added(ids[i]))
  }

  function UpdatedEvents(ids: seq<ID>): (es: seq<Event>) {
    seq(|ids|, i requires 0 <= i < |ids| => Updated(ids[i]))
  }

  function RemovedEvents(ids: seq<ID>): (es: seq<Event>) {
    seq(|ids|, i requires 0 <= i < |ids| => Removed(ids[i]))
  }

  function EventsOf(r: ChangeRecord): seq<Event> {
    AddedEvents(r.added) + UpdatedEvents(r.updated) + RemovedEvents(r.removed)
  }

  predicate Covers(log: Log, since: int, cur: int) {
    forall v :: since < v <= cur ==> v in log
  }

  /** The events of the versions after `since` up to and including `cur`. */
  function Window(log: Log, since: int, cur: int): seq<Event>
    requires Covers(log, since, cur)
    decreases cur - since
  {
    if cur <= since then [] else Window(log, since, cur - 1) + EventsOf(log[cur])
  }

  lemma {:induction false} WindowSplit(log: Log, a: int, b: int, c: int)
    requires a <= b <= c && Covers(log, a, c)
    ensures Window(log, a, c) == Window(log, a, b) + Window(log, b, c)
    decreases c - b
  {
    if b < c {
      WindowSplit(log, a, b, c - 1);
    }
  }

  /** A window only depends on the records inside it. */
  lemma {:induction false} WindowLocal(log: Log, log': Log, since: int, cur: int)
    requires Covers(log, since, cur) && Covers(log', since, cur)
    requires forall v :: since < v <= cur ==> log[v] == log'[v]
    ensures Window(log, since, cur) == Window(log', since, cur)
    decreases cur - since
  {
    if since < cur {
      WindowLocal(log, log', since, cur - 1);
    }
  }

  // ---------- the fold ----------

  function Absorb(n: Net, e: Event): Net {
    match e
    case Added(id) => Net(n.created + {id}, n.updated, n.destroyed - {id})
    case Updated(id) => if id in n.created then n else n.(updated := n.updated + {id})
    case Removed(id) => Net(n.created - {id}, n.updated - {id}, n.destroyed + {id})
  }

  /** What the loops of `HandleEmailChanges` compute, as a function of the window. */
  function Fold(es: seq<Event>): Net {
    if es == [] then Net({}, {}, {}) else Absorb(Fold(es[..|es| - 1]), es[|es| - 1])
  }

  lemma FoldSnoc(es: seq<Event>, e: Event)
    ensures Fold(es + [e]) == Absorb(Fold(es), e)
  {
    assert (es + [e])[..|es|] == es;
  }

  // ---------- what the fold means, id by id ----------

  /** The event at `i` is `hit` and no later one is `undo`. */
  predicate StandsAt(es: seq<Event>, hit: Event, undo: Event, i: int) {
    0 <= i < |es| && es[i] == hit && undo !in es[i + 1..]
  }

  /** The last `hit` or `undo` is a `hit`. */
  ghost predicate Stands(es: seq<Event>, hit: Event, undo: Event) {
    exists i :: StandsAt(es, hit, undo, i)
  }

  /** The last Added or Removed event of `id` is an Added one. */
  ghost predicate LastAdded(es: seq<Event>, id: ID) {
    Stands(es, Added(id), Removed(id))
  }

  /** The last Added or Removed event of `id` is a Removed one. */
  ghost predicate LastRemoved(es: seq<Event>, id: ID) {
    Stands(es, Removed(id), Added(id))
  }

  /** Some update of `id` is not undone by a later removal and did not hit an id that the
      window itself had just added. */
  ghost predicate NetUpdated(es: seq<Event>, id: ID) {
    exists i :: UpdatedAt(es, id, i)
  }

  lemma StandsAtSnoc(es: seq<Event>, e: Event, hit: Event, undo: Event, i: int)
    requires i < |es|
    ensures StandsAt(es + [e], hit, undo, i) <==> StandsAt(es, hit, undo, i) && e != undo
  {
    if 0 <= i {
      assert (es + [e])[i + 1..] == es[i + 1..] + [e];
    }
  }

  lemma StandsSnoc(es: seq<Event>, e: Event, hit: Event, undo: Event)
    requires hit != undo
    ensures Stands(es + [e], hit, undo) <==> e == hit || (e != undo && Stands(es, hit, undo))
  {
    hide StandsAt;
    forall i | i < |es|
      ensures StandsAt(es + [e], hit, undo, i) <==> StandsAt(es, hit, undo, i) && e != undo
    {
      StandsAtSnoc(es, e, hit, undo, i);
    }
    StandsInside(es, e, hit, undo);
  }

  lemma StandsInside(es: seq<Event>, e: Event, hit: Event, undo: Event)
    ensures forall i :: StandsAt(es, hit, undo, i) ==> i < |es|
    ensures forall i :: StandsAt(es + [e], hit, undo, i) ==> i <= |es|
    ensures StandsAt(es + [e], hit, undo, |es|) <==> e == hit
  {
    assert (es + [e])[|es| + 1..] == [];
  }

  ghost predicate UpdatedAt(es: seq<Event>, id: ID, i: int) {
    0 <= i < |es| && es[i] == Updated(id) && Removed(id) !in es[i + 1..] && !LastAdded(es[..i], id)
  }

  lemma UpdatedAtSnoc(es: seq<Event>, e: Event, id: ID, i: int)
    requires i < |es|
    ensures UpdatedAt(es + [e], id, i) <==> UpdatedAt(es, id, i) && e != Removed(id)
  {
    if 0 <= i {
      var t := es + [e];
      assert t[i + 1..] == es[i + 1..] + [e] && t[..i] == es[..i];
    }
  }

  lemma NetUpdatedSnoc(es: seq<Event>, e: Event, id: ID)
    ensures NetUpdated(es + [e], id) <==>
            (e == Updated(id) && !LastAdded(es, id)) || (e != Removed(id) && NetUpdated(es, id))
  {
    var t := es + [e];
    forall i | i < |es|
      ensures UpdatedAt(t, id, i) <==> UpdatedAt(es, id, i) && e != Removed(id)
    {
      UpdatedAtSnoc(es, e, id, i);
    }
    assert t[..|es|] == es && t[|es| + 1..] == [];
    assert UpdatedAt(t, id, |es|) <==> e == Updated(id) && !LastAdded(es, id);
  }

  /** The exact meaning of the three sets, for every log whatsoever. */
  lemma {:induction false} FoldMeaning(es: seq<Event>, id: ID)
    ensures id in Fold(es).created <==> LastAdded(es, id)
    ensures id in Fold(es).destroyed <==> LastRemoved(es, id)
    ensures id in Fold(es).updated <==> NetUpdated(es, id)
  {
    if es == [] {
    } else {
      var init, e := es[..|es| - 1], es[|es| - 1];
      assert es == init + [e];
      FoldMeaning(init, id);
      StandsSnoc(init, e, Added(id), Removed(id));
      StandsSnoc(init, e, Removed(id), Added(id));
      NetUpdatedSnoc(init, e, id);
    }
  }

  // ---------- live ids, replay and composition ----------

  function Apply(live: set<ID>, e: Event): set<ID> {
    match e
    case Added(id) => live + {id}
    case Updated(_) => live
    case Removed(id) => live - {id}
  }

  /** The live ids after the events of `es`, started from `live`. */
  function LiveAfter(live: set<ID>, es: seq<Event>): set<ID> {
    if es == [] then live else Apply(LiveAfter(live, es[..|es| - 1]), es[|es| - 1])
  }

  lemma LiveSnoc(live: set<ID>, es: seq<Event>, e: Event)
    ensures LiveAfter(live, es + [e]) == Apply(LiveAfter(live, es), e)
  {
    assert (es + [e])[..|es|] == es;
  }

  lemma {:induction false} LiveConcat(live: set<ID>, es: seq<Event>, fs: seq<Event>)
    ensures LiveAfter(live, es + fs) == LiveAfter(LiveAfter(live, es), fs)
  {
    if fs == [] {
      assert es + fs == es;
    } else {
      var init, f := fs[..|fs| - 1], fs[|fs| - 1];
      assert es + fs == (es + init) + [f] && fs == init + [f];
      LiveSnoc(live, es + init, f);
      LiveConcat(live, es, init);
    }
  }

  lemma {:induction false} AddedAll(live: set<ID>, order: seq<ID>)
    ensures LiveAfter(live, AddedEvents(order)) == live + Elems(order)
  {
    if order == [] {
    } else {
      var init, x := order[..|order| - 1], order[|order| - 1];
      assert order == init + [x];
      ElemsSnoc(init, x);
      AddedAll(live, init);
      assert AddedEvents(order) == AddedEvents(init) + [Added(x)];
      LiveSnoc(live, AddedEvents(init), Added(x));
    }
  }

  lemma {:induction false} RemovedAll(live: set<ID>, order: seq<ID>)
    ensures LiveAfter(live, RemovedEvents(order)) == live - Elems(order)
  {
    if order == [] {
    } else {
      var init, x := order[..|order| - 1], order[|order| - 1];
      assert order == init + [x];
      ElemsSnoc(init, x);
      RemovedAll(live, init);
      assert RemovedEvents(order) == RemovedEvents(init) + [Removed(x)];
      LiveSnoc(live, RemovedEvents(init), Removed(x));
    }
  }

  lemma {:induction false} UpdatedAll(live: set<ID>, order: seq<ID>)
    ensures LiveAfter(live, UpdatedEvents(order)) == live
  {
    if order == [] {
    } else {
      var init, x := order[..|order| - 1], order[|order| - 1];
      UpdatedAll(live, init);
      assert UpdatedEvents(order) == UpdatedEvents(init) + [Updated(x)];
      LiveSnoc(live, UpdatedEvents(init), Updated(x));
    }
  }

  /** What one record does to the live ids: additions first, removals last. */
  lemma RecordEffect(live: set<ID>, r: ChangeRecord)
    ensures LiveAfter(live, EventsOf(r)) == (live + Elems(r.added)) - Elems(r.removed)
  {
    AddedAll(live, r.added);
    var live1 := live + Elems(r.added);
    UpdatedAll(live1, r.updated);
    RemovedAll(live1, r.removed);
    LiveConcat(live, AddedEvents(r.added), UpdatedEvents(r.updated));
    LiveConcat(live, AddedEvents(r.added) + UpdatedEvents(r.updated), RemovedEvents(r.removed));
  }

  /** What a client does with a delta: drop `destroyed`, then take `created`. */
  function ApplyNet(ids: set<ID>, n: Net): set<ID> {
    (ids - n.destroyed) + n.created
  }

  /** Replay: the delta turns the old ids into the new ones, for every log and every start. */
  lemma {:induction false} Replay(live: set<ID>, es: seq<Event>)
    ensures ApplyNet(live, Fold(es)) == LiveAfter(live, es)
  {
    if es == [] {
    } else {
      Replay(live, es[..|es| - 1]);
    }
  }

  /** `es` can happen to a store whose live ids are `live`: only dead ids are added, only live
      ones are updated or removed. */
  predicate Legal(live: set<ID>, es: seq<Event>) {
    es == [] ||
    (Legal(live, es[..|es| - 1]) && LegalNext(LiveAfter(live, es[..|es| - 1]), es[|es| - 1]))
  }

  predicate LegalNext(live: set<ID>, e: Event) {
    if e.Added? then e.id !in live else e.id in live
  }

  lemma LegalSnoc(live: set<ID>, es: seq<Event>, e: Event)
    ensures Legal(live, es + [e]) <==> Legal(live, es) && LegalNext(LiveAfter(live, es), e)
  {
    assert (es + [e])[..|es|] == es;
  }

  lemma {:induction false} LegalConcat(live: set<ID>, es: seq<Event>, fs: seq<Event>)
    ensures Legal(live, es + fs) <==> Legal(live, es) && Legal(LiveAfter(live, es), fs)
  {
    if fs == [] {
      assert es + fs == es;
    } else {
      var init, f := fs[..|fs| - 1], fs[|fs| - 1];
      assert es + fs == (es + init) + [f] && fs == init + [f];
      LegalSnoc(live, es + init, f);
      LegalSnoc(LiveAfter(live, es), init, f);
      LegalConcat(live, es, init);
      LiveConcat(live, es, init);
    }
  }

  /** On logs that a store can produce the three sets never overlap, `created` and `updated`
      hold live ids, `destroyed` holds dead ones, and an updated id was there all along. */
  lemma {:induction false} LegalShape(live: set<ID>, es: seq<Event>)
    requires Legal(live, es)
    ensures var n := Fold(es);
            && n.created !! n.updated !! n.destroyed
            && n.created <= LiveAfter(live, es)
            && n.updated <= LiveAfter(live, es) * live
            && n.destroyed !! LiveAfter(live, es)
  {
    if es == [] {
    } else {
      LegalShape(live, es[..|es| - 1]);
      Replay(live, es[..|es| - 1]);
    }
  }

  /** On such logs `updated` is exactly the ids that were updated and neither added nor removed. */
  lemma {:induction false} LegalUpdated(live: set<ID>, es: seq<Event>, id: ID)
    requires Legal(live, es)
    ensures id in Fold(es).updated <==> Updated(id) in es && Added(id) !in es && Removed(id) !in es
  {
    if es == [] {
    } else {
      var init, e := es[..|es| - 1], es[|es| - 1];
      assert es == init + [e];
      LegalUpdated(live, init, id);
      LegalShape(live, init);
      Untouched(live, init, id);
    }
  }

  /** An id without Added or Removed events stays what it was and is in neither set. */
  lemma {:induction false} Untouched(live: set<ID>, es: seq<Event>, id: ID)
    ensures Added(id) !in es && Removed(id) !in es ==>
              (id in LiveAfter(live, es) <==> id in live) && id !in Fold(es).created && id !in Fold(es).destroyed
    ensures Added(id) in es || Removed(id) in es ==> id in Fold(es).created || id in Fold(es).destroyed
  {
    if es == [] {
    } else {
      var init, e := es[..|es| - 1], es[|es| - 1];
      assert es == init + [e];
      Untouched(live, init, id);
    }
  }

  // ---------- logs that create an id again ----------

  /** Updates hit live ids only. */
  predicate UpdatesLive(live: set<ID>, es: seq<Event>) {
    es == [] ||
    (&& UpdatesLive(live, es[..|es| - 1])
     && (es[|es| - 1].Updated? ==> es[|es| - 1].id in LiveAfter(live, es[..|es| - 1])))
  }

  lemma UpdatesLiveSnoc(live: set<ID>, es: seq<Event>, e: Event)
    ensures UpdatesLive(live, es + [e]) <==> UpdatesLive(live, es) && (e.Updated? ==> e.id in LiveAfter(live, es))
  {
    assert (es + [e])[..|es|] == es;
  }

  lemma {:induction false} UpdatesLiveConcat(live: set<ID>, es: seq<Event>, fs: seq<Event>)
    ensures UpdatesLive(live, es + fs) <==> UpdatesLive(live, es) && UpdatesLive(LiveAfter(live, es), fs)
  {
    if fs == [] {
      assert es + fs == es;
    } else {
      var init, f := fs[..|fs| - 1], fs[|fs| - 1];
      assert es + fs == (es + init) + [f] && fs == init + [f];
      UpdatesLiveSnoc(live, es + init, f);
      UpdatesLiveSnoc(LiveAfter(live, es), init, f);
      UpdatesLiveConcat(live, es, init);
      LiveConcat(live, es, init);
    }
  }

  lemma {:induction false} UpdatesLiveAll(live: set<ID>, ids: seq<ID>)
    ensures UpdatesLive(live, UpdatedEvents(ids)) <==> Elems(ids) <= live
  {
    if ids == [] {
    } else {
      var init, x := ids[..|ids| - 1], ids[|ids| - 1];
      assert ids == init + [x];
      ElemsSnoc(init, x);
      UpdatesLiveAll(live, init);
      UpdatedAll(live, init);
      assert UpdatedEvents(ids) == UpdatedEvents(init) + [Updated(x)];
      UpdatesLiveSnoc(live, UpdatedEvents(init), Updated(x));
    }
  }

  lemma {:induction false} NoUpdates(live: set<ID>, es: seq<Event>)
    requires forall e :: e in es ==> !e.Updated?
    ensures UpdatesLive(live, es)
  {
    if es == [] {
    } else {
      var init := es[..|es| - 1];
      assert forall e :: e in init ==> e in es;
      NoUpdates(live, init);
      assert es[|es| - 1] in es;
    }
  }

  /** A record may update what was live or what it adds itself. */
  lemma RecordUpdatesLive(live: set<ID>, r: ChangeRecord)
    ensures UpdatesLive(live, EventsOf(r)) <==> Elems(r.updated) <= live + Elems(r.added)
  {
    var a, u, d := AddedEvents(r.added), UpdatedEvents(r.updated), RemovedEvents(r.removed);
    hide UpdatesLive;
    UpdatesLiveConcat(live, a + u, d);
    UpdatesLiveConcat(live, a, u);
    AddedAll(live, r.added);
    NoUpdates(live, a);
    NoUpdates(LiveAfter(live, a + u), d);
    UpdatesLiveAll(live + Elems(r.added), r.updated);
  }

  /** An update that counts is followed by a creation of the same id, without a removal in between. */
  ghost predicate CreatedAgain(es: seq<Event>, id: ID) {
    exists i, j :: 0 <= i < j < |es| && UpdatedAt(es, id, i) && es[j] == Added(id)
  }

  lemma OverlapMeaning(es: seq<Event>, id: ID)
    ensures id in Fold(es).created && id in Fold(es).updated <==> CreatedAgain(es, id)
  {
    hide Fold, UpdatedAt, StandsAt;
    FoldMeaning(es, id);
    if LastAdded(es, id) && NetUpdated(es, id) {
      var i :| UpdatedAt(es, id, i);
      var j :| StandsAt(es, Added(id), Removed(id), j);
      AddedAfterUpdate(es, id, i, j);
    }
    if CreatedAgain(es, id) {
      var i, j :| 0 <= i < j < |es| && UpdatedAt(es, id, i) && es[j] == Added(id);
      StandsAfterUpdate(es, id, i, j);
    }
  }

  lemma AddedAfterUpdate(es: seq<Event>, id: ID, i: int, j: int)
    requires UpdatedAt(es, id, i) && StandsAt(es, Added(id), Removed(id), j)
    ensures 0 <= i < j < |es| && es[j] == Added(id)
  {
    StandsInPrefix(es, Added(id), Removed(id), i, j);
  }

  lemma StandsInPrefix(es: seq<Event>, hit: Event, undo: Event, i: int, j: int)
    requires 0 <= i <= |es|
    ensures j < i && StandsAt(es, hit, undo, j) ==> StandsAt(es[..i], hit, undo, j)
  {
    if j < i && StandsAt(es, hit, undo, j) {
      assert forall k :: j < k < i ==> es[k] == es[j + 1..][k - j - 1];
    }
  }

  lemma StandsAfterUpdate(es: seq<Event>, id: ID, i: int, j: int)
    requires UpdatedAt(es, id, i) && i < j < |es| && es[j] == Added(id)
    ensures StandsAt(es, Added(id), Removed(id), j)
  {
    assert forall k :: j < k < |es| ==> es[k] == es[i + 1..][k - i - 1];
  }

  lemma {:induction false} DestroyedApart(live: set<ID>, es: seq<Event>)
    requires UpdatesLive(live, es)
    ensures Fold(es).created !! Fold(es).destroyed && Fold(es).updated !! Fold(es).destroyed
    ensures Fold(es).updated <= LiveAfter(live, es)
  {
    if es == [] {
    } else {
      DestroyedApart(live, es[..|es| - 1]);
      Replay(live, es[..|es| - 1]);
    }
  }

  /** The three sets of a log with live updates are disjoint exactly if it creates no id again. */
  lemma DisjointExactly(live: set<ID>, es: seq<Event>)
    requires UpdatesLive(live, es)
    ensures var n := Fold(es); n.created !! n.updated !! n.destroyed <==> forall id :: !CreatedAgain(es, id)
  {
    DestroyedApart(live, es);
    forall id
      ensures id in Fold(es).created && id in Fold(es).updated <==> CreatedAgain(es, id)
    {
      OverlapMeaning(es, id);
    }
  }

  /** A record that creates only ids that are not live keeps `created` and `updated` apart. */
  lemma FreshRecordKeepsApart(live: set<ID>, es: seq<Event>, r: ChangeRecord)
    requires UpdatesLive(live, es) && Fold(es).created !! Fold(es).updated
    requires Elems(r.added) !! LiveAfter(live, es)
    ensures Fold(es + EventsOf(r)).created !! Fold(es + EventsOf(r)).updated
  {
    DestroyedApart(live, es);
    hide UpdatesLive, Fold, EventsOf;
    RecordFold(es, r);
  }

  /** Polling twice and combining the answers: RFC 8620 section 5.2 composed over a..b..c. */
  function Combine(ab: Net, bc: Net): Net {
    Net((ab.created - bc.destroyed) + bc.created,
        (ab.updated - (bc.created + bc.destroyed)) + (bc.updated - ab.created),
        (ab.destroyed - bc.created) + bc.destroyed)
  }

  /** The id sets compose for every log, also one that no store of emails would write. */
  lemma {:induction false} CompositionOfIds(es: seq<Event>, fs: seq<Event>)
    ensures Fold(es + fs).created == Combine(Fold(es), Fold(fs)).created
    ensures Fold(es + fs).destroyed == Combine(Fold(es), Fold(fs)).destroyed
  {
    if fs == [] {
      assert es + fs == es;
    } else {
      var init, f := fs[..|fs| - 1], fs[|fs| - 1];
      assert es + fs == (es + init) + [f];
      FoldSnoc(es + init, f);
      CompositionOfIds(es, init);
    }
  }

  /** Deltas compose exactly: polling in two steps has the same net result as one jump. */
  lemma {:induction false} Composition(live: set<ID>, es: seq<Event>, fs: seq<Event>)
    requires Legal(live, es + fs)
    ensures Fold(es + fs) == Combine(Fold(es), Fold(fs))
  {
    CompositionOfIds(es, fs);
    if fs == [] {
      assert es + fs == es;
    } else {
      var init, f := fs[..|fs| - 1], fs[|fs| - 1];
      assert es + fs == (es + init) + [f];
      LegalSnoc(live, es + init, f);
      FoldSnoc(es + init, f);
      Composition(live, es, init);
      LegalConcat(live, es, init);
      LegalShape(live, es);
      LegalShape(LiveAfter(live, es), init);
      LegalShape(live, es + init);
      LiveConcat(live, es, init);
      Replay(LiveAfter(live, es), init);
      CombineAbsorb(LiveAfter(live, es + init), Fold(es), Fold(init), f);
    }
  }

  lemma CombineAbsorb(live: set<ID>, ab: Net, bc: Net, e: Event)
    requires Combine(ab, bc).created <= live && bc.created <= live && bc.destroyed !! live && LegalNext(live, e)
    requires ab.updated !! ab.created && ab.updated - bc.destroyed <= live
    ensures Absorb(Combine(ab, bc), e).updated == Combine(ab, Absorb(bc, e)).updated
  {
  }

  // ---------- the loops ----------

  lemma {:induction false} FoldOfAdded(es: seq<Event>, ids: seq<ID>)
    ensures var n := Fold(es);
            Fold(es + AddedEvents(ids)) == Net(n.created + Elems(ids), n.updated, n.destroyed - Elems(ids))
  {
    hide Fold;
    if ids == [] {
      assert es + AddedEvents(ids) == es && Elems(ids) == {};
    } else {
      var init, x := ids[..|ids| - 1], ids[|ids| - 1];
      assert ids == init + [x];
      FoldOfAdded(es, init);
      FoldSnoc(es + AddedEvents(init), Added(x));
      ElemsSnoc(init, x);
      assert es + AddedEvents(ids) == (es + AddedEvents(init)) + [Added(x)];
    }
  }

  lemma {:induction false} FoldOfUpdated(es: seq<Event>, ids: seq<ID>)
    ensures var n := Fold(es);
            Fold(es + UpdatedEvents(ids)) == n.(updated := n.updated + (Elems(ids) - n.created))
  {
    hide Fold;
    if ids == [] {
      assert es + UpdatedEvents(ids) == es && Elems(ids) == {};
    } else {
      var init, x := ids[..|ids| - 1], ids[|ids| - 1];
      assert ids == init + [x];
      FoldOfUpdated(es, init);
      FoldSnoc(es + UpdatedEvents(init), Updated(x));
      ElemsSnoc(init, x);
      assert es + UpdatedEvents(ids) == (es + UpdatedEvents(init)) + [Updated(x)];
    }
  }

  lemma {:induction false} FoldOfRemoved(es: seq<Event>, ids: seq<ID>)
    ensures var n := Fold(es);
            Fold(es + RemovedEvents(ids)) ==
            Net(n.created - Elems(ids), n.updated - Elems(ids), n.destroyed + Elems(ids))
  {
    hide Fold;
    if ids == [] {
      assert es + RemovedEvents(ids) == es && Elems(ids) == {};
    } else {
      var init, x := ids[..|ids| - 1], ids[|ids| - 1];
      assert ids == init + [x];
      FoldOfRemoved(es, init);
      FoldSnoc(es + RemovedEvents(init), Removed(x));
      ElemsSnoc(init, x);
      assert es + RemovedEvents(ids) == (es + RemovedEvents(init)) + [Removed(x)];
    }
  }

  /** What one more record does to the three sets, however often it names an id. */
  lemma RecordFold(es: seq<Event>, r: ChangeRecord)
    ensures var n, added, updated, removed := Fold(es), Elems(r.added), Elems(r.updated), Elems(r.removed);
            Fold(es + EventsOf(r)) ==
            Net((n.created + added) - removed,
                (n.updated + (updated - (n.created + added))) - removed,
                (n.destroyed - added) + removed)
  {
    FoldOfAdded(es, r.added);
    FoldOfUpdated(es + AddedEvents(r.added), r.updated);
    FoldOfRemoved(es + AddedEvents(r.added) + UpdatedEvents(r.updated), r.removed);
    ConcatThree(es, AddedEvents(r.added), UpdatedEvents(r.updated), RemovedEvents(r.removed));
  }

  /** `for _, id := range rec.Added` */
  method FoldAdded(n0: Net, ids: seq<ID>) returns (n: Net)
    ensures n == Net(n0.created + Elems(ids), n0.updated, n0.destroyed - Elems(ids))
  {
    n := n0;
    for i := 0 to |ids|
      invariant n == Net(n0.created + Elems(ids[..i]), n0.updated, n0.destroyed - Elems(ids[..i]))
    {
      assert ids[..i + 1] == ids[..i] + [ids[i]];
      ElemsSnoc(ids[..i], ids[i]);
      n := Net(n.created + {ids[i]}, n.updated, n.destroyed - {ids[i]});
    }
    assert ids[..|ids|] == ids;
  }

  /** `for _, id := range rec.Updated` */
  method FoldUpdated(n0: Net, ids: seq<ID>) returns (n: Net)
    ensures n == n0.(updated := n0.updated + (Elems(ids) - n0.created))
  {
    n := n0;
    for i := 0 to |ids|
      invariant n == n0.(updated := n0.updated + (Elems(ids[..i]) - n0.created))
    {
      assert ids[..i + 1] == ids[..i] + [ids[i]];
      ElemsSnoc(ids[..i], ids[i]);
      if ids[i] !in n.created {
        n := n.(updated := n.updated + {ids[i]});
      }
    }
    assert ids[..|ids|] == ids;
  }

  /** `for _, id := range rec.Removed` */
  method FoldRemoved(n0: Net, ids: seq<ID>) returns (n: Net)
    ensures n == Net(n0.created - Elems(ids), n0.updated - Elems(ids), n0.destroyed + Elems(ids))
  {
    n := n0;
    for i := 0 to |ids|
      invariant n == Net(n0.created - Elems(ids[..i]), n0.updated - Elems(ids[..i]), n0.destroyed + Elems(ids[..i]))
    {
      assert ids[..i + 1] == ids[..i] + [ids[i]];
      ElemsSnoc(ids[..i], ids[i]);
      n := Net(n.created - {ids[i]}, n.updated - {ids[i]}, n.destroyed + {ids[i]});
    }
    assert ids[..|ids|] == ids;
  }

  /** The body of the loop over versions. */
  method FoldRecord(n0: Net, r: ChangeRecord, ghost es: seq<Event>) returns (n: Net)
    requires n0 == Fold(es)
    ensures n == Fold(es + EventsOf(r))
  {
    hide Fold, EventsOf, Elems;
    n := FoldAdded(n0, r.added);
    n := FoldUpdated(n, r.updated);
    n := FoldRemoved(n, r.removed);
    RecordFold(es, r);
  }

  lemma ConcatThree<T>(a: seq<T>, b: seq<T>, c: seq<T>, d: seq<T>)
    ensures a + b + c + d == a + (b + c + d)
  {
  }

  /** The loop over the versions after `since`; it gives up at the first missing record. */
  method FoldWindow(log: Log, since: int, cur: int) returns (r: Option<Net>)
    requires since <= cur
    ensures r.Some? <==> Covers(log, since, cur)
    ensures r.Some? ==> r.value == Fold(Window(log, since, cur))
  {
    var n := Net({}, {}, {});
    for v := since to cur
      invariant Covers(log, since, v)
      invariant n == Fold(Window(log, since, v))
    {
      if v + 1 !in log {
        return None;
      }
      n := FoldRecord(n, log[v + 1], Window(log, since, v));
    }
    return Some(n);
  }

  // ---------- the loops of the queryChanges handlers ----------

  /** The body of the loop of `HandleQueryChanges`: it skips the updated ids of a record. */
  method FoldQueryRecord(added0: set<ID>, removed0: set<ID>, r: ChangeRecord, ghost es: seq<Event>)
    returns (added: set<ID>, removed: set<ID>)
    requires added0 == Fold(es).created && removed0 == Fold(es).destroyed
    ensures added == Fold(es + EventsOf(r)).created && removed == Fold(es + EventsOf(r)).destroyed
  {
    hide Fold, EventsOf;
    added, removed := added0, removed0;
    for i := 0 to |r.added|
      invariant added == added0 + Elems(r.added[..i]) && removed == removed0 - Elems(r.added[..i])
    {
      assert r.added[..i + 1] == r.added[..i] + [r.added[i]];
      ElemsSnoc(r.added[..i], r.added[i]);
      added := added + {r.added[i]};
      removed := removed - {r.added[i]};
    }
    assert r.added[..|r.added|] == r.added;
    ghost var added1, removed1 := added, removed;
    for i := 0 to |r.removed|
      invariant added == added1 - Elems(r.removed[..i]) && removed == removed1 + Elems(r.removed[..i])
    {
      assert r.removed[..i + 1] == r.removed[..i] + [r.removed[i]];
      ElemsSnoc(r.removed[..i], r.removed[i]);
      removed := removed + {r.removed[i]};
      added := added - {r.removed[i]};
    }
    assert r.removed[..|r.removed|] == r.removed;
    RecordFold(es, r);
  }

  /** The loop of `HandleQueryChanges`: the same two sets that `Foo/changes` reports. */
  method FoldQueryWindow(log: Log, since: int, cur: int) returns (r: Option<(set<ID>, set<ID>)>)
    requires since <= cur
    ensures r.Some? <==> Covers(log, since, cur)
    ensures r.Some? ==> r.value.0 == Fold(Window(log, since, cur)).created
    ensures r.Some? ==> r.value.1 == Fold(Window(log, since, cur)).destroyed
  {
    var added: set<ID>, removed: set<ID> := {}, {};
    for v := since to cur
      invariant Covers(log, since, v)
      invariant added == Fold(Window(log, since, v)).created
      invariant removed == Fold(Window(log, since, v)).destroyed
    {
      if v + 1 !in log {
        return None;
      }
      added, removed := FoldQueryRecord(added, removed, log[v + 1], Window(log, since, v));
    }
    return Some((added, removed));
  }
}
