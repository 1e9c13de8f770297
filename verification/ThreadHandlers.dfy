/** The listings of thread.go: which emails a thread has, in which order, and Thread/changes. */
module ThreadHandlers {
  import opened Prelude
  import opened Text
  import opened Slices
  import opened Delta
  import opened Journal
  import opened Mail
  import opened Threads
  import opened Stores
  import opened EmailHandlers

  /** `time.Time{}`, which stands for a missing receivedAt. */
  const ZERO_TIME := 0

  function TimeOf(m: Meta): int {
    if m.receivedAt.Some? then m.receivedAt.value else ZERO_TIME
  }

  /** `a` was not received after `b`; an email without a time counts as received at the zero time. */
  predicate NotAfter(a: Meta, b: Meta) {
    match (a.receivedAt, b.receivedAt)
    case (Some(x), Some(y)) => x <= y
    case (None, Some(y)) => 0 <= y
    case (Some(x), None) => x <= 0
    case (None, None) => true
  }

  lemma TimeMeans(a: Meta, b: Meta)
    ensures TimeOf(a) <= TimeOf(b) <==> NotAfter(a, b)
  {
  }

  datatype Entry = Entry(id: ID, at: int)

  datatype Thread = Thread(id: ID, emailIds: seq<ID>)

  // ---------- sort.Slice ----------

  predicate OldestFirst(s: seq<Entry>) {
    forall i, j :: 0 <= i < j < |s| ==> s[i].at <= s[j].at
  }

  function EntryIds(s: seq<Entry>): (ids: seq<ID>)
    ensures |ids| == |s|
  {
    seq(|s|, i requires 0 <= i < |s| => s[i].id)
  }

  /** `sort.Slice` by time; entries of one time may come in any order. */
  method SortOldestFirst(s: seq<Entry>) returns (r: seq<Entry>)
    ensures OldestFirst(r) && multiset(r) == multiset(s)
  {
    r := [];
    for i := 0 to |s|
      invariant OldestFirst(r) && multiset(r) == multiset(s[..i])
    {
      assert s[..i + 1] == s[..i] + [s[i]];
      r := InsertByTime(r, s[i]);
    }
    assert s[..|s|] == s;
  }

  method InsertByTime(s: seq<Entry>, e: Entry) returns (r: seq<Entry>)
    requires OldestFirst(s)
    ensures OldestFirst(r) && multiset(r) == multiset(s) + multiset{e}
  {
    hide OldestFirst;
    var k := 0;
    while k < |s| && s[k].at <= e.at
      invariant 0 <= k <= |s|
      invariant forall j :: 0 <= j < k ==> s[j].at <= e.at
    {
      k := k + 1;
    }
    r := s[..k] + [e] + s[k..];
    InsertedInOrder(s, k, e);
    InsertedOnce(s, k, e);
  }

  lemma InsertedInOrder(s: seq<Entry>, k: nat, e: Entry)
    requires k <= |s| && OldestFirst(s)
    requires (forall j :: 0 <= j < k ==> s[j].at <= e.at) && (k < |s| ==> e.at <= s[k].at)
    ensures OldestFirst(s[..k] + [e] + s[k..])
  {
    var r := s[..k] + [e] + s[k..];
    forall i, j | 0 <= i < j < |r|
      ensures r[i].at <= r[j].at
    {
      assert r[i] == if i < k then s[i] else if i == k then e else s[i - 1];
      assert r[j] == if j < k then s[j] else if j == k then e else s[j - 1];
    }
  }

  lemma InsertedOnce(s: seq<Entry>, k: nat, e: Entry)
    requires k <= |s|
    ensures multiset(s[..k] + [e] + s[k..]) == multiset(s) + multiset{e}
  {
    assert s == s[..k] + s[k..];
  }

  /** Two enumerations of one set in strictly increasing order are one. */
  lemma {:induction false} StrictOrderUnique(at: map<ID, int>, a: seq<ID>, b: seq<ID>)
    requires |a| == |b| && Elems(a) == Elems(b) && Increasing(at, a) && Increasing(at, b)
    ensures a == b
  {
    if a == [] {
    } else {
      hide Elems, Increasing;
      var n := |a| - 1;
      SameLast(at, a, b);
      InitOf(at, a);
      InitOf(at, b);
      StrictOrderUnique(at, a[..n], b[..n]);
      assert a == a[..n] + [a[n]] && b == b[..n] + [b[n]];
    }
  }

  predicate Increasing(at: map<ID, int>, ids: seq<ID>) {
    && (forall i :: 0 <= i < |ids| ==> ids[i] in at)
    && (forall i, j :: 0 <= i < j < |ids| ==> at[ids[i]] < at[ids[j]])
  }

  lemma SameLast(at: map<ID, int>, a: seq<ID>, b: seq<ID>)
    requires |a| == |b| > 0 && Elems(a) == Elems(b) && Increasing(at, a) && Increasing(at, b)
    ensures a[|a| - 1] == b[|b| - 1]
  {
    var x, y := a[|a| - 1], b[|b| - 1];
    assert x in Elems(b) && y in Elems(a);
    var i :| 0 <= i < |b| && b[i] == x;
    var j :| 0 <= j < |a| && a[j] == y;
    assert at[x] <= at[y] <= at[x];
    assert i == |b| - 1;
  }

  lemma InitOf(at: map<ID, int>, a: seq<ID>)
    requires a != [] && Increasing(at, a)
    ensures Increasing(at, a[..|a| - 1]) && Elems(a[..|a| - 1]) == Elems(a) - {a[|a| - 1]}
  {
    var init, x := a[..|a| - 1], a[|a| - 1];
    assert a == init + [x];
    ElemsSnoc(init, x);
    assert x !in init;
  }

  // ---------- grouping ----------

  function Members(metas: Metas, tid: ID): set<ID> {
    set id | id in metas && metas[id].threadId == tid
  }

  /** `entries` are the emails of the thread, each once, with their times. */
  predicate EntriesOf(metas: Metas, tid: ID, entries: seq<Entry>) {
    && IsOrder(EntryIds(entries), Members(metas, tid))
    && forall i :: 0 <= i < |entries| ==> entries[i].id in metas && entries[i].at == TimeOf(metas[entries[i].id])
  }

  /** `ids` are the emails of the thread, each once, oldest first (section 3 of RFC 8621). */
  predicate IsListing(metas: Metas, tid: ID, ids: seq<ID>) {
    && IsOrder(ids, Members(metas, tid))
    && (forall i :: 0 <= i < |ids| ==> ids[i] in metas)
    && (forall i, j :: 0 <= i < j < |ids| ==> TimeOf(metas[ids[i]]) <= TimeOf(metas[ids[j]]))
  }

  lemma ListingMeans(metas: Metas, tid: ID, ids: seq<ID>)
    ensures IsListing(metas, tid, ids) <==>
            && NoDup(ids)
            && (forall id :: id in ids <==> id in metas && metas[id].threadId == tid)
            && (forall i, j | 0 <= i < j < |ids| && ids[i] in metas && ids[j] in metas ::
                  NotAfter(metas[ids[i]], metas[ids[j]]))
  {
    forall a: Meta, b: Meta
      ensures TimeOf(a) <= TimeOf(b) <==> NotAfter(a, b)
    {
      TimeMeans(a, b);
    }
    hide TimeOf, NotAfter;
    assert forall id :: id in ids <==> id in Elems(ids);
    assert forall id :: id in Members(metas, tid) <==> id in metas && metas[id].threadId == tid;
    if forall id :: id in ids <==> id in metas && metas[id].threadId == tid {
      assert Elems(ids) == Members(metas, tid);
    }
  }

  ghost predicate Grouped(metas: Metas, groups: map<ID, seq<Entry>>) {
    && (forall tid :: tid in groups ==> tid != "" && groups[tid] != [] && EntriesOf(metas, tid, groups[tid]))
    && (forall id :: id in metas && metas[id].threadId != "" ==> metas[id].threadId in groups)
  }

  lemma EntriesSnoc(metas: Metas, tid: ID, entries: seq<Entry>, id: ID, m: Meta)
    requires id !in metas && EntriesOf(metas, tid, entries)
    ensures EntriesOf(metas[id := m], tid, if m.threadId == tid then entries + [Entry(id, TimeOf(m))] else entries)
  {
    var metas' := metas[id := m];
    assert forall i :: 0 <= i < |entries| ==> EntryIds(entries)[i] in Elems(EntryIds(entries));
    if m.threadId == tid {
      var entries' := entries + [Entry(id, TimeOf(m))];
      assert EntryIds(entries') == EntryIds(entries) + [id];
      ElemsSnoc(EntryIds(entries), id);
      assert Members(metas', tid) == Members(metas, tid) + {id};
      assert id !in EntryIds(entries);
    } else {
      assert Members(metas', tid) == Members(metas, tid);
    }
  }

  lemma GroupedNext(metas: Metas, groups: map<ID, seq<Entry>>, id: ID, m: Meta)
    requires id !in metas && Grouped(metas, groups)
    ensures Grouped(metas[id := m],
              if m.threadId == "" then groups
              else groups[m.threadId := (if m.threadId in groups then groups[m.threadId] else [])
                                         + [Entry(id, TimeOf(m))]])
  {
    hide EntriesOf;
    forall tid | tid in groups
      ensures EntriesOf(metas[id := m], tid,
                        if m.threadId == tid then groups[tid] + [Entry(id, TimeOf(m))] else groups[tid])
    {
      EntriesSnoc(metas, tid, groups[tid], id, m);
    }
    if m.threadId != "" && m.threadId !in groups {
      NoEntries(metas, m.threadId);
      EntriesSnoc(metas, m.threadId, [], id, m);
    }
  }

  lemma NoEntries(metas: Metas, tid: ID)
    requires forall id :: id in metas ==> metas[id].threadId != tid
    ensures EntriesOf(metas, tid, [])
  {
    assert Members(metas, tid) == {} && EntryIds([]) == [];
  }

  method GroupByThread(metas: Metas) returns (groups: map<ID, seq<Entry>>)
    ensures Grouped(metas, groups)
  {
    hide Grouped, IsOrder;
    groups := map[];
    var rest := metas.Keys;
    NothingGrouped();
    assert metas - rest == map[];
    while rest != {}
      invariant rest <= metas.Keys
      invariant Grouped(metas - rest, groups)
    {
      var id :| id in rest;
      var tid := metas[id].threadId;
      GroupedNext(metas - rest, groups, id, metas[id]);
      assert metas - (rest - {id}) == (metas - rest)[id := metas[id]];
      if tid != "" {
        groups := groups[tid := (if tid in groups then groups[tid] else []) + [Entry(id, TimeOf(metas[id]))]];
      }
      rest := rest - {id};
    }
    assert metas - rest == metas;
  }

  lemma NothingGrouped()
    ensures Grouped(map[], map[])
  {
  }

  // ---------- listings ----------

  lemma {:induction false} SameEntriesSameIds(r: seq<Entry>, s: seq<Entry>)
    requires multiset(r) == multiset(s)
    ensures Elems(EntryIds(r)) == Elems(EntryIds(s))
  {
    forall id
      ensures id in Elems(EntryIds(r)) <==> id in Elems(EntryIds(s))
    {
      if id in EntryIds(r) {
        var i :| 0 <= i < |r| && EntryIds(r)[i] == id;
        assert r[i] in multiset(s);
        var k :| 0 <= k < |s| && s[k] == r[i];
        assert EntryIds(s)[k] == id;
      }
      if id in EntryIds(s) {
        var i :| 0 <= i < |s| && EntryIds(s)[i] == id;
        assert s[i] in multiset(r);
        var k :| 0 <= k < |r| && r[k] == s[i];
        assert EntryIds(r)[k] == id;
      }
    }
  }

  /** As many entries as distinct ids: no id twice. */
  lemma {:induction false} CountedOnce(ids: seq<ID>)
    requires |Elems(ids)| == |ids|
    ensures NoDup(ids)
  {
    if ids == [] {
    } else {
      var init, x := ids[..|ids| - 1], ids[|ids| - 1];
      assert ids == init + [x];
      ElemsSnoc(init, x);
      ElemsAtMost(init);
      assert x !in Elems(init);
      CountedOnce(init);
    }
  }

  lemma {:induction false} ElemsAtMost(ids: seq<ID>)
    ensures |Elems(ids)| <= |ids|
  {
    if ids == [] {
    } else {
      var init, x := ids[..|ids| - 1], ids[|ids| - 1];
      assert ids == init + [x];
      ElemsSnoc(init, x);
      ElemsAtMost(init);
    }
  }

  lemma SortedIsListing(metas: Metas, tid: ID, entries: seq<Entry>, sorted: seq<Entry>)
    requires EntriesOf(metas, tid, entries) && OldestFirst(sorted) && multiset(sorted) == multiset(entries)
    ensures IsListing(metas, tid, EntryIds(sorted)) && |sorted| == |entries|
  {
    SameEntriesSameIds(sorted, entries);
    assert |sorted| == |multiset(sorted)| == |multiset(entries)| == |entries|;
    NoDupCount(EntryIds(entries));
    CountedOnce(EntryIds(sorted));
    forall i | 0 <= i < |sorted|
      ensures sorted[i].id in metas && sorted[i].at == TimeOf(metas[sorted[i].id])
    {
      assert sorted[i] in multiset(entries);
    }
  }

  /** Sort a group and take the ids. */
  method ListGroup(metas: Metas, ghost tid: ID, entries: seq<Entry>) returns (ids: seq<ID>)
    requires EntriesOf(metas, tid, entries)
    ensures IsListing(metas, tid, ids) && |ids| == |entries|
  {
    var sorted := SortOldestFirst(entries);
    SortedIsListing(metas, tid, entries, sorted);
    ids := EntryIds(sorted);
  }

  function AllThreadIds(metas: Metas): set<ID> {
    set id | id in metas && metas[id].threadId != "" :: metas[id].threadId
  }

  function ThreadIds(threads: seq<Thread>): seq<ID> {
    seq(|threads|, i requires 0 <= i < |threads| => threads[i].id)
  }

  /** Every thread once, each with its listing. */
  ghost predicate Enumerates(metas: Metas, threads: seq<Thread>) {
    && IsOrder(ThreadIds(threads), AllThreadIds(metas))
    && forall i :: 0 <= i < |threads| ==> IsListing(metas, threads[i].id, threads[i].emailIds)
  }

  lemma GroupKeys(metas: Metas, groups: map<ID, seq<Entry>>)
    requires Grouped(metas, groups)
    ensures groups.Keys == AllThreadIds(metas)
  {
    forall tid | tid in groups
      ensures tid in AllThreadIds(metas)
    {
      GroupExists(metas, groups, tid);
      var id :| id in Members(metas, tid);
    }
  }

  method AllThreads(s: Store) returns (threads: seq<Thread>)
    ensures Enumerates(s.Metas(), threads)
  {
    hide IsListing, EntriesOf, IsOrder, AllThreadIds, Store.Metas;
    var metas := s.Metas();
    var groups := GroupByThread(metas);
    GroupKeys(metas, groups);
    threads := [];
    var rest := groups.Keys;
    OrderNone<ID>();
    assert ThreadIds(threads) == [] && groups.Keys - rest == {};
    while rest != {}
      invariant rest <= groups.Keys
      invariant IsOrder(ThreadIds(threads), groups.Keys - rest)
      invariant forall i :: 0 <= i < |threads| ==> IsListing(metas, threads[i].id, threads[i].emailIds)
    {
      var tid :| tid in rest;
      var ids := ListGroup(metas, tid, groups[tid]);
      OrderSnoc(ThreadIds(threads), groups.Keys - rest, tid);
      assert ThreadIds(threads + [Thread(tid, ids)]) == ThreadIds(threads) + [tid];
      assert (groups.Keys - rest) + {tid} == groups.Keys - (rest - {tid});
      threads := threads + [Thread(tid, ids)];
      rest := rest - {tid};
    }
    assert groups.Keys - rest == groups.Keys && metas == s.Metas();
  }

  /** `id` is the k-th email of the i-th thread. */
  predicate ListedAt(threads: seq<Thread>, id: ID, i: int, k: int) {
    0 <= i < |threads| && 0 <= k < |threads[i].emailIds| && threads[i].emailIds[k] == id
  }

  /** The threads partition the emails that have one: each is listed at exactly one place. */
  lemma ThreadsPartition(metas: Metas, threads: seq<Thread>, id: ID)
    requires Enumerates(metas, threads) && id in metas && metas[id].threadId != ""
    ensures exists i, k :: ListedAt(threads, id, i, k)
    ensures forall i, k, i', k' :: ListedAt(threads, id, i, k) && ListedAt(threads, id, i', k') ==> i == i' && k == k'
  {
    assert metas[id].threadId in Elems(ThreadIds(threads));
    var i :| 0 <= i < |threads| && ThreadIds(threads)[i] == metas[id].threadId;
    assert id in Members(metas, threads[i].id);
    assert id in Elems(threads[i].emailIds);
    var k :| 0 <= k < |threads[i].emailIds| && threads[i].emailIds[k] == id;
    assert ListedAt(threads, id, i, k);
    forall a, b | ListedAt(threads, id, a, b)
      ensures a == i && b == k
    {
      assert id in Elems(threads[a].emailIds);
      assert id in Members(metas, threads[a].id);
      assert ThreadIds(threads)[a] == ThreadIds(threads)[i];
    }
  }

  method AllForThread(s: Store, tid: ID) returns (out: seq<StoredEmail>)
    requires s.Valid()
    ensures IsListing(s.Metas(), tid, seq(|out|, i requires 0 <= i < |out| => out[i].meta.id))
    ensures forall i :: 0 <= i < |out| ==> out[i].meta.id in s.msgs && s.msgs[out[i].meta.id] == out[i]
  {
    var metas := s.Metas();
    var entries: seq<Entry> := [];
    var rest := metas.Keys;
    NoEntries(metas - rest, tid);
    while rest != {}
      invariant rest <= metas.Keys
      invariant EntriesOf(metas - rest, tid, entries)
    {
      var id :| id in rest;
      EntriesSnoc(metas - rest, tid, entries, id, metas[id]);
      assert metas - (rest - {id}) == (metas - rest)[id := metas[id]];
      if metas[id].threadId == tid {
        entries := entries + [Entry(id, TimeOf(metas[id]))];
      }
      rest := rest - {id};
    }
    assert metas - rest == metas;
    var ids := ListGroup(metas, tid, entries);
    out := seq(|ids|, i requires 0 <= i < |ids| reads s =>
      if ids[i] in s.msgs then s.msgs[ids[i]] else StoredEmail(metas[ids[i]], null, null));
    assert seq(|out|, i requires 0 <= i < |out| => out[i].meta.id) == ids;
  }

  predicate HasThread(metas: Metas, tid: ID) {
    tid != "" && Members(metas, tid) != {}
  }

  /** The positions of the requested ids that are (or are not) threads. */
  ghost function At(metas: Metas, ids: seq<ID>, found: bool): set<int> {
    set i | 0 <= i < |ids| && HasThread(metas, ids[i]) == found
  }

  lemma AtMeans(metas: Metas, ids: seq<ID>)
    ensures forall i :: 0 <= i < |ids| ==>
              (i in At(metas, ids, true) <==> HasThread(metas, ids[i])) &&
              (i in At(metas, ids, false) <==> !HasThread(metas, ids[i]))
    ensures forall t :: HasThread(metas, t) <==> t != "" && exists id :: id in metas && metas[id].threadId == t
  {
    forall t
      ensures Members(metas, t) != {} <==> exists id :: id in metas && metas[id].threadId == t
    {
      if id :| id in metas && metas[id].threadId == t {
        assert id in Members(metas, t);
      }
    }
  }

  /** Thread/get: the known threads with their listings and the unknown ids, in request order. */
  method HandleThreadGet(s: Store, ids: seq<ID>) returns (list: seq<Thread>, notFound: seq<ID>, state: string)
    ensures forall k :: 0 <= k < |list| ==> IsListing(s.Metas(), list[k].id, list[k].emailIds) && list[k].emailIds != []
    ensures Selects(ThreadIds(list), ids, At(s.Metas(), ids, true))
    ensures Selects(notFound, ids, At(s.Metas(), ids, false))
    ensures state == FormatInt(s.state)
  {
    hide IsListing, EntriesOf, FormatInt, Selects, At;
    var metas := s.Metas();
    var groups := GroupByThread(metas);
    list, notFound := [], [];
    AtMeans(metas, ids);
    SelectsNone<ID>(At(metas, ids, true));
    SelectsNone<ID>(At(metas, ids, false));
    assert ThreadIds(list) == [];
    for i := 0 to |ids|
      invariant forall k :: 0 <= k < |list| ==> IsListing(metas, list[k].id, list[k].emailIds) && list[k].emailIds != []
      invariant Selects(ThreadIds(list), ids[..i], At(metas, ids, true))
      invariant Selects(notFound, ids[..i], At(metas, ids, false))
    {
      assert ids[..i + 1] == ids[..i] + [ids[i]];
      GroupExists(metas, groups, ids[i]);
      if ids[i] !in groups {
        SelectsSkip(ThreadIds(list), ids[..i], At(metas, ids, true), ids[i]);
        SelectsTake(notFound, ids[..i], At(metas, ids, false), ids[i]);
        notFound := notFound + [ids[i]];
      } else {
        var emailIds := ListGroup(metas, ids[i], groups[ids[i]]);
        SelectsTake(ThreadIds(list), ids[..i], At(metas, ids, true), ids[i]);
        SelectsSkip(notFound, ids[..i], At(metas, ids, false), ids[i]);
        assert ThreadIds(list + [Thread(ids[i], emailIds)]) == ThreadIds(list) + [ids[i]];
        list := list + [Thread(ids[i], emailIds)];
      }
    }
    assert ids[..|ids|] == ids;
    state := FormatInt(s.state);
  }

  lemma GroupExists(metas: Metas, groups: map<ID, seq<Entry>>, tid: ID)
    requires Grouped(metas, groups)
    ensures tid in groups <==> HasThread(metas, tid)
  {
    if tid in groups {
      assert EntryIds(groups[tid])[0] in Elems(EntryIds(groups[tid]));
    }
    if HasThread(metas, tid) {
      var id :| id in Members(metas, tid);
      assert metas[id].threadId in groups;
    }
  }

  /** Two listings of one thread are permutations of each other, and equal if no two of its emails
      were received at the same time. */
  lemma ListingsAgree(metas: Metas, tid: ID, a: seq<ID>, b: seq<ID>)
    requires IsListing(metas, tid, a) && IsListing(metas, tid, b)
    ensures |a| == |b| && Elems(a) == Elems(b)
    ensures (forall x, y :: x in Members(metas, tid) && y in Members(metas, tid) && x != y ==>
               TimeOf(metas[x]) != TimeOf(metas[y])) ==> a == b
  {
    NoDupCount(a);
    NoDupCount(b);
    if forall x, y :: x in Members(metas, tid) && y in Members(metas, tid) && x != y ==>
         TimeOf(metas[x]) != TimeOf(metas[y]) {
      assert forall i :: 0 <= i < |a| ==> a[i] in Elems(a);
      assert forall i :: 0 <= i < |b| ==> b[i] in Elems(b);
      var at := map id | id in metas :: TimeOf(metas[id]);
      StrictOrderUnique(at, a, b);
    }
  }

  // ---------- Thread/changes ----------

  method AddIds(ids0: set<ID>, more: seq<ID>) returns (ids: set<ID>)
    ensures ids == ids0 + Elems(more)
  {
    ids := ids0;
    for i := 0 to |more|
      invariant ids == ids0 + Elems(more[..i])
    {
      assert more[..i + 1] == more[..i] + [more[i]];
      ElemsSnoc(more[..i], more[i]);
      ids := ids + {more[i]};
    }
    assert more[..|more|] == more;
  }

  lemma MentionedInRecord(r: ChangeRecord, id: ID)
    ensures Mentioned(EventsOf(r), id) <==> id in Elems(r.added) + Elems(r.updated) + Elems(r.removed)
  {
    var es := EventsOf(r);
    if id in r.added {
      var i :| 0 <= i < |r.added| && r.added[i] == id;
      assert AddedEvents(r.added)[i] == Added(id);
    }
    if id in r.updated {
      var i :| 0 <= i < |r.updated| && r.updated[i] == id;
      assert UpdatedEvents(r.updated)[i] == Updated(id);
    }
    if id in r.removed {
      var i :| 0 <= i < |r.removed| && r.removed[i] == id;
      assert RemovedEvents(r.removed)[i] == Removed(id);
    }
  }

  /** The ids that any record of the window mentions. */
  method CollectWindow(log: Log, since: int, cur: int) returns (r: Option<set<ID>>)
    requires since <= cur
    ensures r.Some? <==> Covers(log, since, cur)
    ensures r.Some? ==> forall id :: id in r.value <==> Mentioned(Window(log, since, cur), id)
  {
    hide Mentioned, EventsOf;
    var ids: set<ID> := {};
    NothingIsMentioned();
    for v := since to cur
      invariant Covers(log, since, v)
      invariant forall id :: id in ids <==> Mentioned(Window(log, since, v), id)
    {
      if v + 1 !in log {
        return None;
      }
      var rec := log[v + 1];
      ghost var before := ids;
      ids := AddIds(ids, rec.added);
      ids := AddIds(ids, rec.updated);
      ids := AddIds(ids, rec.removed);
      forall id
        ensures id in ids <==> Mentioned(Window(log, since, v + 1), id)
      {
        MentionedConcat(Window(log, since, v), EventsOf(rec), id);
        MentionedInRecord(rec, id);
        assert id in ids <==> id in before || id in Elems(rec.added) + Elems(rec.updated) + Elems(rec.removed);
      }
    }
    return Some(ids);
  }

  /** The threads of the given emails that are still stored. */
  function ThreadsOf(metas: Metas, ids: set<ID>): set<ID> {
    set id | id in ids && id in metas && metas[id].threadId != "" :: metas[id].threadId
  }

  /** The second loop of Thread/changes: from changed emails to threads. */
  method CollectThreads(metas: Metas, changed: set<ID>) returns (threads: set<ID>)
    ensures threads == ThreadsOf(metas, changed)
  {
    threads := {};
    var rest := changed;
    while rest != {}
      invariant rest <= changed
      invariant threads == ThreadsOf(metas, changed - rest)
    {
      var id :| id in rest;
      assert changed - (rest - {id}) == (changed - rest) + {id};
      if id in metas && metas[id].threadId != "" {
        threads := threads + {metas[id].threadId};
      }
      rest := rest - {id};
    }
    assert changed - rest == changed;
  }

  /** Thread/changes reports as updated exactly the threads of the emails that Email/changes reports
      as created or updated since the same state, and is refused for the same states. */
  method HandleThreadChanges(s: Store, sinceState: string) returns (r: Result<Changes>)
    requires s.Valid()
    ensures r.Ok? <==> InRange(sinceState, s.origin.version, s.state)
    ensures r.Err? ==> r.error == "cannotCalculateChanges"
    ensures r.Ok? ==>
              var n := ChangesBetween(s.EmailJournal(), s.origin, ParseInt(sinceState).value, s.state);
              && NoDup(r.value.updated)
              && (forall t :: t in r.value.updated <==>
                    t != "" &&
                    exists id :: id in n.created + n.updated && id in s.msgs && s.msgs[id].meta.threadId == t)
              && r.value.created == [] && r.value.destroyed == []
              && r.value.oldState == sinceState && r.value.newState == FormatInt(s.state)
  {
    hide ParseInt, FormatInt, Faithful, LegalLog, LiveAfter, Fold, Mentioned, IsOrder;
    var since := ParseInt(sinceState);
    if since.None? || since.value < 0 {
      OriginVersion(s.EmailJournal(), s.origin);
      return Err(CANNOT_CALCULATE);
    }
    var cur := s.state;
    if since.value > cur {
      return Err(CANNOT_CALCULATE);
    }
    CoversExactly(s.EmailJournal(), s.origin, since.value);
    var changed := CollectWindow(s.changes, since.value, cur);
    if changed.None? {
      return Err(CANNOT_CALCULATE);
    }
    var threads := CollectThreads(s.Metas(), changed.value);
    ChangedThreads(s, since.value, changed.value);
    var updated := ListKeys(threads);
    UpdatedThreads(s, ChangesBetween(s.EmailJournal(), s.origin, since.value, cur), updated);
    return Ok(Changes(sinceState, FormatInt(cur), [], updated, []));
  }

  lemma UpdatedThreads(s: Store, n: Net, updated: seq<ID>)
    requires IsOrder(updated, ThreadsOf(s.Metas(), n.created + n.updated))
    ensures NoDup(updated)
    ensures forall t :: t in updated <==>
              t != "" && exists id :: id in n.created + n.updated && id in s.msgs && s.msgs[id].meta.threadId == t
  {
    assert forall t :: t in updated <==> t in Elems(updated);
  }

  lemma ChangedThreads(s: Store, since: int, changed: set<ID>)
    requires s.Valid() && s.origin.version <= since <= s.state && Covers(s.changes, since, s.state)
    requires forall id :: id in changed <==> Mentioned(Window(s.changes, since, s.state), id)
    ensures var n := ChangesBetween(s.EmailJournal(), s.origin, since, s.state);
            ThreadsOf(s.Metas(), changed) == ThreadsOf(s.Metas(), n.created + n.updated)
  {
    hide Mentioned, Fold, Legal, LiveAfter, Window;
    var j := s.EmailJournal();
    var n := ChangesBetween(j, s.origin, since, s.state);
    LegalBetween(j, s.origin, since, s.state);
    IdsSplit(j, s.origin, since, s.state);
    ReplayBetween(j, s.origin, since, s.state);
    forall id | id in s.msgs
      ensures id in changed <==> id in n.created + n.updated
    {
      MentionedIsFetched(IdsAt(j, s.origin, since), Window(s.changes, since, s.state), id);
    }
  }

  // ---------- which listings a client may keep ----------

  predicate SamePlace(a: Meta, b: Meta) {
    a.threadId == b.threadId && TimeOf(a) == TimeOf(b)
  }

  /** The mutation moves no stored email to another thread or time; only an overwriting `Put` could. */
  predicate LeavesPlace(s: Mail, op: Op) {
    Overwrites(s, op) ==> SamePlace(op.m.meta, s.msgs[op.m.meta.id].meta)
  }

  predicate NoMoves(s: Mail, ops: seq<Op>) {
    forall i :: 0 <= i < |ops| ==> LeavesPlace(Exec(s, ops[..i]), ops[i])
  }

  /** The id came or went. */
  predicate CameOrWent(es: seq<Event>, id: ID) {
    Added(id) in es || Removed(id) in es
  }

  ghost predicate StaysInPlace(before: map<ID, Email>, after: map<ID, Email>, id: ID) {
    && (id in after <==> id in before)
    && (id in before && id in after ==> SamePlace(after[id].meta, before[id].meta))
  }

  lemma StepKeepsPlace(s: Mail, op: Op, id: ID)
    requires Enabled(s, op) && LeavesPlace(s, op)
    ensures !CameOrWent(Logged(s, op), id) ==> StaysInPlace(s.msgs, Do(s, op).msgs, id)
  {
    hide PatchedEmail, PatchedKeywords, EventsOf, TimeOf;
    MetaAfter(s, op);
    LoggedEvents(s, op, id);
  }

  /** What the mutation logs when the id comes or goes. */
  lemma LoggedEvents(s: Mail, op: Op, id: ID)
    requires Enabled(s, op)
    ensures id in s.msgs && id !in Do(s, op).msgs ==> CameOrWent(Logged(s, op), id)
    ensures id !in s.msgs && id in Do(s, op).msgs ==> CameOrWent(Logged(s, op), id)
  {
    if (id in s.msgs) != (id in Do(s, op).msgs) {
      hide Mentioned;
      UnmentionedStep(s, op, id);
      OnlyPatchesUpdate(s, op, id);
    }
  }

  /** A mutation that logs an update leaves the ids alone. */
  lemma OnlyPatchesUpdate(s: Mail, op: Op, id: ID)
    requires Enabled(s, op)
    ensures Mentioned(Logged(s, op), id) && !CameOrWent(Logged(s, op), id) ==> Do(s, op).msgs.Keys == s.msgs.Keys
  {
    if Mentioned(Logged(s, op), id) && !CameOrWent(Logged(s, op), id) {
      assert Updated(id) in Logged(s, op);
      assert op.PatchEmail? || op.PatchKeywords?;
    }
  }

  /** Over a run that moves nothing, an email that neither came nor went is where it was. */
  lemma {:induction false} RunKeepsPlace(s: Mail, ops: seq<Op>, o: Origin, id: ID)
    requires Inv(s, o) && Runnable(s, ops) && NoMoves(s, ops)
    ensures Inv(Exec(s, ops), o) && s.state <= Exec(s, ops).state
    ensures var t := Exec(s, ops);
            !CameOrWent(Window(t.log, s.state, t.state), id) ==> StaysInPlace(s.msgs, t.msgs, id)
  {
    hide LegalLog, LiveAfter, Legal, Window, Do, Logged, LeavesPlace, TimeOf;
    RunKeeps(s, ops, o);
    if ops == [] {
    } else {
      var init, op := ops[..|ops| - 1], ops[|ops| - 1];
      var r := Exec(s, init);
      assert forall i :: 0 <= i < |init| ==> init[..i] == ops[..i];
      RunKeepsPlace(s, init, o, id);
      assert ops[..|init|] == init;
      WindowAfter(r, op, s.state, o);
      StepKeepsPlace(r, op, id);
    }
  }

  /** A listing of a thread that Thread/changes does not report is still right exactly if none of its
      emails was destroyed or came back elsewhere: the handler looks at removed ids only where they are
      stored again, and never reports a thread as destroyed. */
  lemma UnreportedListing(s: Mail, ops: seq<Op>, o: Origin, tid: ID, ids: seq<ID>)
    requires Inv(s, o) && Runnable(s, ops) && NoMoves(s, ops)
    requires tid != "" && IsListing(MetasOf(s.msgs), tid, ids)
    ensures var t := Exec(s, ops);
            && Covers(t.log, s.state, t.state)
            && var n := DeltaSince(s, t);
            tid !in ThreadsOf(MetasOf(t.msgs), n.created + n.updated) ==>
              (IsListing(MetasOf(t.msgs), tid, ids) <==> forall id :: id in ids ==> id !in n.created + n.destroyed)
  {
    var t := Exec(s, ops);
    RunWindow(s, ops, o);
    var w, n := Window(t.log, s.state, t.state), DeltaSince(s, t);
    if tid !in ThreadsOf(MetasOf(t.msgs), n.created + n.updated) {
      hide Inv, Exec, Runnable, NoMoves, Window, Fold, Legal, LiveAfter, ThreadsOf;
      forall id
        ensures id in Members(MetasOf(t.msgs), tid) <==>
                id in Members(MetasOf(s.msgs), tid) && id !in n.created + n.destroyed
        ensures id in Members(MetasOf(t.msgs), tid) ==> SamePlace(t.msgs[id].meta, s.msgs[id].meta)
      {
        MemberStays(s, ops, o, tid, id);
      }
      ListingStays(MetasOf(s.msgs), MetasOf(t.msgs), tid, ids, n.created + n.destroyed);
    }
  }

  lemma MemberStays(s: Mail, ops: seq<Op>, o: Origin, tid: ID, id: ID)
    requires Inv(s, o) && Runnable(s, ops) && NoMoves(s, ops) && tid != ""
    requires var t := Exec(s, ops);
             && Covers(t.log, s.state, t.state)
             && tid !in ThreadsOf(MetasOf(t.msgs), DeltaSince(s, t).created + DeltaSince(s, t).updated)
    ensures var t := Exec(s, ops);
            var n := DeltaSince(s, t);
            && (id in Members(MetasOf(t.msgs), tid) <==>
                id in Members(MetasOf(s.msgs), tid) && id !in n.created + n.destroyed)
            && (id in Members(MetasOf(t.msgs), tid) ==> SamePlace(t.msgs[id].meta, s.msgs[id].meta))
  {
    var t := Exec(s, ops);
    var n := DeltaSince(s, t);
    RunWindow(s, ops, o);
    RunKeepsPlace(s, ops, o, id);
    hide Inv, Exec, Runnable, NoMoves, Window, Fold, Legal, LiveAfter, TimeOf;
    Untouched(s.msgs.Keys, Window(t.log, s.state, t.state), id);
    LegalShape(s.msgs.Keys, Window(t.log, s.state, t.state));
    assert id in t.msgs && t.msgs[id].meta.threadId == tid ==> id !in n.created + n.updated;
  }

  lemma ListingStays(before: Metas, after: Metas, tid: ID, ids: seq<ID>, gone: set<ID>)
    requires IsListing(before, tid, ids)
    requires forall id :: id in Members(after, tid) <==> id in Members(before, tid) && id !in gone
    requires forall id :: id in Members(after, tid) ==> SamePlace(after[id], before[id])
    ensures IsListing(after, tid, ids) <==> forall id :: id in ids ==> id !in gone
  {
    assert forall id :: id in ids <==> id in Elems(ids);
    if forall id :: id in ids ==> id !in gone {
      assert Members(after, tid) == Members(before, tid);
      assert forall i :: 0 <= i < |ids| ==> ids[i] in Members(after, tid);
    } else {
      var id :| id in ids && id in gone;
      assert id !in Members(after, tid);
    }
  }

  /** Deleting an email shrinks its thread, and Thread/changes reports nothing at all. */
  lemma DeletionGoesUnnoticed(s: Mail, o: Origin, id: ID)
    requires Inv(s, o) && id in s.msgs
    ensures var t, tid := Do(s, Delete(id)), s.msgs[id].meta.threadId;
            && Covers(t.log, s.state, t.state)
            && var n := DeltaSince(s, t);
            && ThreadsOf(MetasOf(t.msgs), n.created + n.updated) == {}
            && Members(MetasOf(t.msgs), tid) == Members(MetasOf(s.msgs), tid) - {id}
            && id in Members(MetasOf(s.msgs), tid)
  {
    hide Inv, DeltaSince;
    DeleteDelta(s, o, id);
  }

  lemma DeleteDelta(s: Mail, o: Origin, id: ID)
    requires Inv(s, o) && id in s.msgs
    ensures var t := Do(s, Delete(id));
            && Covers(t.log, s.state, t.state) && DeltaSince(s, t) == Net({}, {}, {id})
            && t.msgs == s.msgs - {id}
  {
    OneRemoval(s, id);
    FoldNone();
    FoldSnoc([], Removed(id));
    assert [] + [Removed(id)] == [Removed(id)];
    hide LegalLog, LiveAfter, Legal, Window, Fold, Logged, Do;
    WindowAfter(s, Delete(id), s.state, o);
  }

  lemma OneRemoval(s: Mail, id: ID)
    requires id in s.msgs
    ensures Window(s.log, s.state, s.state) == [] && Logged(s, Delete(id)) == [Removed(id)]
    ensures Do(s, Delete(id)).msgs == s.msgs - {id}
  {
  }
}
