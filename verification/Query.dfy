/** Email/query (email.go): filter, newest first, and the window that `position` and `limit` cut out. */
module Query {
  import opened Prelude
  import opened Text
  import opened Mail
  import opened Stores
  import opened ThreadHandlers

  /** Empty strings mean no condition.  Whether an email contains the text is left open. */
  datatype Filter = Filter(inMailbox: ID, text: string, contains: (Email, string) -> bool)

  predicate Matches(f: Filter, e: Email) {
    && (f.inMailbox != "" ==> f.inMailbox in e.mailboxIds && e.mailboxIds[f.inMailbox])
    && (f.text != "" ==> f.contains(e, f.text))
  }

  function Matching(msgs: map<ID, Email>, f: Filter): set<ID> {
    set id | id in msgs && Matches(f, msgs[id])
  }

  /** The ids of the matching emails, each once, newest first. */
  predicate IsResult(msgs: map<ID, Email>, f: Filter, ids: seq<ID>) {
    && IsOrder(ids, Matching(msgs, f))
    && (forall i :: 0 <= i < |ids| ==> ids[i] in msgs)
    && (forall i, j :: 0 <= i < j < |ids| ==> TimeOf(msgs[ids[i]].meta) >= TimeOf(msgs[ids[j]].meta))
  }

  /** What is on the result list: the emails in the mailbox, if one is asked for, that contain the text,
      if one is asked for; none before a newer one. */
  lemma ResultMeans(msgs: map<ID, Email>, f: Filter, ids: seq<ID>)
    ensures IsResult(msgs, f, ids) <==>
            && NoDup(ids)
            && (forall id :: id in ids <==>
                  && id in msgs
                  && (f.inMailbox == "" ||
                      (f.inMailbox in msgs[id].mailboxIds && msgs[id].mailboxIds[f.inMailbox]))
                  && (f.text == "" || f.contains(msgs[id], f.text)))
            && (forall i, j | 0 <= i < j < |ids| && ids[i] in msgs && ids[j] in msgs ::
                  NotAfter(msgs[ids[j]].meta, msgs[ids[i]].meta))
  {
    forall a: Meta, b: Meta
      ensures TimeOf(a) <= TimeOf(b) <==> NotAfter(a, b)
    {
      TimeMeans(a, b);
    }
    hide TimeOf, NotAfter;
    assert forall id :: id in ids <==> id in Elems(ids);
    assert forall id :: id in Matching(msgs, f) <==> id in msgs && Matches(f, msgs[id]);
    if forall id :: id in ids <==> id in msgs && Matches(f, msgs[id]) {
      assert Elems(ids) == Matching(msgs, f);
    }
  }

  /** No two emails were received at the same time. */
  predicate DistinctTimes(msgs: map<ID, Email>) {
    forall a, b :: a in msgs && b in msgs && a != b ==> TimeOf(msgs[a].meta) != TimeOf(msgs[b].meta)
  }

  // ---------- the window ----------

  /** A page, or Go's "slice bounds out of range". */
  datatype Page = Page(position: int, ids: seq<ID>, total: int) | Panic

  const TWO_63 := 0x8000_0000_0000_0000
  const TWO_64 := 0x1_0000_0000_0000_0000

  /** `int(limit)` of a uint64 on a 64-bit machine. */
  function ToInt(limit: int): int {
    if limit < TWO_63 then limit else limit - TWO_64
  }

  function PageAt(ids: seq<ID>, position: int, limit: int): Page {
    var total := |ids|;
    var start := if position < 0 then 0 else position;
    if start >= total then Page(start, [], total)
    else
      var end := if limit > 0 && ToInt(limit) < total - start then start + ToInt(limit) else total;
      if start <= end <= total then Page(start, ids[start..end], total) else Panic
  }

  /** The slice is in bounds exactly unless the limit wraps to a negative number on a page that has
      something to show; section 1.3 of RFC 8620 keeps limits below 2^53. */
  lemma WindowInBounds(ids: seq<ID>, position: int, limit: int)
    requires 0 <= limit < TWO_64
    ensures PageAt(ids, position, limit).Panic? <==>
            limit >= TWO_63 && (if position < 0 then 0 else position) < |ids|
  {
  }

  /** What a page holds: the matching emails from `position` on, at most `limit` of them. */
  lemma WindowShows(ids: seq<ID>, position: int, limit: int)
    requires 0 <= limit < TWO_63
    ensures var start := if position < 0 then 0 else position;
            var p := PageAt(ids, position, limit);
            && p.Page? && p.total == |ids| && p.position == start
            && |p.ids| == (if start >= |ids| then 0
                           else if limit == 0 || limit > |ids| - start then |ids| - start else limit)
            && forall k :: 0 <= k < |p.ids| ==> p.ids[k] == ids[start + k]
  {
  }

  function Concat(pages: seq<seq<ID>>): seq<ID> {
    if pages == [] then [] else Concat(pages[..|pages| - 1]) + pages[|pages| - 1]
  }

  function Prefix(ids: seq<ID>, n: nat): seq<ID> {
    if n < |ids| then ids[..n] else ids
  }

  /** The page at the end of a prefix continues it. */
  lemma PageExtends(ids: seq<ID>, position: nat, limit: int)
    requires 0 < limit < TWO_63
    ensures PageAt(ids, position, limit).Page?
    ensures Prefix(ids, position) + PageAt(ids, position, limit).ids == Prefix(ids, position + limit)
  {
  }

  lemma {:induction false} PagesTile(ids: seq<ID>, pages: seq<seq<ID>>, limit: int)
    requires 0 < limit < TWO_63
    requires forall k :: 0 <= k < |pages| ==> PageAt(ids, k * limit, limit) == Page(k * limit, pages[k], |ids|)
    ensures 0 <= |pages| * limit && Concat(pages) == Prefix(ids, |pages| * limit)
  {
    hide PageAt;
    if pages == [] {
    } else {
      hide Prefix;
      var n := |pages| - 1;
      var init := pages[..n];
      assert forall k :: 0 <= k < |init| ==> init[k] == pages[k];
      PagesTile(ids, init, limit);
      assert n * limit + limit == |pages| * limit;
      PageExtends(ids, n * limit, limit);
    }
  }

  // ---------- the order is determined ----------

  lemma SameResult(msgs: map<ID, Email>, f: Filter, a: seq<ID>, b: seq<ID>)
    requires DistinctTimes(msgs) && IsResult(msgs, f, a) && IsResult(msgs, f, b)
    ensures a == b
  {
    OrderSize(a, Matching(msgs, f));
    OrderSize(b, Matching(msgs, f));
    var at := map id | id in msgs :: -TimeOf(msgs[id].meta);
    StrictOrderUnique(at, a, b);
  }

  /** Paging through an unchanged store: the pages at 0, L, 2L, ... of separate calls, which each
      sort for themselves, concatenate to all matching emails, each once, newest first. */
  lemma PagesCoverAll(msgs: map<ID, Email>, f: Filter, sorts: seq<seq<ID>>, pages: seq<seq<ID>>, limit: int)
    requires DistinctTimes(msgs) && 0 < limit < TWO_63 && |sorts| == |pages| > 0
    requires forall k :: 0 <= k < |pages| ==> IsResult(msgs, f, sorts[k])
    requires forall k :: 0 <= k < |pages| ==>
               PageAt(sorts[k], k * limit, limit) == Page(k * limit, pages[k], |sorts[k]|)
    requires |Matching(msgs, f)| <= |pages| * limit
    ensures IsResult(msgs, f, Concat(pages))
  {
    var ids := sorts[0];
    forall k | 0 <= k < |pages|
      ensures PageAt(ids, k * limit, limit) == Page(k * limit, pages[k], |ids|)
    {
      SameResult(msgs, f, sorts[k], ids);
    }
    PagesTile(ids, pages, limit);
    OrderSize(ids, Matching(msgs, f));
  }

  // ---------- the handler ----------

  predicate KeyedBy(msgs: map<ID, Email>, entries: seq<Entry>) {
    forall i :: 0 <= i < |entries| ==> entries[i].id in msgs && entries[i].at == -TimeOf(msgs[entries[i].id].meta)
  }

  lemma SortedByKey(msgs: map<ID, Email>, entries: seq<Entry>, sorted: seq<Entry>)
    requires KeyedBy(msgs, entries) && IsOrder(EntryIds(entries), msgs.Keys)
    requires OldestFirst(sorted) && multiset(sorted) == multiset(entries)
    ensures IsOrder(EntryIds(sorted), msgs.Keys)
    ensures forall i, j :: 0 <= i < j < |sorted| ==>
              TimeOf(msgs[EntryIds(sorted)[i]].meta) >= TimeOf(msgs[EntryIds(sorted)[j]].meta)
  {
    SameEntriesSameIds(sorted, entries);
    assert |sorted| == |multiset(sorted)| == |multiset(entries)| == |entries|;
    NoDupCount(EntryIds(entries));
    CountedOnce(EntryIds(sorted));
    forall i | 0 <= i < |sorted|
      ensures sorted[i].id in msgs && sorted[i].at == -TimeOf(msgs[sorted[i].id].meta)
    {
      assert sorted[i] in multiset(entries);
    }
  }

  /** `Store.All`: every stored email once, newest first. */
  method AllIds(s: Store) returns (ids: seq<ID>)
    ensures IsOrder(ids, s.msgs.Keys)
    ensures forall i, j :: 0 <= i < j < |ids| ==>
              ids[i] in s.msgs && ids[j] in s.msgs && TimeOf(s.msgs[ids[i]].meta) >= TimeOf(s.msgs[ids[j]].meta)
  {
    var order := ListKeys(s.msgs.Keys);
    assert forall i :: 0 <= i < |order| ==> order[i] in Elems(order);
    var entries: seq<Entry> := [];
    for i := 0 to |order|
      invariant |entries| == i
      invariant forall k :: 0 <= k < i ==> entries[k] == Entry(order[k], -TimeOf(s.msgs[order[k]].meta))
    {
      entries := entries + [Entry(order[i], -TimeOf(s.msgs[order[i]].meta))];
    }
    assert EntryIds(entries) == order;
    var sorted := SortOldestFirst(entries);
    SortedByKey(s.Msgs(), entries, sorted);
    ids := EntryIds(sorted);
    assert forall i :: 0 <= i < |ids| ==> ids[i] in Elems(ids);
  }

  /** The loop of the handler over the sorted emails. */
  function KeepMatching(msgs: map<ID, Email>, f: Filter, ids: seq<ID>): seq<ID> {
    if ids == [] then []
    else
      var init, id := ids[..|ids| - 1], ids[|ids| - 1];
      if id in msgs && Matches(f, msgs[id]) then KeepMatching(msgs, f, init) + [id] else KeepMatching(msgs, f, init)
  }

  predicate NewestFirst(msgs: map<ID, Email>, ids: seq<ID>) {
    && (forall i :: 0 <= i < |ids| ==> ids[i] in msgs)
    && (forall i, j :: 0 <= i < j < |ids| ==> TimeOf(msgs[ids[i]].meta) >= TimeOf(msgs[ids[j]].meta))
  }

  lemma {:induction false} KeepIsResult(msgs: map<ID, Email>, f: Filter, ids: seq<ID>)
    requires NoDup(ids) && NewestFirst(msgs, ids)
    ensures var kept := KeepMatching(msgs, f, ids);
            && NewestFirst(msgs, kept) && NoDup(kept)
            && forall id :: id in kept <==> id in ids && Matches(f, msgs[id])
  {
    hide Matches, TimeOf;
    if ids == [] {
    } else {
      var init, id := ids[..|ids| - 1], ids[|ids| - 1];
      assert ids == init + [id];
      KeepIsResult(msgs, f, init);
      var kept := KeepMatching(msgs, f, init);
      assert forall i :: 0 <= i < |kept| ==> kept[i] in init;
      assert id !in init;
    }
  }

  method FilterIds(s: Store, f: Filter, ids: seq<ID>) returns (filtered: seq<ID>)
    requires forall i :: 0 <= i < |ids| ==> ids[i] in s.msgs
    ensures filtered == KeepMatching(s.Msgs(), f, ids)
  {
    filtered := [];
    for i := 0 to |ids|
      invariant filtered == KeepMatching(s.Msgs(), f, ids[..i])
    {
      var e := Value(s.msgs[ids[i]]);
      assert ids[..i + 1][..i] == ids[..i];
      if f.inMailbox != "" && !(f.inMailbox in e.mailboxIds && e.mailboxIds[f.inMailbox]) {
        continue;
      }
      if f.text != "" && !f.contains(e, f.text) {
        continue;
      }
      filtered := filtered + [ids[i]];
    }
    assert ids[..|ids|] == ids;
  }

  method CutWindow(filtered: seq<ID>, position: int, limit: int) returns (page: Page)
    requires 0 <= limit < TWO_64
    ensures page == PageAt(filtered, position, limit) && (page.Page? ==> page.total == |filtered|)
  {
    var total := |filtered|;
    var start := position;
    if start < 0 {
      start := 0;
    }
    if start >= total {
      return Page(start, [], total);
    }
    var end := total;
    if limit > 0 && ToInt(limit) < end - start {
      end := start + ToInt(limit);
    }
    if !(start <= end <= total) {
      return Panic;
    }
    return Page(start, filtered[start..end], total);
  }

  lemma KeptIsResult(msgs: map<ID, Email>, f: Filter, ids: seq<ID>)
    requires IsOrder(ids, msgs.Keys) && NewestFirst(msgs, ids)
    ensures IsResult(msgs, f, KeepMatching(msgs, f, ids))
    ensures |KeepMatching(msgs, f, ids)| == |Matching(msgs, f)|
  {
    KeepIsResult(msgs, f, ids);
    forall id
      ensures id in Elems(KeepMatching(msgs, f, ids)) <==> id in Matching(msgs, f)
    {
      assert id in ids <==> id in Elems(ids);
    }
    OrderSize(KeepMatching(msgs, f, ids), Matching(msgs, f));
  }

  /** `page` is the window of some result list: emails received at one time may come in any order. */
  ghost predicate IsPage(msgs: map<ID, Email>, f: Filter, position: int, limit: int, page: Page) {
    exists ids :: IsResult(msgs, f, ids) && page == PageAt(ids, position, limit)
  }

  /** The list is sorted afresh for every call; the state is read after it. */
  method HandleEmailQuery(s: Store, f: Filter, position: int, limit: int) returns (page: Page, queryState: string)
    requires 0 <= limit < TWO_64
    ensures IsPage(s.Msgs(), f, position, limit, page)
    ensures queryState == FormatInt(s.state)
    ensures page.Panic? ==> limit >= TWO_63
    ensures page.Page? ==> page.total == |Matching(s.Msgs(), f)|
  {
    hide IsResult, KeepMatching, PageAt, FormatInt;
    ghost var values := s.Msgs();
    s.PresentValues();
    var ids := AllIds(s);
    assert forall i :: 0 <= i < |ids| ==> ids[i] in Elems(ids);
    var filtered := FilterIds(s, f, ids);
    s.AsBefore(values);
    page := CutWindow(filtered, position, limit);
    s.AsBefore(values);
    KeptIsResult(values, f, ids);
    WindowInBounds(filtered, position, limit);
    queryState := FormatInt(s.state);
  }
}
