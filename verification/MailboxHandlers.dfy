/** The Mailbox methods of mailbox.go.  Mailbox/set works on a decoded slice and on pointers into it;
    the slice is an array with spare capacity, so an append may or may not move it. */
module MailboxHandlers {
  import opened Prelude
  import opened Text
  import opened Slices
  import opened Delta
  import opened Journal
  import opened Persistence
  import opened Stores
  import opened EmailHandlers

  // ---------- Mailbox/changes and Mailbox/queryChanges ----------

  /** As Email/changes; the mailbox log may list one id several times in a record, and the answer
      still turns the ids of that state into the present ones.  An id is reported as created and as
      updated exactly if it was updated and then created again without being destroyed. */
  method HandleMailboxChanges(s: Store, sinceState: string) returns (r: Result<Changes>)
    requires s.MailboxesValid()
    ensures r.Ok? <==> InRange(sinceState, s.mailboxOrigin.version, s.mailboxState)
    ensures r.Err? ==> r.error == "cannotCalculateChanges"
    ensures r.Ok? ==>
              var since := ParseInt(sinceState).value;
              var n := ChangesBetween(s.MailboxJournal(), s.mailboxOrigin, since, s.mailboxState);
              && Lists(r.value, n)
              && r.value.oldState == sinceState && r.value.newState == FormatInt(s.mailboxState)
              && ApplyNet(IdsAt(s.MailboxJournal(), s.mailboxOrigin, since), n) == s.MailboxIds()
              && (n.created !! n.updated !! n.destroyed <==>
                  forall id :: !CreatedAgain(Window(s.mailboxChanges, since, s.mailboxState), id))
  {
    hide ParseInt, FormatInt, Faithful, LiveUpdates, Window, LiveAfter, Fold, IdsOf;
    var since := ParseInt(sinceState);
    if since.None? || since.value < 0 {
      OriginVersion(s.MailboxJournal(), s.mailboxOrigin);
      return Err(CANNOT_CALCULATE);
    }
    var cur := s.mailboxState;
    if since.value > cur {
      return Err(CANNOT_CALCULATE);
    }
    CoversExactly(s.MailboxJournal(), s.mailboxOrigin, since.value);
    var n := FoldWindow(s.mailboxChanges, since.value, cur);
    if n.None? {
      return Err(CANNOT_CALCULATE);
    }
    ReplayBetween(s.MailboxJournal(), s.mailboxOrigin, since.value, cur);
    DisjointSince(s.MailboxJournal(), s.mailboxOrigin, since.value);
    var created := ListKeys(n.value.created);
    var updated := ListKeys(n.value.updated);
    var destroyed := ListKeys(n.value.destroyed);
    return Ok(Changes(sinceState, FormatInt(cur), created, updated, destroyed));
  }

  method HandleMailboxQueryChanges(s: Store, sinceQueryState: string) returns (r: Result<QueryChanges>)
    requires s.MailboxesValid()
    ensures r.Ok? <==> InRange(sinceQueryState, s.mailboxOrigin.version, s.mailboxState)
    ensures r.Err? ==> r.error == "cannotCalculateChanges"
    ensures r.Ok? ==>
              var since := ParseInt(sinceQueryState).value;
              var n := ChangesBetween(s.MailboxJournal(), s.mailboxOrigin, since, s.mailboxState);
              && IsOrder(r.value.removed, n.destroyed) && Numbered(r.value.added, n.created)
              && r.value.oldQueryState == sinceQueryState && r.value.newQueryState == FormatInt(s.mailboxState)
  {
    hide ParseInt, FormatInt, Faithful, Window, LiveAfter, Fold, Numbered, IdsOf;
    var since := ParseInt(sinceQueryState);
    if since.None? || since.value < 0 {
      OriginVersion(s.MailboxJournal(), s.mailboxOrigin);
      return Err(CANNOT_CALCULATE);
    }
    var cur := s.mailboxState;
    if since.value > cur {
      return Err(CANNOT_CALCULATE);
    }
    CoversExactly(s.MailboxJournal(), s.mailboxOrigin, since.value);
    var n := FoldQueryWindow(s.mailboxChanges, since.value, cur);
    if n.None? {
      return Err(CANNOT_CALCULATE);
    }
    var added := NumberItems(n.value.0);
    var removed := ListKeys(n.value.1);
    return Ok(QueryChanges(sinceQueryState, FormatInt(cur), removed, added));
  }

  // ---------- Mailbox/set: the request ----------

  datatype CreateItem = CreateItem(mb: Mailbox, accepted: bool)

  /** The patch does not decode, has no string name, or renames. */
  datatype RenameItem = Invalid | NoName | Rename(name: string)

  datatype MailboxSetRequest = MailboxSetRequest(
    create: map<ID, CreateItem>,
    update: map<ID, RenameItem>,
    destroy: seq<DestroyItem>)

  /** The mailbox a create key stands for; a missing id is made from the key. */
  function Made(create: map<ID, CreateItem>, key: ID): Mailbox
    requires key in create
  {
    var mb := create[key].mb;
    if mb.id == "" then mb.(id := "mbx-" + key) else mb
  }

  function MadeList(create: map<ID, CreateItem>, order: seq<ID>): seq<Mailbox>
    requires forall k :: k in order ==> k in create
  {
    seq(|order|, i requires 0 <= i < |order| => Made(create, order[i]))
  }

  function AcceptedCreates(create: map<ID, CreateItem>): set<ID> {
    set k | k in create && create[k].accepted
  }

  function ListIds(mbs: seq<Mailbox>): seq<ID> {
    seq(|mbs|, i requires 0 <= i < |mbs| => mbs[i].id)
  }

  lemma ListIdsElems(mbs: seq<Mailbox>)
    ensures Elems(ListIds(mbs)) == IdsOf(mbs)
  {
    forall id
      ensures id in Elems(ListIds(mbs)) <==> id in IdsOf(mbs)
    {
      if id in ListIds(mbs) {
        var i :| 0 <= i < |mbs| && ListIds(mbs)[i] == id;
        assert mbs[i].id == id;
      }
      if id in IdsOf(mbs) {
        var i :| 0 <= i < |mbs| && mbs[i].id == id;
        assert ListIds(mbs)[i] == id;
      }
    }
  }

  lemma IdsOfConcat(a: seq<Mailbox>, b: seq<Mailbox>)
    ensures IdsOf(a + b) == IdsOf(a) + IdsOf(b)
  {
    forall id
      ensures id in IdsOf(a + b) <==> id in IdsOf(a) || id in IdsOf(b)
    {
      if id in IdsOf(a) {
        var i :| 0 <= i < |a| && a[i].id == id;
        assert (a + b)[i].id == id;
      }
      if id in IdsOf(b) {
        var i :| 0 <= i < |b| && b[i].id == id;
        assert (a + b)[|a| + i].id == id;
      }
    }
  }

  // ---------- Mailbox/set: slices and pointers ----------

  class Cell {
    var mb: Mailbox

    constructor (m: Mailbox)
      ensures mb == m
    {
      mb := m;
    }
  }

  /** `*mailbox.Mailbox`: into the slice as it was decoded, or to a loop variable of its own. */
  datatype Pointer = Into(i: int) | Loose(cell: Cell)

  /** Where the index points for an id: later entries overwrite earlier ones. */
  function LastIndex(mbs: seq<Mailbox>, id: ID): int {
    LastAt(ListIds(mbs), id)
  }

  lemma LastIndexIs(mbs: seq<Mailbox>, id: ID)
    ensures id in IdsOf(mbs) <==> LastIndex(mbs, id) >= 0
    ensures -1 <= LastIndex(mbs, id) < |mbs|
    ensures LastIndex(mbs, id) >= 0 ==> mbs[LastIndex(mbs, id)].id == id
    ensures forall i :: LastIndex(mbs, id) < i < |mbs| ==> mbs[i].id != id
  {
    LastAtIs(ListIds(mbs), id);
    assert forall i :: 0 <= i < |mbs| ==> ListIds(mbs)[i] == mbs[i].id;
  }

  /** `mbByID` after the creates: created ids point to loose copies, the others into the slice. */
  ghost predicate Indexed(byId: map<ID, Pointer>, mbs: seq<Mailbox>, made: set<ID>) {
    && byId.Keys == IdsOf(mbs) + made
    && forall id :: id in byId ==> if id in made then byId[id].Loose? else byId[id] == Into(LastIndex(mbs, id))
  }

  lemma IndexesNext(byId: map<ID, Pointer>, mbs: seq<Mailbox>, mb: Mailbox)
    requires Indexed(byId, mbs, {})
    ensures Indexed(byId[mb.id := Into(|mbs|)], mbs + [mb], {})
  {
    IdsOfConcat(mbs, [mb]);
    assert IdsOf([mb]) == {mb.id} by {
      assert [mb][0].id == mb.id;
    }
    assert ListIds(mbs + [mb]) == ListIds(mbs) + [mb.id];
    forall id
      ensures LastIndex(mbs + [mb], id) == if id == mb.id then |mbs| else LastIndex(mbs, id)
    {
      LastAtSnoc(ListIds(mbs), mb.id, id);
    }
  }

  method BuildIndex(mbs: seq<Mailbox>) returns (byId: map<ID, Pointer>)
    ensures Indexed(byId, mbs, {})
  {
    hide Indexed;
    byId := map[];
    NoIndex();
    assert mbs[..0] == [];
    for i := 0 to |mbs|
      invariant Indexed(byId, mbs[..i], {})
    {
      assert mbs[..i + 1] == mbs[..i] + [mbs[i]];
      IndexesNext(byId, mbs[..i], mbs[i]);
      byId := byId[mbs[i].id := Into(i)];
    }
    assert mbs[..|mbs|] == mbs;
  }

  lemma NoIndex()
    ensures Indexed(map[], [], {})
  {
  }

  // ---------- Mailbox/set: the loops ----------

  /** The slice and its index after the create loop. */
  ghost predicate AfterCreates(buf0: array<Mailbox>, buf: array<Mailbox>, len: nat, byId: map<ID, Pointer>,
                               mbs: seq<Mailbox>, made: seq<Mailbox>)
    reads buf0, buf
  {
    && len == |mbs| + |made| <= buf.Length && |mbs| <= buf0.Length
    && buf[..len] == mbs + made
    && buf0[..|mbs|] == mbs
    && (len <= buf0.Length <==> buf == buf0)
    && Indexed(byId, mbs, IdsOf(made))
  }

  lemma IndexedNext(byId: map<ID, Pointer>, mbs: seq<Mailbox>, made: seq<Mailbox>, mb: Mailbox, cell: Cell)
    requires Indexed(byId, mbs, IdsOf(made))
    ensures Indexed(byId[mb.id := Loose(cell)], mbs, IdsOf(made + [mb]))
  {
    IdsOfConcat(made, [mb]);
    assert IdsOf([mb]) == {mb.id} by {
      assert [mb][0].id == mb.id;
    }
  }

  method CreateOne(buf0: array<Mailbox>, buf: array<Mailbox>, len: nat, byId: map<ID, Pointer>, mb: Mailbox,
                   ghost mbs: seq<Mailbox>, ghost made: seq<Mailbox>)
    returns (buf': array<Mailbox>, byId': map<ID, Pointer>)
    requires AfterCreates(buf0, buf, len, byId, mbs, made)
    modifies buf
    ensures AfterCreates(buf0, buf', len + 1, byId', mbs, made + [mb])
    ensures buf' == buf || fresh(buf')
    ensures mb.id in byId' && byId' == byId[mb.id := byId'[mb.id]] && byId'[mb.id].Loose? && fresh(byId'[mb.id].cell)
  {
    var growth: nat := *;
    buf' := Slices.Append(buf, len, mb, growth);
    assert buf'[..len + 1] == mbs + (made + [mb]);
    if buf' == buf0 {
      assert buf0[..|mbs|] == buf'[..len + 1][..|mbs|];
    }
    var cell := new Cell(mb);
    byId' := byId[mb.id := Loose(cell)];
    IndexedNext(byId, mbs, made, mb, cell);
  }

  predicate InCreate(create: map<ID, CreateItem>, order: seq<ID>) {
    forall k :: k in order ==> k in create
  }

  predicate AllFresh(cells: set<Cell>, byId: map<ID, Pointer>) {
    forall id :: id in byId && byId[id].Loose? ==> byId[id].cell in cells
  }

  /** The create loop, in whatever order Go meets the keys; `order` lists the accepted ones. */
  method RunCreates(buf0: array<Mailbox>, mbs: seq<Mailbox>, byId0: map<ID, Pointer>, create: map<ID, CreateItem>)
    returns (buf: array<Mailbox>, len: nat, byId: map<ID, Pointer>, created: map<ID, ID>, addedIds: seq<ID>,
             ghost order: seq<ID>, ghost cells: set<Cell>)
    requires |mbs| <= buf0.Length && buf0[..|mbs|] == mbs && Indexed(byId0, mbs, {})
    modifies buf0
    ensures IsOrder(order, AcceptedCreates(create)) && InCreate(create, order)
    ensures AfterCreates(buf0, buf, len, byId, mbs, MadeList(create, order)) && (buf == buf0 || fresh(buf))
    ensures created == (map k | k in AcceptedCreates(create) :: Made(create, k).id)
    ensures addedIds == ListIds(MadeList(create, order))
    ensures fresh(cells) && AllFresh(cells, byId)
  {
    hide AfterCreates, Indexed, IsOrder, AcceptedCreates;
    buf, len, byId, created, addedIds, order, cells := buf0, |mbs|, byId0, map[], [], [], {};
    StartCreates(buf0, byId0, mbs, create);
    var rest := create.Keys;
    while rest != {}
      invariant rest <= create.Keys
      invariant IsOrder(order, AcceptedCreates(create - rest)) && InCreate(create, order)
      invariant AfterCreates(buf0, buf, len, byId, mbs, MadeList(create, order)) && (buf == buf0 || fresh(buf))
      invariant created.Keys == AcceptedCreates(create - rest)
      invariant forall k :: k in created ==> k in create && created[k] == Made(create, k).id
      invariant addedIds == ListIds(MadeList(create, order))
      invariant fresh(cells) && AllFresh(cells, byId)
    {
      var key :| key in rest;
      AcceptedNext(create, rest, key);
      if create[key].accepted {
        var mb := Made(create, key);
        OrderSnoc(order, AcceptedCreates(create - rest), key);
        assert MadeList(create, order + [key]) == MadeList(create, order) + [mb];
        assert ListIds(MadeList(create, order) + [mb]) == ListIds(MadeList(create, order)) + [mb.id];
        buf, byId := CreateOne(buf0, buf, len, byId, mb, mbs, MadeList(create, order));
        len := len + 1;
        order := order + [key];
        created := created[key := mb.id];
        addedIds := addedIds + [mb.id];
        cells := cells + {byId[mb.id].cell};
      }
      rest := rest - {key};
    }
    assert create - rest == create;
  }

  lemma StartCreates(buf0: array<Mailbox>, byId0: map<ID, Pointer>, mbs: seq<Mailbox>, create: map<ID, CreateItem>)
    requires |mbs| <= buf0.Length && buf0[..|mbs|] == mbs && Indexed(byId0, mbs, {})
    ensures AfterCreates(buf0, buf0, |mbs|, byId0, mbs, []) && AllFresh({}, byId0)
    ensures MadeList(create, []) == [] && ListIds([]) == []
    ensures IsOrder<ID>([], AcceptedCreates(create - create.Keys)) && AcceptedCreates(create - create.Keys) == {}
  {
    assert mbs + [] == mbs;
  }

  lemma AcceptedNext(create: map<ID, CreateItem>, rest: set<ID>, key: ID)
    requires key in rest && rest <= create.Keys
    ensures key !in AcceptedCreates(create - rest)
    ensures AcceptedCreates(create - (rest - {key})) ==
            if create[key].accepted then AcceptedCreates(create - rest) + {key} else AcceptedCreates(create - rest)
  {
  }

  // ---------- Mailbox/set: renames ----------

  /** What the renames do to the decoded slice: the last entry of an id that was not created in the
      same request gets its new name. */
  function Renamed(mbs: seq<Mailbox>, made: set<ID>, update: map<ID, RenameItem>): seq<Mailbox> {
    seq(|mbs|, i requires 0 <= i < |mbs| =>
      var mb := mbs[i];
      if mb.id in update && update[mb.id].Rename? && mb.id !in made && i == LastIndex(mbs, mb.id) then
        mb.(name := update[mb.id].name)
      else mb)
  }

  /** The stored list before the destroys: renames reach it only while the slice has not moved. */
  function Patched(mbs: seq<Mailbox>, made: seq<Mailbox>, update: map<ID, RenameItem>, moved: bool): seq<Mailbox> {
    (if moved then mbs else Renamed(mbs, IdsOf(made), update)) + made
  }

  function AcceptedRenames(known: set<ID>, update: map<ID, RenameItem>): set<ID> {
    set id | id in update && id in known && !update[id].Invalid?
  }

  lemma RenamedNext(mbs: seq<Mailbox>, made: set<ID>, update: map<ID, RenameItem>, id: ID, item: RenameItem)
    requires id !in update
    ensures var before, after := Renamed(mbs, made, update), Renamed(mbs, made, update[id := item]);
            if item.Rename? && id in IdsOf(mbs) && id !in made then
              var i := LastIndex(mbs, id);
              0 <= i < |mbs| && after == before[i := before[i].(name := item.name)]
            else after == before
  {
    LastIndexIs(mbs, id);
    var before, after := Renamed(mbs, made, update), Renamed(mbs, made, update[id := item]);
    if item.Rename? && id in IdsOf(mbs) && id !in made {
      var i := LastIndex(mbs, id);
      assert before[i] == mbs[i];
    } else {
      assert forall i :: 0 <= i < |mbs| ==> after[i] == before[i];
    }
  }

  /** One known entry of `update` with a patch that decodes: write the name through the pointer. */
  method RenameOne(buf0: array<Mailbox>, buf: array<Mailbox>, len: nat, byId: map<ID, Pointer>, id: ID,
                   item: RenameItem,
                   ghost mbs: seq<Mailbox>, ghost made: seq<Mailbox>, ghost done: map<ID, RenameItem>,
                   ghost cells: set<Cell>)
    requires |mbs| <= buf0.Length && len == |mbs| + |made| <= buf.Length
    requires buf[..len] == Patched(mbs, made, done, buf != buf0)
    requires Indexed(byId, mbs, IdsOf(made)) && AllFresh(cells, byId)
    requires id in byId && id !in done && !item.Invalid?
    modifies buf0, cells
    ensures buf[..len] == Patched(mbs, made, done[id := item], buf != buf0)
  {
    RenamedNext(mbs, IdsOf(made), done, id, item);
    LastIndexIs(mbs, id);
    if item.Rename? {
      match byId[id] {
        case Into(i) =>
          assert i == LastIndex(mbs, id);
          ghost var before := buf[..len];
          buf0[i] := buf0[i].(name := item.name);
          if buf == buf0 {
            assert buf[..len] == before[i := before[i].(name := item.name)];
          }
        case Loose(cell) =>
          cell.mb := cell.mb.(name := item.name);
      }
    }
  }

  /** The update loop, in whatever order Go meets the keys. */
  method RunRenames(buf0: array<Mailbox>, buf: array<Mailbox>, len: nat, byId: map<ID, Pointer>,
                    update: map<ID, RenameItem>,
                    ghost mbs: seq<Mailbox>, ghost made: seq<Mailbox>, ghost cells: set<Cell>)
    returns (updated: seq<ID>, notUpdated: set<ID>)
    requires AfterCreates(buf0, buf, len, byId, mbs, made) && AllFresh(cells, byId)
    modifies buf0, cells
    ensures buf[..len] == Patched(mbs, made, update, buf != buf0)
    ensures IsOrder(updated, AcceptedRenames(byId.Keys, update)) && notUpdated == update.Keys - Elems(updated)
  {
    assert IdsOf(mbs) <= byId.Keys;
    hide Indexed, IsOrder, Patched, AcceptedRenames;
    updated, notUpdated := [], {};
    var rest := update.Keys;
    StartRenames(mbs, made, update, byId.Keys);
    while rest != {}
      invariant rest <= update.Keys
      invariant buf[..len] == Patched(mbs, made, update - rest, buf != buf0)
      invariant IsOrder(updated, AcceptedRenames(byId.Keys, update - rest))
      invariant notUpdated == (update - rest).Keys - Elems(updated)
    {
      var id :| id in rest;
      RenamesNext(mbs, made, update, rest, id, byId.Keys);
      assert update - (rest - {id}) == (update - rest)[id := update[id]];
      if id !in byId || update[id].Invalid? {
        notUpdated := notUpdated + {id};
        assert id !in Elems(updated) by { OrderSize(updated, AcceptedRenames(byId.Keys, update - rest)); }
      } else {
        RenameOne(buf0, buf, len, byId, id, update[id], mbs, made, update - rest, cells);
        OrderSnoc(updated, AcceptedRenames(byId.Keys, update - rest), id);
        ElemsSnoc(updated, id);
        updated := updated + [id];
      }
      rest := rest - {id};
    }
    assert update - rest == update;
  }

  lemma StartRenames(mbs: seq<Mailbox>, made: seq<Mailbox>, update: map<ID, RenameItem>, known: set<ID>)
    ensures Patched(mbs, made, update - update.Keys, true) == mbs + made
    ensures Patched(mbs, made, update - update.Keys, false) == mbs + made
    ensures IsOrder<ID>([], AcceptedRenames(known, update - update.Keys))
  {
    assert Renamed(mbs, IdsOf(made), update - update.Keys) == mbs;
    assert AcceptedRenames(known, update - update.Keys) == {};
  }

  /** An entry that is skipped changes neither the list nor the accepted ids. */
  lemma RenamesNext(mbs: seq<Mailbox>, made: seq<Mailbox>, update: map<ID, RenameItem>, rest: set<ID>, id: ID,
                    known: set<ID>)
    requires id in rest && rest <= update.Keys && IdsOf(mbs) <= known
    ensures id !in AcceptedRenames(known, update - rest)
    ensures AcceptedRenames(known, update - (rest - {id})) ==
            if id in known && !update[id].Invalid? then AcceptedRenames(known, update - rest) + {id}
            else AcceptedRenames(known, update - rest)
    ensures !(id in known && !update[id].Invalid?) ==>
              forall moved :: Patched(mbs, made, update - (rest - {id}), moved) ==
                Patched(mbs, made, update - rest, moved)
  {
    assert update - (rest - {id}) == (update - rest)[id := update[id]];
    RenamedNext(mbs, IdsOf(made), update - rest, id, update[id]);
  }

  // ---------- Mailbox/set: destroys and the new list ----------

  /** The positions of the entries that are accepted for an id that is known. */
  ghost function WorkingAt(known: set<ID>, destroy: seq<DestroyItem>): set<int> {
    set i | 0 <= i < |destroy| && destroy[i].id in known && destroy[i].accepted
  }

  ghost function KeptAt(mbs: seq<Mailbox>, gone: seq<ID>): set<int> {
    set i | 0 <= i < |mbs| && mbs[i].id !in gone
  }

  lemma KeptAtIs(mbs: seq<Mailbox>, gone: seq<ID>)
    ensures forall i :: 0 <= i < |mbs| ==> (i in KeptAt(mbs, gone) <==> mbs[i].id !in gone)
  {
  }

  /** What the filter leaves: exactly the mailboxes with other ids, as they were. */
  lemma KeptMeans(next: seq<Mailbox>, mbs: seq<Mailbox>, gone: seq<ID>)
    requires Selects(next, mbs, KeptAt(mbs, gone))
    ensures forall mb :: mb in next <==> mb in mbs && mb.id !in gone
    ensures IdsOf(next) == IdsOf(mbs) - Elems(gone)
  {
    hide Selects;
    SelectsElems(next, mbs, KeptAt(mbs, gone));
    forall mb
      ensures mb in next <==> mb in mbs && mb.id !in gone
    {
      assert mb in next <==> mb in Elems(next);
      if mb in mbs {
        var i :| 0 <= i < |mbs| && mbs[i] == mb;
        assert i in KeptAt(mbs, gone) <==> mb.id !in gone;
      }
    }
    IdsOfMembers(mbs);
    IdsOfMembers(next);
    assert forall id :: id in Elems(gone) <==> id in gone;
  }

  lemma IdsOfMembers(mbs: seq<Mailbox>)
    ensures forall id :: id in IdsOf(mbs) <==> exists mb :: mb in mbs && mb.id == id
  {
    forall mb | mb in mbs
      ensures mb.id in IdsOf(mbs)
    {
      var i :| 0 <= i < |mbs| && mbs[i] == mb;
      assert mbs[i].id == mb.id;
    }
  }

  lemma PatchedIds(mbs: seq<Mailbox>, made: seq<Mailbox>, update: map<ID, RenameItem>, moved: bool)
    ensures IdsOf(Patched(mbs, made, update, moved)) == IdsOf(mbs) + IdsOf(made)
  {
    var renamed := Renamed(mbs, IdsOf(made), update);
    assert forall i :: 0 <= i < |mbs| ==> renamed[i].id == mbs[i].id;
    assert ListIds(renamed) == ListIds(mbs);
    ListIdsElems(renamed);
    ListIdsElems(mbs);
    IdsOfConcat(if moved then mbs else renamed, made);
  }

  method RunMailboxDestroys(known: set<ID>, destroy: seq<DestroyItem>)
    returns (destroyed: seq<ID>, notDestroyed: set<ID>)
    ensures Selects(destroyed, DestroyIds(destroy), WorkingAt(known, destroy))
    ensures Elems(destroyed) ==
            set i | 0 <= i < |destroy| && destroy[i].id in known && destroy[i].accepted :: destroy[i].id
    ensures Elems(destroyed) <= known
    ensures notDestroyed == set i | 0 <= i < |destroy| &&
              !(destroy[i].id in known && destroy[i].accepted) :: destroy[i].id
  {
    hide Selects, WorkingAt, DestroyIds;
    destroyed, notDestroyed := [], {};
    DestroyIdsAt(destroy);
    WorkingAtIs(known, destroy);
    SelectsNone<ID>(WorkingAt(known, destroy));
    for i := 0 to |destroy|
      invariant Selects(destroyed, DestroyIds(destroy)[..i], WorkingAt(known, destroy))
      invariant notDestroyed == set k | 0 <= k < i && !(destroy[k].id in known && destroy[k].accepted) :: destroy[k].id
    {
      if destroy[i].id !in known || !destroy[i].accepted {
        SelectsSkip(destroyed, DestroyIds(destroy)[..i], WorkingAt(known, destroy), destroy[i].id);
        notDestroyed := notDestroyed + {destroy[i].id};
      } else {
        SelectsTake(destroyed, DestroyIds(destroy)[..i], WorkingAt(known, destroy), destroy[i].id);
        destroyed := destroyed + [destroy[i].id];
      }
    }
    WorkingAre(destroyed, known, destroy);
  }

  lemma WorkingAtIs(known: set<ID>, destroy: seq<DestroyItem>)
    ensures forall i :: 0 <= i < |destroy| ==>
              (i in WorkingAt(known, destroy) <==> destroy[i].id in known && destroy[i].accepted)
  {
  }

  lemma WorkingAre(destroyed: seq<ID>, known: set<ID>, destroy: seq<DestroyItem>)
    requires Selects(destroyed, DestroyIds(destroy), WorkingAt(known, destroy))
    ensures Elems(destroyed) ==
            set i | 0 <= i < |destroy| && destroy[i].id in known && destroy[i].accepted :: destroy[i].id
  {
    hide Selects;
    SelectsElems(destroyed, DestroyIds(destroy), WorkingAt(known, destroy));
    DestroyIdsAt(destroy);
  }

  /** The mailboxes whose ids were not destroyed, in order. */
  method KeepRest(mbs: seq<Mailbox>, gone: seq<ID>) returns (next: seq<Mailbox>)
    ensures Selects(next, mbs, KeptAt(mbs, gone))
  {
    hide Selects, KeptAt;
    next := [];
    KeptAtIs(mbs, gone);
    SelectsNone<Mailbox>(KeptAt(mbs, gone));
    for i := 0 to |mbs|
      invariant Selects(next, mbs[..i], KeptAt(mbs, gone))
    {
      assert mbs[..i + 1] == mbs[..i] + [mbs[i]];
      if mbs[i].id !in gone {
        SelectsTake(next, mbs[..i], KeptAt(mbs, gone), mbs[i]);
        next := next + [mbs[i]];
      } else {
        SelectsSkip(next, mbs[..i], KeptAt(mbs, gone), mbs[i]);
      }
    }
    assert mbs[..|mbs|] == mbs;
  }

  datatype MailboxSetResponse = MailboxSetResponse(
    oldState: string, newState: string,
    created: map<ID, ID>, notCreated: set<ID>,
    updated: seq<ID>, notUpdated: set<ID>,
    destroyed: seq<ID>, notDestroyed: set<ID>)

  /** With `made` the created mailboxes in order of creation and `renamed` the accepted updates, the
      stored list is the patched one without the destroyed ids. */
  ghost predicate ListAfter(next: seq<Mailbox>, file: seq<Mailbox>, update: map<ID, RenameItem>, made: seq<Mailbox>,
                            renamed: seq<ID>, gone: seq<ID>, moved: bool)
  {
    var mbs := Patched(file, made, update, moved);
    if made == [] && renamed == [] && gone == [] then next == file else Selects(next, mbs, KeptAt(mbs, gone))
  }

  /** What Mailbox/set did to the list and the log: one record lists all three. */
  ghost predicate SetMailboxes(s: Store, before: Journal, file: seq<Mailbox>, update: map<ID, RenameItem>,
                               made: seq<Mailbox>, renamed: seq<ID>, gone: seq<ID>, moved: bool)
    reads s`mailboxFile, s`mailboxState, s`mailboxChanges
  {
    && ListAfter(s.mailboxFile, file, update, made, renamed, gone, moved)
    && s.MailboxJournal() == if made == [] && renamed == [] && gone == [] then before
                             else Commit(before, ChangeRecord(ListIds(made), renamed, gone))
  }

  method StoreResult(s: Store, mbs: seq<Mailbox>, addedIds: seq<ID>, renamed: seq<ID>, destroyed: seq<ID>,
                     ghost update: map<ID, RenameItem>, ghost made: seq<Mailbox>, ghost moved: bool)
    requires s.MailboxesValid()
    requires mbs == Patched(s.mailboxFile, made, update, moved) && addedIds == ListIds(made)
    requires Elems(destroyed) <= s.MailboxIds() + IdsOf(made)
    requires Elems(renamed) <= s.MailboxIds() + IdsOf(made)
    modifies s`mailboxFile, s`mailboxState, s`mailboxChanges, s`delta
    ensures s.MailboxesValid() && (old(s.DeltaSynced()) ==> s.DeltaSynced())
    ensures SetMailboxes(s, old(s.MailboxJournal()), old(s.mailboxFile), update, made, renamed, destroyed, moved)
  {
    hide Faithful, LiveUpdates, Patched, Selects, EventsOf, LiveAfter;
    if |addedIds| > 0 || |renamed| > 0 || |destroyed| > 0 {
      var next := KeepRest(mbs, destroyed);
      KeptMeans(next, mbs, destroyed);
      PatchedIds(s.mailboxFile, made, update, moved);
      ListIdsElems(made);
      s.ReplaceMailboxes(next, ChangeRecord(addedIds, renamed, destroyed));
    }
  }

  /** What became of the mailboxes `file`, seen from the request and the response: those that it does
      not name keep their whole record, each created one is stored as given, a rename reaches its mailbox
      while the slice has not moved and that id was not created, and nothing else is in the list. */
  ghost predicate AsAsked(next: seq<Mailbox>, file: seq<Mailbox>, req: MailboxSetRequest, created: map<ID, ID>,
                          destroyed: seq<ID>, moved: bool)
  {
    && (forall mb :: mb in file && mb.id !in destroyed && (moved || !Renames(req.update, mb.id)) ==> mb in next)
    && (forall k :: k in created && k in req.create && created[k] !in destroyed ==>
          Mailbox(created[k], req.create[k].mb.name, req.create[k].mb.rest) in next)
    && (forall mb :: Reached(file, req.update, mb) && !moved && mb.id !in created.Values && mb.id !in destroyed ==>
          Mailbox(mb.id, req.update[mb.id].name, mb.rest) in next)
    && (forall mb :: mb in next ==>
          mb.id !in destroyed && (ComesFrom(mb, file, req.update) || WasCreated(mb, req.create, created)))
  }

  predicate Renames(update: map<ID, RenameItem>, id: ID) {
    id in update && update[id].Rename?
  }

  /** There is a rename for the mailbox, and no other mailbox with its id. */
  predicate Reached(file: seq<Mailbox>, update: map<ID, RenameItem>, mb: Mailbox) {
    && mb in file && Renames(update, mb.id)
    && forall other :: other in file && other.id == mb.id ==> other == mb
  }

  /** It was stored before, or is that with its new name. */
  predicate ComesFrom(mb: Mailbox, file: seq<Mailbox>, update: map<ID, RenameItem>) {
    mb in file ||
    (Renames(update, mb.id) && mb.name == update[mb.id].name &&
     exists other :: other in file && other.id == mb.id && other.rest == mb.rest)
  }

  predicate WasCreated(mb: Mailbox, create: map<ID, CreateItem>, created: map<ID, ID>) {
    exists k :: k in created && k in create && mb == Mailbox(created[k], create[k].mb.name, create[k].mb.rest)
  }

  /** The created mailboxes: as in the request, under the id in the response. */
  lemma MadeMeans(create: map<ID, CreateItem>, order: seq<ID>)
    requires IsOrder(order, AcceptedCreates(create)) && InCreate(create, order)
    ensures forall k :: k in AcceptedCreates(create) ==>
              Made(create, k) in MadeList(create, order) &&
              Made(create, k) == Mailbox(if create[k].mb.id == "" then "mbx-" + k else create[k].mb.id,
                                         create[k].mb.name, create[k].mb.rest)
    ensures forall mb :: mb in MadeList(create, order) ==>
              exists k :: k in AcceptedCreates(create) && mb == Made(create, k)
    ensures IdsOf(MadeList(create, order)) == set k | k in AcceptedCreates(create) :: Made(create, k).id
  {
    var made := MadeList(create, order);
    forall k | k in AcceptedCreates(create)
      ensures Made(create, k) in made
    {
      assert k in Elems(order);
      var i :| 0 <= i < |order| && order[i] == k;
      assert made[i] == Made(create, k);
    }
    forall mb | mb in made
      ensures exists k :: k in AcceptedCreates(create) && mb == Made(create, k)
    {
      var i :| 0 <= i < |made| && made[i] == mb;
      assert order[i] in Elems(order);
    }
    IdsOfMembers(made);
  }

  /** The patched list, entry by entry: the last entry of an id gets the new name, unless the slice
      moved or the id was created; the created mailboxes follow. */
  lemma PatchedMeans(file: seq<Mailbox>, made: seq<Mailbox>, update: map<ID, RenameItem>, moved: bool)
    ensures var mbs := Patched(file, made, update, moved);
            && |mbs| == |file| + |made| && mbs[|file|..] == made
            && forall i :: 0 <= i < |file| ==>
                 mbs[i] == if !moved && Renames(update, file[i].id)
                              && (forall j :: i < j < |file| ==> file[j].id != file[i].id)
                              && (forall mb :: mb in made ==> mb.id != file[i].id)
                           then Mailbox(file[i].id, update[file[i].id].name, file[i].rest)
                           else file[i]
  {
    IdsOfMembers(made);
    forall i | 0 <= i < |file|
      ensures i == LastIndex(file, file[i].id) <==> forall j :: i < j < |file| ==> file[j].id != file[i].id
    {
      LastIndexIs(file, file[i].id);
    }
  }

  /** Which mailboxes the patched list has. */
  lemma PatchedMembers(file: seq<Mailbox>, made: seq<Mailbox>, update: map<ID, RenameItem>, moved: bool)
    ensures var mbs := Patched(file, made, update, moved);
            && (forall mb :: mb in file && (moved || !Renames(update, mb.id)) ==> mb in mbs)
            && (forall mb :: mb in made ==> mb in mbs)
            && (forall mb :: Reached(file, update, mb) && !moved && mb.id !in IdsOf(made) ==>
                  Mailbox(mb.id, update[mb.id].name, mb.rest) in mbs)
            && (forall mb :: mb in mbs ==> mb in made || ComesFrom(mb, file, update))
  {
    var mbs := Patched(file, made, update, moved);
    PatchedMeans(file, made, update, moved);
    assert forall mb :: mb in made ==> mb in mbs[|file|..];
    forall mb | mb in file
      ensures moved || !Renames(update, mb.id) ==> mb in mbs
      ensures Reached(file, update, mb) && !moved && mb.id !in IdsOf(made) ==>
                Mailbox(mb.id, update[mb.id].name, mb.rest) in mbs
    {
      LastIndexIs(file, mb.id);
      IdsOfMembers(file);
      IdsOfMembers(made);
      var i := LastIndex(file, mb.id);
      assert file[i].id == mb.id && file[i] in file;
      var k :| 0 <= k < |file| && file[k] == mb;
      assert mbs[i] in mbs && mbs[k] in mbs;
    }
    forall mb | mb in mbs
      ensures mb in made || ComesFrom(mb, file, update)
    {
      var i :| 0 <= i < |mbs| && mbs[i] == mb;
      if i < |file| {
        assert file[i] in file;
      } else {
        assert mbs[|file|..][i - |file|] == mb;
      }
    }
  }

  /** `spare` is the unused capacity of the decoded slice, which Go leaves open.  `order` is the
      order in which the accepted create keys were met. */
  method HandleMailboxSet(s: Store, req: MailboxSetRequest, spare: nat)
    returns (r: MailboxSetResponse, ghost order: seq<ID>)
    requires s.MailboxesValid()
    modifies s`mailboxFile, s`mailboxState, s`mailboxChanges, s`delta
    ensures s.MailboxesValid() && (old(s.DeltaSynced()) ==> s.DeltaSynced())
    ensures IsOrder(order, AcceptedCreates(req.create)) && InCreate(req.create, order)
    ensures SetMailboxes(s, old(s.MailboxJournal()), old(s.mailboxFile), req.update, MadeList(req.create, order),
                         r.updated, r.destroyed, |order| > spare)
    ensures AsAsked(s.mailboxFile, old(s.mailboxFile), req, r.created, r.destroyed, |order| > spare)
    ensures forall k :: k in r.created <==> k in req.create && req.create[k].accepted
    ensures forall k :: k in r.created && k in req.create ==>
              r.created[k] == if req.create[k].mb.id == "" then "mbx-" + k else req.create[k].mb.id
    ensures r.notCreated == req.create.Keys - r.created.Keys
    ensures var known := old(s.MailboxIds()) + r.created.Values;
            && NoDup(r.updated)
            && (forall id :: id in r.updated <==> id in req.update && id in known && !req.update[id].Invalid?)
            && Selects(r.destroyed, DestroyIds(req.destroy), WorkingAt(known, req.destroy))
            && Elems(r.destroyed) == (set i | 0 <= i < |req.destroy| && req.destroy[i].id in known &&
                                        req.destroy[i].accepted :: req.destroy[i].id)
            && r.notDestroyed == (set i | 0 <= i < |req.destroy| &&
                                    !(req.destroy[i].id in known && req.destroy[i].accepted) :: req.destroy[i].id)
    ensures r.notUpdated == req.update.Keys - Elems(r.updated)
    ensures var n := ChangesBetween(s.MailboxJournal(), s.mailboxOrigin, old(s.mailboxState), s.mailboxState);
            n == Net(r.created.Values - Elems(r.destroyed),
                     (Elems(r.updated) - r.created.Values) - Elems(r.destroyed),
                     Elems(r.destroyed))
    ensures r.oldState == FormatInt(old(s.mailboxState)) && r.newState == FormatInt(s.mailboxState)
  {
    hide Faithful, LiveUpdates, Patched, Selects, WorkingAt, DestroyIds, AsAsked, Elems;
    hide FormatInt, ListAfter, AcceptedCreates, AcceptedRenames, IsOrder;
    var file := s.mailboxFile;
    var oldState := FormatInt(s.mailboxState);
    var buf0, byId0 := Decode(file, spare);
    var buf, len, byId, created, addedIds;
    ghost var cells;
    buf, len, byId, created, addedIds, order, cells := RunCreates(buf0, file, byId0, req.create);
    ghost var made := MadeList(req.create, order);
    CreatedAre(req.create, order, created);
    assert byId.Keys == IdsOf(file) + created.Values;
    var updated, notUpdated := RunRenames(buf0, buf, len, byId, req.update, file, made, cells);
    RenamedAre(updated, byId.Keys, req.update);
    var destroyed, notDestroyed := RunMailboxDestroys(byId.Keys, req.destroy);
    var notCreated := req.create.Keys - created.Keys;
    StoreResult(s, buf[..len], addedIds, updated, destroyed, req.update, made, buf != buf0);
    DidAsAsked(s.mailboxFile, file, req, order, created, updated, destroyed, buf != buf0);
    SetDelta(old(s.MailboxJournal()), s.mailboxOrigin, made, updated, destroyed);
    r := MailboxSetResponse(oldState, FormatInt(s.mailboxState), created, notCreated,
                            updated, notUpdated, destroyed, notDestroyed);
  }

  /** The delta over the one record, or over none. */
  lemma SetDelta(j: Journal, o: Origin, made: seq<Mailbox>, renamed: seq<ID>, gone: seq<ID>)
    requires Faithful(j, o)
    ensures var rec := ChangeRecord(ListIds(made), renamed, gone);
            var t := if made == [] && renamed == [] && gone == [] then j else Commit(j, rec);
            && Faithful(t, o) && o.version <= j.state <= t.state
            && ChangesBetween(t, o, j.state, t.state) ==
               Net(IdsOf(made) - Elems(gone), (Elems(renamed) - IdsOf(made)) - Elems(gone), Elems(gone))
  {
    hide Fold, EventsOf, LiveAfter, Window;
    var rec := ChangeRecord(ListIds(made), renamed, gone);
    NoWindow(j.log, j.state);
    FoldNone();
    ListIdsElems(made);
    CommitKeeps(j, rec, o);
    CommitAppends(j, rec, j.state);
    RecordFold([], rec);
    if made == [] && renamed == [] && gone == [] {
      assert Elems(renamed) == Elems(gone) == IdsOf(made) == {};
    }
  }

  lemma CreatedAre(create: map<ID, CreateItem>, order: seq<ID>, created: map<ID, ID>)
    requires IsOrder(order, AcceptedCreates(create)) && InCreate(create, order)
    requires created == (map k | k in AcceptedCreates(create) :: Made(create, k).id)
    ensures IdsOf(MadeList(create, order)) == created.Values
    ensures forall k :: k in created <==> k in create && create[k].accepted
    ensures forall k :: k in created && k in create ==>
              created[k] == if create[k].mb.id == "" then "mbx-" + k else create[k].mb.id
  {
    MadeMeans(create, order);
    hide Made, AcceptedCreates, MadeList, IdsOf;
    forall id
      ensures id in created.Values <==> exists k :: k in AcceptedCreates(create) && Made(create, k).id == id
    {
      if exists k :: k in AcceptedCreates(create) && Made(create, k).id == id {
        var k :| k in AcceptedCreates(create) && Made(create, k).id == id;
        assert created[k] == id;
      }
    }
  }

  lemma RenamedAre(updated: seq<ID>, known: set<ID>, update: map<ID, RenameItem>)
    requires IsOrder(updated, AcceptedRenames(known, update))
    ensures NoDup(updated) && Elems(updated) <= known
    ensures forall id :: id in updated <==> id in update && id in known && !update[id].Invalid?
  {
    assert forall id :: id in updated <==> id in Elems(updated);
  }

  lemma DidAsAsked(next: seq<Mailbox>, file: seq<Mailbox>, req: MailboxSetRequest, order: seq<ID>,
                   created: map<ID, ID>, renamed: seq<ID>, gone: seq<ID>, moved: bool)
    requires IsOrder(order, AcceptedCreates(req.create)) && InCreate(req.create, order)
    requires created == (map k | k in AcceptedCreates(req.create) :: Made(req.create, k).id)
    requires forall id :: id in renamed <==>
               id in req.update && id in IdsOf(file) + created.Values && !req.update[id].Invalid?
    requires ListAfter(next, file, req.update, MadeList(req.create, order), renamed, gone, moved)
    ensures AsAsked(next, file, req, created, gone, moved)
  {
    var made := MadeList(req.create, order);
    MadeMeans(req.create, order);
    CreatedAre(req.create, order, created);
    hide Selects, KeptAt, Patched, MadeList, IsOrder, AcceptedCreates, IdsOf, ComesFrom, Made;
    if made == [] && renamed == [] && gone == [] {
      NothingRenamed(file, req.update, created, renamed);
    } else {
      var mbs := Patched(file, made, req.update, moved);
      KeptMeans(next, mbs, gone);
      PatchedMembers(file, made, req.update, moved);
    }
  }

  lemma NothingRenamed(file: seq<Mailbox>, update: map<ID, RenameItem>, created: map<ID, ID>, renamed: seq<ID>)
    requires renamed == []
    requires forall id :: id in renamed <==>
               id in update && id in IdsOf(file) + created.Values && !update[id].Invalid?
    ensures forall mb :: mb in file ==> !Renames(update, mb.id) && ComesFrom(mb, file, update)
  {
    IdsOfMembers(file);
  }

  /** `s.Mailboxes()` and the index over it. */
  method Decode(file: seq<Mailbox>, spare: nat) returns (buf: array<Mailbox>, byId: map<ID, Pointer>)
    ensures fresh(buf) && buf.Length == |file| + spare && buf[..|file|] == file && Indexed(byId, file, {})
  {
    buf := new Mailbox[|file| + spare](i => if 0 <= i < |file| then file[i] else Mailbox("", "", ""));
    assert buf[..|file|] == file;
    byId := BuildIndex(file);
  }

  // ---------- what a client sees of a rename ----------

  /** In a list without repeated ids, an accepted rename of a mailbox that is not destroyed is stored
      exactly if the slice did not move and no mailbox of that id was created along with it. */
  lemma RenameIsStored(file: seq<Mailbox>, made: seq<Mailbox>, update: map<ID, RenameItem>, moved: bool, i: int)
    requires 0 <= i < |file| && NoDup(ListIds(file))
    requires file[i].id in update && update[file[i].id].Rename? && update[file[i].id].name != file[i].name
    ensures Patched(file, made, update, moved)[i] == file[i].(name := update[file[i].id].name) <==>
            !moved && file[i].id !in IdsOf(made)
  {
    LastIndexIs(file, file[i].id);
    var l := LastIndex(file, file[i].id);
    assert file[i].id in IdsOf(file);
    assert ListIds(file)[l] == ListIds(file)[i];
    assert l == i;
  }
}
