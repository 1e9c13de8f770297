/** Identity/get and Identity/set (identity.go): the stored list, the index by id kept beside it
    through three loops, and the in-place filter at the end. */
module Identities {
  import opened Prelude
  import opened Json
  import opened Text
  import opened Slices

  type Identity = map<string, Json>

  function IdOf(m: Identity): Option<string> {
    if "id" in m && m["id"].Str? then Some(m["id"].s) else None
  }

  // ---------- the list and its index ----------

  function IdKeys(ids: seq<Identity>): (keys: seq<Option<string>>)
    ensures |keys| == |ids|
  {
    seq(|ids|, i requires 0 <= i < |ids| => IdOf(ids[i]))
  }

  function LastIndex(ids: seq<Identity>, v: string): int {
    LastAt(IdKeys(ids), Some(v))
  }

  lemma LastIndexIs(ids: seq<Identity>, v: string)
    ensures -1 <= LastIndex(ids, v) < |ids|
    ensures LastIndex(ids, v) >= 0 ==> IdOf(ids[LastIndex(ids, v)]) == Some(v)
    ensures forall i :: LastIndex(ids, v) < i < |ids| ==> IdOf(ids[i]) != Some(v)
  {
    LastAtIs(IdKeys(ids), Some(v));
    assert forall i :: 0 <= i < |ids| ==> IdKeys(ids)[i] == IdOf(ids[i]);
  }

  /** The identity that requests for `v` mean. */
  function Lookup(ids: seq<Identity>, v: string): Option<Identity> {
    LastIndexIs(ids, v);
    var i := LastIndex(ids, v);
    if i >= 0 then Some(ids[i]) else None
  }

  lemma LookupSnoc(ids: seq<Identity>, m: Identity, v: string)
    ensures Lookup(ids + [m], v) == if IdOf(m) == Some(v) then Some(m) else Lookup(ids, v)
    ensures LastIndex(ids + [m], v) == if IdOf(m) == Some(v) then |ids| else LastIndex(ids, v)
  {
    assert IdKeys(ids + [m]) == IdKeys(ids) + [IdOf(m)];
    LastAtSnoc(IdKeys(ids), IdOf(m), Some(v));
    LastIndexIs(ids, v);
  }

  /** `byID[v]` is where the last identity with id `v` stands, for every such `v` and no other. */
  ghost predicate Indexed(byId: map<string, int>, ids: seq<Identity>) {
    forall v :: if v in byId then byId[v] == LastIndex(ids, v) >= 0 else LastIndex(ids, v) == -1
  }

  predicate InBounds(byId: map<string, int>, ids: seq<Identity>) {
    forall v :: v in byId ==> 0 <= byId[v] < |ids|
  }

  lemma IndexedInBounds(byId: map<string, int>, ids: seq<Identity>)
    requires Indexed(byId, ids)
    ensures InBounds(byId, ids)
  {
    forall v | v in byId
      ensures 0 <= byId[v] < |ids|
    {
      LastIndexIs(ids, v);
    }
  }

  lemma IndexedSnoc(byId: map<string, int>, ids: seq<Identity>, m: Identity, v: string)
    requires Indexed(byId, ids) && IdOf(m) == Some(v)
    ensures Indexed(byId[v := |ids|], ids + [m])
  {
    forall w
      ensures LastIndex(ids + [m], w) == if w == v then |ids| else LastIndex(ids, w)
    {
      LookupSnoc(ids, m, w);
    }
  }

  /** Overwriting one identity leaves the index true exactly if the new one has the same id. */
  lemma IndexedReplace(byId: map<string, int>, ids: seq<Identity>, v: string, m: Identity)
    requires Indexed(byId, ids) && v in byId
    ensures 0 <= byId[v] < |ids|
    ensures Indexed(byId, ids[byId[v] := m]) <==> IdOf(m) == Some(v)
    ensures IdOf(m) == Some(v) ==>
              forall w :: Lookup(ids[byId[v] := m], w) == if w == v then Some(m) else Lookup(ids, w)
  {
    LastIndexIs(ids, v);
    var i := byId[v];
    var ids' := ids[i := m];
    if IdOf(m) == Some(v) {
      forall w
        ensures LastIndex(ids', w) == LastIndex(ids, w)
        ensures Lookup(ids', w) == if w == v then Some(m) else Lookup(ids, w)
      {
        SameLastIndex(ids, ids', w);
        LastIndexIs(ids, w);
        LastIndexIs(ids', w);
      }
    } else {
      LastIndexIs(ids', v);
    }
  }

  lemma LookupNone(v: string)
    ensures LastIndex([], v) == -1 && Lookup([], v) == None
  {
    LastIndexIs([], v);
  }

  lemma SameLastIndex(a: seq<Identity>, b: seq<Identity>, w: string)
    requires |a| == |b| && forall i :: 0 <= i < |a| ==> (IdOf(a[i]) == Some(w) <==> IdOf(b[i]) == Some(w))
    ensures LastIndex(a, w) == LastIndex(b, w)
  {
    LastIndexIs(a, w);
    LastIndexIs(b, w);
  }

  // ---------- requests ----------

  /** `json.Unmarshal` into a map: an object, null (which leaves the map nil), or an error. */
  datatype Raw = Object(fields: Identity) | NullValue | Malformed

  /** One entry of `create` or `update` with the verdict of the hook. */
  datatype Item = Item(raw: Raw, accepted: bool)

  datatype IdentitySetRequest = IdentitySetRequest(
    create: map<ID, Item>, update: map<ID, Item>, destroy: seq<DestroyItem>)

  function NewId(key: ID, data: Identity): string {
    if "id" in data && data["id"].Str? && data["id"].s != "" then data["id"].s else "identity-" + key
  }

  function MadeIdentity(key: ID, data: Identity): Identity {
    data["id" := Str(NewId(key, data))]
  }

  function NameOf(addr: string): string {
    if '@' in addr && addr[0] != '@' then BeforeAt(addr) else addr
  }

  function BeforeAt(addr: string): string {
    if addr == [] || addr[0] == '@' then [] else [addr[0]] + BeforeAt(addr[1..])
  }

  function DefaultId(account: ID): ID {
    "identity-" + account
  }

  function DefaultIdentity(account: ID): Identity {
    map["id" := Str(DefaultId(account)), "name" := Str(NameOf(account)), "email" := Str(account),
        "replyTo" := Null, "bcc" := Null, "textSignature" := Str(""), "htmlSignature" := Str(""),
        "mayDelete" := Bool(false)]
  }

  // ---------- the loops on values ----------

  /** `s.identities`, `byID` and `s.identityState`. */
  datatype Table = Table(ids: seq<Identity>, byId: map<string, int>, counter: int)

  ghost predicate TableOk(t: Table) {
    Indexed(t.byId, t.ids)
  }

  predicate CreateWorks(item: Item) {
    item.raw.Object? && item.accepted
  }

  function CreateOne(t: Table, key: ID, item: Item): Table {
    if CreateWorks(item) then
      var data := MadeIdentity(key, item.raw.fields);
      Table(t.ids + [data], t.byId[NewId(key, item.raw.fields) := |t.ids|], t.counter + 1)
    else t
  }

  /** What an update starts from: the indexed identity, or the default that Identity/get makes up. */
  function BaseFor(t: Table, account: ID, id: ID): Option<Identity>
    requires InBounds(t.byId, t.ids)
  {
    if id in t.byId then Some(t.ids[t.byId[id]])
    else if id == DefaultId(account) then Some(DefaultIdentity(account))
    else None
  }

  function PatchOf(raw: Raw): Identity {
    if raw.Object? then raw.fields else map[]
  }

  predicate UpdateWorks(t: Table, account: ID, id: ID, item: Item)
    requires InBounds(t.byId, t.ids)
  {
    BaseFor(t, account, id).Some? && !item.raw.Malformed? && item.accepted
  }

  function UpdateOne(t: Table, account: ID, id: ID, item: Item): Table
    requires InBounds(t.byId, t.ids)
  {
    if UpdateWorks(t, account, id, item) then
      var merged := BaseFor(t, account, id).value + PatchOf(item.raw);
      if id in t.byId then Table(t.ids[t.byId[id] := merged], t.byId, t.counter + 1)
      else Table(t.ids + [merged], t.byId[id := |t.ids|], t.counter + 1)
    else t
  }

  function Creates(t: Table, create: map<ID, Item>, order: seq<ID>): Table
    requires forall k :: k in order ==> k in create
  {
    if order == [] then t
    else
      var init, k := order[..|order| - 1], order[|order| - 1];
      CreateOne(Creates(t, create, init), k, create[k])
  }

  function Updates(t: Table, account: ID, update: map<ID, Item>, order: seq<ID>): (r: Table)
    requires InBounds(t.byId, t.ids) && forall k :: k in order ==> k in update
    ensures InBounds(r.byId, r.ids) && |r.ids| >= |t.ids|
  {
    if order == [] then t
    else
      var init, k := order[..|order| - 1], order[|order| - 1];
      UpdateOne(Updates(t, account, update, init), account, k, update[k])
  }

  function Keep(ids: seq<Identity>, gone: set<string>): seq<Identity> {
    if ids == [] then []
    else
      var init, m := ids[..|ids| - 1], ids[|ids| - 1];
      if IdOf(m).Some? && IdOf(m).value in gone then Keep(init, gone) else Keep(init, gone) + [m]
  }

  // ---------- what the loops keep and mean ----------

  lemma CreateKeepsIndex(t: Table, key: ID, item: Item)
    requires TableOk(t)
    ensures TableOk(CreateOne(t, key, item))
    ensures CreateOne(t, key, item).counter == t.counter + (if CreateWorks(item) then 1 else 0)
    ensures forall v :: Lookup(CreateOne(t, key, item).ids, v) ==
              if CreateWorks(item) && v == NewId(key, item.raw.fields) then Some(MadeIdentity(key, item.raw.fields))
              else Lookup(t.ids, v)
  {
    if CreateWorks(item) {
      var data := MadeIdentity(key, item.raw.fields);
      IndexedSnoc(t.byId, t.ids, data, NewId(key, item.raw.fields));
      forall v
        ensures Lookup(t.ids + [data], v) == if IdOf(data) == Some(v) then Some(data) else Lookup(t.ids, v)
      {
        LookupSnoc(t.ids, data, v);
      }
    }
  }

  /** The patch does not set another id; a client may send the unchanged one back. */
  predicate PlainPatch(id: ID, item: Item) {
    item.raw.Object? && "id" in item.raw.fields ==> item.raw.fields["id"] == Str(id)
  }

  lemma PlainExactly(base: Identity, id: ID, item: Item)
    requires IdOf(base) == Some(id)
    ensures IdOf(base + PatchOf(item.raw)) == Some(id) <==> PlainPatch(id, item)
  {
  }

  lemma BaseHasId(t: Table, account: ID, id: ID)
    requires TableOk(t) && InBounds(t.byId, t.ids) && BaseFor(t, account, id).Some?
    ensures IdOf(BaseFor(t, account, id).value) == Some(id)
  {
    LastIndexIs(t.ids, id);
  }

  /** An update keeps the index true exactly if the patch does not set another id; then it changes
      what that id means and nothing else. */
  lemma UpdateKeepsIndex(t: Table, account: ID, id: ID, item: Item)
    requires TableOk(t) && InBounds(t.byId, t.ids) && UpdateWorks(t, account, id, item)
    ensures var merged := BaseFor(t, account, id).value + PatchOf(item.raw);
            var t' := UpdateOne(t, account, id, item);
            && (TableOk(t') <==> PlainPatch(id, item))
            && (TableOk(t') ==> forall v :: Lookup(t'.ids, v) == if v == id then Some(merged) else Lookup(t.ids, v))
  {
    var merged := BaseFor(t, account, id).value + PatchOf(item.raw);
    BaseHasId(t, account, id);
    PlainExactly(BaseFor(t, account, id).value, id, item);
    hide LastIndex, Lookup, PlainPatch, IdOf;
    if id in t.byId {
      IndexedReplace(t.byId, t.ids, id, merged);
      assert UpdateOne(t, account, id, item).ids == t.ids[t.byId[id] := merged];
    } else {
      forall v
        ensures Lookup(t.ids + [merged], v) == if IdOf(merged) == Some(v) then Some(merged) else Lookup(t.ids, v)
      {
        LookupSnoc(t.ids, merged, v);
      }
      if IdOf(merged) == Some(id) {
        IndexedSnoc(t.byId, t.ids, merged, id);
      } else {
        LookupSnoc(t.ids, merged, id);
      }
    }
  }

  lemma BaseIsLookup(t: Table, account: ID, id: ID)
    requires TableOk(t) && InBounds(t.byId, t.ids)
    ensures BaseFor(t, account, id) ==
            if Lookup(t.ids, id).Some? then Lookup(t.ids, id)
            else if id == DefaultId(account) then Some(DefaultIdentity(account))
            else None
    ensures id in t.byId <==> Lookup(t.ids, id).Some?
  {
    LastIndexIs(t.ids, id);
  }

  /** What `v` means after the updates, whatever their order. */
  function UpdatedMeaning(t: Table, account: ID, update: map<ID, Item>, v: string): Option<Identity>
    requires InBounds(t.byId, t.ids)
  {
    if v in update && UpdateWorks(t, account, v, update[v]) then
      Some(BaseFor(t, account, v).value + PatchOf(update[v].raw))
    else Lookup(t.ids, v)
  }

  function WorkingUpdates(t: Table, account: ID, update: map<ID, Item>, order: seq<ID>): set<ID>
    requires InBounds(t.byId, t.ids)
  {
    set v | v in order && v in update && UpdateWorks(t, account, v, update[v])
  }

  /** No update that works sets another id. */
  predicate PlainPatches(t: Table, account: ID, update: map<ID, Item>)
    requires InBounds(t.byId, t.ids)
  {
    forall v :: v in update && UpdateWorks(t, account, v, update[v]) ==> PlainPatch(v, update[v])
  }

  /** The update loop, for every order: the index stays true, each working update leaves its id
      meaning the base overlaid with the patch, nothing else changes, and the counter advances by one
      for each. */
  lemma {:induction false} UpdatesMeaning(t: Table, account: ID, update: map<ID, Item>, order: seq<ID>)
    requires TableOk(t) && InBounds(t.byId, t.ids) && PlainPatches(t, account, update)
    requires NoDup(order) && forall k :: k in order ==> k in update
    ensures var t' := Updates(t, account, update, order);
            && TableOk(t')
            && t'.counter == t.counter + |WorkingUpdates(t, account, update, order)|
            && forall v :: Lookup(t'.ids, v) ==
                 if v in order then UpdatedMeaning(t, account, update, v) else Lookup(t.ids, v)
  {
    hide TableOk, UpdateOne, UpdateWorks, UpdatedMeaning, WorkingUpdates, PlainPatch, InBounds, Lookup;
    if order == [] {
      NoWorkingUpdates(t, account, update);
    } else {
      var init, k := order[..|order| - 1], order[|order| - 1];
      assert order == init + [k] && k !in init;
      UpdatesMeaning(t, account, update, init);
      UpdatesStep(t, Updates(t, account, update, init), account, update, k);
      WorkingUpdatesSnoc(t, account, update, init, k);
    }
  }

  lemma NoWorkingUpdates(t: Table, account: ID, update: map<ID, Item>)
    requires InBounds(t.byId, t.ids)
    ensures WorkingUpdates(t, account, update, []) == {}
  {
  }

  lemma WorkingUpdatesSnoc(t: Table, account: ID, update: map<ID, Item>, init: seq<ID>, k: ID)
    requires InBounds(t.byId, t.ids) && k in update && k !in init
    ensures WorkingUpdates(t, account, update, init + [k]) ==
            WorkingUpdates(t, account, update, init) + (if UpdateWorks(t, account, k, update[k]) then {k} else {})
    ensures |WorkingUpdates(t, account, update, init + [k])| ==
            |WorkingUpdates(t, account, update, init)| + (if UpdateWorks(t, account, k, update[k]) then 1 else 0)
  {
    assert WorkingUpdates(t, account, update, init + [k]) ==
           WorkingUpdates(t, account, update, init) + (if UpdateWorks(t, account, k, update[k]) then {k} else {});
  }

  lemma UpdatesStep(t: Table, r: Table, account: ID, update: map<ID, Item>, k: ID)
    requires TableOk(t) && InBounds(t.byId, t.ids) && TableOk(r) && InBounds(r.byId, r.ids)
    requires k in update && Lookup(r.ids, k) == Lookup(t.ids, k)
    requires UpdateWorks(t, account, k, update[k]) ==> PlainPatch(k, update[k])
    ensures var r' := UpdateOne(r, account, k, update[k]);
            var works := UpdateWorks(t, account, k, update[k]);
            && TableOk(r') && r'.counter == r.counter + (if works then 1 else 0)
            && forall v :: Lookup(r'.ids, v) ==
                 if v == k then UpdatedMeaning(t, account, update, k) else Lookup(r.ids, v)
  {
    hide Indexed, UpdateOne;
    BaseIsLookup(t, account, k);
    BaseIsLookup(r, account, k);
    if UpdateWorks(r, account, k, update[k]) {
      UpdateKeepsIndex(r, account, k, update[k]);
    }
    UpdateCounts(r, account, k, update[k]);
  }

  lemma UpdateCounts(t: Table, account: ID, id: ID, item: Item)
    requires InBounds(t.byId, t.ids)
    ensures UpdateOne(t, account, id, item).counter == t.counter + (if UpdateWorks(t, account, id, item) then 1 else 0)
    ensures !UpdateWorks(t, account, id, item) ==> UpdateOne(t, account, id, item) == t
  {
  }

  // ---------- exactly when the index survives the update loop ----------

  predicate OneSlotEach(byId: map<string, int>) {
    forall v, w :: v in byId && w in byId && v != w ==> byId[v] != byId[w]
  }

  /** An id that no update has named yet is filed as before and means what it did. */
  predicate SameSlot(t: Table, r: Table, v: string)
    requires InBounds(t.byId, t.ids) && InBounds(r.byId, r.ids)
  {
    && (v in r.byId <==> v in t.byId)
    && (v in r.byId ==> r.byId[v] == t.byId[v] && r.ids[r.byId[v]] == t.ids[t.byId[v]])
  }

  /** The identity in the slot of `v` still has the id `v`. */
  predicate TrueSlot(r: Table, v: string)
    requires InBounds(r.byId, r.ids)
  {
    v in r.byId && IdOf(r.ids[r.byId[v]]) == Some(v)
  }

  lemma SlotsApart(t: Table)
    requires TableOk(t) && InBounds(t.byId, t.ids)
    ensures OneSlotEach(t.byId)
  {
    forall v, w | v in t.byId && w in t.byId && v != w
      ensures t.byId[v] != t.byId[w]
    {
      LastIndexIs(t.ids, v);
      LastIndexIs(t.ids, w);
    }
  }

  /** After the loop the slot of every working update is true exactly if its patch set no other id:
      the slot is written through its own key only, so no later update repairs or breaks it. */
  lemma {:induction false} UpdatesSlots(t: Table, account: ID, update: map<ID, Item>, order: seq<ID>)
    requires TableOk(t) && InBounds(t.byId, t.ids)
    requires NoDup(order) && forall k :: k in order ==> k in update
    ensures var r := Updates(t, account, update, order);
            && OneSlotEach(r.byId)
            && (forall v :: v !in order ==> SameSlot(t, r, v))
            && forall v :: v in order && UpdateWorks(t, account, v, update[v]) ==>
                 (TrueSlot(r, v) <==> PlainPatch(v, update[v])) && v in r.byId
  {
    hide OneSlotEach, TrueSlot, UpdateWorks, UpdateOne, PlainPatch, TableOk, InBounds;
    if order == [] {
      SlotsApart(t);
    } else {
      hide SameSlot;
      var init, k := order[..|order| - 1], order[|order| - 1];
      assert order == init + [k] && k !in init;
      UpdatesSlots(t, account, update, init);
      UpdateSlot(t, Updates(t, account, update, init), account, k, update[k]);
    }
  }

  lemma UpdateSlot(t: Table, r: Table, account: ID, k: ID, item: Item)
    requires TableOk(t) && InBounds(t.byId, t.ids) && InBounds(r.byId, r.ids)
    requires OneSlotEach(r.byId) && SameSlot(t, r, k)
    ensures var r' := UpdateOne(r, account, k, item);
            && InBounds(r'.byId, r'.ids) && OneSlotEach(r'.byId)
            && (UpdateWorks(t, account, k, item) ==> k in r'.byId && (TrueSlot(r', k) <==> PlainPatch(k, item)))
            && (forall v :: v != k ==> (SameSlot(t, r', v) <==> SameSlot(t, r, v)))
            && forall v :: v != k ==> (TrueSlot(r', v) <==> TrueSlot(r, v)) && (v in r'.byId <==> v in r.byId)
  {
    OwnSlot(t, r, account, k, item);
    OtherSlots(r, account, k, item);
    hide TableOk, OneSlotEach, UpdateWorks, UpdateOne, PlainPatch, IdOf;
  }

  lemma OwnSlot(t: Table, r: Table, account: ID, k: ID, item: Item)
    requires TableOk(t) && InBounds(t.byId, t.ids) && InBounds(r.byId, r.ids) && SameSlot(t, r, k)
    ensures var r' := UpdateOne(r, account, k, item);
            && InBounds(r'.byId, r'.ids)
            && (UpdateWorks(t, account, k, item) ==> k in r'.byId && (TrueSlot(r', k) <==> PlainPatch(k, item)))
  {
    hide PlainPatch, IdOf;
    if UpdateWorks(t, account, k, item) {
      BaseHasId(t, account, k);
      PlainExactly(BaseFor(t, account, k).value, k, item);
    }
  }

  lemma OtherSlots(r: Table, account: ID, k: ID, item: Item)
    requires InBounds(r.byId, r.ids) && OneSlotEach(r.byId)
    ensures var r' := UpdateOne(r, account, k, item);
            && InBounds(r'.byId, r'.ids) && OneSlotEach(r'.byId)
            && forall v :: v != k ==> SameSlot(r, r', v)
  {
    hide PatchOf;
  }

  /** The index is true after the update loop exactly if no working update sets another id, in every
      order of the loop. */
  lemma UpdatesKeepIndex(t: Table, account: ID, update: map<ID, Item>, order: seq<ID>)
    requires TableOk(t) && InBounds(t.byId, t.ids) && IsOrder(order, update.Keys)
    ensures forall k :: k in order ==> k in update
    ensures TableOk(Updates(t, account, update, order)) <==> PlainPatches(t, account, update)
  {
    assert forall k :: k in order <==> k in Elems(order);
    if PlainPatches(t, account, update) {
      UpdatesMeaning(t, account, update, order);
    } else {
      var v :| v in update && UpdateWorks(t, account, v, update[v]) && !PlainPatch(v, update[v]);
      UpdatesSlots(t, account, update, order);
      LastIndexIs(Updates(t, account, update, order).ids, v);
    }
  }

  /** The identity that the last of the creates made for `v`. */
  function LastMade(create: map<ID, Item>, order: seq<ID>, v: string): Option<Identity>
    requires forall k :: k in order ==> k in create
  {
    if order == [] then None
    else
      var init, k := order[..|order| - 1], order[|order| - 1];
      if CreateWorks(create[k]) && NewId(k, create[k].raw.fields) == v then Some(MadeIdentity(k, create[k].raw.fields))
      else LastMade(create, init, v)
  }

  function WorkingCreates(create: map<ID, Item>, order: seq<ID>): set<ID> {
    set k | k in order && k in create && CreateWorks(create[k])
  }

  lemma {:induction false} CreatesMeaning(t: Table, create: map<ID, Item>, order: seq<ID>)
    requires TableOk(t) && NoDup(order) && forall k :: k in order ==> k in create
    ensures var t' := Creates(t, create, order);
            && TableOk(t')
            && t'.counter == t.counter + |WorkingCreates(create, order)|
            && forall v :: Lookup(t'.ids, v) ==
                 if LastMade(create, order, v).Some? then LastMade(create, order, v) else Lookup(t.ids, v)
  {
    hide TableOk, CreateOne, WorkingCreates, MadeIdentity, NewId, Lookup;
    if order == [] {
      NoWorkingCreates(create);
    } else {
      var init, k := order[..|order| - 1], order[|order| - 1];
      assert order == init + [k] && k !in init;
      CreatesMeaning(t, create, init);
      CreateKeepsIndex(Creates(t, create, init), k, create[k]);
      WorkingCreatesSnoc(create, init, k);
    }
  }

  lemma NoWorkingCreates(create: map<ID, Item>)
    ensures WorkingCreates(create, []) == {}
  {
  }

  lemma WorkingCreatesSnoc(create: map<ID, Item>, init: seq<ID>, k: ID)
    requires k in create && k !in init
    ensures |WorkingCreates(create, init + [k])| ==
            |WorkingCreates(create, init)| + (if CreateWorks(create[k]) then 1 else 0)
  {
    assert WorkingCreates(create, init + [k]) ==
           WorkingCreates(create, init) + (if CreateWorks(create[k]) then {k} else {});
  }

  /** The final filter removes exactly the destroyed ids. */
  lemma {:induction false} KeepMeaning(ids: seq<Identity>, gone: set<string>)
    ensures forall v :: Lookup(Keep(ids, gone), v) == if v in gone then None else Lookup(ids, v)
    ensures forall m :: m in Keep(ids, gone) <==> m in ids && !(IdOf(m).Some? && IdOf(m).value in gone)
  {
    hide Lookup;
    if ids == [] {
      forall v
        ensures Lookup([], v) == None
      {
        LookupNone(v);
      }
    } else {
      var init, m := ids[..|ids| - 1], ids[|ids| - 1];
      assert ids == init + [m];
      KeepMeaning(init, gone);
      forall v
        ensures Lookup(init + [m], v) == if IdOf(m) == Some(v) then Some(m) else Lookup(init, v)
      {
        LookupSnoc(init, m, v);
      }
      forall v
        ensures Lookup(Keep(init, gone) + [m], v) == if IdOf(m) == Some(v) then Some(m) else Lookup(Keep(init, gone), v)
      {
        LookupSnoc(Keep(init, gone), m, v);
      }
    }
  }

  function DestroyedList(byId: map<string, int>, destroy: seq<DestroyItem>): seq<ID> {
    if destroy == [] then []
    else
      var init, d := destroy[..|destroy| - 1], destroy[|destroy| - 1];
      if d.id in byId && d.accepted then DestroyedList(byId, init) + [d.id] else DestroyedList(byId, init)
  }

  /** The whole of Identity/set on values. */
  function SetResult(t: Table, account: ID, req: IdentitySetRequest, createOrder: seq<ID>, updateOrder: seq<ID>): Table
    requires InBounds(t.byId, t.ids)
    requires (forall k :: k in createOrder ==> k in req.create) && (forall k :: k in updateOrder ==> k in req.update)
  {
    var t1 := Creates(t, req.create, createOrder);
    CreatesInBounds(t, req.create, createOrder);
    var t2 := Updates(t1, account, req.update, updateOrder);
    var gone := DestroyedList(t2.byId, req.destroy);
    Table(Keep(t2.ids, Elems(gone)), t2.byId, t2.counter + |gone|)
  }

  lemma {:induction false} CreatesInBounds(t: Table, create: map<ID, Item>, order: seq<ID>)
    requires InBounds(t.byId, t.ids) && forall k :: k in order ==> k in create
    ensures InBounds(Creates(t, create, order).byId, Creates(t, create, order).ids)
  {
    if order == [] {
    } else {
      CreatesInBounds(t, create, order[..|order| - 1]);
    }
  }

  /** No update of the request that works after its creates sets another id. */
  predicate KeepsIds(t: Table, account: ID, req: IdentitySetRequest, createOrder: seq<ID>)
    requires InBounds(t.byId, t.ids) && forall k :: k in createOrder ==> k in req.create
  {
    CreatesInBounds(t, req.create, createOrder);
    PlainPatches(Creates(t, req.create, createOrder), account, req.update)
  }

  /** For the whole request: the index that the destroys consult is true exactly if no working update
      sets another id. */
  lemma SetKeepsIndex(t: Table, account: ID, req: IdentitySetRequest, createOrder: seq<ID>, updateOrder: seq<ID>)
    requires TableOk(t) && InBounds(t.byId, t.ids)
    requires IsOrder(createOrder, req.create.Keys) && IsOrder(updateOrder, req.update.Keys)
    requires (forall k :: k in createOrder ==> k in req.create) && (forall k :: k in updateOrder ==> k in req.update)
    ensures InBounds(Creates(t, req.create, createOrder).byId, Creates(t, req.create, createOrder).ids)
    ensures TableOk(Updates(Creates(t, req.create, createOrder), account, req.update, updateOrder)) <==>
            KeepsIds(t, account, req, createOrder)
  {
    hide Indexed, InBounds;
    CreatesMeaning(t, req.create, createOrder);
    CreatesInBounds(t, req.create, createOrder);
    UpdatesKeepIndex(Creates(t, req.create, createOrder), account, req.update, updateOrder);
  }

  /** Identity/set for every order of both loops and patches that set no other id: a destroyed id
      means nothing any more, an updated one its base overlaid with the patch, a created one what the
      last create of that id made, every other one what it meant before; and the counter advances by
      one for every create, update and destroy that was accepted. */
  lemma SetMeaning(t: Table, account: ID, req: IdentitySetRequest, createOrder: seq<ID>, updateOrder: seq<ID>)
    requires TableOk(t) && InBounds(t.byId, t.ids)
    requires IsOrder(createOrder, req.create.Keys) && IsOrder(updateOrder, req.update.Keys)
    requires (forall k :: k in createOrder ==> k in req.create) && (forall k :: k in updateOrder ==> k in req.update)
    requires KeepsIds(t, account, req, createOrder)
    ensures var t1 := Creates(t, req.create, createOrder);
            var r := SetResult(t, account, req, createOrder, updateOrder);
            && TableOk(t1) && InBounds(t1.byId, t1.ids)
            && var gone := DestroyedList(Updates(t1, account, req.update, updateOrder).byId, req.destroy);
            && (forall v :: Lookup(r.ids, v) ==
                  if v in gone then None else UpdatedMeaning(t1, account, req.update, v))
            && (forall v :: Lookup(t1.ids, v) ==
                  if LastMade(req.create, createOrder, v).Some? then LastMade(req.create, createOrder, v)
                  else Lookup(t.ids, v))
            && r.counter == t.counter + |WorkingCreates(req.create, createOrder)|
                            + |WorkingUpdates(t1, account, req.update, updateOrder)| + |gone|
  {
    hide Indexed, UpdateWorks;
    assert forall k :: k in createOrder ==> k in Elems(createOrder);
    assert forall k :: k in updateOrder ==> k in Elems(updateOrder);
    var t1 := Creates(t, req.create, createOrder);
    CreatesMeaning(t, req.create, createOrder);
    CreatesInBounds(t, req.create, createOrder);
    UpdatesMeaning(t1, account, req.update, updateOrder);
    var t2 := Updates(t1, account, req.update, updateOrder);
    KeepMeaning(t2.ids, Elems(DestroyedList(t2.byId, req.destroy)));
    assert forall v :: v in updateOrder <==> v in Elems(updateOrder);
  }

  /** The ids that land in `updated`. */
  function UpdatedList(t: Table, account: ID, update: map<ID, Item>, order: seq<ID>): seq<ID>
    requires InBounds(t.byId, t.ids) && forall k :: k in order ==> k in update
  {
    if order == [] then []
    else
      var init, k := order[..|order| - 1], order[|order| - 1];
      if UpdateWorks(Updates(t, account, update, init), account, k, update[k]) then
        UpdatedList(t, account, update, init) + [k]
      else UpdatedList(t, account, update, init)
  }

  /** With plain patches these are the updates that work on the table as it was, in every order. */
  lemma {:induction false} UpdatedListMeaning(t: Table, account: ID, update: map<ID, Item>, order: seq<ID>)
    requires TableOk(t) && InBounds(t.byId, t.ids) && PlainPatches(t, account, update)
    requires NoDup(order) && forall k :: k in order ==> k in update
    ensures Elems(UpdatedList(t, account, update, order)) == WorkingUpdates(t, account, update, order)
  {
    if order != [] {
      hide Indexed, UpdateWorks, UpdatedMeaning, WorkingUpdates, PlainPatch, InBounds;
      var init, k := order[..|order| - 1], order[|order| - 1];
      assert order == init + [k] && k !in init;
      UpdatedListMeaning(t, account, update, init);
      UpdatesMeaning(t, account, update, init);
      var r := Updates(t, account, update, init);
      BaseIsLookup(t, account, k);
      BaseIsLookup(r, account, k);
      ElemsSnoc(UpdatedList(t, account, update, init), k);
      WorkingUpdatesSnoc(t, account, update, init, k);
    } else {
      assert Elems(UpdatedList(t, account, update, order)) == {} == WorkingUpdates(t, account, update, order);
    }
  }

  /** What the response lists as updated. */
  function Reported(t: Table, account: ID, req: IdentitySetRequest, createOrder: seq<ID>, updateOrder: seq<ID>): seq<ID>
    requires InBounds(t.byId, t.ids)
    requires (forall k :: k in createOrder ==> k in req.create) && (forall k :: k in updateOrder ==> k in req.update)
  {
    CreatesInBounds(t, req.create, createOrder);
    UpdatedList(Creates(t, req.create, createOrder), account, req.update, updateOrder)
  }

  // ---------- the same, field by field ----------

  /** `m` is what a create under `key` with the fields `data` stores: all of them as given, except that
      "id" is the given one if it is a non-empty string and else made from the key. */
  predicate StoredFrom(m: Identity, key: ID, data: Identity) {
    && m.Keys == data.Keys + {"id"}
    && (forall f :: f in data && f != "id" ==> m[f] == data[f])
    && m["id"].Str? && GivesId(key, data, m["id"].s)
  }

  predicate GivesId(key: ID, data: Identity, v: string) {
    if "id" in data && data["id"].Str? && data["id"].s != "" then v == data["id"].s else v == "identity-" + key
  }

  lemma MadeMeans(key: ID, data: Identity)
    ensures StoredFrom(MadeIdentity(key, data), key, data)
    ensures forall v :: GivesId(key, data, v) <==> v == NewId(key, data)
  {
  }

  /** `m` is `base` with the fields of the patch instead of its own; a null patch has none. */
  predicate Overlaid(m: Identity, base: Identity, raw: Raw) {
    if raw.Object? then
      && m.Keys == base.Keys + raw.fields.Keys
      && forall f :: f in m ==> m[f] == if f in raw.fields then raw.fields[f] else base[f]
    else m == base
  }

  lemma MergedMeans(base: Identity, raw: Raw)
    ensures Overlaid(base + PatchOf(raw), base, raw)
  {
  }

  /** The identity that stands for an account without any (store.go). */
  lemma DefaultMeans(account: ID)
    ensures var d := DefaultIdentity(account);
            && d.Keys == {"id", "name", "email", "replyTo", "bcc", "textSignature", "htmlSignature", "mayDelete"}
            && d["id"] == Str("identity-" + account) && d["email"] == Str(account) && d["mayDelete"] == Bool(false)
            && d["replyTo"] == d["bcc"] == Null && d["textSignature"] == d["htmlSignature"] == Str("")
            && d["name"].Str? && IsLocalPart(d["name"].s, account)
  {
    if '@' in account {
      BeforeAtMeans(account);
    }
  }

  /** The part before the first `@`; the whole if there is none or nothing before it. */
  predicate IsLocalPart(name: string, addr: string) {
    if '@' in addr && addr[0] != '@' then
      '@' !in name && |name| < |addr| && addr[..|name|] == name && addr[|name|] == '@'
    else name == addr
  }

  lemma {:induction false} BeforeAtMeans(addr: string)
    requires '@' in addr
    ensures var name := BeforeAt(addr);
            '@' !in name && |name| < |addr| && addr[..|name|] == name && addr[|name|] == '@'
  {
    if addr[0] == '@' {
    } else {
      BeforeAtMeans(addr[1..]);
      assert addr == [addr[0]] + addr[1..];
    }
  }

  /** The create met as the i-th works and gives the id `v`. */
  predicate Gives(create: map<ID, Item>, order: seq<ID>, v: string, i: int) {
    && 0 <= i < |order| && order[i] in create
    && create[order[i]].raw.Object? && create[order[i]].accepted
    && GivesId(order[i], create[order[i]].raw.fields, v)
  }

  /** It is the last such create. */
  predicate LastGives(create: map<ID, Item>, order: seq<ID>, v: string, i: int) {
    Gives(create, order, v, i) && forall j :: i < j < |order| ==> !Gives(create, order, v, j)
  }

  lemma {:induction false} LastMadeMeans(create: map<ID, Item>, order: seq<ID>, v: string)
    requires forall k :: k in order ==> k in create
    ensures match LastMade(create, order, v)
            case None => forall i :: !Gives(create, order, v, i)
            case Some(m) =>
              exists i :: LastGives(create, order, v, i) && StoredFrom(m, order[i], create[order[i]].raw.fields)
  {
    if order == [] {
    } else {
      hide NewId, GivesId, StoredFrom, MadeIdentity;
      var init, n := order[..|order| - 1], |order| - 1;
      var k := order[n];
      assert order == init + [k];
      LastMadeMeans(create, init, v);
      if create[k].raw.Object? {
        MadeMeans(k, create[k].raw.fields);
      }
      assert forall i :: i < n ==> (Gives(create, order, v, i) <==> Gives(create, init, v, i));
      if Gives(create, order, v, n) {
        assert LastGives(create, order, v, n);
      } else if LastMade(create, init, v).Some? {
        var i :| LastGives(create, init, v, i) &&
                 StoredFrom(LastMade(create, init, v).value, init[i], create[init[i]].raw.fields);
        assert LastGives(create, order, v, i);
      }
    }
  }

  /** What `v` means after the creates, if it meant `before`: what the last create that gives it stores. */
  ghost predicate CreatedMeans(found: Option<Identity>, before: Option<Identity>, create: map<ID, Item>,
                               order: seq<ID>, v: string)
  {
    if exists i :: LastGives(create, order, v, i) then
      found.Some? &&
      exists i :: LastGives(create, order, v, i) && StoredFrom(found.value, order[i], create[order[i]].raw.fields)
    else found == before
  }

  /** What an update of `v` starts from, if `v` means `found`. */
  ghost predicate StartsFrom(base: Identity, found: Option<Identity>, account: ID, v: string) {
    if found.Some? then base == found.value else v == "identity-" + account && base == DefaultIdentity(account)
  }

  /** The update of `v` is accepted, decodes, and there is something to update. */
  predicate Works(update: map<ID, Item>, found: Option<Identity>, account: ID, v: string) {
    && v in update && update[v].accepted && !update[v].raw.Malformed?
    && (found.Some? || v == "identity-" + account)
  }

  /** What `v` means after the updates, if it meant `before`. */
  ghost predicate UpdatedMeans(found: Option<Identity>, before: Option<Identity>, update: map<ID, Item>, account: ID,
                               v: string)
  {
    if Works(update, before, account, v) then
      found.Some? &&
      exists base :: StartsFrom(base, before, account, v) && Overlaid(found.value, base, update[v].raw)
    else found == before
  }

  /** The update of `v`, in terms of what `v` means. */
  lemma UpdateMeans(t: Table, account: ID, update: map<ID, Item>, v: string)
    requires TableOk(t) && InBounds(t.byId, t.ids)
    ensures UpdatedMeans(UpdatedMeaning(t, account, update, v), Lookup(t.ids, v), update, account, v)
    ensures Works(update, Lookup(t.ids, v), account, v) <==>
            v in update && UpdateWorks(t, account, v, update[v])
  {
    BaseIsLookup(t, account, v);
    hide DefaultIdentity, Lookup, TableOk;
    if Works(update, Lookup(t.ids, v), account, v) {
      var base := BaseFor(t, account, v).value;
      MergedMeans(base, update[v].raw);
      assert StartsFrom(base, Lookup(t.ids, v), account, v);
    }
  }

  /** The request on one id: created, then updated, then destroyed, and what is reported of that. */
  ghost predicate RequestMeans(before: Option<Identity>, after: Option<Identity>, account: ID, req: IdentitySetRequest,
                               createOrder: seq<ID>, updated: seq<ID>, destroyed: seq<ID>, v: string)
  {
    exists made, patched ::
      && CreatedMeans(made, before, req.create, createOrder, v)
      && UpdatedMeans(patched, made, req.update, account, v)
      && (after == if Destroys(req.destroy, v) then None else patched)
      && (v in updated <==> Works(req.update, made, account, v))
      && (v in destroyed <==> patched.Some? && Destroys(req.destroy, v))
  }

  predicate Destroys(destroy: seq<DestroyItem>, v: string) {
    exists i :: 0 <= i < |destroy| && destroy[i].id == v && destroy[i].accepted
  }

  lemma {:induction false} DestroyedListMeans(byId: map<string, int>, destroy: seq<DestroyItem>)
    ensures Selects(DestroyedList(byId, destroy), DestroyIds(destroy),
                    set i | 0 <= i < |destroy| && destroy[i].id in byId && destroy[i].accepted)
  {
    hide Selects;
    var yes := set i | 0 <= i < |destroy| && destroy[i].id in byId && destroy[i].accepted;
    if destroy == [] {
      assert DestroyIds(destroy) == [];
      SelectsNone<ID>(yes);
    } else {
      var n := |destroy| - 1;
      var init := destroy[..n];
      DestroyedListMeans(byId, init);
      var before := set i | 0 <= i < |init| && init[i].id in byId && init[i].accepted;
      assert DestroyIds(destroy) == DestroyIds(init) + [destroy[n].id];
      SelectsSame(DestroyedList(byId, init), DestroyIds(init), before, yes);
      if destroy[n].id in byId && destroy[n].accepted {
        SelectsTake(DestroyedList(byId, init), DestroyIds(init), yes, destroy[n].id);
      } else {
        SelectsSkip(DestroyedList(byId, init), DestroyIds(init), yes, destroy[n].id);
      }
    }
  }

  lemma DestroyedMembers(byId: map<string, int>, destroy: seq<DestroyItem>)
    ensures forall v :: v in DestroyedList(byId, destroy) <==> v in byId && Destroys(destroy, v)
  {
    hide Selects, DestroyedList;
    DestroyedListMeans(byId, destroy);
    SelectsElems(DestroyedList(byId, destroy), DestroyIds(destroy),
                 set i | 0 <= i < |destroy| && destroy[i].id in byId && destroy[i].accepted);
    DestroyIdsAt(destroy);
    forall v
      ensures v in Elems(DestroyedList(byId, destroy)) <==> v in byId && Destroys(destroy, v)
    {
      if v in byId && Destroys(destroy, v) {
        var i :| 0 <= i < |destroy| && destroy[i].id == v && destroy[i].accepted;
        assert DestroyIds(destroy)[i] == v;
      }
    }
  }

  /** The filter, in order. */
  lemma {:induction false} KeepSelects(ids: seq<Identity>, gone: set<string>)
    ensures Selects(Keep(ids, gone), ids,
                    set i | 0 <= i < |ids| && !(IdOf(ids[i]).Some? && IdOf(ids[i]).value in gone))
  {
    hide Selects, IdOf;
    var yes := set i | 0 <= i < |ids| && !(IdOf(ids[i]).Some? && IdOf(ids[i]).value in gone);
    if ids == [] {
      SelectsNone<Identity>(yes);
    } else {
      var n := |ids| - 1;
      var init := ids[..n];
      KeepSelects(init, gone);
      var before := set i | 0 <= i < |init| && !(IdOf(init[i]).Some? && IdOf(init[i]).value in gone);
      assert ids == init + [ids[n]];
      SelectsSame(Keep(init, gone), init, before, yes);
      if n in yes {
        SelectsTake(Keep(init, gone), init, yes, ids[n]);
      } else {
        SelectsSkip(Keep(init, gone), init, yes, ids[n]);
      }
    }
  }

  lemma CreatesMeanAt(t: Table, create: map<ID, Item>, order: seq<ID>, v: string)
    requires TableOk(t) && NoDup(order) && forall k :: k in order ==> k in create
    ensures CreatedMeans(Lookup(Creates(t, create, order).ids, v), Lookup(t.ids, v), create, order, v)
  {
    CreatesMeaning(t, create, order);
    LastMadeMeans(create, order, v);
    hide Lookup, LastMade, StoredFrom, Gives, Creates;
  }

  /** The updates and destroys on one id of a table. */
  lemma RestMeansAt(t: Table, account: ID, req: IdentitySetRequest, order: seq<ID>, v: string)
    requires TableOk(t) && InBounds(t.byId, t.ids) && PlainPatches(t, account, req.update)
    requires IsOrder(order, req.update.Keys) && forall k :: k in order ==> k in req.update
    ensures var t' := Updates(t, account, req.update, order);
            var after := Keep(t'.ids, Elems(DestroyedList(t'.byId, req.destroy)));
            var updated := UpdatedMeaning(t, account, req.update, v);
            && UpdatedMeans(updated, Lookup(t.ids, v), req.update, account, v)
            && (Lookup(after, v) == if Destroys(req.destroy, v) then None else updated)
            && (v in UpdatedList(t, account, req.update, order) <==> Works(req.update, Lookup(t.ids, v), account, v))
            && (v in DestroyedList(t'.byId, req.destroy) <==> updated.Some? && Destroys(req.destroy, v))
  {
    var t' := Updates(t, account, req.update, order);
    UpdateMeans(t, account, req.update, v);
    UpdatesMeaning(t, account, req.update, order);
    UpdatedListMeaning(t, account, req.update, order);
    assert v in order <==> v in Elems(order);
    assert v in UpdatedList(t, account, req.update, order) <==> v in WorkingUpdates(t, account, req.update, order);
    BaseIsLookup(t', account, v);
    DestroyedMembers(t'.byId, req.destroy);
    KeepMeaning(t'.ids, Elems(DestroyedList(t'.byId, req.destroy)));
    hide Lookup, TableOk, UpdatedMeans, DestroyedList, UpdatedList, Destroys, Keep, Updates, UpdateWorks, PlainPatches;
    hide Works;
  }

  /** Identity/set on every id, for every order of both loops and patches that set no other id: a created
      identity has the fields of its request, an updated one those of the patch over its base, a
      destroyed one is gone, and what was updated and destroyed is reported. */
  lemma SetMeans(t: Table, account: ID, req: IdentitySetRequest, createOrder: seq<ID>, updateOrder: seq<ID>, v: string)
    requires TableOk(t) && InBounds(t.byId, t.ids)
    requires IsOrder(createOrder, req.create.Keys) && IsOrder(updateOrder, req.update.Keys)
    requires (forall k :: k in createOrder ==> k in req.create) && (forall k :: k in updateOrder ==> k in req.update)
    requires KeepsIds(t, account, req, createOrder)
    ensures var t' := SetResult(t, account, req, createOrder, updateOrder);
            RequestMeans(Lookup(t.ids, v), Lookup(t'.ids, v), account, req, createOrder,
                         Reported(t, account, req, createOrder, updateOrder), DestroyedList(t'.byId, req.destroy), v)
  {
    hide Lookup, TableOk, CreatedMeans, UpdatedMeans, DestroyedList, Destroys, PlainPatches, Updates, Keep;
    hide UpdatedList, Works;
    CreatesMeaning(t, req.create, createOrder);
    CreatesInBounds(t, req.create, createOrder);
    CreatesMeanAt(t, req.create, createOrder, v);
    RestMeansAt(Creates(t, req.create, createOrder), account, req, updateOrder, v);
  }

  /** In particular: an accepted create whose id no other create gives, and that is neither updated nor
      destroyed by the same request, is stored with every field of the request. */
  lemma CreateIsStored(t: Table, account: ID, req: IdentitySetRequest, createOrder: seq<ID>, updateOrder: seq<ID>,
                       k: ID, v: string)
    requires TableOk(t) && InBounds(t.byId, t.ids)
    requires IsOrder(createOrder, req.create.Keys) && IsOrder(updateOrder, req.update.Keys)
    requires (forall k :: k in createOrder ==> k in req.create) && (forall k :: k in updateOrder ==> k in req.update)
    requires KeepsIds(t, account, req, createOrder)
    requires k in req.create && req.create[k].raw.Object? && req.create[k].accepted
    requires GivesId(k, req.create[k].raw.fields, v) && v !in req.update && !Destroys(req.destroy, v)
    requires forall l :: l in req.create && l != k && req.create[l].raw.Object? && req.create[l].accepted ==>
               !GivesId(l, req.create[l].raw.fields, v)
    ensures var found := Lookup(SetResult(t, account, req, createOrder, updateOrder).ids, v);
            found.Some? && StoredFrom(found.value, k, req.create[k].raw.fields)
  {
    SetMeans(t, account, req, createOrder, updateOrder, v);
    assert k in Elems(createOrder);
    var i :| 0 <= i < |createOrder| && createOrder[i] == k;
    assert LastGives(req.create, createOrder, v, i);
    hide Lookup, TableOk, StoredFrom, GivesId, PlainPatches, KeepsIds, SetResult, Reported;
  }

  // ---------- two consequences ----------

  /** Identity/get: the stored list, or the default identity while there is none. */
  function GetList(ids: seq<Identity>, account: ID): seq<Identity> {
    if |ids| > 0 then ids else [DefaultIdentity(account)]
  }

  /** Editing the identity that Identity/get makes up stores it: the next Identity/get shows the
      earlier one with the patch applied. */
  lemma DefaultIsUpserted(t: Table, account: ID, item: Item)
    requires TableOk(t) && t.ids == [] && item.accepted && !item.raw.Malformed?
    ensures InBounds(t.byId, t.ids)
    ensures var req := IdentitySetRequest(map[], map[DefaultId(account) := item], []);
            GetList(SetResult(t, account, req, [], [DefaultId(account)]).ids, account) ==
            [GetList(t.ids, account)[0] + PatchOf(item.raw)]
  {
    IndexedInBounds(t.byId, t.ids);
    var id := DefaultId(account);
    var update := map[id := item];
    var merged := DefaultIdentity(account) + PatchOf(item.raw);
    UpsertOne(t, account, id, item);
    OneUpdate(t, account, id, item);
    hide DefaultIdentity, DefaultId, UpdateOne;
    KeepNone([merged]);
    assert DestroyedList(UpdateOne(t, account, id, item).byId, []) == [];
    assert Elems<ID>([]) == {};
  }

  lemma UpsertOne(t: Table, account: ID, id: ID, item: Item)
    requires TableOk(t) && InBounds(t.byId, t.ids) && t.ids == [] && id == DefaultId(account)
    requires item.accepted && !item.raw.Malformed?
    ensures UpdateOne(t, account, id, item).ids == [DefaultIdentity(account) + PatchOf(item.raw)]
  {
    hide DefaultIdentity;
    assert id !in t.byId;
  }

  lemma {:induction false} KeepNone(ids: seq<Identity>)
    ensures Keep(ids, {}) == ids
  {
    if ids == [] {
    } else {
      KeepNone(ids[..|ids| - 1]);
    }
  }

  /** A patch that sets another id leaves a stale index: the old id still passes the check of the
      destroy loop, which reports it destroyed while the identity survives. */
  lemma PatchedIdSurvivesDestroy(t: Table, account: ID, v: ID, item: Item)
    requires TableOk(t) && InBounds(t.byId, t.ids)
    requires UpdateWorks(t, account, v, item) && !PlainPatch(v, item)
    ensures var req := IdentitySetRequest(map[], map[v := item], [DestroyItem(v, true)]);
            && DestroyedList(Updates(t, account, req.update, [v]).byId, req.destroy) == [v]
            && BaseFor(t, account, v).value + PatchOf(item.raw) in SetResult(t, account, req, [], [v]).ids
  {
    var update, destroy := map[v := item], [DestroyItem(v, true)];
    var r := UpdateOne(t, account, v, item);
    OneUpdate(t, account, v, item);
    MergedIsStored(t, account, v, item);
    OneDestroy(r.byId, v);
    hide TableOk, UpdateWorks, UpdateOne, Updates, PlainPatch, InBounds, DestroyedList, Keep, Lookup;
    KeepMeaning(r.ids, {v});
  }

  lemma OneUpdate(t: Table, account: ID, v: ID, item: Item)
    requires InBounds(t.byId, t.ids)
    ensures Updates(t, account, map[v := item], [v]) == UpdateOne(t, account, v, item)
  {
    hide UpdateOne;
    assert [v][..0] == [];
    assert Updates(t, account, map[v := item], []) == t;
  }

  lemma OneDestroy(byId: map<string, int>, v: ID)
    requires v in byId
    ensures DestroyedList(byId, [DestroyItem(v, true)]) == [v] && Elems([v]) == {v}
  {
    assert [DestroyItem(v, true)][..0] == [];
    assert DestroyedList(byId, []) == [];
    assert [v][0] == v;
  }

  lemma MergedIsStored(t: Table, account: ID, v: ID, item: Item)
    requires TableOk(t) && InBounds(t.byId, t.ids)
    requires UpdateWorks(t, account, v, item) && !PlainPatch(v, item)
    ensures IdOf(BaseFor(t, account, v).value + PatchOf(item.raw)) != Some(v)
    ensures var r := UpdateOne(t, account, v, item);
            v in r.byId && BaseFor(t, account, v).value + PatchOf(item.raw) in r.ids
  {
    BaseHasId(t, account, v);
    PlainExactly(BaseFor(t, account, v).value, v, item);
    var r := UpdateOne(t, account, v, item);
    assert r.ids[r.byId[v]] == BaseFor(t, account, v).value + PatchOf(item.raw);
  }

  // ---------- the stored list ----------

  datatype IdentitySetResponse = IdentitySetResponse(
    oldState: string, newState: string,
    created: map<ID, ID>, notCreated: set<ID>,
    updated: seq<ID>, notUpdated: set<ID>,
    destroyed: seq<ID>, notDestroyed: set<ID>)

  /** A panic inside a handler does not run the unlock that follows it, so the mutex stays taken and
      every later request waits for ever. */
  datatype Outcome<+T> = Answered(value: T) | Panicked | Blocked

  /** The identity fields of `Store`: a slice with its array, the counter and identities.json.
      `locked` is the mutex of the whole store, as it stands between requests. */
  class IdentityStore {
    var buf: array<Identity>
    var count: nat
    var identityState: int
    var file: Option<seq<Identity>>
    var locked: bool

    ghost predicate Valid()
      reads this
    {
      count <= buf.Length
    }

    function Ids(): seq<Identity>
      requires Valid()
      reads this, buf
    {
      buf[..count]
    }

    /** identities.json holds the list, or was never written while the list is empty. */
    ghost predicate Saved()
      requires Valid()
      reads this, buf
    {
      if file.None? then Ids() == [] else file.value == Ids()
    }

    /** `loadIdentities`: the counter is not persisted and starts again at zero. */
    constructor (saved: Option<seq<Identity>>)
      ensures Valid() && fresh(buf) && Saved() && file == saved && identityState == 0 && !locked
      ensures Ids() == if saved.Some? then saved.value else []
    {
      var ids: seq<Identity> := if saved.Some? then saved.value else [];
      buf := new Identity[|ids|](i => if 0 <= i < |ids| then ids[i] else map[]);
      count := |ids|;
      identityState := 0;
      file := saved;
      locked := false;
      new;
      assert Ids() == ids;
    }

    method HandleIdentityGet(account: ID) returns (r: Outcome<(seq<Identity>, string)>)
      requires Valid()
      ensures r == if locked then Blocked
                   else Answered((if Ids() == [] then [DefaultIdentity(account)] else Ids(), FormatInt(identityState)))
    {
      if locked {
        return Blocked;
      }
      var list := if count > 0 then Ids() else [DefaultIdentity(account)];
      return Answered((list, FormatInt(identityState)));
    }

    /** `s.identities = append(s.identities, data)` */
    method Append(data: Identity)
      requires Valid()
      modifies this`buf, this`count, buf
      ensures Valid() && Ids() == old(Ids()) + [data] && (buf == old(buf) || fresh(buf))
    {
      var growth: nat :| true;
      buf := Slices.Append(buf, count, data, growth);
      count := count + 1;
    }

    /** The filter that writes into the array it reads from. */
    method FilterInPlace(gone: set<string>)
      requires Valid()
      modifies this`count, buf
      ensures Valid() && Ids() == Keep(old(Ids()), gone)
    {
      ghost var before := Ids();
      var b, n, w := buf, count, 0;
      for i := 0 to n
        invariant buf == b && count == n && 0 <= w <= i
        invariant b[..w] == Keep(before[..i], gone)
        invariant forall k :: i <= k < n ==> b[k] == before[k]
      {
        assert before[..i + 1][..i] == before[..i];
        ghost var kept := b[..w];
        var id := b[i];
        if !(IdOf(id).Some? && IdOf(id).value in gone) {
          b[w] := id;
          w := w + 1;
          assert b[..w] == kept + [id];
        }
      }
      assert before[..n] == before;
      count := w;
    }

    ghost function TableWith(byId: map<string, int>): Table
      requires Valid()
      reads this, buf
    {
      Table(Ids(), byId, identityState)
    }

    /** The index over the list. */
    method BuildIndex() returns (byId: map<string, int>)
      requires Valid()
      ensures Indexed(byId, Ids())
    {
      byId := map[];
      for i := 0 to count
        invariant Indexed(byId, Ids()[..i])
      {
        assert Ids()[..i + 1] == Ids()[..i] + [Ids()[i]];
        IndexedNext(byId, Ids()[..i], Ids()[i]);
        if IdOf(buf[i]).Some? {
          byId := byId[IdOf(buf[i]).value := i];
        }
      }
      assert Ids()[..count] == Ids();
    }

    /** The create loop.  A null entry writes to a nil map, which panics: then `ok` is false and the
        entries met before it have been added. */
    method RunCreates(create: map<ID, Item>, byId0: map<string, int>)
      returns (ok: bool, byId: map<string, int>, created: map<ID, ID>, notCreated: set<ID>, ghost order: seq<ID>)
      requires Valid()
      modifies this`buf, this`count, this`identityState, buf
      ensures Valid() && (buf == old(buf) || fresh(buf))
      ensures ok <==> forall k :: k in create ==> !create[k].raw.NullValue?
      ensures NoDup(order) && (forall k :: k in order ==> k in create) && (ok ==> IsOrder(order, create.Keys))
      ensures TableWith(byId) == Creates(old(TableWith(byId0)), create, order)
      ensures ok ==> CreatesReported(create, create.Keys, created, notCreated)
    {
      hide IsOrder, NewId, CreatesReported, CreateWorks, CreateOne;
      ok, byId, created, notCreated, order := true, byId0, map[], {}, [];
      var rest := create.Keys;
      OrderNone<ID>();
      assert create.Keys - rest == {};
      NothingReported(create);
      while rest != {}
        invariant rest <= create.Keys && Valid() && (buf == old(buf) || fresh(buf))
        invariant IsOrder(order, create.Keys - rest) && forall k :: k in order ==> k in create
        invariant forall k :: k in create.Keys - rest ==> !create[k].raw.NullValue?
        invariant TableWith(byId) == Creates(old(TableWith(byId0)), create, order)
        invariant CreatesReported(create, create.Keys - rest, created, notCreated)
      {
        var key :| key in rest;
        var item := create[key];
        if item.raw.NullValue? {
          ok := false;
          OrderSize(order, create.Keys - rest);
          return;
        }
        OrderSnoc(order, create.Keys - rest, key);
        assert (create.Keys - rest) + {key} == create.Keys - (rest - {key});
        CreatesReportedNext(create, create.Keys - rest, created, notCreated, key);
        byId, created, notCreated := CreateStep(key, item, byId, created, notCreated);
        assert (order + [key])[..|order|] == order;
        order := order + [key];
        rest := rest - {key};
      }
      assert create.Keys - rest == create.Keys;
      OrderSize(order, create.Keys);
    }

    /** The body of the create loop. */
    method CreateStep(key: ID, item: Item, byId0: map<string, int>, created0: map<ID, ID>, notCreated0: set<ID>)
      returns (byId: map<string, int>, created: map<ID, ID>, notCreated: set<ID>)
      requires Valid() && !item.raw.NullValue?
      modifies this`buf, this`count, this`identityState, buf
      ensures Valid() && (buf == old(buf) || fresh(buf))
      ensures TableWith(byId) == CreateOne(old(TableWith(byId0)), key, item)
      ensures created == if CreateWorks(item) then created0[key := NewId(key, item.raw.fields)] else created0
      ensures notCreated == if CreateWorks(item) then notCreated0 else notCreated0 + {key}
    {
      byId, created, notCreated := byId0, created0, notCreated0;
      if item.raw.Malformed? || !item.accepted {
        notCreated := notCreated + {key};
        return;
      }
      var newId := NewId(key, item.raw.fields);
      Append(MadeIdentity(key, item.raw.fields));
      byId := byId[newId := count - 1];
      identityState := identityState + 1;
      created := created[key := newId];
    }

    /** The update loop. */
    method RunUpdates(account: ID, update: map<ID, Item>, byId0: map<string, int>)
      returns (byId: map<string, int>, updated: seq<ID>, notUpdated: set<ID>, ghost order: seq<ID>)
      requires Valid() && InBounds(byId0, Ids())
      modifies this`buf, this`count, this`identityState, buf
      ensures Valid() && (buf == old(buf) || fresh(buf))
      ensures IsOrder(order, update.Keys) && forall k :: k in order ==> k in update
      ensures TableWith(byId) == Updates(old(TableWith(byId0)), account, update, order)
      ensures updated == UpdatedList(old(TableWith(byId0)), account, update, order)
      ensures notUpdated == update.Keys - Elems(updated)
    {
      hide IsOrder, InBounds, UpdateWorks, UpdateOne;
      byId, updated, notUpdated, order := byId0, [], {}, [];
      ghost var t0 := TableWith(byId0);
      var rest := update.Keys;
      OrderNone<ID>();
      assert update.Keys - rest == {} && Elems<ID>([]) == {};
      while rest != {}
        invariant rest <= update.Keys && Valid() && (buf == old(buf) || fresh(buf))
        invariant IsOrder(order, update.Keys - rest) && forall k :: k in order ==> k in update
        invariant TableWith(byId) == Updates(t0, account, update, order)
        invariant updated == UpdatedList(t0, account, update, order)
        invariant Elems(updated) <= update.Keys - rest && notUpdated == (update.Keys - rest) - Elems(updated)
      {
        var id :| id in rest;
        OrderSnoc(order, update.Keys - rest, id);
        assert (update.Keys - rest) + {id} == update.Keys - (rest - {id});
        ElemsSnoc(updated, id);
        var ok;
        ok, byId := UpdateStep(account, id, update[id], byId);
        assert (order + [id])[..|order|] == order;
        if ok {
          updated := updated + [id];
        } else {
          notUpdated := notUpdated + {id};
        }
        order := order + [id];
        rest := rest - {id};
      }
      assert update.Keys - rest == update.Keys;
    }

    /** The body of the update loop. */
    method UpdateStep(account: ID, id: ID, item: Item, byId0: map<string, int>)
      returns (ok: bool, byId: map<string, int>)
      requires Valid() && InBounds(byId0, Ids())
      modifies this`buf, this`count, this`identityState, buf
      ensures Valid() && (buf == old(buf) || fresh(buf))
      ensures ok == UpdateWorks(old(TableWith(byId0)), account, id, item)
      ensures TableWith(byId) == UpdateOne(old(TableWith(byId0)), account, id, item)
    {
      byId := byId0;
      var base: Identity;
      if id in byId {
        base := buf[byId[id]];
      } else if id == DefaultId(account) {
        base := DefaultIdentity(account);
      } else {
        return false, byId;
      }
      if item.raw.Malformed? || !item.accepted {
        return false, byId;
      }
      var merged := base + PatchOf(item.raw);
      if id in byId {
        ghost var before := Ids();
        buf[byId[id]] := merged;
        assert Ids() == before[byId[id] := merged];
      } else {
        Append(merged);
        byId := byId[id := count - 1];
      }
      identityState := identityState + 1;
      return true, byId;
    }

    /** The destroy loop: only marks the ids and counts. */
    method RunDestroys(destroy: seq<DestroyItem>, byId: map<string, int>)
      returns (destroyed: seq<ID>, notDestroyed: set<ID>)
      modifies this`identityState
      ensures destroyed == DestroyedList(byId, destroy) && identityState == old(identityState) + |destroyed|
      ensures notDestroyed == set i | 0 <= i < |destroy| &&
                !(destroy[i].id in byId && destroy[i].accepted) :: destroy[i].id
    {
      destroyed, notDestroyed := [], {};
      for i := 0 to |destroy|
        invariant destroyed == DestroyedList(byId, destroy[..i]) && identityState == old(identityState) + |destroyed|
        invariant notDestroyed == set k | 0 <= k < i && !(destroy[k].id in byId && destroy[k].accepted) :: destroy[k].id
      {
        assert destroy[..i + 1][..i] == destroy[..i];
        if destroy[i].id !in byId || !destroy[i].accepted {
          notDestroyed := notDestroyed + {destroy[i].id};
        } else {
          destroyed := destroyed + [destroy[i].id];
          identityState := identityState + 1;
        }
      }
      assert destroy[..|destroy|] == destroy;
    }

    /** Compaction and the write of identities.json, each only if there is a reason for it. */
    method FilterAndSave(gone: set<ID>, asked: bool)
      requires Valid() && (asked || Saved())
      modifies this`count, this`file, buf
      ensures Valid() && Ids() == Keep(old(Ids()), gone) && Saved()
    {
      if gone != {} {
        FilterInPlace(gone);
      } else {
        KeepNone(Ids());
      }
      if asked || gone != {} {
        file := Some(Ids());
      }
    }

    /** Identity/set: with the orders in which Go met the keys, the list and the counter become those
        of `SetResult`, and identities.json is kept up to date.  It panics exactly on a null create:
        then the creates met before it stay in memory but not on disk, and the store stays locked. */
    method HandleIdentitySet(account: ID, req: IdentitySetRequest)
      returns (r: Outcome<IdentitySetResponse>,
               ghost byId0: map<string, int>, ghost createOrder: seq<ID>, ghost updateOrder: seq<ID>)
      requires Valid() && (locked || Saved())
      modifies this, buf
      ensures Valid() && (locked || Saved())
      ensures r.Blocked? <==> old(locked)
      ensures r.Blocked? ==> unchanged(this) && Ids() == old(Ids())
      ensures !r.Blocked? ==>
                && Indexed(byId0, old(Ids())) && InBounds(byId0, old(Ids()))
                && (r.Panicked? <==> exists k :: k in req.create && req.create[k].raw.NullValue?)
                && locked == r.Panicked?
                && (forall k :: k in createOrder ==> k in req.create)
                && (forall k :: k in updateOrder ==> k in req.update)
      ensures r.Panicked? ==>
                var t' := Creates(Table(old(Ids()), byId0, old(identityState)), req.create, createOrder);
                NoDup(createOrder) && Ids() == t'.ids && identityState == t'.counter && file == old(file)
      ensures r.Answered? ==>
                && IsOrder(createOrder, req.create.Keys) && IsOrder(updateOrder, req.update.Keys)
                && var t := Table(old(Ids()), byId0, old(identityState));
                   var t' := SetResult(t, account, req, createOrder, updateOrder);
                && Ids() == t'.ids && identityState == t'.counter
                && Reports(r.value, t, t', account, req, createOrder, updateOrder)
    {
      hide IsOrder, FormatInt, Indexed, InBounds, NewId, GetList, LastIndex, UpdateWorks, CreateWorks;
      hide CreatesReported, DestroyedList, Keep, Creates, Updates, UpdatedList;
      byId0, createOrder, updateOrder := map[], [], [];
      if locked {
        return Blocked, byId0, createOrder, updateOrder;
      }
      locked := true;
      var oldState := FormatInt(identityState);
      var byId := BuildIndex();
      byId0 := byId;
      IndexedInBounds(byId, Ids());
      ghost var t := TableWith(byId);
      var ok, created, notCreated;
      ok, byId, created, notCreated, createOrder := RunCreates(req.create, byId);
      if !ok {
        return Panicked, byId0, createOrder, updateOrder;
      }
      CreatesInBounds(t, req.create, createOrder);
      var updated, notUpdated;
      byId, updated, notUpdated, updateOrder := RunUpdates(account, req.update, byId);
      var destroyed, notDestroyed := RunDestroys(req.destroy, byId);
      NothingAsked(t, account, req, createOrder, updateOrder);
      FilterAndSave(Elems(destroyed), |req.create| > 0 || |req.update| > 0);
      var newState := FormatInt(identityState);
      locked := false;
      r := Answered(IdentitySetResponse(oldState, newState, created, notCreated,
                                        updated, notUpdated, destroyed, notDestroyed));
    }
  }

  /** The outcome for the create keys of `done`: the accepted creates with the ids they give, and the
      other keys. */
  ghost predicate CreatesReported(create: map<ID, Item>, done: set<ID>, created: map<ID, ID>, notCreated: set<ID>) {
    && done <= create.Keys
    && (forall k :: k in created <==> k in done && k in create && create[k].raw.Object? && create[k].accepted)
    && (forall k :: k in created && k in create && create[k].raw.Object? ==>
          GivesId(k, create[k].raw.fields, created[k]))
    && notCreated == done - created.Keys
  }

  lemma CreatesReportedNext(create: map<ID, Item>, done: set<ID>, created: map<ID, ID>, notCreated: set<ID>, k: ID)
    requires CreatesReported(create, done, created, notCreated) && k in create && k !in done
    ensures if CreateWorks(create[k]) then
              CreatesReported(create, done + {k}, created[k := NewId(k, create[k].raw.fields)], notCreated)
            else CreatesReported(create, done + {k}, created, notCreated + {k})
  {
    hide GivesId, NewId;
    if CreateWorks(create[k]) {
      MadeMeans(k, create[k].raw.fields);
    }
  }

  lemma NothingReported(create: map<ID, Item>)
    ensures CreatesReported(create, {}, map[], {})
  {
  }

  /** The response to a request that took the table `t` to `t'`. */
  ghost predicate Reports(r: IdentitySetResponse, t: Table, t': Table, account: ID, req: IdentitySetRequest,
                          createOrder: seq<ID>, updateOrder: seq<ID>)
    requires InBounds(t.byId, t.ids)
    requires (forall k :: k in createOrder ==> k in req.create) && (forall k :: k in updateOrder ==> k in req.update)
  {
    && r.oldState == FormatInt(t.counter) && r.newState == FormatInt(t'.counter)
    && CreatesReported(req.create, req.create.Keys, r.created, r.notCreated)
    && r.updated == Reported(t, account, req, createOrder, updateOrder)
    && r.notUpdated == req.update.Keys - Elems(r.updated)
    && r.destroyed == DestroyedList(t'.byId, req.destroy)
    && r.notDestroyed == (set i | 0 <= i < |req.destroy| &&
         !(req.destroy[i].id in t'.byId && req.destroy[i].accepted) :: req.destroy[i].id)
  }

  lemma IndexedNext(byId: map<string, int>, ids: seq<Identity>, m: Identity)
    requires Indexed(byId, ids)
    ensures Indexed(if IdOf(m).Some? then byId[IdOf(m).value := |ids|] else byId, ids + [m])
  {
    if IdOf(m).Some? {
      IndexedSnoc(byId, ids, m, IdOf(m).value);
    } else {
      forall v
        ensures LastIndex(ids + [m], v) == LastIndex(ids, v)
      {
        LookupSnoc(ids, m, v);
      }
    }
  }

  lemma NothingAsked(t: Table, account: ID, req: IdentitySetRequest, createOrder: seq<ID>, updateOrder: seq<ID>)
    requires InBounds(t.byId, t.ids) && IsOrder(createOrder, req.create.Keys) && IsOrder(updateOrder, req.update.Keys)
    requires (forall k :: k in createOrder ==> k in req.create) && (forall k :: k in updateOrder ==> k in req.update)
    ensures InBounds(Creates(t, req.create, createOrder).byId, Creates(t, req.create, createOrder).ids)
    ensures |req.create| == 0 && |req.update| == 0 ==>
              Updates(Creates(t, req.create, createOrder), account, req.update, updateOrder) == t
  {
    CreatesInBounds(t, req.create, createOrder);
    OrderSize(createOrder, req.create.Keys);
    OrderSize(updateOrder, req.update.Keys);
    assert |req.create.Keys| == |req.create| && |req.update.Keys| == |req.update|;
  }
}
