/** The Email methods of email.go: Email/changes, Email/queryChanges, Email/set and Email/copy. */
module EmailHandlers {
  import opened Prelude
  import opened Text
  import opened Slices
  import opened Delta
  import opened Journal
  import opened Mail
  import opened Threads
  import opened Persistence
  import opened Stores

  // ---------- Email/changes and Email/queryChanges ----------

  datatype Changes = Changes(oldState: string, newState: string,
                             created: seq<ID>, updated: seq<ID>, destroyed: seq<ID>)

  datatype AddedItem = AddedItem(id: ID, index: int)

  datatype QueryChanges = QueryChanges(oldQueryState: string, newQueryState: string,
                                       removed: seq<ID>, added: seq<AddedItem>)

  /** The client named a version whose successors the log still holds. */
  predicate InRange(since: string, first: int, cur: int) {
    ParseInt(since).Some? && first <= ParseInt(since).value <= cur
  }

  /** A state string that a server handed out is accepted exactly if its version is in the range. */
  lemma HandedOutState(v: int, first: int, cur: int)
    requires MIN_INT64 <= v <= MAX_INT64
    ensures InRange(FormatInt(v), first, cur) <==> first <= v <= cur
  {
    FormatParse(v);
  }

  /** The three lists are the three sets, each id once, in some order. */
  predicate Lists(c: Changes, n: Net) {
    IsOrder(c.created, n.created) && IsOrder(c.updated, n.updated) && IsOrder(c.destroyed, n.destroyed)
  }

  lemma CoversExactly(j: Journal, o: Origin, since: int)
    requires Faithful(j, o) && 0 <= since <= j.state
    ensures Covers(j.log, since, j.state) <==> o.version <= since
  {
    if since < o.version {
      assert since + 1 !in j.log;
    }
  }

  /** Fails exactly for a state that is malformed, in the future or older than the log; otherwise
      the answer turns the ids of that state into the present ones. */
  method HandleEmailChanges(s: Store, sinceState: string) returns (r: Result<Changes>)
    requires s.Valid()
    ensures r.Ok? <==> InRange(sinceState, s.origin.version, s.state)
    ensures r.Err? ==> r.error == "cannotCalculateChanges"
    ensures r.Ok? ==>
              var since := ParseInt(sinceState).value;
              var n := ChangesBetween(s.EmailJournal(), s.origin, since, s.state);
              && Lists(r.value, n)
              && r.value.oldState == sinceState && r.value.newState == FormatInt(s.state)
              && ApplyNet(IdsAt(s.EmailJournal(), s.origin, since), n) == s.msgs.Keys
              && n.created !! n.updated !! n.destroyed
              && n.created <= s.msgs.Keys && n.updated <= s.msgs.Keys && n.destroyed !! s.msgs.Keys
  {
    hide ParseInt, FormatInt, Faithful, LegalLog, Window, LiveAfter, Fold;
    var since := ParseInt(sinceState);
    if since.None? || since.value < 0 {
      OriginVersion(s.EmailJournal(), s.origin);
      return Err(CANNOT_CALCULATE);
    }
    var cur := s.state;
    if since.value > cur {
      return Err(CANNOT_CALCULATE);
    }
    CoversExactly(s.EmailJournal(), s.origin, since.value);
    var n := FoldWindow(s.changes, since.value, cur);
    if n.None? {
      return Err(CANNOT_CALCULATE);
    }
    ReplayBetween(s.EmailJournal(), s.origin, since.value, cur);
    DeltaToNow(s.EmailJournal(), s.origin, since.value);
    var created := ListKeys(n.value.created);
    var updated := ListKeys(n.value.updated);
    var destroyed := ListKeys(n.value.destroyed);
    return Ok(Changes(sinceState, FormatInt(cur), created, updated, destroyed));
  }

  lemma OriginVersion(j: Journal, o: Origin)
    requires Faithful(j, o)
    ensures 0 <= o.version <= j.state
  {
  }

  /** The ids of the added items are those of Email/changes, each once, numbered 0, 1, 2, ... */
  predicate Numbered(items: seq<AddedItem>, ids: set<ID>) {
    && IsOrder(seq(|items|, i requires 0 <= i < |items| => items[i].id), ids)
    && forall i :: 0 <= i < |items| ==> items[i].index == i
  }

  method NumberItems(ids: set<ID>) returns (items: seq<AddedItem>)
    ensures Numbered(items, ids)
  {
    var order := ListKeys(ids);
    items := [];
    for i := 0 to |order|
      invariant |items| == i
      invariant forall j :: 0 <= j < i ==> items[j] == AddedItem(order[j], j)
    {
      items := items + [AddedItem(order[i], i)];
    }
    assert seq(|items|, i requires 0 <= i < |items| => items[i].id) == order;
  }

  method HandleQueryChanges(s: Store, sinceQueryState: string) returns (r: Result<QueryChanges>)
    requires s.Valid()
    ensures r.Ok? <==> InRange(sinceQueryState, s.origin.version, s.state)
    ensures r.Err? ==> r.error == "cannotCalculateChanges"
    ensures r.Ok? ==>
              var since := ParseInt(sinceQueryState).value;
              var n := ChangesBetween(s.EmailJournal(), s.origin, since, s.state);
              && IsOrder(r.value.removed, n.destroyed) && Numbered(r.value.added, n.created)
              && r.value.oldQueryState == sinceQueryState && r.value.newQueryState == FormatInt(s.state)
  {
    hide ParseInt, FormatInt, Faithful, LegalLog, Window, LiveAfter, Fold, Numbered;
    var since := ParseInt(sinceQueryState);
    if since.None? || since.value < 0 {
      OriginVersion(s.EmailJournal(), s.origin);
      return Err(CANNOT_CALCULATE);
    }
    var cur := s.state;
    if since.value > cur {
      return Err(CANNOT_CALCULATE);
    }
    CoversExactly(s.EmailJournal(), s.origin, since.value);
    var n := FoldQueryWindow(s.changes, since.value, cur);
    if n.None? {
      return Err(CANNOT_CALCULATE);
    }
    var added := NumberItems(n.value.0);
    var removed := ListKeys(n.value.1);
    return Ok(QueryChanges(sinceQueryState, FormatInt(cur), removed, added));
  }

  // ---------- Email/set ----------

  /** One entry of `update`: the decoded patch, if it decodes, and the verdict of the hook. */
  datatype UpdateItem = UpdateItem(patch: Option<Patch>, accepted: bool)

  /** `create` holds what the hook returned for each key; the hook itself is outside the model and
      does not touch the store.  `createConfigured` tells whether there is a hook. */
  datatype SetRequest = SetRequest(
    createConfigured: bool,
    create: map<ID, Result<ID>>,
    update: map<ID, UpdateItem>,
    destroy: seq<DestroyItem>)

  datatype SetResponse = SetResponse(
    oldState: string, newState: string,
    created: map<ID, ID>, notCreated: set<ID>,
    updated: set<ID>, notUpdated: set<ID>,
    destroyed: seq<ID>, notDestroyed: set<ID>)

  function AcceptedUpdates(update: map<ID, UpdateItem>): set<ID> {
    set id | id in update && update[id].patch.Some? && update[id].accepted
  }

  /** What the request must do to the log since `base`, when `live` were the ids then. */
  ghost predicate SetEffect(s: Store, base: int, live: set<ID>, updated: set<ID>, destroyed: set<ID>)
    reads s
  {
    && base <= s.state && Covers(s.changes, base, s.state)
    && Fold(Window(s.changes, base, s.state)) == Net({}, (live * updated) - destroyed, live * destroyed)
    && s.state == base + |live * updated| + |live * destroyed|
    && s.msgs.Keys == live - destroyed
  }

  /** The same while only the updates have been made. */
  ghost predicate UpdateEffect(s: Store, base: int, live: set<ID>, updated: set<ID>)
    reads s
  {
    && base <= s.state && Covers(s.changes, base, s.state)
    && Fold(Window(s.changes, base, s.state)) == Net({}, live * updated, {})
    && s.state == base + |live * updated|
    && s.msgs.Keys == live
  }

  lemma LogUpdate(j: Journal, base: int, id: ID)
    requires base <= j.state && Covers(j.log, base, j.state)
    ensures var log := j.log[j.state + 1 := ChangeRecord([], [id], [])];
            && Covers(log, base, j.state + 1)
            && Fold(Window(log, base, j.state + 1)) == Absorb(Fold(Window(j.log, base, j.state)), Updated(id))
  {
    var rec := ChangeRecord([], [id], []);
    assert EventsOf(rec) == [Updated(id)];
    hide Window, Fold, EventsOf;
    CommitAppends(j, rec, base);
    FoldSnoc(Window(j.log, base, j.state), Updated(id));
  }

  lemma LogDestroy(j: Journal, base: int, id: ID)
    requires base <= j.state && Covers(j.log, base, j.state)
    ensures var log := j.log[j.state + 1 := ChangeRecord([], [], [id])];
            && Covers(log, base, j.state + 1)
            && Fold(Window(log, base, j.state + 1)) == Absorb(Fold(Window(j.log, base, j.state)), Removed(id))
  {
    var rec := ChangeRecord([], [], [id]);
    assert EventsOf(rec) == [Removed(id)];
    hide Window, Fold, EventsOf;
    CommitAppends(j, rec, base);
    FoldSnoc(Window(j.log, base, j.state), Removed(id));
  }

  /** One accepted update: its mark in the log, and what it does to the emails and their files if no
      maps are shared. */
  method PatchOne(s: Store, id: ID, patch: Patch) returns (ghost added: set<object>)
    requires s.Valid()
    modifies s`msgs, s`state, s`changes, s`files, s`delta, s.AllMaps()
    ensures s.Valid() && s.msgs.Keys == old(s.msgs.Keys)
    ensures if id in old(s.msgs) then
              s.state == old(s.state) + 1 && s.changes == old(s.changes)[s.state := ChangeRecord([], [id], [])]
            else s.state == old(s.state) && s.changes == old(s.changes)
    ensures s.files - {MsgPath(id)} == old(s.files) - {MsgPath(id)}
    ensures NoSharing(old(s.msgs)) ==>
              && NoSharing(s.msgs) && s.Msgs() == MsgsAfter(old(s.Msgs()), Op.PatchEmail(id, patch))
              && (Mirror(old(s.files), old(s.Msgs())) ==> Mirror(s.files, s.Msgs()))
    ensures fresh(added) && s.AllMaps() <= old(s.AllMaps()) + added
    ensures old(s.DeltaSynced()) ==> s.DeltaSynced()
  {
    hide NoSharing, Mirror, Store.Msgs, MsgsAfter, Faithful, LegalLog;
    hide ShowsPatch, FlagMaps, Unshared, Do, FilesAfter, MsgPath;
    hide Store.DeltaSynced;
    TargetsIncluded(s, id);
    s.FiledById();
    ghost var mail, files := s.MailOf(), s.files;
    s.PatchEmail(id, patch);
    DoMeans(mail, Op.PatchEmail(id, patch), id);
    if id in s.msgs {
      SameElsewhere(files, s.files, MsgPath(id), Some(Value(s.msgs[id])));
    }
    if Mirror(files, mail.msgs) {
      MirrorRewrite(files, mail, Op.PatchEmail(id, patch), id);
    }
    added := s.AllMaps() - old(s.AllMaps());
  }

  lemma SameElsewhere(before: Files, after: Files, f: string, content: Option<Email>)
    requires after == before[f := content]
    ensures after - {f} == before - {f}
  {
  }

  method UpdateOne(s: Store, id: ID, patch: Patch, ghost base: int, ghost live: set<ID>, ghost done: set<ID>)
    returns (ghost added: set<object>)
    requires s.Valid() && UpdateEffect(s, base, live, done) && id !in done
    modifies s`msgs, s`state, s`changes, s`files, s`delta, s.AllMaps()
    ensures s.Valid() && UpdateEffect(s, base, live, done + {id})
    ensures s.files - {MsgPath(id)} == old(s.files) - {MsgPath(id)}
    ensures NoSharing(old(s.msgs)) ==>
              && NoSharing(s.msgs) && s.Msgs() == MsgsAfter(old(s.Msgs()), Op.PatchEmail(id, patch))
              && (Mirror(old(s.files), old(s.Msgs())) ==> Mirror(s.files, s.Msgs()))
    ensures fresh(added) && s.AllMaps() <= old(s.AllMaps()) + added
    ensures old(s.DeltaSynced()) ==> s.DeltaSynced()
  {
    hide NoSharing, Mirror, Store.Msgs, Store.Valid, Store.AllMaps, Store.DeltaSynced, MsgsAfter, Window, Fold, MsgPath;
    ghost var j := s.EmailJournal();
    added := PatchOne(s, id, patch);
    LogUpdate(j, base, id);
    OneMore(live, done, id);
  }

  lemma DoMeans(s: Mail, op: Op, id: ID)
    ensures Do(s, op).msgs == MsgsAfter(s.msgs, op)
    ensures Do(s, Op.Delete(id)) ==
            if id in s.msgs then Mail(s.msgs - {id}, s.state + 1, s.log[s.state + 1 := ChangeRecord([], [], [id])])
            else s
    ensures id !in s.msgs ==> s.msgs - {id} == s.msgs
  {
  }

  lemma TargetsIncluded(s: Store, id: ID)
    ensures s.PatchTargets(id) <= s.AllMaps()
    ensures NoSharing(s.msgs) ==> id !in s.msgs || Unshared(s.msgs, id)
  {
  }

  method DestroyOne(s: Store, id: ID, ghost base: int, ghost live: set<ID>, ghost updated: set<ID>, ghost done: set<ID>)
    requires s.Valid() && SetEffect(s, base, live, updated, done)
    modifies s`msgs, s`state, s`changes, s`files, s`delta
    ensures s.Valid() && SetEffect(s, base, live, updated, done + {id})
    ensures s.Msgs() == old(s.Msgs()) - {id} && (NoSharing(old(s.msgs)) ==> NoSharing(s.msgs))
    ensures s.files == old(s.files) - {MsgPath(id)}
    ensures old(s.DeltaSynced()) ==> s.DeltaSynced()
  {
    hide NoSharing, Store.Msgs, Do, Faithful, LegalLog, Window, Fold, MsgPath;
    ghost var j, mail := s.EmailJournal(), s.MailOf();
    s.PresentValues();
    s.Delete(id);
    DoMeans(mail, Op.Delete(id), id);
    LogDestroy(j, base, id);
    OneMore(live, done, id);
    DestroySets(live, updated, done, id);
  }

  lemma DestroySets(live: set<ID>, updated: set<ID>, done: set<ID>, id: ID)
    ensures (live - done) - {id} == live - (done + {id})
    ensures ((live * updated) - done) - {id} == (live * updated) - (done + {id})
    ensures id !in live - done ==> (live * updated) - (done + {id}) == (live * updated) - done
    ensures id !in live - done ==> live - (done + {id}) == live - done && live * (done + {id}) == live * done
  {
  }

  /** The emails `before`, the accepted updates applied to them. */
  function PatchedAll(before: map<ID, Email>, update: map<ID, UpdateItem>): map<ID, Email> {
    map id | id in before ::
      if id in AcceptedUpdates(update) then PatchedEmail(before[id], update[id].patch.value) else before[id]
  }

  lemma PatchedAllNext(before: map<ID, Email>, done: map<ID, UpdateItem>, id: ID, item: UpdateItem)
    requires id !in done
    ensures AcceptedUpdates(done[id := item]) ==
            if item.patch.Some? && item.accepted then AcceptedUpdates(done) + {id} else AcceptedUpdates(done)
    ensures PatchedAll(before, done[id := item]) ==
            if item.patch.Some? && item.accepted then
              MsgsAfter(PatchedAll(before, done), Op.PatchEmail(id, item.patch.value))
            else PatchedAll(before, done)
  {
    hide PatchedEmail;
    assert AcceptedUpdates(done[id := item]) ==
           AcceptedUpdates(done) + (if item.patch.Some? && item.accepted then {id} else {});
  }

  /** If no maps were shared when the request came: none are, the emails are the patched ones, and the
      files mirror them if they mirrored the old ones.  In any case only files of updated ids changed. */
  ghost predicate ShowsUpdates(s: Store, apart: bool, before: map<ID, Email>, files: Files, done: map<ID, UpdateItem>)
    reads s`msgs, s`files, s.KeywordMaps(), s.MailboxMaps()
  {
    && s.files - Paths(AcceptedUpdates(done)) == files - Paths(AcceptedUpdates(done))
    && (apart ==> NoSharing(s.msgs) && s.Msgs() == PatchedAll(before, done))
    && (apart && Mirror(files, before) ==> Mirror(s.files, s.Msgs()))
  }

  /** One more file may have changed. */
  lemma ElsewhereNext(files: Files, now: Files, next: Files, ids: set<ID>, id: ID)
    requires now - Paths(ids) == files - Paths(ids) && next - {MsgPath(id)} == now - {MsgPath(id)}
    ensures next - Paths(ids + {id}) == files - Paths(ids + {id})
  {
    hide MsgPath, Paths;
    PathsMore(ids, id);
    var p, all := MsgPath(id), Paths(ids) + {MsgPath(id)};
    forall f
      ensures f in next - all <==> f in files - all
      ensures f in next - all ==> next[f] == files[f]
    {
      assert f in next - {p} <==> f in now - {p};
      assert f in now - Paths(ids) <==> f in files - Paths(ids);
    }
  }

  /** The body of the update loop. */
  method UpdateItemOnce(s: Store, id: ID, item: UpdateItem, ghost base: int, ghost live: set<ID>,
                        ghost updated: set<ID>, ghost apart: bool, ghost before: map<ID, Email>, ghost files: Files,
                        ghost done: map<ID, UpdateItem>)
    returns (ok: bool, ghost added: set<object>)
    requires s.Valid() && UpdateEffect(s, base, live, updated) && id !in updated
    requires ShowsUpdates(s, apart, before, files, done) && id !in done
    modifies s`msgs, s`state, s`changes, s`files, s`delta, s.AllMaps()
    ensures s.Valid() && UpdateEffect(s, base, live, if ok then updated + {id} else updated)
    ensures ShowsUpdates(s, apart, before, files, done[id := item])
    ensures ok <==> item.patch.Some? && item.accepted
    ensures fresh(added) && s.AllMaps() <= old(s.AllMaps()) + added
    ensures old(s.DeltaSynced()) ==> s.DeltaSynced()
  {
    hide UpdateEffect, AcceptedUpdates, PatchedAll, NoSharing, Mirror, MsgsAfter, MsgPath, Paths;
    hide Store.Msgs, Store.AllMaps, Store.DeltaSynced, Store.Valid;
    added := {};
    ok := item.patch.Some? && item.accepted;
    PatchedAllNext(before, done, id, item);
    ghost var now := s.files;
    if ok {
      added := UpdateOne(s, id, item.patch.value, base, live, updated);
      ElsewhereNext(files, now, s.files, AcceptedUpdates(done), id);
    }
  }

  /** The update loop, in whatever order Go meets the keys. */
  method RunUpdates(s: Store, update: map<ID, UpdateItem>) returns (updated: set<ID>, notUpdated: set<ID>)
    requires s.Valid()
    modifies s`msgs, s`state, s`changes, s`files, s`delta, s.AllMaps()
    ensures s.Valid() && UpdateEffect(s, old(s.state), old(s.msgs.Keys), AcceptedUpdates(update))
    ensures ShowsUpdates(s, NoSharing(old(s.msgs)), old(s.Msgs()), old(s.files), update)
    ensures updated == AcceptedUpdates(update) && notUpdated == update.Keys - updated
    ensures old(s.DeltaSynced()) ==> s.DeltaSynced()
  {
    hide FlagMaps, UpdateEffect, ShowsUpdates, Divided, AcceptedUpdates, NoSharing;
    hide Store.Msgs, Store.KeywordMaps, Store.MailboxMaps, Store.AllMaps, Store.DeltaSynced, Store.Valid;
    ghost var base, live, maps, added: set<object> := s.state, s.msgs.Keys, s.AllMaps(), {};
    ghost var apart, before, files := NoSharing(s.msgs), s.Msgs(), s.files;
    NothingUpdated(s);
    updated, notUpdated := {}, {};
    var rest := update.Keys;
    assert update - rest == map[];
    while rest != {}
      invariant rest <= update.Keys
      invariant s.Valid() && UpdateEffect(s, base, live, updated)
      invariant ShowsUpdates(s, apart, before, files, update - rest)
      invariant Divided(update - rest, updated, notUpdated)
      invariant fresh(added) && s.AllMaps() <= maps + added
      invariant old(s.DeltaSynced()) ==> s.DeltaSynced()
    {
      var id :| id in rest;
      DividedNext(update - rest, updated, notUpdated, id, update[id]);
      MetOne(update, rest, id);
      var ok, more := UpdateItemOnce(s, id, update[id], base, live, updated, apart, before, files, update - rest);
      added := added + more;
      if ok {
        updated := updated + {id};
      } else {
        notUpdated := notUpdated + {id};
      }
      rest := rest - {id};
    }
    assert update - rest == update;
    DividedMeans(update, updated, notUpdated);
  }

  /** The outcome for the keys of `done`: each is in one of updated and notUpdated. */
  predicate Divided(done: map<ID, UpdateItem>, updated: set<ID>, notUpdated: set<ID>) {
    updated == AcceptedUpdates(done) && notUpdated == done.Keys - updated
  }

  lemma DividedNext(done: map<ID, UpdateItem>, updated: set<ID>, notUpdated: set<ID>, id: ID, item: UpdateItem)
    requires Divided(done, updated, notUpdated) && id !in done
    ensures var yes := item.patch.Some? && item.accepted;
            && id !in updated
            && Divided(done[id := item], if yes then updated + {id} else updated,
                       if yes then notUpdated else notUpdated + {id})
  {
  }

  lemma DividedMeans(done: map<ID, UpdateItem>, updated: set<ID>, notUpdated: set<ID>)
    requires Divided(done, updated, notUpdated)
    ensures updated == AcceptedUpdates(done) && notUpdated == done.Keys - updated
  {
  }

  lemma NothingUpdated(s: Store)
    ensures UpdateEffect(s, s.state, s.msgs.Keys, {}) && Divided(map[], {}, {})
    ensures ShowsUpdates(s, NoSharing(s.msgs), s.Msgs(), s.files, map[])
  {
    assert PatchedAll(s.Msgs(), map[]) == s.Msgs();
  }

  /** Where the destroy loop stands after `done`, if it began with `before` and `files`. */
  ghost predicate ShowsDestroys(s: Store, before: map<ID, Email>, files: Files, done: seq<ID>, yes: set<int>,
                                destroyed: seq<ID>)
    reads s`msgs, s`files, s.KeywordMaps(), s.MailboxMaps()
  {
    && s.Msgs() == before - Elems(destroyed)
    && s.files == files - Paths(Elems(destroyed))
    && Selects(destroyed, done, yes)
  }

  /** The body of the destroy loop. */
  method DestroyItemOnce(s: Store, item: DestroyItem, destroyed0: seq<ID>, ghost base: int, ghost live: set<ID>,
                         ghost updated: set<ID>, ghost before: map<ID, Email>, ghost files: Files,
                         ghost done: seq<ID>, ghost yes: set<int>)
    returns (destroyed: seq<ID>)
    requires s.Valid() && SetEffect(s, base, live, updated, Elems(destroyed0))
    requires ShowsDestroys(s, before, files, done, yes, destroyed0) && (|done| in yes <==> item.accepted)
    modifies s`msgs, s`state, s`changes, s`files, s`delta
    ensures s.Valid() && SetEffect(s, base, live, updated, Elems(destroyed))
    ensures ShowsDestroys(s, before, files, done + [item.id], yes, destroyed)
    ensures NoSharing(old(s.msgs)) ==> NoSharing(s.msgs)
    ensures old(s.DeltaSynced()) ==> s.DeltaSynced()
  {
    hide Store.Msgs, Store.KeywordMaps, Store.MailboxMaps, Store.DeltaSynced, Store.Valid;
    hide NoSharing, SetEffect, Elems, MsgPath, Paths, Selects;
    destroyed := destroyed0;
    if item.accepted {
      SelectsTake(destroyed, done, yes, item.id);
      DestroyOne(s, item.id, base, live, updated, Elems(destroyed));
      ElemsSnoc(destroyed, item.id);
      DropTwice(before, Elems(destroyed), {item.id});
      PathsMore(Elems(destroyed), item.id);
      DropTwice(files, Paths(Elems(destroyed)), {MsgPath(item.id)});
      destroyed := destroyed + [item.id];
    } else {
      SelectsSkip(destroyed, done, yes, item.id);
    }
  }

  /** The destroy loop: the accepted ids in request order, however often one is named. */
  method RunDestroys(s: Store, destroy: seq<DestroyItem>, ghost base: int, ghost live: set<ID>, ghost updated: set<ID>)
    returns (destroyed: seq<ID>, notDestroyed: set<ID>)
    requires s.Valid() && UpdateEffect(s, base, live, updated)
    modifies s`msgs, s`state, s`changes, s`files, s`delta
    ensures s.Valid() && SetEffect(s, base, live, updated, Elems(destroyed))
    ensures ShowsDestroys(s, old(s.Msgs()), old(s.files), DestroyIds(destroy), AcceptedAt(destroy), destroyed)
    ensures NoSharing(old(s.msgs)) ==> NoSharing(s.msgs)
    ensures Elems(destroyed) == set i | 0 <= i < |destroy| && destroy[i].accepted :: destroy[i].id
    ensures notDestroyed == set i | 0 <= i < |destroy| && !destroy[i].accepted :: destroy[i].id
    ensures old(s.DeltaSynced()) ==> s.DeltaSynced()
  {
    hide Store.Msgs, Store.KeywordMaps, Store.MailboxMaps, Store.DeltaSynced;
    hide Store.Valid, NoSharing, SetEffect, UpdateEffect, ShowsDestroys;
    hide Elems, DestroyIds, AcceptedAt;
    destroyed, notDestroyed := [], {};
    DestroyIdsAt(destroy);
    AcceptedAtIs(destroy);
    ghost var before, files := s.Msgs(), s.files;
    NothingDestroyed(s, base, live, updated, AcceptedAt(destroy));
    for i := 0 to |destroy|
      invariant s.Valid() && SetEffect(s, base, live, updated, Elems(destroyed))
      invariant ShowsDestroys(s, before, files, DestroyIds(destroy)[..i], AcceptedAt(destroy), destroyed)
      invariant NoSharing(old(s.msgs)) ==> NoSharing(s.msgs)
      invariant notDestroyed == set k | 0 <= k < i && !destroy[k].accepted :: destroy[k].id
      invariant old(s.DeltaSynced()) ==> s.DeltaSynced()
    {
      destroyed := DestroyItemOnce(s, destroy[i], destroyed, base, live, updated, before, files,
                                   DestroyIds(destroy)[..i], AcceptedAt(destroy));
      if !destroy[i].accepted {
        notDestroyed := notDestroyed + {destroy[i].id};
      }
    }
    DestroyedAre(s, before, files, destroyed, destroy);
  }

  lemma NoneDestroyed(s: Store, yes: set<int>)
    ensures ShowsDestroys(s, s.Msgs(), s.files, [], yes, [])
  {
    assert Elems<ID>([]) == {} && Paths({}) == {};
    SelectsNone<ID>(yes);
  }

  ghost function AcceptedAt(destroy: seq<DestroyItem>): set<int> {
    set i | 0 <= i < |destroy| && destroy[i].accepted
  }

  lemma AcceptedAtIs(destroy: seq<DestroyItem>)
    ensures forall i :: 0 <= i < |destroy| ==> (i in AcceptedAt(destroy) <==> destroy[i].accepted)
  {
  }

  lemma DestroyedAre(s: Store, before: map<ID, Email>, files: Files, destroyed: seq<ID>, destroy: seq<DestroyItem>)
    requires ShowsDestroys(s, before, files, DestroyIds(destroy), AcceptedAt(destroy), destroyed)
    ensures Elems(destroyed) == set i | 0 <= i < |destroy| && destroy[i].accepted :: destroy[i].id
  {
    hide Selects;
    SelectsElems(destroyed, DestroyIds(destroy), AcceptedAt(destroy));
    DestroyIdsAt(destroy);
  }

  lemma NothingDestroyed(s: Store, base: int, live: set<ID>, updated: set<ID>, yes: set<int>)
    requires UpdateEffect(s, base, live, updated)
    ensures SetEffect(s, base, live, updated, Elems([]))
    ensures ShowsDestroys(s, s.Msgs(), s.files, [], yes, [])
  {
    NoneDestroyed(s, yes);
    hide Paths, MsgPath, ShowsDestroys;
    assert Elems<ID>([]) == {};
    assert (live * updated) - {} == live * updated && live * {} == {} && live - {} == live;
  }

  lemma FilesElsewhere(files: Files, now: Files, a: set<string>, b: set<string>)
    requires now - a == files - a
    ensures (now - b) - (a + b) == files - (a + b)
  {
    forall f
      ensures f in now - (a + b) <==> f in files - (a + b)
      ensures f in now - (a + b) ==> now[f] == files[f]
    {
      assert f in now - a <==> f in files - a;
    }
  }

  /** The create loop: without a hook every key fails, with one the hook decides. */
  method RunEmailCreates(req: SetRequest) returns (created: map<ID, ID>, notCreated: set<ID>)
    ensures forall k :: k in created <==> req.createConfigured && k in req.create && req.create[k].Ok?
    ensures forall k :: k in created && k in req.create ==> req.create[k] == Ok(created[k])
    ensures notCreated == req.create.Keys - created.Keys
  {
    created, notCreated := map[], {};
    var rest := req.create.Keys;
    while rest != {}
      invariant rest <= req.create.Keys
      invariant forall k :: k in created <==>
                  req.createConfigured && k in req.create && k !in rest && req.create[k].Ok?
      invariant forall k :: k in created && k in req.create ==> req.create[k] == Ok(created[k])
      invariant notCreated == (req.create.Keys - rest) - created.Keys
    {
      var key :| key in rest;
      if !req.createConfigured || req.create[key].Err? {
        notCreated := notCreated + {key};
      } else {
        created := created[key := req.create[key].value];
      }
      rest := rest - {key};
    }
  }

  /** Of the emails `before`, those of `gone` went and those with an accepted update were patched. */
  ghost predicate Leaves(after: map<ID, Email>, before: map<ID, Email>, update: map<ID, UpdateItem>, gone: set<ID>) {
    && after.Keys == before.Keys - gone
    && forall id :: id in after ==>
         after[id] == if id in update && update[id].patch.Some? && update[id].accepted then
                        PatchedEmail(before[id], update[id].patch.value)
                      else before[id]
  }

  /** Email/set agrees with Email/changes: the delta since the returned `oldState` has nothing
      created, has destroyed exactly the accepted ids that were live, has updated the other accepted
      ids that were live, and the counter advanced by one for each of them.  If no maps were shared,
      the emails left are the live ones without the destroyed, each updated one patched. */
  method HandleEmailSet(s: Store, req: SetRequest) returns (r: SetResponse)
    requires s.Valid()
    modifies s`msgs, s`state, s`changes, s`files, s`delta, s.AllMaps()
    ensures s.Valid() && (old(s.DeltaSynced()) ==> s.DeltaSynced())
    ensures forall id :: id in r.updated <==>
              id in req.update && req.update[id].patch.Some? && req.update[id].accepted
    ensures r.notUpdated == req.update.Keys - r.updated
    ensures Elems(r.destroyed) == set i | 0 <= i < |req.destroy| && req.destroy[i].accepted :: req.destroy[i].id
    ensures Selects(r.destroyed, DestroyIds(req.destroy), AcceptedAt(req.destroy))
    ensures r.notDestroyed == set i | 0 <= i < |req.destroy| && !req.destroy[i].accepted :: req.destroy[i].id
    ensures SetEffect(s, old(s.state), old(s.msgs.Keys), r.updated, Elems(r.destroyed))
    ensures NoSharing(old(s.msgs)) ==>
              NoSharing(s.msgs) && Leaves(s.Msgs(), old(s.Msgs()), req.update, Elems(r.destroyed))
    ensures var touched := Paths(r.updated) + Paths(Elems(r.destroyed));
            s.files - touched == old(s.files) - touched
    ensures NoSharing(old(s.msgs)) && Mirror(old(s.files), old(s.Msgs())) ==>
              (Mirror(s.files, s.Msgs()) <==> SparesFiles(s.msgs.Keys, Elems(r.destroyed)))
    ensures r.oldState == FormatInt(old(s.state)) && r.newState == FormatInt(s.state)
    ensures forall k :: k in r.created <==> req.createConfigured && k in req.create && req.create[k].Ok?
    ensures forall k :: k in r.created && k in req.create ==> req.create[k] == Ok(r.created[k])
    ensures r.notCreated == req.create.Keys - r.created.Keys
  {
    hide Faithful, LegalLog, FormatInt, SetEffect, UpdateEffect, AcceptedUpdates, AcceptedAt, Selects;
    hide NoSharing, PatchedAll, Leaves, Store.Msgs, Elems, Mirror, Paths, MsgPath, SparesFiles;
    var oldState := FormatInt(s.state);
    ghost var before := s.Msgs();
    s.PresentValues();
    var created, notCreated := RunEmailCreates(req);
    s.AsBefore(before);
    var updated, notUpdated := RunUpdates(s, req.update);
    ghost var files, values := s.files, s.Msgs();
    s.PresentValues();
    var destroyed, notDestroyed := RunDestroys(s, req.destroy, old(s.state), old(s.msgs.Keys), updated);
    s.PresentValues();
    FilesElsewhere(old(s.files), files, Paths(updated), Paths(Elems(destroyed)));
    if Mirror(files, values) {
      MirrorAfterDrops(files, values, Elems(destroyed));
    }
    UpdatesMean(before, req.update, Elems(destroyed));
    r := SetResponse(oldState, FormatInt(s.state), created, notCreated, updated, notUpdated, destroyed, notDestroyed);
  }

  lemma UpdatesMean(before: map<ID, Email>, update: map<ID, UpdateItem>, gone: set<ID>)
    ensures Leaves(PatchedAll(before, update) - gone, before, update, gone)
    ensures forall id :: id in AcceptedUpdates(update) <==>
              id in update && update[id].patch.Some? && update[id].accepted
  {
    hide PatchedEmail;
  }

  // ---------- Email/copy ----------

  function CopyId(id: ID, key: ID): ID {
    id + "-cp-" + key
  }

  /** One entry of Email/copy: a `Put` of the source under a new id.  The copy has, if given, mailboxes
      of its own, but it keeps the keyword map of the source. */
  method CopyOne(s: Store, key: ID, id: ID, mailboxIds: map<ID, bool>) returns (r: Result<ID>)
    requires s.Valid()
    modifies s`msgs, s`state, s`changes, s`files, s`delta
    ensures s.Valid() && (old(s.DeltaSynced()) ==> s.DeltaSynced())
    ensures r.Ok? <==> id in old(s.msgs) || id in s.pending
    ensures r.Err? ==> r == Err("notFound") && s.msgs == old(s.msgs) && s.state == old(s.state) &&
                       s.changes == old(s.changes) && s.files == old(s.files)
    ensures r.Ok? ==>
              var src := if id in old(s.msgs) then old(s.msgs)[id] else s.pending[id];
              var copyId := id + "-cp-" + key;
              && r.value == copyId && copyId in s.msgs
              && s.msgs == old(s.msgs)[copyId := s.msgs[copyId]]
              && s.MailOf() == Do(old(s.MailOf()), Op.Put(Value(s.msgs[copyId])))
              && s.files == old(s.files)[MsgPath(copyId) := Some(Value(s.msgs[copyId]))]
              && s.msgs[copyId].meta == src.meta.(id := copyId, threadId := s.msgs[copyId].meta.threadId)
              && (src.meta.threadId != "" ==> s.msgs[copyId].meta.threadId == src.meta.threadId)
              && s.msgs[copyId].keywords == src.keywords
              && (if mailboxIds == map[] then s.msgs[copyId].mailboxIds == src.mailboxIds
                  else s.msgs[copyId].mailboxIds != null && fresh(s.msgs[copyId].mailboxIds) &&
                       s.msgs[copyId].mailboxIds.entries == mailboxIds)
  {
    hide Faithful, LegalLog, Do, MsgPath, Resolves, Store.Msgs, HaveValues, Store.DeltaSynced;
    var src := s.Get(id);
    if src.None? {
      return Err("notFound");
    }
    ghost var values := s.Msgs();
    s.PresentValues();
    var cp := src.value;
    cp := cp.(meta := cp.meta.(id := CopyId(id, key)));
    if |mailboxIds| > 0 {
      var own := new MailboxMap(mailboxIds);
      cp := cp.(mailboxIds := own);
    }
    s.AsBefore(values);
    var stored := s.Put(cp);
    return Ok(CopyId(id, key));
  }

  /** Copying a stored email and then patching the copy also patches the original, while the log
      since the copy was made mentions only the copy and the file of the original stays as it was:
      clients keep a stale original, and a restart brings it back. */
  method PatchTheCopy(s: Store, key: ID, id: ID, patch: Patch) returns (ghost seen: int)
    requires s.Valid() && id in s.msgs && s.msgs[id].keywords != null
    modifies s`msgs, s`state, s`changes, s`files, s`delta, s.AllMaps()
    ensures s.Valid() && id in s.msgs
    ensures Value(s.msgs[id]).keywords == PatchFlags(old(s.msgs[id].keywords.entries), KEYWORDS, patch, true)
    ensures seen == s.state - 1 && s.state in s.changes && s.changes[s.state] == ChangeRecord([], [CopyId(id, key)], [])
    ensures CopyId(id, key) != id
    ensures s.files - {MsgPath(CopyId(id, key))} == old(s.files) - {MsgPath(CopyId(id, key))}
  {
    hide Faithful, LegalLog, PatchFlags, MsgPath, Do, ShowsPatch, MsgsAfter, NoSharing, Unshared, FilesAfter;
    TargetsIncluded(s, id);
    ghost var copyId, files := CopyId(id, key), s.files;
    var copied := CopyOne(s, key, id, map[]);
    seen := s.state;
    SameElsewhere(files, s.files, MsgPath(copyId), Some(Value(s.msgs[copyId])));
    files := s.files;
    ghost var msgs, values := s.msgs, s.Msgs();
    assert s.PatchTargets(copyId) == old(s.PatchTargets(id));
    s.PatchEmail(CopyId(id, key), patch);
    SameElsewhere(files, s.files, MsgPath(copyId), Some(Value(s.msgs[copyId])));
    SharerShowsPatch(s.Msgs(), msgs, values, copyId, id, patch);
  }

  lemma SharerShowsPatch(after: map<ID, Email>, prev: map<ID, StoredEmail>, before: map<ID, Email>, id: ID, other: ID,
                         patch: Patch)
    requires ShowsPatch(after, prev, before, id, patch, WholeEmail) && other in prev && SharesKeywords(prev, other, id)
    ensures other in after && other in before
    ensures after[other].keywords == PatchFlags(before[other].keywords, KEYWORDS, patch, true)
  {
  }
}
