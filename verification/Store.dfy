/** The `Store` of store.go: emails, change log, mailbox log, submissions, pending drafts and the
    disk they are mirrored to.  Keyword and mailbox maps are heap objects, as in Go, so two emails
    may share one.  Each method body under `mu` is one atomic step. */
module Stores {
  import opened Prelude
  import opened Json
  import opened Text
  import opened Delta
  import opened Journal
  import opened Mail
  import opened Threads
  import opened Persistence

  class KeywordMap {
    var entries: map<string, bool>

    constructor (m: map<string, bool>)
      ensures entries == m
    {
      entries := m;
    }
  }

  class MailboxMap {
    var entries: map<ID, bool>

    constructor (m: map<ID, bool>)
      ensures entries == m
    {
      entries := m;
    }
  }

  /** An `email.Email` value: copying it copies the references to its two maps. */
  datatype StoredEmail = StoredEmail(meta: Meta, keywords: KeywordMap?, mailboxIds: MailboxMap?)

  /** The content; a nil map reads like an empty one. */
  function Value(e: StoredEmail): Email
    reads e.keywords, e.mailboxIds
  {
    Email(e.meta,
          if e.keywords == null then map[] else e.keywords.entries,
          if e.mailboxIds == null then map[] else e.mailboxIds.entries)
  }

  function FlagMaps(e: StoredEmail): set<object> {
    (if e.keywords == null then {} else {e.keywords}) + (if e.mailboxIds == null then {} else {e.mailboxIds})
  }

  predicate SharesKeywords(msgs: map<ID, StoredEmail>, j: ID, id: ID)
    requires j in msgs && id in msgs
  {
    j == id || (msgs[j].keywords != null && msgs[j].keywords == msgs[id].keywords)
  }

  predicate SharesMailboxes(msgs: map<ID, StoredEmail>, j: ID, id: ID)
    requires j in msgs && id in msgs
  {
    j == id || (msgs[j].mailboxIds != null && msgs[j].mailboxIds == msgs[id].mailboxIds)
  }

  /** No other stored email shares a map with `id`. */
  ghost predicate Unshared(msgs: map<ID, StoredEmail>, id: ID)
    requires id in msgs
  {
    forall j :: j in msgs && j != id ==> !SharesKeywords(msgs, j, id) && !SharesMailboxes(msgs, j, id)
  }

  /** No two stored emails share a map: what makes patching in place safe. */
  ghost predicate NoSharing(msgs: map<ID, StoredEmail>) {
    forall id :: id in msgs ==> Unshared(msgs, id)
  }

  function MapsOf(msgs: map<ID, StoredEmail>): set<object> {
    set id, o | id in msgs && o in FlagMaps(msgs[id]) :: o
  }

  /** Storing an email whose maps are its own keeps the maps apart. */
  lemma StoringKeepsApart(msgs: map<ID, StoredEmail>, id: ID, m: StoredEmail)
    requires NoSharing(msgs) && FlagMaps(m) !! MapsOf(msgs - {id})
    ensures NoSharing(msgs[id := m])
  {
    var after := msgs[id := m];
    forall a, b | a in after && b in after && a != b
      ensures !SharesKeywords(after, a, b) && !SharesMailboxes(after, a, b)
    {
      if a == id || b == id {
        var other := if a == id then b else a;
        assert other in msgs - {id} && FlagMaps(msgs[other]) <= MapsOf(msgs - {id});
        assert m.keywords != null ==> m.keywords in FlagMaps(m);
        assert m.mailboxIds != null ==> m.mailboxIds in FlagMaps(m);
      } else {
        assert !SharesKeywords(msgs, a, b) && !SharesMailboxes(msgs, a, b);
      }
    }
  }

  lemma DroppingKeepsApart(msgs: map<ID, StoredEmail>, ids: set<ID>)
    requires NoSharing(msgs)
    ensures NoSharing(msgs - ids)
  {
    var after := msgs - ids;
    forall a, b | a in after && b in after && a != b
      ensures !SharesKeywords(after, a, b) && !SharesMailboxes(after, a, b)
    {
      assert !SharesKeywords(msgs, a, b) && !SharesMailboxes(msgs, a, b);
    }
  }

  /** The email `cp` that replaces `id` has the maps of `id` or maps that no stored email has. */
  predicate OwnMaps(msgs: map<ID, StoredEmail>, id: ID, cp: StoredEmail)
    requires id in msgs
  {
    && (cp.keywords == msgs[id].keywords || forall j :: j in msgs ==> msgs[j].keywords != cp.keywords)
    && (cp.mailboxIds == msgs[id].mailboxIds || forall j :: j in msgs ==> msgs[j].mailboxIds != cp.mailboxIds)
  }

  lemma PatchingKeepsApart(msgs: map<ID, StoredEmail>, id: ID, cp: StoredEmail)
    requires id in msgs && NoSharing(msgs) && OwnMaps(msgs, id, cp)
    ensures NoSharing(msgs[id := cp])
  {
    var after := msgs[id := cp];
    forall a, b | a in after && b in after && a != b
      ensures !SharesKeywords(after, a, b) && !SharesMailboxes(after, a, b)
    {
      assert !SharesKeywords(msgs, a, b) && !SharesMailboxes(msgs, a, b);
    }
  }

  /** The emails of `msgs` have, in the present heap, the contents `values`. */
  ghost predicate HaveValues(msgs: map<ID, StoredEmail>, values: map<ID, Email>)
    reads set id | id in msgs :: msgs[id].keywords, set id | id in msgs :: msgs[id].mailboxIds
  {
    msgs.Keys == values.Keys && forall id :: id in msgs ==> Value(msgs[id]) == values[id]
  }

  /** As `HaveValues`, after the maps of `id` were patched in place. */
  ghost predicate HavePatchedValues(msgs: map<ID, StoredEmail>, before: map<ID, Email>, id: ID, patch: Patch,
                                    kind: PatchKind)
    requires id in msgs
    reads set id | id in msgs :: msgs[id].keywords, set id | id in msgs :: msgs[id].mailboxIds
  {
    msgs.Keys == before.Keys &&
    forall j :: j in msgs && j != id ==>
      Value(msgs[j]) == PatchedThrough(before[j], patch,
                                       SharesKeywords(msgs, j, id), SharesMailboxes(msgs, j, id), kind)
  }

  /** The emails `prev` with contents `before` now have the contents `after`: every one of them
      shows the patch of `id` through the maps it shares with `id`. */
  ghost predicate ShowsPatch(after: map<ID, Email>, prev: map<ID, StoredEmail>, before: map<ID, Email>, id: ID,
                             patch: Patch, kind: PatchKind)
  {
    && id in prev && after.Keys == prev.Keys == before.Keys
    && forall j :: j in prev ==>
         after[j] == PatchedThrough(before[j], patch, SharesKeywords(prev, j, id), SharesMailboxes(prev, j, id), kind)
  }

  class Store {
    var msgs: map<ID, StoredEmail>
    var pending: map<ID, StoredEmail>
    var state: int
    var changes: Log
    var mailboxState: int
    var mailboxChanges: Log
    var submissions: seq<Submission>
    var submissionState: int
    var files: Files                     // messages/
    var delta: Option<PersistedState>    // delta.json; None while it is absent or unreadable
    var mailboxFile: seq<Mailbox>        // mailboxes.json
    ghost var origin: Origin
    ghost var mailboxOrigin: Origin

    // ---------- the abstract value ----------

    ghost function KeywordMaps(): set<KeywordMap?>
      reads this`msgs
    {
      set id | id in msgs :: msgs[id].keywords
    }

    ghost function MailboxMaps(): set<MailboxMap?>
      reads this`msgs
    {
      set id | id in msgs :: msgs[id].mailboxIds
    }

    ghost function Msgs(): map<ID, Email>
      reads this`msgs, KeywordMaps(), MailboxMaps()
    {
      map id | id in msgs :: Value(msgs[id])
    }

    ghost function MailOf(): Mail
      reads this`msgs, this`state, this`changes, KeywordMaps(), MailboxMaps()
    {
      Mail(Msgs(), state, changes)
    }

    /** The part of the emails that thread resolution looks at. */
    function Metas(): Metas
      reads this`msgs
    {
      map id | id in msgs :: msgs[id].meta
    }

    /** What `Put` resolves on the heap is what the run lemmas of `Threads` speak of. */
    lemma MetasOfMsgs()
      ensures Metas() == MetasOf(Msgs())
    {
    }

    ghost function EmailJournal(): Journal
      reads this`msgs, this`state, this`changes
    {
      Journal(msgs.Keys, state, changes)
    }

    ghost predicate Valid()
      reads this`msgs, this`state, this`changes, this`origin
    {
      && Faithful(EmailJournal(), origin)
      && LegalLog(EmailJournal(), origin)
      && forall id :: id in msgs ==> msgs[id].meta.id == id
    }

    /** delta.json holds exactly the counters, logs and submissions of memory. */
    ghost predicate DeltaSaved()
      reads this`delta, this`state, this`changes, this`mailboxState, this`mailboxChanges
      reads this`submissions, this`submissionState
    {
      && delta.Some?
      && var ps := delta.value;
      && ps.state == state && LogMirror(ps.changes, changes)
      && ps.mailboxState == mailboxState && LogMirror(ps.mailboxChanges, mailboxChanges)
      && ps.submissions == submissions && ps.submissionState == submissionState
    }

    /** As `DeltaSaved`, or nothing was ever saved and nothing needs to be. */
    ghost predicate DeltaSynced()
      reads this`delta, this`state, this`changes, this`mailboxState, this`mailboxChanges
      reads this`submissions, this`submissionState
    {
      if delta.None? then
        state == 0 && changes == map[] && mailboxState == 0 && mailboxChanges == map[] &&
        submissions == [] && submissionState == 0
      else DeltaSaved()
    }

    lemma ValidIsInv()
      ensures Valid() <==> Inv(MailOf(), origin)
    {
      assert MailOf().msgs.Keys == msgs.Keys;
      assert JournalOf(MailOf()) == EmailJournal();
    }

    // ---------- state persistence ----------

    method SaveStateLocked()
      modifies this`delta
      ensures DeltaSaved() && DeltaSynced()
    {
      var savedChanges := SaveLog(changes);
      var savedMailboxes := SaveLog(mailboxChanges);
      delta := Some(PersistedState(
        state, savedChanges, mailboxState, savedMailboxes, submissions, submissionState));
    }

    /** `s.state++; s.changes[s.state] = rec; s.saveStateLocked()` */
    method LogChange(rec: ChangeRecord)
      modifies this`state, this`changes, this`delta
      ensures state == old(state) + 1 && changes == old(changes)[state := rec]
      ensures DeltaSynced()
    {
      state := state + 1;
      changes := changes[state := rec];
      SaveStateLocked();
    }

    /** A method that changes the emails and the log as `op` says performs `op`. */
    twostate lemma Performs(op: Op)
      requires old(Valid()) && Enabled(old(MailOf()), op)
      requires Msgs() == MsgsAfter(old(Msgs()), op)
      requires forall id :: id in msgs ==> msgs[id].meta.id == id
      requires match RecordOf(old(MailOf()), op)
               case None => state == old(state) && changes == old(changes)
               case Some(rec) => state == old(state) + 1 && changes == old(changes)[state := rec]
      requires origin == old(origin)
      ensures MailOf() == Do(old(MailOf()), op)
      ensures Valid()
    {
      hide Faithful, LegalLog, RecordOf, MsgsAfter;
      assert old(JournalOf(MailOf()) == EmailJournal());
      DoKeeps(old(MailOf()), op, origin);
      assert MailOf() == Do(old(MailOf()), op);
      ValidIsInv();
    }

    lemma PresentValues()
      ensures HaveValues(msgs, Msgs()) && Msgs().Keys == msgs.Keys
    {
    }

    lemma FiledById()
      requires Valid()
      ensures forall id :: id in Msgs() ==> Msgs()[id].meta.id == id
    {
    }

    lemma AsBefore(values: map<ID, Email>)
      requires HaveValues(msgs, values)
      ensures Msgs() == values
    {
    }

    lemma StoredOne(prev: map<ID, StoredEmail>, before: map<ID, Email>, id: ID, m: StoredEmail)
      requires HaveValues(prev, before) && msgs == prev[id := m]
      ensures Msgs() == before[id := Value(m)]
    {
    }

    lemma DroppedSome(prev: map<ID, StoredEmail>, before: map<ID, Email>, ids: set<ID>)
      requires HaveValues(prev, before) && msgs == prev - ids
      ensures Msgs() == before - ids
    {
    }

    // ---------- messages ----------

    /** `if m.ThreadID == "" { m.ThreadID = s.resolveThreadID(m) }` */
    method WithThread(m0: StoredEmail) returns (m: StoredEmail)
      ensures m == m0.(meta := m0.meta.(threadId := m.meta.threadId))
      ensures if m0.meta.threadId != "" then m == m0
              else Resolves(Metas(), m.meta, m.meta.threadId)
    {
      m := m0;
      if m.meta.threadId == "" {
        var tid := ResolveThreadID(Metas(), m.meta);
        m := m.(meta := m.meta.(threadId := tid));
        ResolvesIgnoresThread(Metas(), m0.meta, tid);
      }
    }

    /** The locked section of `Put`: only an insertion is logged. */
    method Insert(m: StoredEmail)
      requires Valid()
      modifies this`msgs, this`state, this`changes, this`delta
      ensures Valid() && msgs == old(msgs)[m.meta.id := m]
      ensures MailOf() == Do(old(MailOf()), Op.Put(Value(m)))
      ensures old(DeltaSynced()) ==> DeltaSynced()
    {
      hide Faithful, LegalLog, EmailJournal, Msgs, HaveValues, Do, DeltaSynced, DeltaSaved;
      PresentValues();
      var existed := m.meta.id in msgs;
      msgs := msgs[m.meta.id := m];
      if !existed {
        LogChange(ChangeRecord([m.meta.id], [], []));
      }
      StoredOne(old(msgs), old(Msgs()), m.meta.id, m);
      Performs(Op.Put(Value(m)));
    }

    /** Inserts or overwrites an email, after its file. */
    method Put(m0: StoredEmail) returns (m: StoredEmail)
      requires Valid()
      modifies this`msgs, this`state, this`changes, this`files, this`delta
      ensures Valid()
      ensures m == m0.(meta := m0.meta.(threadId := m.meta.threadId))
      ensures if m0.meta.threadId != "" then m == m0 else Delivered(old(MailOf()), Op.Put(Value(m)))
      ensures msgs == old(msgs)[m.meta.id := m]
      ensures MailOf() == Do(old(MailOf()), Op.Put(Value(m)))
      ensures files == FilesAfter(old(files), old(MailOf()), Op.Put(Value(m)))
      ensures files == old(files)[MsgPath(m.meta.id) := Some(Value(m))]
      ensures old(DeltaSynced()) ==> DeltaSynced()
    {
      hide Valid, Msgs, Metas, MsgPath, Resolves, Do, DeltaSynced;
      PresentValues();
      m := WithThread(m0);
      AsBefore(old(Msgs()));
      MetasOfMsgs();
      files := files[MsgPath(m.meta.id) := Some(Value(m))];
      AsBefore(old(Msgs()));
      Insert(m);
    }

    /** The locked section of `Delete`. */
    method Forget(id: ID)
      requires Valid()
      modifies this`msgs, this`state, this`changes, this`delta
      ensures Valid() && msgs == old(msgs) - {id}
      ensures MailOf() == Do(old(MailOf()), Op.Delete(id))
      ensures old(DeltaSynced()) ==> DeltaSynced()
    {
      hide Faithful, LegalLog, EmailJournal, Msgs, HaveValues, Do, DeltaSynced, DeltaSaved;
      PresentValues();
      if id in msgs {
        msgs := msgs - {id};
        LogChange(ChangeRecord([], [], [id]));
      }
      DroppedSome(old(msgs), old(Msgs()), {id});
      Performs(Op.Delete(id));
    }

    method Delete(id: ID)
      requires Valid()
      modifies this`msgs, this`state, this`changes, this`files, this`delta
      ensures Valid()
      ensures msgs == old(msgs) - {id}
      ensures MailOf() == Do(old(MailOf()), Op.Delete(id))
      ensures files == FilesAfter(old(files), old(MailOf()), Op.Delete(id)) == old(files) - {MsgPath(id)}
      ensures old(DeltaSynced()) ==> DeltaSynced()
      ensures NoSharing(old(msgs)) ==> NoSharing(msgs)
    {
      hide NoSharing, Valid, Msgs, MsgPath, Do, DeltaSynced;
      if NoSharing(msgs) {
        DroppingKeepsApart(msgs, {id});
      }
      Forget(id);
      ghost var left := Msgs();
      PresentValues();
      files := files - {MsgPath(id)};
      AsBefore(left);
    }

    method RemoveMessageFiles()
      modifies this`files
      ensures files == WithoutMessages(old(files))
    {
      files := WithoutMessages(files);
    }

    /** The locked section of `Purge`. */
    method ForgetAll() returns (removed: seq<ID>)
      requires Valid()
      modifies this`msgs, this`state, this`changes, this`delta
      ensures Valid() && msgs == map[] && IsOrder(removed, old(msgs.Keys))
      ensures MailOf() == Do(old(MailOf()), Op.Purge(removed))
      ensures old(DeltaSynced()) ==> DeltaSynced()
    {
      hide Faithful, LegalLog, EmailJournal, Msgs, HaveValues, Do, IsOrder, DeltaSynced, DeltaSaved;
      PresentValues();
      removed := ListKeys(msgs.Keys);
      EmptyOrder(removed, msgs.Keys);
      msgs := map[];
      assert msgs == old(msgs) - old(msgs.Keys);
      if |removed| > 0 {
        LogChange(ChangeRecord([], [], removed));
      }
      DroppedSome(old(msgs), old(Msgs()), old(msgs.Keys));
      Performs(Op.Purge(removed));
    }

    /** Removes everything under one version; `order` is the order in which Go met the ids. */
    method Purge() returns (n: int, ghost order: seq<ID>)
      requires Valid()
      modifies this`msgs, this`state, this`changes, this`files, this`delta
      ensures Valid()
      ensures IsOrder(order, old(msgs.Keys)) && n == |old(msgs)|
      ensures msgs == map[]
      ensures MailOf() == Do(old(MailOf()), Op.Purge(order))
      ensures files == FilesAfter(old(files), old(MailOf()), Op.Purge(order))
      ensures forall f :: f in files <==> f in old(files) && !HasSuffix(f, ".json")
      ensures forall f :: f in files && f in old(files) ==> files[f] == old(files)[f]
      ensures old(DeltaSynced()) ==> DeltaSynced()
    {
      hide Valid, Msgs, HaveValues, WithoutMessages, Do, IsOrder, DeltaSynced;
      var removed := ForgetAll();
      order := removed;
      OrderSize(removed, old(msgs.Keys));
      OtherFiles(files);
      ghost var left := Msgs();
      PresentValues();
      RemoveMessageFiles();
      AsBefore(left);
      n := |removed|;
    }

    /** All flag maps of the stored emails. */
    ghost function AllMaps(): set<object>
      reads this`msgs
    {
      MapsOf(msgs)
    }

    /** The maps that `PatchEmail` writes to. */
    ghost function PatchTargets(id: ID): set<object>
      reads this`msgs
    {
      if id in msgs then FlagMaps(msgs[id]) else {}
    }

    method PatchInPlace(id: ID, patch: Patch, kind: PatchKind) returns (cp: StoredEmail)
      requires id in msgs
      modifies PatchTargets(id)
      ensures HavePatchedValues(msgs, old(Msgs()), id, patch, kind)
      ensures Value(cp) == PatchedThrough(old(Msgs())[id], patch, true, true, kind)
      ensures cp.meta == msgs[id].meta && fresh(FlagMaps(cp) - FlagMaps(msgs[id])) && OwnMaps(msgs, id, cp)
    {
      hide PatchFlags;
      cp := WithMaps(msgs[id], kind);
      if kind.WholeEmail? {
        PatchMaps(cp.keywords, cp.mailboxIds, patch);
      } else {
        PatchKeywordMap(cp.keywords, patch);
      }
      forall j | j in msgs && j != id
        ensures Value(msgs[j]) == PatchedThrough(old(Value(msgs[j])), patch,
                                    SharesKeywords(msgs, j, id), SharesMailboxes(msgs, j, id), kind)
      {
      }
    }

    method PatchStored(id: ID, patch: Patch, kind: PatchKind)
      requires id in msgs
      modifies this`msgs, PatchTargets(id)
      ensures ShowsPatch(Msgs(), old(msgs), old(Msgs()), id, patch, kind)
      ensures msgs.Keys == old(msgs).Keys && msgs[id].meta == old(msgs)[id].meta
      ensures forall j :: j in msgs && j != id ==> msgs[j] == old(msgs)[j]
      ensures fresh(FlagMaps(msgs[id]) - old(FlagMaps(msgs[id])))
      ensures NoSharing(old(msgs)) ==> NoSharing(msgs)
    {
      hide PatchedThrough, Msgs, NoSharing, OwnMaps;
      var cp := PatchInPlace(id, patch, kind);
      if NoSharing(msgs) {
        PatchingKeepsApart(msgs, id, cp);
      }
      msgs := msgs[id := cp];
      Shown(old(msgs), old(Msgs()), id, cp, patch, kind);
    }

    lemma Shown(prev: map<ID, StoredEmail>, before: map<ID, Email>, id: ID, cp: StoredEmail, patch: Patch,
                kind: PatchKind)
      requires id in prev && HavePatchedValues(prev, before, id, patch, kind)
      requires msgs == prev[id := cp] && Value(cp) == PatchedThrough(before[id], patch, true, true, kind)
      ensures ShowsPatch(Msgs(), prev, before, id, patch, kind)
    {
      hide PatchedThrough;
    }

    /** The second half of a patch: log the update, rewrite the file. */
    method LogPatch(id: ID)
      requires Valid() && id in msgs
      modifies this`state, this`changes, this`files, this`delta
      ensures Valid() && DeltaSynced() && Msgs() == old(Msgs())
      ensures state == old(state) + 1 && changes == old(changes)[state := ChangeRecord([], [id], [])]
      ensures files == old(files)[MsgPath(id) := Some(Value(msgs[id]))]
    {
      hide Faithful, LegalLog, MsgPath, Msgs, HaveValues, DeltaSynced, DeltaSaved;
      PresentValues();
      LogChange(ChangeRecord([], [id], []));
      files := files[MsgPath(id) := Some(Value(msgs[id]))];
      AsBefore(old(Msgs()));
      Updates(old(EmailJournal()), id);
    }

    /** The common part of `PatchEmail` and `PatchKeywords`: patch in place, log the update, rewrite
        the file.  Emails that share a map with `id` show the patch through it. */
    method Patch(id: ID, patch: Patch, kind: PatchKind)
      requires Valid() && id in msgs
      modifies this`msgs, this`state, this`changes, this`files, this`delta, PatchTargets(id)
      ensures Valid() && DeltaSynced()
      ensures ShowsPatch(Msgs(), old(msgs), old(Msgs()), id, patch, kind)
      ensures msgs.Keys == old(msgs.Keys) && fresh(FlagMaps(msgs[id]) - old(FlagMaps(msgs[id])))
      ensures forall j :: j in msgs && j != id ==> msgs[j] == old(msgs)[j]
      ensures NoSharing(old(msgs)) ==> NoSharing(msgs)
      ensures state == old(state) + 1 && changes == old(changes)[state := ChangeRecord([], [id], [])]
      ensures files == old(files)[MsgPath(id) := Some(Value(msgs[id]))]
    {
      hide NoSharing, Faithful, LegalLog, MsgPath, Msgs, ShowsPatch, DeltaSynced;
      PatchStored(id, patch, kind);
      assert EmailJournal() == old(EmailJournal());
      LogPatch(id);
    }

    method PatchEmail(id: ID, patch: Patch)
      requires Valid()
      modifies this`msgs, this`state, this`changes, this`files, this`delta, PatchTargets(id)
      ensures Valid() && (old(DeltaSynced()) ==> DeltaSynced())
      ensures Patched(old(msgs), old(Msgs()), old(state), old(changes), old(files), id, patch, WholeEmail)
      ensures msgs.Keys == old(msgs.Keys) && fresh(AllMaps() - old(AllMaps()))
      ensures NoSharing(old(msgs)) ==> NoSharing(msgs)
      ensures id !in old(msgs) || Unshared(old(msgs), id) ==>
                && MailOf() == Do(old(MailOf()), Op.PatchEmail(id, patch))
                && files == FilesAfter(old(files), old(MailOf()), Op.PatchEmail(id, patch))
    {
      hide KeywordMaps, MailboxMaps, NoSharing, Faithful, LegalLog;
      hide MsgPath, Msgs, ShowsPatch, DeltaSynced, DeltaSaved, Do;
      PresentValues();
      if id in msgs {
        Patch(id, patch, WholeEmail);
        PatchRefines(old(MailOf()), old(msgs), id, patch, WholeEmail);
      } else {
        DoMissing(MailOf(), id, patch);
      }
    }

    method PatchKeywords(id: ID, patch: Patch)
      requires Valid()
      modifies this`msgs, this`state, this`changes, this`files, this`delta, PatchTargets(id)
      ensures Valid() && (old(DeltaSynced()) ==> DeltaSynced())
      ensures Patched(old(msgs), old(Msgs()), old(state), old(changes), old(files), id, patch, KeywordsOnly)
      ensures msgs.Keys == old(msgs.Keys) && fresh(AllMaps() - old(AllMaps()))
      ensures NoSharing(old(msgs)) ==> NoSharing(msgs)
      ensures id !in old(msgs) || Unshared(old(msgs), id) ==>
                && MailOf() == Do(old(MailOf()), Op.PatchKeywords(id, patch))
                && files == FilesAfter(old(files), old(MailOf()), Op.PatchKeywords(id, patch))
    {
      hide KeywordMaps, MailboxMaps, NoSharing, Faithful, LegalLog;
      hide MsgPath, Msgs, ShowsPatch, DeltaSynced, DeltaSaved, Do;
      PresentValues();
      if id in msgs {
        Patch(id, patch, KeywordsOnly);
        PatchRefines(old(MailOf()), old(msgs), id, patch, KeywordsOnly);
      } else {
        DoMissing(MailOf(), id, patch);
      }
    }

    /** The whole effect of a patch, also when maps are shared. */
    ghost predicate Patched(msgs0: map<ID, StoredEmail>, values0: map<ID, Email>, state0: int, changes0: Log,
                            files0: Files,
                            id: ID, patch: Patch, kind: PatchKind)
      reads this`msgs, this`state, this`changes, this`files, KeywordMaps(), MailboxMaps()
    {
      if id in msgs0 then
        && ShowsPatch(Msgs(), msgs0, values0, id, patch, kind)
        && state == state0 + 1 && changes == changes0[state := ChangeRecord([], [id], [])]
        && id in msgs && files == files0[MsgPath(id) := Some(Value(msgs[id]))]
      else
        msgs == msgs0 && Msgs() == values0 && state == state0 && changes == changes0 && files == files0
    }

    lemma PatchRefines(before: Mail, prev: map<ID, StoredEmail>, id: ID, patch: Patch, kind: PatchKind)
      requires ShowsPatch(Msgs(), prev, before.msgs, id, patch, kind)
      requires state == before.state + 1 && changes == before.log[state := ChangeRecord([], [id], [])]
      ensures id in msgs && id in before.msgs && id in Do(before, PatchOp(id, patch, kind)).msgs
      ensures Value(msgs[id]) == Do(before, PatchOp(id, patch, kind)).msgs[id]
      ensures Unshared(prev, id) ==> MailOf() == Do(before, PatchOp(id, patch, kind))
    {
      hide Do, MsgsAfter;
      SharingExact(Msgs(), prev, before.msgs, id, patch, kind);
      DoPatch(before, id, patch, kind);
    }

    lemma DoMissing(s: Mail, id: ID, patch: Patch)
      requires id !in s.msgs
      ensures Do(s, Op.PatchEmail(id, patch)) == s && Do(s, Op.PatchKeywords(id, patch)) == s
    {
    }

    lemma Updates(j: Journal, id: ID)
      requires Faithful(j, origin) && LegalLog(j, origin) && id in j.live
      requires EmailJournal() == Journal(j.live, j.state + 1, j.log[j.state + 1 := ChangeRecord([], [id], [])])
      ensures Faithful(EmailJournal(), origin) && LegalLog(EmailJournal(), origin)
    {
      var rec := ChangeRecord([], [id], []);
      assert EventsOf(rec) == [Updated(id)];
      OneEvent(j.live, Updated(id));
      hide Faithful, LegalLog, Legal, LiveAfter, Window, EventsOf;
      CommitKeeps(j, rec, origin);
      RecordEffect(j.live, rec);
    }

    // ---------- pending drafts ----------

    /** Looks in the stored emails first, then among the drafts. */
    function Get(id: ID): Option<StoredEmail>
      reads this`msgs, this`pending
    {
      if id in msgs then Some(msgs[id]) else if id in pending then Some(pending[id]) else None
    }

    method PutPending(m: StoredEmail)
      modifies this`pending
      ensures pending == old(pending)[m.meta.id := m]
    {
      pending := pending[m.meta.id := m];
    }

    method TakePending(id: ID) returns (r: Option<StoredEmail>)
      modifies this`pending
      ensures pending == old(pending) - {id}
      ensures r == if id in old(pending) then Some(old(pending)[id]) else None
    {
      if id in pending {
        r := Some(pending[id]);
        pending := pending - {id};
      } else {
        r := None;
      }
    }

    // ---------- mailboxes ----------

    function MailboxIds(): set<ID>
      reads this`mailboxFile
    {
      IdsOf(mailboxFile)
    }

    ghost function MailboxJournal(): Journal
      reads this`mailboxFile, this`mailboxState, this`mailboxChanges
    {
      Journal(MailboxIds(), mailboxState, mailboxChanges)
    }

    ghost predicate MailboxesValid()
      reads this`mailboxFile, this`mailboxState, this`mailboxChanges, this`mailboxOrigin
    {
      Faithful(MailboxJournal(), mailboxOrigin) && LiveUpdates(MailboxJournal(), mailboxOrigin)
    }

    /** Overwrites the list without telling the log, which stays truthful exactly if the ids do not
        change. */
    method PutMailboxes(mbs: seq<Mailbox>)
      modifies this`mailboxFile
      ensures mailboxFile == mbs
      ensures old(MailboxesValid()) ==> (MailboxesValid() <==> IdsOf(mbs) == old(MailboxIds()))
    {
      mailboxFile := mbs;
    }

    method BumpMailboxState(rec: ChangeRecord)
      modifies this`mailboxState, this`mailboxChanges, this`delta
      ensures mailboxState == old(mailboxState) + 1 && mailboxChanges == old(mailboxChanges)[mailboxState := rec]
      ensures DeltaSynced()
    {
      mailboxState := mailboxState + 1;
      mailboxChanges := mailboxChanges[mailboxState := rec];
      SaveStateLocked();
    }

    /** Overwrite the list, then log how its ids changed. */
    method ReplaceMailboxes(next: seq<Mailbox>, rec: ChangeRecord)
      requires MailboxesValid()
      requires IdsOf(next) == (MailboxIds() + Elems(rec.added)) - Elems(rec.removed)
      requires Elems(rec.updated) <= MailboxIds() + Elems(rec.added)
      modifies this`mailboxFile, this`mailboxState, this`mailboxChanges, this`delta
      ensures MailboxesValid() && DeltaSynced()
      ensures mailboxFile == next && MailboxJournal() == Commit(old(MailboxJournal()), rec)
    {
      hide Faithful, LiveUpdates, DeltaSynced, DeltaSaved, LiveAfter, EventsOf;
      RecordEffect(MailboxIds(), rec);
      CommitLiveUpdates(MailboxJournal(), rec, mailboxOrigin);
      PutMailboxes(next);
      BumpMailboxState(rec);
    }

    /** Makes the mailboxes those of `mbs`, unless the ids already agree.  `rec` is the logged record. */
    method SyncMailboxes(mbs: seq<Mailbox>) returns (ghost rec: ChangeRecord)
      requires MailboxesValid()
      modifies this`mailboxFile, this`mailboxState, this`mailboxChanges, this`delta
      ensures MailboxesValid() && (old(DeltaSynced()) ==> DeltaSynced())
      ensures MailboxIds() == IdsOf(mbs)
      ensures if old(MailboxIds()) == IdsOf(mbs) then
                mailboxFile == old(mailboxFile) &&
                mailboxState == old(mailboxState) && mailboxChanges == old(mailboxChanges)
              else
                && mailboxFile == mbs && MailboxJournal() == Commit(old(MailboxJournal()), rec)
                && IsOrder(rec.added, IdsOf(mbs) - old(MailboxIds())) && rec.updated == []
                && IsOrder(rec.removed, old(MailboxIds()) - IdsOf(mbs))
    {
      hide Faithful, DeltaSynced, DeltaSaved;
      var existing, wanted := IdsOf(mailboxFile), IdsOf(mbs);
      var created := ListKeys(wanted - existing);
      var destroyed := ListKeys(existing - wanted);
      EmptyOrder(created, wanted - existing);
      EmptyOrder(destroyed, existing - wanted);
      rec := ChangeRecord(created, [], destroyed);
      if |created| == 0 && |destroyed| == 0 {
        assert existing == wanted;
        return;
      }
      ReplaceMailboxes(mbs, ChangeRecord(created, [], destroyed));
    }

    /** Syncing to the same list again does nothing. */
    method SyncTwice(mbs: seq<Mailbox>)
      requires MailboxesValid()
      modifies this`mailboxFile, this`mailboxState, this`mailboxChanges, this`delta
      ensures MailboxesValid() && MailboxIds() == IdsOf(mbs)
      ensures mailboxState == old(mailboxState) + if old(MailboxIds()) == IdsOf(mbs) then 0 else 1
    {
      hide Faithful, DeltaSynced;
      ghost var rec := SyncMailboxes(mbs);
      rec := SyncMailboxes(mbs);
    }

    // ---------- submissions ----------

    method AddSubmission(sub: Submission)
      modifies this`submissions, this`submissionState, this`delta
      ensures submissions == old(submissions) + [sub] && submissionState == old(submissionState) + 1
      ensures DeltaSynced()
    {
      submissions := submissions + [sub];
      submissionState := submissionState + 1;
      SaveStateLocked();
    }

    /** The counter of the submissions is their number. */
    predicate SubmissionsCounted()
      reads this`submissions, this`submissionState
    {
      submissionState == |submissions|
    }

    // ---------- opening a store ----------

    /** `NewStore`: reads the message files and delta.json.  The origins are what the caller knows
        about the history behind the files. */
    constructor (messages: Files, saved: Option<PersistedState>, mailboxes: seq<Mailbox>,
                 ghost o: Origin, ghost mo: Origin)
      ensures LoadedMsgs(messages, Msgs()) && pending == map[]
      ensures NoSharing(msgs) && forall id :: id in msgs ==> msgs[id].meta.id == id
      ensures files == messages && delta == saved && mailboxFile == mailboxes
      ensures origin == o && mailboxOrigin == mo
      ensures saved.None? ==> state == mailboxState == submissionState == 0 &&
                              changes == mailboxChanges == map[] && submissions == []
      ensures saved.Some? ==> state == saved.value.state && Loaded(saved.value.changes, changes) &&
                              mailboxState == saved.value.mailboxState &&
                              Loaded(saved.value.mailboxChanges, mailboxChanges) &&
                              submissions == saved.value.submissions && submissionState == saved.value.submissionState
    {
      hide LoadedMsgs, Loaded, NoSharing, HaveValues, Msgs;
      var loaded, values := LoadMessages(messages);
      var log, mailboxLog: Log := map[], map[];
      if saved.Some? {
        log := LoadLog(saved.value.changes);
        mailboxLog := LoadLog(saved.value.mailboxChanges);
      }
      msgs, pending := loaded, map[];
      state := if saved.Some? then saved.value.state else 0;
      changes := log;
      mailboxState := if saved.Some? then saved.value.mailboxState else 0;
      mailboxChanges := mailboxLog;
      submissions := if saved.Some? then saved.value.submissions else [];
      submissionState := if saved.Some? then saved.value.submissionState else 0;
      files, delta, mailboxFile := messages, saved, mailboxes;
      origin, mailboxOrigin := o, mo;
      new;
      AsBefore(values);
    }
  }

  function IdsOf(mbs: seq<Mailbox>): set<ID> {
    set i | 0 <= i < |mbs| :: mbs[i].id
  }

  /** Stopping and reopening: everything but the drafts is as before, and no maps are shared. */
  method Restart(s: Store) returns (t: Store)
    requires s.Valid() && s.MailboxesValid()
    requires s.DeltaSynced() && Mirror(s.files, s.Msgs())
    requires s.state <= MAX_INT64 && s.mailboxState <= MAX_INT64
    ensures fresh(t) && t.Valid() && t.MailboxesValid()
    ensures t.MailOf() == s.MailOf() && t.origin == s.origin
    ensures t.MailboxJournal() == s.MailboxJournal() && t.mailboxFile == s.mailboxFile
    ensures t.mailboxOrigin == s.mailboxOrigin
    ensures t.submissions == s.submissions && t.submissionState == s.submissionState
    ensures t.DeltaSynced() && Mirror(t.files, t.Msgs())
    ensures t.pending == map[] && NoSharing(t.msgs)
  {
    hide Faithful, LegalLog, LoadedMsgs, Mirror, LogMirror, Loaded, NoSharing, HaveValues, Store.Msgs;
    ghost var kept := s.Msgs();
    s.PresentValues();
    s.FiledById();
    t := new Store(s.files, s.delta, s.mailboxFile, s.origin, s.mailboxOrigin);
    s.AsBefore(kept);
    t.PresentValues();
    MessagesRoundTrip(s.files, kept, t.Msgs());
    if s.delta.Some? {
      Versions(s.EmailJournal(), s.origin);
      Versions(s.MailboxJournal(), s.mailboxOrigin);
      LogRoundTrip(s.delta.value.changes, s.changes, t.changes);
      LogRoundTrip(s.delta.value.mailboxChanges, s.mailboxChanges, t.mailboxChanges);
    }
    assert t.EmailJournal() == s.EmailJournal();
  }

  /** A store over an empty directory: where every run begins. */
  method OpenEmpty() returns (s: Store)
    ensures fresh(s) && s.Valid() && s.MailboxesValid() && s.DeltaSynced() && s.SubmissionsCounted()
    ensures s.msgs == map[] && NoSharing(s.msgs) && Mirror(s.files, s.Msgs()) && s.MailOf() == Mail(map[], 0, map[])
    ensures s.pending == map[] && s.mailboxFile == [] && s.submissions == []
    ensures s.origin == s.mailboxOrigin == Origin(0, {})
  {
    hide Faithful, LegalLog;
    s := new Store(map[], None, [], Origin(0, {}), Origin(0, {}));
    assert s.Msgs() == map[];
    assert s.msgs == map[] by { s.PresentValues(); }
    StartsFaithful(s.EmailJournal(), s.origin);
    StartsFaithful(s.MailboxJournal(), s.mailboxOrigin);
  }

  lemma Versions(j: Journal, o: Origin)
    requires Faithful(j, o)
    ensures forall v :: v in j.log ==> 0 < v <= j.state
  {
  }

  /** The loop of `NewStore` over the directory: every email gets maps of its own. */
  method LoadMessages(files: Files) returns (msgs: map<ID, StoredEmail>, ghost values: map<ID, Email>)
    ensures LoadedMsgs(files, values) && HaveValues(msgs, values)
    ensures NoSharing(msgs) && forall id :: id in msgs ==> msgs[id].meta.id == id
  {
    hide LoadedMsgs, HaveValues, NoSharing;
    msgs, values := map[], map[];
    var rest := files.Keys;
    Nothing();
    assert files - rest == map[];
    while rest != {}
      invariant rest <= files.Keys
      invariant LoadedMsgs(files - rest, values) && HaveValues(msgs, values)
      invariant NoSharing(msgs) && forall id :: id in msgs ==> msgs[id].meta.id == id
    {
      var f :| f in rest;
      LoadedMsgsNext(files - rest, values, f, files[f]);
      assert files - (rest - {f}) == (files - rest)[f := files[f]];
      if HasSuffix(f, JSON_SUFFIX) && files[f].Some? && files[f].value.meta.id != "" {
        msgs, values := LoadMessage(msgs, values, files[f].value);
      }
      rest := rest - {f};
    }
    assert files - rest == files;
  }

  lemma Nothing()
    ensures LoadedMsgs(map[], map[]) && HaveValues(map[], map[]) && NoSharing(map[])
  {
  }

  /** `s.msgs[m.ID] = m` for an email just decoded. */
  method LoadMessage(msgs0: map<ID, StoredEmail>, ghost values0: map<ID, Email>, e: Email)
    returns (msgs: map<ID, StoredEmail>, ghost values: map<ID, Email>)
    requires HaveValues(msgs0, values0)
    requires NoSharing(msgs0) && forall id :: id in msgs0 ==> msgs0[id].meta.id == id
    ensures values == values0[e.meta.id := e] && HaveValues(msgs, values)
    ensures NoSharing(msgs) && forall id :: id in msgs ==> msgs[id].meta.id == id
  {
    var k := new KeywordMap(e.keywords);
    var b := new MailboxMap(e.mailboxIds);
    msgs := msgs0[e.meta.id := StoredEmail(e.meta, k, b)];
    values := values0[e.meta.id := e];
  }

  /** A patch touches only its email exactly when it changes nothing in the maps which other
      stored emails share with it. */
  lemma SharingExact(after: map<ID, Email>, prev: map<ID, StoredEmail>, before: map<ID, Email>, id: ID, patch: Patch,
                     kind: PatchKind)
    requires ShowsPatch(after, prev, before, id, patch, kind)
    ensures after == MsgsAfter(before, PatchOp(id, patch, kind)) <==>
            forall j :: j in prev && j != id ==>
              && (SharesKeywords(prev, j, id) ==>
                    PatchFlags(before[j].keywords, KEYWORDS, patch, kind.WholeEmail?) == before[j].keywords)
              && (SharesMailboxes(prev, j, id) && kind.WholeEmail? ==>
                    PatchFlags(before[j].mailboxIds, MAILBOX_IDS, patch, true) == before[j].mailboxIds)
    ensures Unshared(prev, id) ==> after == MsgsAfter(before, PatchOp(id, patch, kind))
  {
    hide PatchFlags;
    var target := MsgsAfter(before, PatchOp(id, patch, kind));
    assert target.Keys == after.Keys;
    assert after[id] == target[id];
    assert forall j :: j in prev && j != id ==> target[j] == before[j];
  }

  /** The copy that is patched: nil maps are replaced by new empty ones. */
  method WithMaps(m: StoredEmail, kind: PatchKind) returns (cp: StoredEmail)
    ensures cp.keywords != null && cp.meta == m.meta
    ensures if m.keywords == null then fresh(cp.keywords) && cp.keywords.entries == map[] else cp.keywords == m.keywords
    ensures if m.mailboxIds == null && kind.WholeEmail? then
              cp.mailboxIds != null && fresh(cp.mailboxIds) && cp.mailboxIds.entries == map[]
            else cp.mailboxIds == m.mailboxIds
  {
    cp := m;
    if cp.keywords == null {
      var k := new KeywordMap(map[]);
      cp := cp.(keywords := k);
    }
    if kind.WholeEmail? && cp.mailboxIds == null {
      var b := new MailboxMap(map[]);
      cp := cp.(mailboxIds := b);
    }
  }

  /** The loop of `PatchKeywords`: only boolean values count. */
  method PatchKeywordMap(kw: KeywordMap, patch: Patch)
    modifies kw
    ensures kw.entries == PatchFlags(old(kw.entries), KEYWORDS, patch, false)
  {
    hide PatchFlags;
    var rest := patch.Keys;
    PatchNothing(kw.entries, KEYWORDS, false);
    assert patch - rest == map[];
    while rest != {}
      invariant rest <= patch.Keys
      invariant kw.entries == PatchFlags(old(kw.entries), KEYWORDS, patch - rest, false)
    {
      var k :| k in rest;
      PatchFlagsNext(old(kw.entries), KEYWORDS, patch - rest, false, k, patch[k]);
      assert patch - (rest - {k}) == (patch - rest)[k := patch[k]];
      if KEYWORDS <= k && patch[k].Bool? {
        kw.entries := kw.entries[k[|KEYWORDS|..] := patch[k].b];
      }
      rest := rest - {k};
    }
    assert patch - rest == patch;
  }

  /** The loop of `PatchEmail` over the patch, in whatever order Go meets its keys. */
  method PatchMaps(kw: KeywordMap, mb: MailboxMap, patch: Patch)
    modifies kw, mb
    ensures kw.entries == PatchFlags(old(kw.entries), KEYWORDS, patch, true)
    ensures mb.entries == PatchFlags(old(mb.entries), MAILBOX_IDS, patch, true)
  {
    hide PatchFlags;
    var rest := patch.Keys;
    PatchNothing(kw.entries, KEYWORDS, true);
    PatchNothing(mb.entries, MAILBOX_IDS, true);
    assert patch - rest == map[];
    while rest != {}
      invariant rest <= patch.Keys
      invariant kw.entries == PatchFlags(old(kw.entries), KEYWORDS, patch - rest, true)
      invariant mb.entries == PatchFlags(old(mb.entries), MAILBOX_IDS, patch - rest, true)
    {
      var k :| k in rest;
      var v := patch[k];
      PatchFlagsNext(old(kw.entries), KEYWORDS, patch - rest, true, k, v);
      PatchFlagsNext(old(mb.entries), MAILBOX_IDS, patch - rest, true, k, v);
      assert patch - (rest - {k}) == (patch - rest)[k := v];
      assert KEYWORDS[0] != MAILBOX_IDS[0];
      if KEYWORDS <= k {
        if v.Bool? {
          kw.entries := kw.entries[k[|KEYWORDS|..] := v.b];
        } else if v.Null? {
          kw.entries := kw.entries - {k[|KEYWORDS|..]};
        }
      } else if MAILBOX_IDS <= k {
        if v.Bool? {
          mb.entries := mb.entries[k[|MAILBOX_IDS|..] := v.b];
        } else if v.Null? {
          mb.entries := mb.entries - {k[|MAILBOX_IDS|..]};
        }
      }
      rest := rest - {k};
    }
    assert patch - rest == patch;
  }

  /** `for id := range set { ids = append(ids, id) }` */
  method ListKeys(keys: set<ID>) returns (order: seq<ID>)
    ensures IsOrder(order, keys)
  {
    order := [];
    var rest := keys;
    while rest != {}
      invariant rest <= keys
      invariant IsOrder(order, keys - rest)
    {
      var id :| id in rest;
      ElemsSnoc(order, id);
      assert keys - (rest - {id}) == (keys - rest) + {id};
      assert id !in Elems(order);
      order := order + [id];
      rest := rest - {id};
    }
    assert keys - rest == keys;
  }

  lemma EmptyOrder(order: seq<ID>, keys: set<ID>)
    requires IsOrder(order, keys)
    ensures |order| > 0 <==> keys != {}
  {
    if |order| > 0 {
      assert order[0] in Elems(order);
    }
  }

  /** Resolution never looks at the thread an email already has. */
  lemma ResolvesIgnoresThread(metas: Metas, m: Meta, tid: ID)
    requires Resolves(metas, m, tid)
    ensures Resolves(metas, m.(threadId := tid), tid)
  {
    var m' := m.(threadId := tid);
    if GroupThread(m.headers).None? {
      var ix :| IsIndex(ix, metas) && tid == ByReply(ix, m);
      assert ByReply(ix, m') == tid;
    }
  }
}
