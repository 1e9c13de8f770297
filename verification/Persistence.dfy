/** The disk image of a store (store.go): message files, delta.json and mailboxes.json.
    JSON encoding is taken as an inverse pair; a message file that does not parse is `None`. */
module Persistence {
  import opened Prelude
  import opened Text
  import opened Delta
  import opened Journal
  import opened Mail

  datatype Mailbox = Mailbox(id: ID, name: string, rest: string)

  datatype Submission = Submission(id: string, emailId: ID, threadId: ID, sendAt: string)

  type Files = map<string, Option<Email>>

  /** The contents of delta.json. */
  datatype PersistedState = PersistedState(
    state: int,
    changes: map<string, ChangeRecord>,
    mailboxState: int,
    mailboxChanges: map<string, ChangeRecord>,
    submissions: seq<Submission>,
    submissionState: int)

  const JSON_SUFFIX := ".json"

  predicate HasSuffix(s: string, suffix: string) {
    |s| >= |suffix| && s[|s| - |suffix|..] == suffix
  }

  function MsgPath(id: ID): string {
    SafeFilename(id) + JSON_SUFFIX
  }

  // ---------- delta.json: versions as decimal keys ----------

  /** `saved` holds the records of `log` under their decimal versions and nothing else. */
  ghost predicate LogMirror(saved: map<string, ChangeRecord>, log: Log) {
    && (forall n :: n in log ==> FormatInt(n) in saved && saved[FormatInt(n)] == log[n])
    && (forall k :: k in saved ==> exists n :: n in log && k == FormatInt(n))
  }

  method SaveLog(log: Log) returns (saved: map<string, ChangeRecord>)
    ensures LogMirror(saved, log)
  {
    saved := map[];
    var rest := log.Keys;
    while rest != {}
      invariant rest <= log.Keys
      invariant LogMirror(saved, log - rest)
    {
      ghost var member := SomeMember(rest);
      var n :| n in rest;
      LogMirrorStep(saved, log - rest, n, log[n]);
      assert log - (rest - {n}) == (log - rest)[n := log[n]];
      saved := saved[FormatInt(n) := log[n]];
      rest := rest - {n};
    }
    assert log - rest == log;
  }

  lemma LogMirrorStep(saved: map<string, ChangeRecord>, log: Log, n: int, rec: ChangeRecord)
    requires LogMirror(saved, log)
    ensures LogMirror(saved[FormatInt(n) := rec], log[n := rec])
  {
    hide FormatInt;
    var saved', log' := saved[FormatInt(n) := rec], log[n := rec];
    forall m | m in log'
      ensures FormatInt(m) in saved' && saved'[FormatInt(m)] == log'[m]
    {
      FormatInjective(m, n);
    }
    forall k | k in saved'
      ensures exists m :: m in log' && k == FormatInt(m)
    {
      if k == FormatInt(n) {
        assert n in log';
      } else {
        var m :| m in log && k == FormatInt(m);
        assert m in log';
      }
    }
  }

  /** What the loading loop may produce: keys that do not parse are skipped, and among keys that
      parse to one number any may win. */
  ghost predicate Loaded(saved: map<string, ChangeRecord>, log: Log) {
    && (forall k :: k in saved && ParseInt(k).Some? ==> ParseInt(k).value in log)
    && (forall n :: n in log ==> exists k :: k in saved && ParseInt(k) == Some(n) && log[n] == saved[k])
  }

  method LoadLog(saved: map<string, ChangeRecord>) returns (log: Log)
    ensures Loaded(saved, log)
  {
    log := map[];
    var rest := saved.Keys;
    while rest != {}
      invariant rest <= saved.Keys
      invariant forall k :: k in saved.Keys - rest && ParseInt(k).Some? ==> ParseInt(k).value in log
      invariant forall n :: n in log ==> exists k :: k in saved && ParseInt(k) == Some(n) && log[n] == saved[k]
    {
      var k :| k in rest;
      match ParseInt(k) {
        case Some(n) => log := log[n := saved[k]];
        case None =>
      }
      rest := rest - {k};
    }
  }

  /** Saving and loading a log gives the log back, in whatever order the keys are met. */
  lemma LogRoundTrip(saved: map<string, ChangeRecord>, log: Log, loaded: Log)
    requires LogMirror(saved, log) && Loaded(saved, loaded)
    requires forall n :: n in log ==> MIN_INT64 <= n <= MAX_INT64
    ensures loaded == log
  {
    hide FormatInt, ParseInt, LogMirror, Loaded;
    forall n
      ensures n in loaded <==> n in log
      ensures n in loaded ==> loaded[n] == log[n]
    {
      LogRoundTripAt(saved, log, loaded, n);
    }
  }

  lemma LogRoundTripAt(saved: map<string, ChangeRecord>, log: Log, loaded: Log, n: int)
    requires LogMirror(saved, log) && Loaded(saved, loaded)
    requires forall n :: n in log ==> MIN_INT64 <= n <= MAX_INT64
    ensures n in loaded <==> n in log
    ensures n in loaded ==> loaded[n] == log[n]
  {
    hide FormatInt, ParseInt;
    if n in log {
      FormatParse(n);
    }
    if n in loaded {
      var k :| k in saved && ParseInt(k) == Some(n) && loaded[n] == saved[k];
      var m :| m in log && k == FormatInt(m);
      FormatParse(m);
    }
  }

  // ---------- message files ----------

  /** Every stored email has its own file, and there is no other message file. */
  ghost predicate Mirror(files: Files, msgs: map<ID, Email>) {
    && (forall id :: id in msgs ==> id != "" && MsgPath(id) in files && files[MsgPath(id)] == Some(msgs[id]))
    && (forall f :: f in files && HasSuffix(f, JSON_SUFFIX) ==> exists id :: id in msgs && f == MsgPath(id))
  }

  /** What `NewStore` may read back: unreadable files and files without an id are skipped, and
      among files with one id any may win. */
  ghost predicate LoadedMsgs(files: Files, msgs: map<ID, Email>) {
    && (forall f :: f in files && HasSuffix(f, JSON_SUFFIX) && files[f].Some? && files[f].value.meta.id != "" ==>
          files[f].value.meta.id in msgs)
    && (forall id :: id in msgs ==>
          exists f :: f in files && HasSuffix(f, JSON_SUFFIX) && files[f] == Some(msgs[id]) &&
            msgs[id].meta.id == id && id != "")
  }

  /** One more file is met. */
  lemma LoadedMsgsNext(files: Files, msgs: map<ID, Email>, f: string, content: Option<Email>)
    requires LoadedMsgs(files, msgs) && f !in files
    ensures LoadedMsgs(files[f := content],
              if HasSuffix(f, JSON_SUFFIX) && content.Some? && content.value.meta.id != "" then
                msgs[content.value.meta.id := content.value]
              else msgs)
  {
    hide HasSuffix;
    var files' := files[f := content];
    forall id | id in msgs
      ensures exists g :: g in files' && HasSuffix(g, JSON_SUFFIX) && files'[g] == Some(msgs[id]) &&
                msgs[id].meta.id == id && id != ""
    {
      var g :| g in files && HasSuffix(g, JSON_SUFFIX) && files[g] == Some(msgs[id]) &&
               msgs[id].meta.id == id && id != "";
      assert g in files' && files'[g] == Some(msgs[id]);
    }
  }

  lemma MsgPathSuffix(id: ID)
    ensures HasSuffix(MsgPath(id), JSON_SUFFIX)
  {
  }

  lemma MessagesRoundTrip(files: Files, msgs: map<ID, Email>, loaded: map<ID, Email>)
    requires Mirror(files, msgs) && LoadedMsgs(files, loaded)
    requires forall id :: id in msgs ==> msgs[id].meta.id == id
    ensures loaded == msgs
  {
    forall id
      ensures id in loaded <==> id in msgs
      ensures id in loaded ==> loaded[id] == msgs[id]
    {
      hide MsgPath, HasSuffix;
      if id in msgs {
        MsgPathSuffix(id);
        assert files[MsgPath(id)].value.meta.id == id;
      }
      if id in loaded {
        var f :| f in files && HasSuffix(f, JSON_SUFFIX) && files[f] == Some(loaded[id]) && loaded[id].meta.id == id;
        var i :| i in msgs && f == MsgPath(i);
      }
    }
  }

  function WithoutMessages(files: Files): Files {
    map f | f in files && !HasSuffix(f, JSON_SUFFIX) :: files[f]
  }

  lemma OtherFiles(files: Files)
    ensures var left := WithoutMessages(files);
            && (forall f :: f in left <==> f in files && !HasSuffix(f, ".json"))
            && (forall f :: f in left && f in files ==> left[f] == files[f])
  {
  }

  /** The file operations that accompany a mutation. */
  function FilesAfter(files: Files, s: Mail, op: Op): Files {
    match op
    case Put(m) => files[MsgPath(m.meta.id) := Some(m)]
    case Delete(id) => files - {MsgPath(id)}
    case Purge(_) => WithoutMessages(files)
    case PatchEmail(id, _) => if id in s.msgs then files[MsgPath(id) := Some(Do(s, op).msgs[id])] else files
    case PatchKeywords(id, _) => if id in s.msgs then files[MsgPath(id) := Some(Do(s, op).msgs[id])] else files
  }

  /** The mutation writes or removes the file of another stored email, or an email without id. */
  ghost predicate FileClash(s: Mail, op: Op) {
    match op
    case Put(m) => m.meta.id == "" || exists id :: id in s.msgs && id != m.meta.id && MsgPath(id) == MsgPath(m.meta.id)
    case Delete(i) => exists id :: id in s.msgs && id != i && MsgPath(id) == MsgPath(i)
    case _ => false
  }

  /** A mutation keeps the files a mirror of memory exactly when it causes no clash. */
  lemma MirrorExact(files: Files, s: Mail, op: Op)
    requires Mirror(files, s.msgs) && Enabled(s, op)
    requires forall id :: id in s.msgs ==> s.msgs[id].meta.id == id
    ensures Mirror(FilesAfter(files, s, op), Do(s, op).msgs) <==> !FileClash(s, op)
  {
    match op
    case Put(m) => MirrorPut(files, s, m);
    case Delete(i) => MirrorDelete(files, s, i);
    case Purge(_) =>
    case PatchEmail(i, _) => MirrorRewrite(files, s, op, i);
    case PatchKeywords(i, _) => MirrorRewrite(files, s, op, i);
  }

  lemma MirrorPut(files: Files, s: Mail, m: Email)
    requires Mirror(files, s.msgs)
    requires forall id :: id in s.msgs ==> s.msgs[id].meta.id == id
    ensures Mirror(FilesAfter(files, s, Put(m)), Do(s, Put(m)).msgs) <==> !FileClash(s, Put(m))
  {
    hide MsgPath, HasSuffix;
    var files', msgs' := FilesAfter(files, s, Put(m)), Do(s, Put(m)).msgs;
    assert msgs' == s.msgs[m.meta.id := m];
    assert m.meta.id in msgs';
    if !FileClash(s, Put(m)) {
      forall f | f in files' && HasSuffix(f, JSON_SUFFIX)
        ensures exists id :: id in msgs' && f == MsgPath(id)
      {
        if f != MsgPath(m.meta.id) {
          var id :| id in s.msgs && f == MsgPath(id);
          assert id in msgs';
        }
      }
    } else if m.meta.id != "" {
      var id :| id in s.msgs && id != m.meta.id && MsgPath(id) == MsgPath(m.meta.id);
      assert id in msgs' && msgs'[id].meta.id == id;
      assert files'[MsgPath(id)] == Some(m);
    }
  }

  lemma MirrorDelete(files: Files, s: Mail, i: ID)
    requires Mirror(files, s.msgs)
    ensures Mirror(FilesAfter(files, s, Delete(i)), Do(s, Delete(i)).msgs) <==> !FileClash(s, Delete(i))
  {
    hide MsgPath, HasSuffix;
    var files', msgs' := FilesAfter(files, s, Delete(i)), Do(s, Delete(i)).msgs;
    assert msgs' == s.msgs - {i} && files' == files - {MsgPath(i)};
    if !FileClash(s, Delete(i)) {
      forall f | f in files' && HasSuffix(f, JSON_SUFFIX)
        ensures exists id :: id in msgs' && f == MsgPath(id)
      {
        var id :| id in s.msgs && f == MsgPath(id);
        assert id in msgs';
      }
    } else {
      var id :| id in s.msgs && id != i && MsgPath(id) == MsgPath(i);
      assert id in msgs' && MsgPath(id) !in files';
    }
  }

  lemma MirrorRewrite(files: Files, s: Mail, op: Op, i: ID)
    requires Mirror(files, s.msgs)
    requires forall id :: id in s.msgs ==> s.msgs[id].meta.id == id
    requires (op.PatchEmail? || op.PatchKeywords?) && op.id == i
    ensures Mirror(FilesAfter(files, s, op), Do(s, op).msgs)
  {
    hide MsgPath, HasSuffix, PatchedEmail, PatchedKeywords;
    var files', msgs' := FilesAfter(files, s, op), Do(s, op).msgs;
    assert msgs'.Keys == s.msgs.Keys;
    forall id | id in msgs'
      ensures id != "" && MsgPath(id) in files' && files'[MsgPath(id)] == Some(msgs'[id])
    {
      if i in s.msgs && MsgPath(id) == MsgPath(i) {
        assert files[MsgPath(id)] == Some(s.msgs[id]) && files[MsgPath(i)] == Some(s.msgs[i]);
        assert id == i;
      }
    }
    forall f | f in files' && HasSuffix(f, JSON_SUFFIX)
      ensures exists id :: id in msgs' && f == MsgPath(id)
    {
      var id :| id in s.msgs && f == MsgPath(id);
      assert id in msgs';
    }
  }

  function Paths(ids: set<ID>): set<string> {
    set id | id in ids :: MsgPath(id)
  }

  lemma PathsMore(ids: set<ID>, id: ID)
    ensures Paths(ids + {id}) == Paths(ids) + {MsgPath(id)}
  {
    hide MsgPath;
    assert forall i :: i in ids + {id} ==> MsgPath(i) in Paths(ids + {id});
  }

  /** No id of `gone` has the file of one of `live`. */
  predicate SparesFiles(live: set<ID>, gone: set<ID>) {
    forall id :: id in live ==> MsgPath(id) !in Paths(gone)
  }

  /** Dropping emails and the files of the dropped ids, stored or not, keeps the mirror exactly if no
      dropped id has the file of an email that stays. */
  lemma MirrorAfterDrops(files: Files, msgs: map<ID, Email>, gone: set<ID>)
    requires Mirror(files, msgs)
    ensures Mirror(files - Paths(gone), msgs - gone) <==> SparesFiles(msgs.Keys - gone, gone)
  {
    hide MsgPath, HasSuffix;
    if SparesFiles(msgs.Keys - gone, gone) {
      forall f | f in files - Paths(gone) && HasSuffix(f, JSON_SUFFIX)
        ensures exists id :: id in msgs - gone && f == MsgPath(id)
      {
        var id :| id in msgs && f == MsgPath(id);
        assert id in msgs - gone;
      }
    } else {
      var id :| id in msgs.Keys - gone && MsgPath(id) in Paths(gone);
      assert id in msgs - gone && MsgPath(id) !in files - Paths(gone);
    }
  }

  function FilesAfterRun(files: Files, s: Mail, ops: seq<Op>): Files {
    if ops == [] then files
    else FilesAfter(FilesAfterRun(files, s, ops[..|ops| - 1]), Exec(s, ops[..|ops| - 1]), ops[|ops| - 1])
  }

  /** A restart is invisible for the emails: after any run without clashes, whatever `NewStore`
      reads from the files is what memory holds. */
  lemma {:induction false} RestartRun(files: Files, s: Mail, ops: seq<Op>, o: Origin)
    requires Mirror(files, s.msgs) && Inv(s, o) && Runnable(s, ops)
    requires forall i :: 0 <= i < |ops| ==> !FileClash(Exec(s, ops[..i]), ops[i])
    ensures Mirror(FilesAfterRun(files, s, ops), Exec(s, ops).msgs)
    ensures forall loaded :: LoadedMsgs(FilesAfterRun(files, s, ops), loaded) ==> loaded == Exec(s, ops).msgs
  {
    if ops == [] {
    } else {
      var init, op := ops[..|ops| - 1], ops[|ops| - 1];
      assert forall i :: 0 <= i < |init| ==> init[..i] == ops[..i];
      RestartRun(files, s, init, o);
      RunKeeps(s, init, o);
      assert !FileClash(Exec(s, ops[..|init|]), ops[|init|]);
      MirrorExact(FilesAfterRun(files, s, init), Exec(s, init), op);
    }
    RunKeeps(s, ops, o);
    forall loaded | LoadedMsgs(FilesAfterRun(files, s, ops), loaded)
      ensures loaded == Exec(s, ops).msgs
    {
      MessagesRoundTrip(FilesAfterRun(files, s, ops), Exec(s, ops).msgs, loaded);
    }
  }

  /** If a `Put` hits the file of another stored email, a restart brings back everything but that
      email. */
  lemma ClashLosesEmail(files: Files, s: Mail, m: Email, id: ID, loaded: map<ID, Email>)
    requires Mirror(files, s.msgs) && forall i :: i in s.msgs ==> s.msgs[i].meta.id == i
    requires m.meta.id != "" && id in s.msgs && id != m.meta.id && MsgPath(id) == MsgPath(m.meta.id)
    requires LoadedMsgs(FilesAfter(files, s, Put(m)), loaded)
    ensures id in Do(s, Put(m)).msgs
    ensures loaded == Do(s, Put(m)).msgs - {id}
  {
    hide MsgPath, HasSuffix, LoadedMsgs;
    var files', left := FilesAfter(files, s, Put(m)), s.msgs[m.meta.id := m] - {id};
    forall i | i in left
      ensures i != "" && MsgPath(i) in files' && files'[MsgPath(i)] == Some(left[i])
    {
    }
    forall f | f in files' && HasSuffix(f, JSON_SUFFIX)
      ensures exists i :: i in left && f == MsgPath(i)
    {
      if f == MsgPath(m.meta.id) {
        assert m.meta.id in left;
      } else {
        var i :| i in s.msgs && f == MsgPath(i);
        assert i in left;
      }
    }
    MessagesRoundTrip(files', left, loaded);
  }

  /** Such ids exist. */
  lemma SlashAndColonClash()
    ensures MsgPath("a/b") == MsgPath("a:b") == "a-b.json"
  {
    assert SafeFilename("a/b") == "a-b" == SafeFilename("a:b");
  }
}
