/** Thread resolution (`resolveThreadID`, store.go) and its consequences over runs of `Put`. */
module Threads {
  import opened Prelude
  import opened Text
  import opened Mail

  type Metas = map<ID, Meta>

  function MetasOf(msgs: map<ID, Email>): Metas {
    map id | id in msgs :: msgs[id].meta
  }

  /** The email carries the (normalised, non-empty) Message-ID `k`. */
  predicate Names(m: Meta, k: string) {
    k != "" && exists i :: 0 <= i < |m.messageId| && TrimAngles(m.messageId[i]) == k
  }

  /** `byMsgID`: every Message-ID in the store, each with the thread of one email carrying it.
      Which one depends on the order in which Go iterates over the emails. */
  ghost predicate IsIndex(ix: map<string, ID>, metas: Metas) {
    && (forall id, k :: id in metas && Names(metas[id], k) ==> k in ix)
    && (forall k :: k in ix ==> exists id :: id in metas && Names(metas[id], k) && ix[k] == metas[id].threadId)
  }

  /** The first non-empty Chat-Group-Id header. */
  function GroupThread(headers: seq<Header>): Option<ID> {
    if headers == [] then None
    else if EqualFold(headers[0].name, "Chat-Group-Id") && headers[0].value != "" then
      Some("thr-group-" + headers[0].value)
    else GroupThread(headers[1..])
  }

  predicate IsGroupHeader(h: Header) {
    EqualFold(h.name, "Chat-Group-Id") && h.value != ""
  }

  /** The first header that names a group names the group `g`. */
  predicate InGroup(headers: seq<Header>, g: string) {
    exists i :: 0 <= i < |headers| && FirstGroupAt(headers, i) && headers[i].value == g
  }

  predicate FirstGroupAt(headers: seq<Header>, i: nat) {
    i < |headers| && IsGroupHeader(headers[i]) && forall j :: 0 <= j < i ==> !IsGroupHeader(headers[j])
  }

  lemma {:induction false} GroupThreadMeans(headers: seq<Header>)
    ensures match GroupThread(headers)
            case None => forall g :: !InGroup(headers, g)
            case Some(t) => exists g :: InGroup(headers, g) && t == "thr-group-" + g
    ensures forall g :: InGroup(headers, g) ==> GroupThread(headers) == Some("thr-group-" + g)
  {
    hide EqualFold;
    if headers == [] {
    } else if IsGroupHeader(headers[0]) {
      assert FirstGroupAt(headers, 0);
      assert InGroup(headers, headers[0].value);
    } else {
      var rest := headers[1..];
      GroupThreadMeans(rest);
      forall i | 0 <= i < |rest|
        ensures FirstGroupAt(rest, i) <==> FirstGroupAt(headers, i + 1)
      {
        assert forall j :: 0 <= j < |rest| ==> rest[j] == headers[j + 1];
        assert forall j :: 0 < j < |headers| ==> headers[j] == rest[j - 1];
      }
      forall g
        ensures InGroup(headers, g) <==> InGroup(rest, g)
      {
        if InGroup(rest, g) {
          var i :| 0 <= i < |rest| && FirstGroupAt(rest, i) && rest[i].value == g;
          assert FirstGroupAt(headers, i + 1);
        }
        if InGroup(headers, g) {
          var i :| 0 <= i < |headers| && FirstGroupAt(headers, i) && headers[i].value == g;
          assert FirstGroupAt(rest, i - 1);
        }
      }
    }
  }

  function FirstHit(ix: map<string, ID>, refs: seq<string>): Option<ID> {
    if refs == [] then None
    else if TrimAngles(refs[0]) in ix && ix[TrimAngles(refs[0])] != "" then Some(ix[TrimAngles(refs[0])])
    else FirstHit(ix, refs[1..])
  }

  /** The thread that an email without parent starts. */
  function OwnThread(m: Meta): ID {
    if |m.messageId| > 0 && m.messageId[0] != "" then "thr-" + m.messageId[0] else "thr-" + m.id
  }

  function ByReply(ix: map<string, ID>, m: Meta): ID {
    match FirstHit(ix, m.inReplyTo + m.references)
    case Some(t) => t
    case None => OwnThread(m)
  }

  /** `tid` is a possible result of `resolveThreadID`. */
  ghost predicate Resolves(metas: Metas, m: Meta, tid: ID) {
    match GroupThread(m.headers)
    case Some(t) => tid == t
    case None => exists ix :: IsIndex(ix, metas) && tid == ByReply(ix, m)
  }

  /** The reference at `i`, of In-Reply-To and then References, is the first that the index knows a
      thread for. */
  predicate FirstKnown(ix: map<string, ID>, refs: seq<string>, i: int) {
    && 0 <= i < |refs| && KnownRef(ix, refs[i])
    && forall j :: 0 <= j < i ==> !KnownRef(ix, refs[j])
  }

  predicate KnownRef(ix: map<string, ID>, ref: string) {
    TrimAngles(ref) in ix && ix[TrimAngles(ref)] != ""
  }

  /** The thread of an email that comes without one: of its group if it names one, else that of the
      first known reference, else one named after its Message-ID or, failing that, its id. */
  ghost predicate RightThread(metas: Metas, m: Meta, tid: ID) {
    if exists g :: InGroup(m.headers, g) then exists g :: InGroup(m.headers, g) && tid == "thr-group-" + g
    else exists ix :: TellsThreads(ix, metas) && FollowsReply(ix, m, tid)
  }

  /** `ix` gives every Message-ID in the store the thread of one email that carries it, and nothing else. */
  ghost predicate TellsThreads(ix: map<string, ID>, metas: Metas) {
    && (forall id, mid :: id in metas && mid in metas[id].messageId && TrimAngles(mid) != "" ==> TrimAngles(mid) in ix)
    && (forall k :: k in ix ==>
          k != "" &&
          exists id, mid :: id in metas && mid in metas[id].messageId && TrimAngles(mid) == k &&
                            ix[k] == metas[id].threadId)
  }

  lemma IndexMeans(ix: map<string, ID>, metas: Metas)
    ensures IsIndex(ix, metas) <==> TellsThreads(ix, metas)
  {
    hide TrimAngles;
    forall id, k | id in metas
      ensures Names(metas[id], k) <==> k != "" && exists mid :: mid in metas[id].messageId && TrimAngles(mid) == k
    {
      if Names(metas[id], k) {
        var i :| 0 <= i < |metas[id].messageId| && TrimAngles(metas[id].messageId[i]) == k;
        assert metas[id].messageId[i] in metas[id].messageId;
      }
    }
    hide Names;
    if IsIndex(ix, metas) {
      forall k | k in ix
        ensures k != ""
        ensures exists id, mid :: id in metas && mid in metas[id].messageId && TrimAngles(mid) == k &&
                                  ix[k] == metas[id].threadId
      {
        var id :| id in metas && Names(metas[id], k) && ix[k] == metas[id].threadId;
        var mid :| mid in metas[id].messageId && TrimAngles(mid) == k;
      }
    }
    if TellsThreads(ix, metas) {
      forall k | k in ix
        ensures exists id :: id in metas && Names(metas[id], k) && ix[k] == metas[id].threadId
      {
        var id, mid :| id in metas && mid in metas[id].messageId && TrimAngles(mid) == k && ix[k] == metas[id].threadId;
      }
    }
  }

  ghost predicate FollowsReply(ix: map<string, ID>, m: Meta, tid: ID) {
    var refs := m.inReplyTo + m.references;
    if exists i :: FirstKnown(ix, refs, i) then exists i :: FirstKnown(ix, refs, i) && tid == ix[TrimAngles(refs[i])]
    else tid == if m.messageId != [] && m.messageId[0] != "" then "thr-" + m.messageId[0] else "thr-" + m.id
  }

  lemma {:induction false} FirstHitMeans(ix: map<string, ID>, refs: seq<string>)
    ensures match FirstHit(ix, refs)
            case None => forall i :: !FirstKnown(ix, refs, i)
            case Some(t) => exists i :: FirstKnown(ix, refs, i) && t == ix[TrimAngles(refs[i])]
    ensures forall i :: FirstKnown(ix, refs, i) ==> FirstHit(ix, refs) == Some(ix[TrimAngles(refs[i])])
  {
    hide TrimAngles;
    if refs == [] {
    } else if KnownRef(ix, refs[0]) {
      assert FirstKnown(ix, refs, 0);
    } else {
      var rest := refs[1..];
      FirstHitMeans(ix, rest);
      forall i
        ensures FirstKnown(ix, rest, i) <==> FirstKnown(ix, refs, i + 1)
      {
        assert forall j :: 0 <= j < |rest| ==> rest[j] == refs[j + 1];
        assert forall j :: 0 < j < |refs| ==> refs[j] == rest[j - 1];
      }
      forall i
        ensures FirstKnown(ix, refs, i) <==> FirstKnown(ix, rest, i - 1)
      {
      }
    }
  }

  lemma ResolvesMeans(metas: Metas, m: Meta, tid: ID)
    ensures Resolves(metas, m, tid) <==> RightThread(metas, m, tid)
  {
    GroupThreadMeans(m.headers);
    hide GroupThread, FirstHit, InGroup, FirstKnown, IsIndex, TellsThreads, FollowsReply;
    forall ix
      ensures IsIndex(ix, metas) <==> TellsThreads(ix, metas)
      ensures tid == ByReply(ix, m) <==> FollowsReply(ix, m, tid)
    {
      IndexMeans(ix, metas);
      ReplyMeans(ix, m, tid);
    }
  }

  lemma ReplyMeans(ix: map<string, ID>, m: Meta, tid: ID)
    ensures tid == ByReply(ix, m) <==> FollowsReply(ix, m, tid)
  {
    hide FirstHit, FirstKnown;
    FirstHitMeans(ix, m.inReplyTo + m.references);
  }

  method ResolveThreadID(metas: Metas, m: Meta) returns (tid: ID)
    ensures Resolves(metas, m, tid) && RightThread(metas, m, tid)
  {
    hide RightThread;
    tid := FindThread(metas, m);
    ResolvesMeans(metas, m, tid);
  }

  method FindThread(metas: Metas, m: Meta) returns (tid: ID)
    ensures Resolves(metas, m, tid)
  {
    for i := 0 to |m.headers|
      invariant GroupThread(m.headers) == GroupThread(m.headers[i..])
    {
      assert m.headers[i..][1..] == m.headers[i + 1..];
      if EqualFold(m.headers[i].name, "Chat-Group-Id") && m.headers[i].value != "" {
        return "thr-group-" + m.headers[i].value;
      }
    }
    var byMsgID := BuildIndex(metas);
    var refs := m.inReplyTo + m.references;
    for i := 0 to |refs|
      invariant FirstHit(byMsgID, refs) == FirstHit(byMsgID, refs[i..])
    {
      assert refs[i..][1..] == refs[i + 1..];
      var k := TrimAngles(refs[i]);
      if k in byMsgID && byMsgID[k] != "" {
        assert ByReply(byMsgID, m) == byMsgID[k];
        return byMsgID[k];
      }
    }
    assert ByReply(byMsgID, m) == OwnThread(m);
    if |m.messageId| > 0 && m.messageId[0] != "" {
      return "thr-" + m.messageId[0];
    }
    return "thr-" + m.id;
  }

  method BuildIndex(metas: Metas) returns (ix: map<string, ID>)
    ensures IsIndex(ix, metas)
  {
    ix := map[];
    var rest := metas.Keys;
    while rest != {}
      invariant rest <= metas.Keys
      invariant forall id, k :: id in metas.Keys - rest && Names(metas[id], k) ==> k in ix
      invariant forall k :: k in ix ==> exists id :: id in metas && Names(metas[id], k) && ix[k] == metas[id].threadId
    {
      var id :| id in rest;
      var mids := metas[id].messageId;
      for i := 0 to |mids|
        invariant forall id', k :: id' in metas.Keys - rest && Names(metas[id'], k) ==> k in ix
        invariant forall j :: 0 <= j < i && TrimAngles(mids[j]) != "" ==> TrimAngles(mids[j]) in ix
        invariant forall k :: k in ix ==>
                  exists id' :: id' in metas && Names(metas[id'], k) && ix[k] == metas[id'].threadId
      {
        var k := TrimAngles(mids[i]);
        if k != "" {
          assert Names(metas[id], k);
          ix := ix[k := metas[id].threadId];
        }
      }
      rest := rest - {id};
    }
  }

  // ---------- every email gets a thread ----------

  lemma {:induction false} HitIsThread(ix: map<string, ID>, refs: seq<string>)
    ensures FirstHit(ix, refs).Some? ==> FirstHit(ix, refs).value != ""
  {
    if refs == [] {
    } else {
      HitIsThread(ix, refs[1..]);
    }
  }

  lemma ResolvedNonEmpty(metas: Metas, m: Meta, tid: ID)
    requires Resolves(metas, m, tid)
    ensures tid != ""
  {
    GroupNonEmpty(m.headers);
    if GroupThread(m.headers).None? {
      var ix :| IsIndex(ix, metas) && tid == ByReply(ix, m);
      HitIsThread(ix, m.inReplyTo + m.references);
    }
  }

  lemma {:induction false} GroupNonEmpty(headers: seq<Header>)
    ensures GroupThread(headers).Some? ==> GroupThread(headers).value != ""
  {
    if headers == [] {
    } else {
      GroupNonEmpty(headers[1..]);
    }
  }

  /** Only `Put` changes an email's thread. */
  lemma MetaAfter(s: Mail, op: Op)
    ensures forall id :: id in Do(s, op).msgs ==>
              if op.Put? && op.m.meta.id == id then Do(s, op).msgs[id] == op.m
              else id in s.msgs && Do(s, op).msgs[id].meta == s.msgs[id].meta
  {
  }

  /** `Put` of an email that came without a thread. */
  ghost predicate Delivered(s: Mail, op: Op) {
    op.Put? && Resolves(MetasOf(s.msgs), op.m.meta, op.m.meta.threadId)
  }

  predicate AllThreaded(s: Mail) {
    forall id :: id in s.msgs ==> s.msgs[id].meta.threadId != ""
  }

  /** Whatever the run does, no stored email is left without a thread. */
  lemma {:induction false} RunThreaded(s: Mail, ops: seq<Op>)
    requires AllThreaded(s)
    requires forall i :: 0 <= i < |ops| && ops[i].Put? ==>
               ops[i].m.meta.threadId != "" || Delivered(Exec(s, ops[..i]), ops[i])
    ensures AllThreaded(Exec(s, ops))
  {
    if ops == [] {
    } else {
      var init, op := ops[..|ops| - 1], ops[|ops| - 1];
      assert forall i :: 0 <= i < |init| ==> init[..i] == ops[..i];
      hide Resolves, Do;
      RunThreaded(s, init);
      MetaAfter(Exec(s, init), op);
      if op.Put? && Delivered(Exec(s, init), op) {
        ResolvedNonEmpty(MetasOf(Exec(s, init).msgs), op.m.meta, op.m.meta.threadId);
      }
    }
  }

  // ---------- groups ----------

  /** Every stored email of a group is in the thread named after the group. */
  ghost predicate GroupsTogether(s: Mail) {
    forall id, g :: id in s.msgs && InGroup(s.msgs[id].meta.headers, g) ==> s.msgs[id].meta.threadId == "thr-group-" + g
  }

  /** Two emails of groups share a thread exactly when they share the group, in every order of
      arrival and whatever else happens in between. */
  lemma {:induction false} GroupThreads(s: Mail, ops: seq<Op>)
    requires GroupsTogether(s)
    requires forall i :: 0 <= i < |ops| && ops[i].Put? ==> Delivered(Exec(s, ops[..i]), ops[i])
    ensures GroupsTogether(Exec(s, ops))
    ensures var msgs := Exec(s, ops).msgs;
            forall a, b, g, h | a in msgs && b in msgs &&
              InGroup(msgs[a].meta.headers, g) && InGroup(msgs[b].meta.headers, h) ::
              (msgs[a].meta.threadId == msgs[b].meta.threadId <==> g == h)
  {
    if ops == [] {
    } else {
      var init, op := ops[..|ops| - 1], ops[|ops| - 1];
      assert forall i :: 0 <= i < |init| ==> init[..i] == ops[..i];
      GroupThreads(s, init);
      assert ops[..|init|] == init;
      hide GroupThread, InGroup, Do;
      MetaAfter(Exec(s, init), op);
      if op.Put? {
        GroupThreadMeans(op.m.meta.headers);
      }
    }
    OneThreadEach(Exec(s, ops));
  }

  lemma OneThreadEach(s: Mail)
    requires GroupsTogether(s)
    ensures forall a, b, g, h | a in s.msgs && b in s.msgs &&
              InGroup(s.msgs[a].meta.headers, g) && InGroup(s.msgs[b].meta.headers, h) ::
              (s.msgs[a].meta.threadId == s.msgs[b].meta.threadId <==> g == h)
  {
    hide InGroup;
    forall a, b, g, h | a in s.msgs && b in s.msgs &&
      InGroup(s.msgs[a].meta.headers, g) && InGroup(s.msgs[b].meta.headers, h)
      ensures s.msgs[a].meta.threadId == s.msgs[b].meta.threadId <==> g == h
    {
      assert ("thr-group-" + g)[10..] == g && ("thr-group-" + h)[10..] == h;
      assert s.msgs[a].meta.threadId == "thr-group-" + g;
      assert s.msgs[b].meta.threadId == "thr-group-" + h;
    }
  }

  // ---------- reply trees ----------

  function Refs(m: Meta): seq<string> {
    m.inReplyTo + m.references
  }

  /** Some reference of `m` names the stored email `id`. */
  ghost predicate RefersTo(metas: Metas, m: Meta, id: ID) {
    id in metas && exists i :: 0 <= i < |Refs(m)| && Names(metas[id], TrimAngles(Refs(m)[i]))
  }

  lemma {:induction false} FirstHitUnique(ix: map<string, ID>, refs: seq<string>, t: ID)
    requires t != ""
    requires forall i :: 0 <= i < |refs| && TrimAngles(refs[i]) in ix ==> ix[TrimAngles(refs[i])] == t
    ensures FirstHit(ix, refs) ==
            if exists i :: 0 <= i < |refs| && TrimAngles(refs[i]) in ix then Some(t) else None
  {
    if refs == [] {
    } else {
      FirstHitUnique(ix, refs[1..], t);
      if exists i :: 0 <= i < |refs| && TrimAngles(refs[i]) in ix {
        var i :| 0 <= i < |refs| && TrimAngles(refs[i]) in ix;
        if i > 0 {
          assert refs[1..][i - 1] == refs[i];
        }
      }
    }
  }

  /** If all the stored emails that `m` refers to are in thread `t`, then `m` joins `t` if there
      is such an email and starts its own thread if there is none. */
  lemma JoinsThread(metas: Metas, m: Meta, tid: ID, t: ID)
    requires Resolves(metas, m, tid) && GroupThread(m.headers).None? && t != ""
    requires forall id :: RefersTo(metas, m, id) ==> metas[id].threadId == t
    ensures tid == if exists id :: RefersTo(metas, m, id) then t else OwnThread(m)
  {
    var ix :| IsIndex(ix, metas) && tid == ByReply(ix, m);
    var refs := Refs(m);
    forall i | 0 <= i < |refs| && TrimAngles(refs[i]) in ix
      ensures ix[TrimAngles(refs[i])] == t && exists id :: RefersTo(metas, m, id)
    {
      var id :| id in metas && Names(metas[id], TrimAngles(refs[i])) && ix[TrimAngles(refs[i])] == metas[id].threadId;
      assert RefersTo(metas, m, id);
    }
    FirstHitUnique(ix, refs, t);
    if exists id :: RefersTo(metas, m, id) {
      var id :| RefersTo(metas, m, id);
      var i :| 0 <= i < |refs| && Names(metas[id], TrimAngles(refs[i]));
      assert TrimAngles(refs[i]) in ix;
    }
  }

  /** How the emails of a tree may arrive: without thread and group, each email of the tree either
      is the root, which refers to nothing stored, or refers to a stored email of the tree and to
      no stored email outside it. */
  ghost predicate TreeDelivery(s: Mail, op: Op, tree: set<ID>, root: Meta) {
    op.Put? && op.m.meta.id in tree ==>
      && Delivered(s, op)
      && GroupThread(op.m.meta.headers).None?
      && (forall id :: RefersTo(MetasOf(s.msgs), op.m.meta, id) ==> id in tree)
      && ((exists id :: RefersTo(MetasOf(s.msgs), op.m.meta, id)) || OwnThread(op.m.meta) == OwnThread(root))
  }

  predicate TreeTogether(s: Mail, tree: set<ID>, root: Meta) {
    forall id :: id in s.msgs && id in tree ==> s.msgs[id].meta.threadId == OwnThread(root)
  }

  lemma TreeStep(s: Mail, op: Op, tree: set<ID>, root: Meta)
    requires TreeTogether(s, tree, root) && TreeDelivery(s, op, tree, root)
    ensures TreeTogether(Do(s, op), tree, root)
  {
    if op.Put? && op.m.meta.id in tree {
      var metas, m := MetasOf(s.msgs), op.m.meta;
      forall id | RefersTo(metas, m, id)
        ensures metas[id].threadId == OwnThread(root)
      {
      }
      JoinsThread(metas, m, m.threadId, OwnThread(root));
    }
    MetaAfter(s, op);
  }

  /** Every email of a reply tree carries the root's thread, whatever other mail is delivered,
      patched or deleted in between. */
  lemma {:induction false} TreeStaysTogether(s: Mail, ops: seq<Op>, tree: set<ID>, root: Meta)
    requires TreeTogether(s, tree, root)
    requires forall i :: 0 <= i < |ops| ==> TreeDelivery(Exec(s, ops[..i]), ops[i], tree, root)
    ensures TreeTogether(Exec(s, ops), tree, root)
  {
    if ops == [] {
    } else {
      var init, op := ops[..|ops| - 1], ops[|ops| - 1];
      assert forall i :: 0 <= i < |init| ==> init[..i] == ops[..i];
      TreeStaysTogether(s, init, tree, root);
      assert TreeDelivery(Exec(s, ops[..|init|]), ops[|init|], tree, root);
      TreeStep(Exec(s, init), op, tree, root);
    }
  }

  /** Parents first matters: a reply that arrives before its root starts a thread of its own, and the
      root does not join it, unless both derive the same thread id. */
  lemma ChildFirstStaysApart(s: Mail, child: Email, root: Email)
    requires Delivered(s, Put(child)) && Delivered(Do(s, Put(child)), Put(root))
    requires GroupThread(child.meta.headers).None? && GroupThread(root.meta.headers).None?
    requires forall id :: !RefersTo(MetasOf(s.msgs), child.meta, id)
    requires forall id :: !RefersTo(MetasOf(Do(s, Put(child)).msgs), root.meta, id)
    ensures child.meta.threadId == root.meta.threadId <==> OwnThread(child.meta) == OwnThread(root.meta)
  {
    JoinsThread(MetasOf(s.msgs), child.meta, child.meta.threadId, "thr");
    JoinsThread(MetasOf(Do(s, Put(child)).msgs), root.meta, root.meta.threadId, "thr");
  }

  // ---------- reply trees, in terms of the emails themselves ----------

  predicate Refers(m: Meta, p: Meta) {
    exists i :: 0 <= i < |Refs(m)| && Names(p, TrimAngles(Refs(m)[i]))
  }

  /** `m` was stored when the run began or is put by it. */
  ghost predicate Occurs(s: Mail, ops: seq<Op>, m: Meta) {
    (m.id in s.msgs && s.msgs[m.id].meta == m) || exists i :: 0 <= i < |ops| && PutsMeta(ops[i], m)
  }

  predicate PutsMeta(op: Op, m: Meta) {
    op.Put? && op.m.meta == m
  }

  /** An email keeps its Message-IDs, and no two emails share one. */
  ghost predicate UniqueMessageIds(s: Mail, ops: seq<Op>) {
    forall a, b :: Occurs(s, ops, a) && Occurs(s, ops, b) ==>
      if a.id == b.id then a.messageId == b.messageId else forall k :: !(Names(a, k) && Names(b, k))
  }

  /** Whatever an email of the tree refers to, by a reference that is not empty, is an email of the
      tree. */
  ghost predicate ReferencesInside(s: Mail, ops: seq<Op>, tree: set<ID>) {
    forall m, i | Occurs(s, ops, m) && m.id in tree && 0 <= i < |Refs(m)| && TrimAngles(Refs(m)[i]) != "" ::
      exists p :: Occurs(s, ops, p) && p.id in tree && Names(p, TrimAngles(Refs(m)[i]))
  }

  /** The mutation removes the email. */
  predicate Drops(op: Op, id: ID) {
    op.Purge? || (op.Delete? && op.id == id)
  }

  /** An earlier put of the run brought an email of the tree that `m` refers to, and it was not removed
      since. */
  ghost predicate ParentBefore(ops: seq<Op>, n: nat, tree: set<ID>, m: Meta)
    requires n <= |ops|
  {
    exists j :: 0 <= j < n && ops[j].Put? && ops[j].m.meta.id in tree && Refers(m, ops[j].m.meta) &&
      forall k :: j < k < n ==> !Drops(ops[k], ops[j].m.meta.id)
  }

  /** The tree as data: every put of a tree email is a delivery without a group, of the root or after
      one of its parents. */
  ghost predicate TreeData(s: Mail, ops: seq<Op>, tree: set<ID>, root: Meta) {
    && UniqueMessageIds(s, ops) && ReferencesInside(s, ops, tree)
    && forall n :: 0 <= n < |ops| && ops[n].Put? && ops[n].m.meta.id in tree ==>
         && Delivered(Exec(s, ops[..n]), ops[n])
         && GroupThread(ops[n].m.meta.headers).None?
         && (OwnThread(ops[n].m.meta) == OwnThread(root) || ParentBefore(ops, n, tree, ops[n].m.meta))
  }

  /** Every stored email occurs, but for the thread and flags it has. */
  lemma {:induction false} StoredOccurs(s: Mail, ops: seq<Op>, id: ID)
    requires forall i :: i in s.msgs ==> s.msgs[i].meta.id == i
    requires id in Exec(s, ops).msgs
    ensures Exec(s, ops).msgs[id].meta.id == id && Occurs(s, ops, Exec(s, ops).msgs[id].meta)
  {
    hide Do;
    if ops == [] {
    } else {
      var init, op := ops[..|ops| - 1], ops[|ops| - 1];
      MetaAfter(Exec(s, init), op);
      if op.Put? && op.m.meta.id == id {
        assert PutsMeta(ops[|ops| - 1], op.m.meta);
      } else {
        StoredOccurs(s, init, id);
        OccursLater(s, init, op, Exec(s, init).msgs[id].meta);
        assert init + [op] == ops;
      }
    }
  }

  lemma OccursLater(s: Mail, ops: seq<Op>, op: Op, m: Meta)
    requires Occurs(s, ops, m)
    ensures Occurs(s, ops + [op], m)
  {
    if exists i :: 0 <= i < |ops| && PutsMeta(ops[i], m) {
      var i :| 0 <= i < |ops| && PutsMeta(ops[i], m);
      assert PutsMeta((ops + [op])[i], m);
    }
  }

  lemma {:induction false} OccursInPrefix(s: Mail, ops: seq<Op>, n: nat, m: Meta)
    requires n <= |ops| && Occurs(s, ops[..n], m)
    ensures Occurs(s, ops, m)
    decreases |ops| - n
  {
    if n == |ops| {
      assert ops[..n] == ops;
    } else {
      OccursLater(s, ops[..n], ops[n], m);
      assert ops[..n] + [ops[n]] == ops[..n + 1];
      OccursInPrefix(s, ops, n + 1, m);
    }
  }

  /** An email that was put and not removed is still there. */
  lemma {:induction false} StillStored(s: Mail, ops: seq<Op>, j: nat, n: nat)
    requires j < n <= |ops| && ops[j].Put?
    requires forall k :: j < k < n ==> !Drops(ops[k], ops[j].m.meta.id)
    ensures ops[j].m.meta.id in Exec(s, ops[..n]).msgs
    decreases n
  {
    var op := ops[n - 1];
    assert ops[..n] == ops[..n - 1] + [op];
    ExecSnoc(s, ops[..n - 1], op);
    if n - 1 > j {
      StillStored(s, ops, j, n - 1);
      assert !Drops(op, ops[j].m.meta.id);
    }
  }

  /** No stored email outside the tree is referred to from inside. */
  lemma ReferredIsInside(s: Mail, ops: seq<Op>, n: nat, tree: set<ID>, m: Meta, id: ID)
    requires forall i :: i in s.msgs ==> s.msgs[i].meta.id == i
    requires n <= |ops| && UniqueMessageIds(s, ops) && ReferencesInside(s, ops, tree)
    requires Occurs(s, ops, m) && m.id in tree && RefersTo(MetasOf(Exec(s, ops[..n]).msgs), m, id)
    ensures id in tree
  {
    hide Exec, Occurs;
    var q := Exec(s, ops[..n]).msgs[id].meta;
    StoredOccurs(s, ops[..n], id);
    OccursInPrefix(s, ops, n, q);
    var i :| 0 <= i < |Refs(m)| && Names(q, TrimAngles(Refs(m)[i]));
    var k := TrimAngles(Refs(m)[i]);
    var p :| Occurs(s, ops, p) && p.id in tree && Names(p, k);
    assert p.id == q.id;
  }

  /** The parent that came before is a stored email that is referred to. */
  lemma ParentIsStored(s: Mail, ops: seq<Op>, n: nat, tree: set<ID>, m: Meta)
    requires forall i :: i in s.msgs ==> s.msgs[i].meta.id == i
    requires n <= |ops| && UniqueMessageIds(s, ops) && ParentBefore(ops, n, tree, m)
    ensures exists id :: RefersTo(MetasOf(Exec(s, ops[..n]).msgs), m, id)
  {
    hide Exec;
    var j :| 0 <= j < n && ops[j].Put? && ops[j].m.meta.id in tree && Refers(m, ops[j].m.meta) &&
             forall k :: j < k < n ==> !Drops(ops[k], ops[j].m.meta.id);
    var p := ops[j].m.meta;
    StillStored(s, ops, j, n);
    StoredOccurs(s, ops[..n], p.id);
    var q := Exec(s, ops[..n]).msgs[p.id].meta;
    OccursInPrefix(s, ops, n, q);
    assert PutsMeta(ops[j], p);
    assert q.messageId == p.messageId;
    var i :| 0 <= i < |Refs(m)| && Names(p, TrimAngles(Refs(m)[i]));
    assert Names(q, TrimAngles(Refs(m)[i]));
    assert RefersTo(MetasOf(Exec(s, ops[..n]).msgs), m, p.id);
  }

  /** With unique Message-IDs, references that stay inside and parents first, every email of the tree
      carries the root's thread, whatever else is delivered, patched or deleted. */
  lemma TreeFromData(s: Mail, ops: seq<Op>, tree: set<ID>, root: Meta)
    requires forall i :: i in s.msgs ==> s.msgs[i].meta.id == i
    requires TreeTogether(s, tree, root) && TreeData(s, ops, tree, root)
    ensures TreeTogether(Exec(s, ops), tree, root)
  {
    hide Exec, TreeTogether, Delivered, UniqueMessageIds, ReferencesInside, RefersTo;
    forall n | 0 <= n < |ops|
      ensures TreeDelivery(Exec(s, ops[..n]), ops[n], tree, root)
    {
      if ops[n].Put? && ops[n].m.meta.id in tree {
        var m := ops[n].m.meta;
        assert PutsMeta(ops[n], m);
        forall id | RefersTo(MetasOf(Exec(s, ops[..n]).msgs), m, id)
          ensures id in tree
        {
          ReferredIsInside(s, ops, n, tree, m, id);
        }
        if OwnThread(m) != OwnThread(root) {
          ParentIsStored(s, ops, n, tree, m);
        }
      }
    }
    TreeStaysTogether(s, ops, tree, root);
  }
}
