/** The wake-up protocol: mutations of the store, `Hub.Notify`, the event stream and clients that
    sync, as interleaved atomic steps.  Every locked section of the server is a step of its own: a
    client's first sync reads the list, the state and each email in separate sections, and a poll
    reads Email/changes in one section and each named email in another.  `Notify` holds the hub's lock
    while it visits the channels one by one; subscribing needs the same lock, receiving does not. */
module Wakeup {
  import opened Prelude
  import opened Delta
  import opened Journal
  import opened Mail

  type ClientId = nat

  /** The version a client polls from next, the ids it still has to fetch, the emails it has. */
  datatype Client = Client(version: int, todo: set<ID>, cache: map<ID, Email>)

  datatype System = System(
    server: Mail,
    drafts: map<ID, Email>,            // `pending`, where Email/get looks after the stored emails
    due: nat,                          // calls of Notify that still wait for the lock
    sending: Option<set<ClientId>>,    // the running Notify: channels it has not visited yet
    subs: set<ClientId>,               // subscribed event streams
    full: set<ClientId>,               // streams whose channel slot is taken
    woken: set<ClientId>,              // clients that got an event and have not polled since
    joining: map<ClientId, Client>,    // clients that have a list but no state yet; the version is
                                       // the one of the list, which they do not know
    clients: map<ClientId, Client>)

  /** `notified` tells whether whoever mutates calls Notify afterwards. */
  datatype Step =
    | Mutate(op: Op, notified: bool)
    | PutDraft(m: Email)
    | TakeDraft(id: ID)
    | NotifyBegin
    | NotifySend(c: ClientId)
    | NotifyEnd
    | ReadList(c: ClientId)
    | ReadState(c: ClientId)
    | ReadChanges(c: ClientId)
    | FetchOne(c: ClientId, id: ID)
    | Open(c: ClientId)
    | Subscribe(c: ClientId)
    | Receive(c: ClientId)
    | Unsubscribe(c: ClientId)

  predicate CanStep(s: System, step: Step) {
    match step
    case Mutate(op, _) => Enabled(s.server, op)
    case PutDraft(_) => true
    case TakeDraft(_) => true
    case NotifyBegin => s.due > 0 && s.sending.None?
    case NotifySend(c) => s.sending.Some? && c in s.sending.value
    case NotifyEnd => s.sending == Some({})
    case ReadList(c) => c !in s.clients && c !in s.joining
    case ReadState(c) => c in s.joining
    case ReadChanges(c) =>
      c in s.clients && s.clients[c].todo == {} && Covers(s.server.log, s.clients[c].version, s.server.state)
    case FetchOne(c, id) =>
      (c in s.clients && id in s.clients[c].todo) || (c in s.joining && id in s.joining[c].todo)
    case Open(c) => c !in s.subs
    case Subscribe(c) => c !in s.subs && s.sending.None?
    case Receive(c) => c in s.subs && c in s.full
    case Unsubscribe(c) => c in s.subs && s.sending.None?
  }

  /** `Open` is the event that the stream writes before it subscribes. */
  function Next(s: System, step: Step): System
    requires CanStep(s, step)
  {
    match step
    case Mutate(op, notified) => s.(server := Do(s.server, op), due := s.due + if notified then 1 else 0)
    case PutDraft(m) => s.(drafts := s.drafts[m.meta.id := m])
    case TakeDraft(id) => s.(drafts := s.drafts - {id})
    case NotifyBegin => s.(due := s.due - 1, sending := Some(s.subs))
    case NotifySend(c) => s.(full := s.full + {c}, sending := Some(s.sending.value - {c}))
    case NotifyEnd => s.(sending := None)
    case ReadList(c) => s.(joining := s.joining[c := Client(s.server.state, s.server.msgs.Keys, map[])])
    case ReadState(c) =>
      s.(joining := s.joining - {c}, clients := s.clients[c := s.joining[c].(version := s.server.state)])
    case ReadChanges(c) => s.(woken := s.woken - {c}, clients := s.clients[c := Polled(s.clients[c], s.server)])
    case FetchOne(c, id) =>
      if c in s.clients && id in s.clients[c].todo then
        s.(clients := s.clients[c := Fetched(s.clients[c], s.server.msgs, s.drafts, id)])
      else s.(joining := s.joining[c := Fetched(s.joining[c], s.server.msgs, s.drafts, id)])
    case Open(c) => s.(woken := s.woken + {c})
    case Subscribe(c) => s.(subs := s.subs + {c}, full := s.full - {c})
    case Receive(c) => s.(full := s.full - {c}, woken := s.woken + {c})
    case Unsubscribe(c) => s.(subs := s.subs - {c}, full := s.full - {c})
  }

  /** Email/changes: drop what was destroyed, and plan to fetch what was created or updated. */
  function Polled(cl: Client, server: Mail): Client
    requires Covers(server.log, cl.version, server.state)
  {
    var n := Fold(Window(server.log, cl.version, server.state));
    Client(server.state, n.created + n.updated, cl.cache - n.destroyed)
  }

  /** Email/get of one id. */
  function Fetched(cl: Client, msgs: map<ID, Email>, drafts: map<ID, Email>, id: ID): Client {
    Client(cl.version, cl.todo - {id},
           if id in msgs then cl.cache[id := msgs[id]]
           else if id in drafts then cl.cache[id := drafts[id]]
           else cl.cache - {id})
  }

  // ---------- what every run keeps: knowledge ----------

  predicate RightAt(cache: map<ID, Email>, msgs: map<ID, Email>, id: ID, exact: bool) {
    (id in cache <==> id in msgs) && (exact && id in msgs && id in cache ==> cache[id] == msgs[id])
  }

  /** The client is right about every id that it does not have to fetch and that the log has not
      mentioned since its version: about its presence and, if `exact`, about its content. */
  ghost predicate Knows(cl: Client, server: Mail, o: Origin, exact: bool)
    requires Inv(server, o)
  {
    && o.version <= cl.version <= server.state
    && forall id :: id !in cl.todo && !Mentioned(Window(server.log, cl.version, server.state), id) ==>
         RightAt(cl.cache, server.msgs, id, exact)
  }

  ghost predicate SystemInv(s: System, o: Origin, exact: bool) {
    && Inv(s.server, o)
    && s.full <= s.subs && (s.sending.Some? ==> s.sending.value <= s.subs)
    && s.joining.Keys !! s.clients.Keys
    && (forall c :: c in s.clients ==> Knows(s.clients[c], s.server, o, exact))
    && forall c :: c in s.joining ==> Knows(s.joining[c], s.server, o, exact)
  }

  lemma MutateKeepsKnowledge(cl: Client, server: Mail, op: Op, o: Origin, exact: bool)
    requires Inv(server, o) && Knows(cl, server, o, exact) && Enabled(server, op)
    requires exact ==> !Overwrites(server, op)
    ensures Inv(Do(server, op), o) && Knows(cl, Do(server, op), o, exact)
  {
    hide Do, LegalLog, Legal, LiveAfter, Window, RecordOf, MsgsAfter, Mentioned;
    DoKeeps(server, op, o);
    WindowAfter(server, op, cl.version, o);
    var t := Do(server, op);
    forall id | id !in cl.todo && !Mentioned(Window(t.log, cl.version, t.state), id)
      ensures RightAt(cl.cache, t.msgs, id, exact)
    {
      MentionedConcat(Window(server.log, cl.version, server.state), Logged(server, op), id);
      UnmentionedStep(server, op, id);
      PutIsMentioned(server, op, id);
    }
  }

  /** The answer is no draft in the place of a deleted email, or the next poll corrects it. */
  predicate SafeFetch(cl: Client, server: Mail, drafts: map<ID, Email>, id: ID) {
    id in server.msgs || id !in drafts ||
    (Covers(server.log, cl.version, server.state) && Mentioned(Window(server.log, cl.version, server.state), id))
  }

  /** Fetching one email, at whatever moment, keeps what the client knows exactly if it is safe. */
  lemma FetchExact(cl: Client, server: Mail, drafts: map<ID, Email>, o: Origin, exact: bool, id: ID)
    requires Inv(server, o) && Knows(cl, server, o, exact)
    ensures Knows(Fetched(cl, server.msgs, drafts, id), server, o, exact) <==> SafeFetch(cl, server, drafts, id)
  {
    hide LegalLog, LiveAfter, Window, Mentioned;
    var cl' := Fetched(cl, server.msgs, drafts, id);
    assert RightAt(cl'.cache, server.msgs, id, exact) <==> id in server.msgs || id !in drafts;
    assert forall i :: i != id ==>
             (RightAt(cl'.cache, server.msgs, i, exact) <==> RightAt(cl.cache, server.msgs, i, exact));
  }

  lemma ListIsKnown(server: Mail, o: Origin, exact: bool)
    requires Inv(server, o)
    ensures Knows(Client(server.state, server.msgs.Keys, map[]), server, o, exact)
  {
    hide LegalLog, LiveAfter;
  }

  /** What the log says about a client's window: a mentioned id is to be fetched if it is there and was
      destroyed if it is not. */
  lemma WindowMeaning(server: Mail, o: Origin, version: int, id: ID)
    requires Inv(server, o) && o.version <= version <= server.state
    ensures Covers(server.log, version, server.state)
    ensures var w := Window(server.log, version, server.state);
            var n := Fold(w);
            && (id in server.msgs ==> (Mentioned(w, id) <==> id in n.created + n.updated) && id !in n.destroyed)
            && (id !in server.msgs ==> (Mentioned(w, id) <==> id in n.destroyed) && id !in n.created + n.updated)
  {
    var j := JournalOf(server);
    var w, live := Window(server.log, version, server.state), IdsAt(j, o, version);
    ReplayBetween(j, o, version, server.state);
    IdsSplit(j, o, version, server.state);
    LegalBetween(j, o, version, server.state);
    hide LegalLog, Window, Legal, LiveAfter, Fold, Mentioned, IdsAt;
    LegalShape(live, w);
    if id in server.msgs {
      MentionedIsFetched(live, w, id);
    } else {
      MentionedIsDropped(live, w, id);
    }
  }

  /** A poll is never refused, and what the client knows afterwards it knows about the new version. */
  lemma PollKeepsKnowledge(cl: Client, server: Mail, o: Origin, exact: bool)
    requires Inv(server, o) && Knows(cl, server, o, exact) && cl.todo == {}
    ensures Covers(server.log, cl.version, server.state)
    ensures Knows(Polled(cl, server), server, o, exact)
  {
    hide LegalLog, LiveAfter, Legal, Fold, Mentioned;
    WindowMeaning(server, o, cl.version, "");
    var cl' := Polled(cl, server);
    forall id | id !in cl'.todo
      ensures RightAt(cl'.cache, server.msgs, id, exact)
    {
      WindowMeaning(server, o, cl.version, id);
    }
  }

  // ---------- the two reads of a first sync ----------

  /** Nothing that happened between reading the list and reading the state concerns an id that the
      client will not fetch any more: what came is in its cache, what went is not, and if `exact`, what
      changed is up to date. */
  predicate SafeState(s: System, c: ClientId, exact: bool)
    requires c in s.joining && Covers(s.server.log, s.joining[c].version, s.server.state)
  {
    var cl := s.joining[c];
    var n := Fold(Window(s.server.log, cl.version, s.server.state));
    && (forall id :: id in n.created + n.updated && id !in cl.todo ==>
          id in cl.cache && (exact && id in s.server.msgs ==> cl.cache[id] == s.server.msgs[id]))
    && (forall id :: id in n.destroyed && id !in cl.todo ==> id !in cl.cache)
  }

  /** Reading the state keeps what the client knows exactly if it is safe. */
  lemma StateExact(s: System, o: Origin, exact: bool, c: ClientId)
    requires Inv(s.server, o) && c in s.joining && Knows(s.joining[c], s.server, o, exact)
    ensures Covers(s.server.log, s.joining[c].version, s.server.state)
    ensures Knows(s.joining[c].(version := s.server.state), s.server, o, exact) <==> SafeState(s, c, exact)
  {
    hide LegalLog, LiveAfter, Legal, Fold, Mentioned;
    var cl := s.joining[c];
    WindowMeaning(s.server, o, cl.version, "");
    assert Window(s.server.log, s.server.state, s.server.state) == [];
    NothingIsMentioned();
    var n := Fold(Window(s.server.log, cl.version, s.server.state));
    forall id | id !in cl.todo
      ensures RightAt(cl.cache, s.server.msgs, id, exact) <==>
              && (id in n.created + n.updated ==>
                    id in cl.cache && (exact && id in s.server.msgs ==> cl.cache[id] == s.server.msgs[id]))
              && (id in n.destroyed ==> id !in cl.cache)
    {
      WindowMeaning(s.server, o, cl.version, id);
    }
  }

  /** For the state that Email/query returns with its list, before any email is fetched, this comes to:
      no email was added in between. */
  lemma QueryStateExact(s: System, o: Origin, exact: bool, c: ClientId)
    requires Inv(s.server, o) && c in s.joining && o.version <= s.joining[c].version <= s.server.state
    requires s.joining[c].cache == map[] && s.joining[c].todo == IdsAt(JournalOf(s.server), o, s.joining[c].version)
    ensures Covers(s.server.log, s.joining[c].version, s.server.state)
    ensures SafeState(s, c, exact) <==>
            Fold(Window(s.server.log, s.joining[c].version, s.server.state)).created <= s.joining[c].todo
  {
    hide LegalLog, LiveAfter, Legal, Fold, Window;
    DeltaToNow(JournalOf(s.server), o, s.joining[c].version);
    ReplayBetween(JournalOf(s.server), o, s.joining[c].version, s.server.state);
  }

  /** The step keeps knowledge: no mutation overwrites if `exact`, and states and emails are read
      safely. */
  predicate StepInforms(s: System, step: Step, exact: bool)
    requires CanStep(s, step)
  {
    match step
    case Mutate(op, _) => exact ==> !Overwrites(s.server, op)
    case ReadState(c) => Covers(s.server.log, s.joining[c].version, s.server.state) && SafeState(s, c, exact)
    case FetchOne(c, id) =>
      SafeFetch(if c in s.clients && id in s.clients[c].todo then s.clients[c] else s.joining[c],
                s.server, s.drafts, id)
    case _ => true
  }

  /** Every step keeps what the clients know; reading a state or an email does so exactly if
      it is safe. */
  lemma StepKeepsKnowledge(s: System, step: Step, o: Origin, exact: bool)
    requires SystemInv(s, o, exact) && CanStep(s, step)
    requires step.Mutate? ==> StepInforms(s, step, exact)
    ensures SystemInv(Next(s, step), o, exact) <==> StepInforms(s, step, exact)
  {
    hide Inv, Knows, Do, Polled, Fetched, Window, Fold, SafeState, SafeFetch;
    var t := Next(s, step);
    match step
    case Mutate(op, _) =>
      DoKeeps(s.server, op, o);
      forall c | c in s.clients
        ensures Inv(t.server, o) && Knows(s.clients[c], t.server, o, exact)
      {
        MutateKeepsKnowledge(s.clients[c], s.server, op, o, exact);
      }
      forall c | c in s.joining
        ensures Inv(t.server, o) && Knows(s.joining[c], t.server, o, exact)
      {
        MutateKeepsKnowledge(s.joining[c], s.server, op, o, exact);
      }
    case ReadList(c) => ListIsKnown(s.server, o, exact);
    case ReadState(c) =>
      StateExact(s, o, exact, c);
      assert t.clients[c] == s.joining[c].(version := s.server.state);
    case ReadChanges(c) => PollKeepsKnowledge(s.clients[c], s.server, o, exact);
    case FetchOne(c, id) =>
      if c in s.clients && id in s.clients[c].todo {
        FetchExact(s.clients[c], s.server, s.drafts, o, exact, id);
        assert t.clients[c] == Fetched(s.clients[c], s.server.msgs, s.drafts, id);
      } else {
        FetchExact(s.joining[c], s.server, s.drafts, o, exact, id);
        assert t.joining[c] == Fetched(s.joining[c], s.server.msgs, s.drafts, id);
      }
    case _ =>
  }

  // ---------- a first sync that was torn ----------

  /** The client lacks a stored email and nothing will make it fetch that. */
  predicate Missing(s: System, c: ClientId, id: ID) {
    && c in s.clients && id in s.server.msgs && id !in s.clients[c].cache && id !in s.clients[c].todo
    && Covers(s.server.log, s.clients[c].version, s.server.state)
    && !Mentioned(Window(s.server.log, s.clients[c].version, s.server.state), id)
  }

  /** A new email between the reading of the list and of the state is missing afterwards, whether the
      client has subscribed by then or not. */
  lemma TornFirstSync(s: System, c: ClientId, m: Email, notified: bool)
    requires c !in s.clients && c !in s.joining && m.meta.id !in s.server.msgs
    ensures var s1 := Next(s, ReadList(c));
            var s2 := Next(s1, Mutate(Put(m), notified));
            Missing(Next(s2, ReadState(c)), c, m.meta.id)
  {
    var s1 := Next(s, ReadList(c));
    var s2 := Next(s1, Mutate(Put(m), notified));
    assert s2.joining[c] == s1.joining[c];
    NothingIsMentioned();
    hide Mentioned;
    var s3 := Next(s2, ReadState(c));
    assert Window(s3.server.log, s3.server.state, s3.server.state) == [];
  }

  /** It stays missing, through every poll, until a mutation of that very email is logged. */
  lemma MissingStaysMissing(s: System, step: Step, o: Origin, c: ClientId, id: ID)
    requires Inv(s.server, o) && Missing(s, c, id) && c !in s.joining && CanStep(s, step)
    requires o.version <= s.clients[c].version <= s.server.state
    requires step.Mutate? ==> !Mentioned(Logged(s.server, step.op), id)
    ensures Missing(Next(s, step), c, id) && c !in Next(s, step).joining
    ensures o.version <= Next(s, step).clients[c].version <= Next(s, step).server.state
    ensures Inv(Next(s, step).server, o)
  {
    hide Inv, Fold, Window, Mentioned, Do, Logged, Enabled;
    match step
    case Mutate(op, _) => MutationLeavesMissing(s, op, o, c, id);
    case ReadChanges(d) =>
      if d == c {
        WindowMeaning(s.server, o, s.clients[c].version, id);
        EmptyWindow(s.server);
      }
    case _ =>
  }

  lemma EmptyWindow(server: Mail)
    ensures Covers(server.log, server.state, server.state)
    ensures forall id :: !Mentioned(Window(server.log, server.state, server.state), id)
  {
  }

  lemma MutationLeavesMissing(s: System, op: Op, o: Origin, c: ClientId, id: ID)
    requires Inv(s.server, o) && Missing(s, c, id) && Enabled(s.server, op)
    requires o.version <= s.clients[c].version <= s.server.state && !Mentioned(Logged(s.server, op), id)
    ensures var t, v := Do(s.server, op), s.clients[c].version;
            && id in t.msgs && Covers(t.log, v, t.state) && !Mentioned(Window(t.log, v, t.state), id)
            && Inv(t, o) && s.server.state <= t.state
  {
    hide LegalLog, Legal, LiveAfter, Window, Fold, Mentioned, Do, RecordOf, MsgsAfter;
    WindowAfter(s.server, op, s.clients[c].version, o);
    DoKeeps(s.server, op, o);
    MentionedConcat(Window(s.server.log, s.clients[c].version, s.server.state), Logged(s.server, op), id);
    UnmentionedStep(s.server, op, id);
  }

  // ---------- what every run keeps: no wake-up is lost ----------

  /** Something will still make the client poll. */
  predicate Coming(s: System, c: ClientId) {
    s.due > 0 || (s.sending.Some? && c in s.sending.value) || c in s.full || c in s.woken
  }

  /** A subscribed client that is behind has a wake-up coming. */
  predicate NoneLost(s: System) {
    forall c :: c in s.subs && c in s.clients && s.clients[c].version != s.server.state ==> Coming(s, c)
  }

  /** Subscribing is safe for a client that has not synced yet, is up to date, or still has a reason to
      poll.  A mutation is safe if a Notify follows, if it logs nothing, or if every subscribed client
      will poll anyway. */
  predicate Safe(s: System, step: Step) {
    match step
    case Subscribe(c) => c in s.clients ==> s.clients[c].version == s.server.state || s.due > 0 || c in s.woken
    case Mutate(op, notified) =>
      notified || RecordOf(s.server, op).None? || forall c :: c in s.subs && c in s.clients ==> Coming(s, c)
    case _ => true
  }

  predicate Plain(s: System) {
    && s.full <= s.subs && (s.sending.Some? ==> s.sending.value <= s.subs)
    && forall c :: c in s.clients ==> s.clients[c].version <= s.server.state
  }

  lemma StepKeepsPlain(s: System, step: Step)
    requires Plain(s) && CanStep(s, step)
    ensures Plain(Next(s, step))
  {
    hide MsgsAfter, RecordOf;
  }

  /** A step loses no wake-up exactly if it is safe. */
  lemma StepKeepsWakeups(s: System, step: Step)
    requires NoneLost(s) && Plain(s) && CanStep(s, step)
    ensures NoneLost(Next(s, step)) <==> Safe(s, step)
  {
    var t := Next(s, step);
    if step.Subscribe? && !Safe(s, step) {
      assert step.c in t.subs && !Coming(t, step.c);
    }
    if step.Mutate? && !Safe(s, step) {
      var c :| c in s.subs && c in s.clients && !Coming(s, c);
      assert c in t.subs && t.clients[c].version < t.server.state && !Coming(t, c);
    }
  }

  /** The client is behind and nothing will tell it. */
  predicate Lost(s: System, c: ClientId) {
    c in s.subs && c in s.clients && s.clients[c].version < s.server.state && !Coming(s, c)
  }

  /** Neither a notified mutation, nor a poll or disconnection of the client. */
  predicate NoHelp(step: Step, c: ClientId) {
    !(step.Mutate? && step.notified) && step != ReadChanges(c) && step != Unsubscribe(c)
  }

  /** A lost wake-up stays lost until the next notified mutation, unless the client polls or reconnects
      on its own. */
  lemma LostStaysLost(s: System, step: Step, c: ClientId)
    requires Lost(s, c) && CanStep(s, step) && c !in s.joining
    requires NoHelp(step, c)
    ensures Lost(Next(s, step), c) && c !in Next(s, step).joining
  {
  }

  // ---------- runs ----------

  predicate Executable(s: System, steps: seq<Step>)
    decreases |steps|
  {
    steps == [] ||
    (CanStep(s, steps[0]) && Executable(Next(s, steps[0]), steps[1..]))
  }

  function Run(s: System, steps: seq<Step>): System
    requires Executable(s, steps)
    decreases |steps|
  {
    if steps == [] then s else Run(Next(s, steps[0]), steps[1..])
  }

  /** No mutation of the run mentions `id` in the log. */
  predicate LeavesAlone(s: System, steps: seq<Step>, id: ID)
    requires Executable(s, steps)
    decreases |steps|
  {
    steps == [] ||
    (&& (steps[0].Mutate? ==> !Mentioned(Logged(s.server, steps[0].op), id))
     && LeavesAlone(Next(s, steps[0]), steps[1..], id))
  }

  /** An email missed by a torn first sync is missing after every run that does not mention it, however
      often the client polls. */
  lemma {:induction false} MissingForGood(s: System, steps: seq<Step>, o: Origin, c: ClientId, id: ID)
    requires Inv(s.server, o) && Missing(s, c, id) && c !in s.joining
    requires o.version <= s.clients[c].version <= s.server.state
    requires Executable(s, steps) && LeavesAlone(s, steps, id)
    ensures Missing(Run(s, steps), c, id)
    decreases |steps|
  {
    hide Inv, CanStep, Next, Window, Mentioned, Logged;
    if steps == [] {
    } else {
      MissingStaysMissing(s, steps[0], o, c, id);
      MissingForGood(Next(s, steps[0]), steps[1..], o, c, id);
    }
  }

  /** A lost wake-up is lost after every run without a notified mutation in which the client neither
      polls nor disconnects. */
  lemma {:induction false} LostForGood(s: System, steps: seq<Step>, c: ClientId)
    requires Lost(s, c) && c !in s.joining && Executable(s, steps)
    requires forall i :: 0 <= i < |steps| ==> NoHelp(steps[i], c)
    ensures Lost(Run(s, steps), c)
    decreases |steps|
  {
    hide CanStep, Next, Lost, NoHelp;
    if steps == [] {
    } else {
      LostStaysLost(s, steps[0], c);
      assert forall i :: 0 <= i < |steps| - 1 ==> steps[1..][i] == steps[i + 1];
      LostForGood(Next(s, steps[0]), steps[1..], c);
    }
  }

  predicate NoneLostThroughout(s: System, steps: seq<Step>)
    requires Executable(s, steps)
    decreases |steps|
  {
    NoneLost(s) && (steps == [] || NoneLostThroughout(Next(s, steps[0]), steps[1..]))
  }

  predicate SafeThroughout(s: System, steps: seq<Step>)
    requires Executable(s, steps)
    decreases |steps|
  {
    steps == [] || (Safe(s, steps[0]) && SafeThroughout(Next(s, steps[0]), steps[1..]))
  }

  /** At no point of a run is a wake-up lost exactly if every step of it is safe. */
  lemma {:induction false} RunKeepsWakeups(s: System, steps: seq<Step>)
    requires Executable(s, steps) && Plain(s) && NoneLost(s)
    ensures NoneLostThroughout(s, steps) <==> SafeThroughout(s, steps)
    decreases |steps|
  {
    hide CanStep, Next, NoneLost, Safe, Plain;
    if steps == [] {
    } else {
      StepKeepsPlain(s, steps[0]);
      StepKeepsWakeups(s, steps[0]);
      if Safe(s, steps[0]) {
        RunKeepsWakeups(Next(s, steps[0]), steps[1..]);
      } else {
        NotThroughout(Next(s, steps[0]), steps[1..]);
      }
    }
  }

  lemma NotThroughout(s: System, steps: seq<Step>)
    requires Executable(s, steps)
    ensures NoneLostThroughout(s, steps) ==> NoneLost(s)
  {
  }

  /** Every step is safe and informs the clients rightly. */
  predicate WellBehaved(s: System, steps: seq<Step>, exact: bool)
    requires Executable(s, steps)
    decreases |steps|
  {
    steps == [] ||
    (&& Safe(s, steps[0]) && StepInforms(s, steps[0], exact)
     && WellBehaved(Next(s, steps[0]), steps[1..], exact))
  }

  lemma {:induction false} RunKeepsAll(s: System, steps: seq<Step>, o: Origin, exact: bool)
    requires SystemInv(s, o, exact) && NoneLost(s) && Executable(s, steps) && WellBehaved(s, steps, exact)
    ensures SystemInv(Run(s, steps), o, exact) && NoneLost(Run(s, steps))
    decreases |steps|
  {
    hide SystemInv, NoneLost, CanStep, Next, Safe, StepInforms;
    if steps == [] {
    } else {
      SystemIsPlain(s, o, exact);
      StepKeepsKnowledge(s, steps[0], o, exact);
      StepKeepsWakeups(s, steps[0]);
      RunKeepsAll(Next(s, steps[0]), steps[1..], o, exact);
    }
  }

  lemma SystemIsPlain(s: System, o: Origin, exact: bool)
    requires SystemInv(s, o, exact)
    ensures Plain(s) && Inv(s.server, o)
  {
    hide Inv, Mentioned, Window;
  }

  /** Nothing is under way: no Notify, no full slot, no client that was woken or has to fetch. */
  predicate Quiescent(s: System) {
    && s.due == 0 && s.sending.None? && s.full == {} && s.woken * s.clients.Keys == {}
    && forall c :: c in s.clients ==> s.clients[c].todo == {}
  }

  /** The client has seen the present version and has the server's ids, and its emails if none was
      overwritten. */
  ghost predicate UpToDate(s: System, c: ClientId, exact: bool) {
    && c in s.clients && s.clients[c].version == s.server.state
    && s.clients[c].cache.Keys == s.server.msgs.Keys
    && (exact ==> s.clients[c].cache == s.server.msgs)
  }

  lemma QuiescentIsUpToDate(s: System, o: Origin, exact: bool, c: ClientId)
    requires SystemInv(s, o, exact) && NoneLost(s) && Quiescent(s) && c in s.subs && c in s.clients
    ensures UpToDate(s, c, exact)
  {
    hide Inv, Knows;
    assert c in s.woken ==> c in s.woken * s.clients.Keys;
    assert !Coming(s, c);
    KnowsNow(s.clients[c], s.server, o, exact);
  }

  lemma KnowsNow(cl: Client, server: Mail, o: Origin, exact: bool)
    requires Inv(server, o) && Knows(cl, server, o, exact) && cl.version == server.state && cl.todo == {}
    ensures cl.cache.Keys == server.msgs.Keys && (exact ==> cl.cache == server.msgs)
  {
    hide Inv;
    assert Window(server.log, server.state, server.state) == [];
    NothingIsMentioned();
    hide Mentioned;
    forall id
      ensures id in cl.cache <==> id in server.msgs
      ensures exact && id in cl.cache ==> cl.cache[id] == server.msgs[id]
    {
      assert RightAt(cl.cache, server.msgs, id, exact);
    }
  }

  /** Convergence: whatever the interleaving of a well-behaved run, once nothing is in flight every
      subscribed client that has synced is up to date. */
  lemma Converged(s: System, steps: seq<Step>, o: Origin, exact: bool, c: ClientId)
    requires SystemInv(s, o, exact) && NoneLost(s) && Executable(s, steps) && WellBehaved(s, steps, exact)
    requires Quiescent(Run(s, steps)) && c in Run(s, steps).subs && c in Run(s, steps).clients
    ensures UpToDate(Run(s, steps), c, exact)
  {
    hide SystemInv, NoneLost, Quiescent, UpToDate;
    RunKeepsAll(s, steps, o, exact);
    QuiescentIsUpToDate(Run(s, steps), o, exact, c);
  }

  // ---------- progress ----------

  /** A step that answers what is in flight, as opposed to new mail and clients coming and going. */
  predicate Reaction(s: System, step: Step) {
    match step
    case NotifyBegin => true
    case NotifySend(_) => true
    case NotifyEnd => true
    case Receive(_) => true
    case ReadChanges(c) => c in s.woken
    case FetchOne(c, id) => c in s.clients && id in s.clients[c].todo
    case _ => false
  }

  function Calls(s: System): nat {
    2 * s.due + if s.sending.Some? then 1 else 0
  }

  function Unvisited(s: System): nat {
    if s.sending.Some? then |s.sending.value| else 0
  }

  function Undelivered(s: System): nat {
    2 * |s.full| + |s.woken|
  }

  function Outstanding(s: System): set<(ClientId, ID)> {
    set c, id | c in s.clients && id in s.clients[c].todo :: (c, id)
  }

  predicate Lower(t: System, s: System) {
    || Calls(t) < Calls(s)
    || (Calls(t) == Calls(s) && Unvisited(t) < Unvisited(s))
    || (Calls(t) == Calls(s) && Unvisited(t) == Unvisited(s) && Undelivered(t) < Undelivered(s))
    || (Calls(t) == Calls(s) && Unvisited(t) == Unvisited(s) && Undelivered(t) == Undelivered(s) &&
        |Outstanding(t)| < |Outstanding(s)|)
  }

  /** Reactions cannot go on for ever. */
  lemma ReactionDecreases(s: System, step: Step)
    requires CanStep(s, step) && Reaction(s, step)
    ensures Lower(Next(s, step), s)
  {
    if step.FetchOne? {
      FetchLeavesLess(s, step);
    }
    hide Outstanding, Polled, Fetched, Covers;
    if step.Receive? && step.c in s.woken {
      assert s.woken + {step.c} == s.woken;
    }
  }

  lemma FetchLeavesLess(s: System, step: Step)
    requires CanStep(s, step) && Reaction(s, step) && step.FetchOne?
    ensures |Outstanding(Next(s, step))| < |Outstanding(s)|
  {
    var pair := (step.c, step.id);
    assert pair in Outstanding(s);
    assert Outstanding(Next(s, step)) == Outstanding(s) - {pair};
  }

  /** As long as something is in flight, some reaction is possible. */
  lemma ReactionExists(s: System, o: Origin, exact: bool) returns (step: Step)
    requires SystemInv(s, o, exact) && !Quiescent(s)
    ensures CanStep(s, step) && Reaction(s, step)
  {
    hide Inv, Knows;
    if s.sending.Some? {
      if s.sending.value == {} {
        step := NotifyEnd;
      } else {
        var c :| c in s.sending.value;
        step := NotifySend(c);
      }
    } else if s.due > 0 {
      step := NotifyBegin;
    } else if s.full != {} {
      var c :| c in s.full;
      step := Receive(c);
    } else if c :| c in s.clients && s.clients[c].todo != {} {
      var id :| id in s.clients[c].todo;
      step := FetchOne(c, id);
    } else {
      var c :| c in s.woken * s.clients.Keys;
      PollKeepsKnowledge(s.clients[c], s.server, o, exact);
      step := ReadChanges(c);
    }
  }

  /** No draft has the id of a deleted email that some client is about to fetch. */
  predicate DraftsApart(s: System) {
    forall c, id :: c in s.clients && id in s.clients[c].todo ==> id in s.server.msgs || id !in s.drafts
  }

  /** A run that consists of reactions only. */
  predicate AllReactions(s: System, steps: seq<Step>)
    requires Executable(s, steps)
    decreases |steps|
  {
    steps == [] || (Reaction(s, steps[0]) && AllReactions(Next(s, steps[0]), steps[1..]))
  }

  /** Whatever reactions happen from such a state, in whatever order, the invariants hold and the
      server and the subscriptions are untouched. */
  lemma {:induction false} ReactionsKeepAll(s: System, steps: seq<Step>, o: Origin, exact: bool)
    requires SystemInv(s, o, exact) && NoneLost(s) && DraftsApart(s)
    requires Executable(s, steps) && AllReactions(s, steps)
    ensures var t := Run(s, steps);
            && SystemInv(t, o, exact) && NoneLost(t) && DraftsApart(t)
            && t.server == s.server && t.subs == s.subs && t.clients.Keys == s.clients.Keys
    decreases |steps|
  {
    hide SystemInv, NoneLost, DraftsApart, CanStep, Next, Safe, StepInforms, Reaction;
    if steps == [] {
    } else {
      ReactionIsHarmless(s, steps[0], o, exact);
      SystemIsPlain(s, o, exact);
      StepKeepsKnowledge(s, steps[0], o, exact);
      StepKeepsWakeups(s, steps[0]);
      ReactionsKeepAll(Next(s, steps[0]), steps[1..], o, exact);
    }
  }

  /** Where no reaction is left after any of them, every subscribed client that has synced is up to
      date. */
  lemma NoReactionLeft(s: System, steps: seq<Step>, o: Origin, exact: bool, c: ClientId)
    requires SystemInv(s, o, exact) && NoneLost(s) && DraftsApart(s)
    requires Executable(s, steps) && AllReactions(s, steps)
    requires forall step :: CanStep(Run(s, steps), step) ==> !Reaction(Run(s, steps), step)
    requires c in s.subs && c in s.clients
    ensures UpToDate(Run(s, steps), c, exact)
  {
    hide SystemInv, NoneLost, DraftsApart, UpToDate, Quiescent, CanStep, Reaction;
    var t := Run(s, steps);
    ReactionsKeepAll(s, steps, o, exact);
    if !Quiescent(t) {
      var step := ReactionExists(t, o, exact);
      assert false;
    }
    QuiescentIsUpToDate(t, o, exact, c);
  }

  /** The i-th step of an endless sequence is a reaction. */
  predicate ReactsAt(states: nat -> System, steps: nat -> Step, i: nat) {
    CanStep(states(i), steps(i)) && Reaction(states(i), steps(i)) && states(i + 1) == Next(states(i), steps(i))
  }

  /** No sequence of reactions is endless: sooner or later a step is none. */
  lemma {:induction false} ReactionsEnd(states: nat -> System, steps: nat -> Step, from: nat) returns (i: nat)
    ensures i >= from && !ReactsAt(states, steps, i)
    decreases Calls(states(from)), Unvisited(states(from)), Undelivered(states(from)), |Outstanding(states(from))|
  {
    hide CanStep, Next, Reaction, Calls, Unvisited, Undelivered, Outstanding;
    if ReactsAt(states, steps, from) {
      ReactionDecreases(states(from), steps(from));
      i := ReactionsEnd(states, steps, from + 1);
    } else {
      i := from;
    }
  }

  /** From every such state that a well-behaved run reaches, some reactions alone lead to a state where
      nothing is in flight, the server is untouched and every subscribed client that has synced is up
      to date. */
  lemma {:induction false} Drains(s: System, o: Origin, exact: bool) returns (steps: seq<Step>)
    requires SystemInv(s, o, exact) && NoneLost(s) && DraftsApart(s)
    ensures Executable(s, steps) && AllReactions(s, steps) && Quiescent(Run(s, steps))
    ensures Run(s, steps).server == s.server && Run(s, steps).subs == s.subs
    ensures Run(s, steps).clients.Keys == s.clients.Keys
    ensures forall c :: c in s.subs && c in s.clients ==> UpToDate(Run(s, steps), c, exact)
    decreases Calls(s), Unvisited(s), Undelivered(s), |Outstanding(s)|
  {
    hide SystemInv, NoneLost, DraftsApart, UpToDate, Quiescent, CanStep;
    hide Next, Safe, StepInforms, Calls, Unvisited, Undelivered, Outstanding;
    if Quiescent(s) {
      steps := [];
      forall c | c in s.subs && c in s.clients
        ensures UpToDate(s, c, exact)
      {
        QuiescentIsUpToDate(s, o, exact, c);
      }
    } else {
      var step := ReactionExists(s, o, exact);
      ReactionDecreases(s, step);
      ReactionIsHarmless(s, step, o, exact);
      SystemIsPlain(s, o, exact);
      StepKeepsKnowledge(s, step, o, exact);
      StepKeepsWakeups(s, step);
      var rest := Drains(Next(s, step), o, exact);
      steps := [step] + rest;
      assert steps[1..] == rest;
    }
  }

  lemma ReactionIsHarmless(s: System, step: Step, o: Origin, exact: bool)
    requires SystemInv(s, o, exact) && DraftsApart(s) && CanStep(s, step) && Reaction(s, step)
    ensures Safe(s, step) && StepInforms(s, step, exact) && DraftsApart(Next(s, step))
    ensures Next(s, step).server == s.server && Next(s, step).subs == s.subs
    ensures Next(s, step).clients.Keys == s.clients.Keys
  {
    hide Inv, RightAt, Window, Fold, Mentioned;
    if step.ReadChanges? {
      var c := step.c;
      forall id | id in Next(s, step).clients[c].todo
        ensures id in s.server.msgs
      {
        WindowMeaning(s.server, o, s.clients[c].version, id);
      }
    }
  }

  // ---------- the order of the first event and the subscription ----------

  /** A system with one client, which has synced and is not subscribed. */
  function OneClient(server: Mail): System {
    System(server, map[], 0, None, {}, {}, {}, map[], map[0 := Client(server.state, {}, server.msgs)])
  }

  lemma OneClientIsFine(server: Mail, o: Origin, exact: bool)
    requires Inv(server, o)
    ensures SystemInv(OneClient(server), o, exact) && NoneLost(OneClient(server))
  {
    hide LegalLog, LiveAfter, Mentioned;
  }

  /** A client that polls on the first event is where it was. */
  lemma FirstPoll(server: Mail)
    ensures var steps := [Open(0), ReadChanges(0)];
            Executable(OneClient(server), steps) && Run(OneClient(server), steps) == OneClient(server)
  {
    var s0 := OneClient(server);
    hide Executable, Run;
    FoldNone();
    var s1 := Next(s0, Open(0));
    assert Window(server.log, server.state, server.state) == [];
    var s2 := Next(s1, ReadChanges(0));
    assert s2.clients[0].todo == {} && s2.clients[0].cache == server.msgs;
    RunOne(s1, ReadChanges(0), []);
    RunOne(s0, Open(0), [ReadChanges(0)] + []);
    assert [Open(0)] + ([ReadChanges(0)] + []) == [Open(0), ReadChanges(0)];
  }

  /** New mail and its whole Notify, then the subscription of a client that has already polled. */
  lemma LateSubscription(server: Mail, m: Email)
    requires m.meta.id !in server.msgs
    ensures var steps := [Mutate(Put(m), true), NotifyBegin, NotifyEnd, Subscribe(0)];
            var s := OneClient(server);
            Executable(s, steps) && Quiescent(Run(s, steps)) && Lost(Run(s, steps), 0)
  {
    hide Executable, Run, Do;
    InsertBumps(server, m);
    var s0 := OneClient(server);
    var s1 := Next(s0, Mutate(Put(m), true));
    var s2 := Next(s1, NotifyBegin);
    var s3 := Next(s2, NotifyEnd);
    var s4 := Next(s3, Subscribe(0));
    var r3 := [Subscribe(0)] + [];
    RunOne(s3, Subscribe(0), []);
    var r2 := [NotifyEnd] + r3;
    RunOne(s2, NotifyEnd, r3);
    var r1 := [NotifyBegin] + r2;
    RunOne(s1, NotifyBegin, r2);
    RunOne(s0, Mutate(Put(m), true), r1);
    assert [Mutate(Put(m), true)] + r1 == [Mutate(Put(m), true), NotifyBegin, NotifyEnd, Subscribe(0)];
  }

  /** The stream writes its first event before it subscribes.  Start with a client that has synced.  If
      it polls on that event and a mutation and its Notify fall in between, the wake-up is lost. */
  lemma FirstEventRace(server: Mail, m: Email, o: Origin, exact: bool)
    requires Inv(server, o) && m.meta.id !in server.msgs
    ensures var steps := [Open(0), ReadChanges(0)] + [Mutate(Put(m), true), NotifyBegin, NotifyEnd, Subscribe(0)];
            var s := OneClient(server);
            && SystemInv(s, o, exact) && NoneLost(s)
            && Executable(s, steps) && Quiescent(Run(s, steps)) && Lost(Run(s, steps), 0)
  {
    OneClientIsFine(server, o, exact);
    hide Executable, Run, Quiescent, Lost, OneClient;
    FirstPoll(server);
    LateSubscription(server, m);
    RunConcat(OneClient(server), [Open(0), ReadChanges(0)],
              [Mutate(Put(m), true), NotifyBegin, NotifyEnd, Subscribe(0)]);
  }

  lemma {:induction false} RunConcat(s: System, a: seq<Step>, b: seq<Step>)
    requires Executable(s, a) && Executable(Run(s, a), b)
    ensures Executable(s, a + b) && Run(s, a + b) == Run(Run(s, a), b)
    decreases |a|
  {
    hide CanStep, Next;
    if a == [] {
      assert a + b == b;
    } else {
      assert (a + b)[0] == a[0] && (a + b)[1..] == a[1..] + b;
      RunConcat(Next(s, a[0]), a[1..], b);
    }
  }

  lemma InsertBumps(server: Mail, m: Email)
    requires m.meta.id !in server.msgs
    ensures Do(server, Put(m)).state == server.state + 1
  {
  }

  lemma RunOne(s: System, step: Step, rest: seq<Step>)
    requires CanStep(s, step) && Executable(Next(s, step), rest)
    ensures Executable(s, [step] + rest) && Run(s, [step] + rest) == Run(Next(s, step), rest)
    ensures rest == [] ==> Run(Next(s, step), rest) == Next(s, step)
  {
    assert ([step] + rest)[1..] == rest;
  }

  // ---------- the other order ----------

  /** The stream as it would be if it subscribed before it wrote its first event; `greeting` are the
      streams whose first event is still to be written. */
  datatype Variant = Variant(sys: System, greeting: set<ClientId>)

  datatype VariantStep = Other(step: Step) | SubscribeFirst(c: ClientId) | Greet(c: ClientId)

  predicate CanVary(v: Variant, step: VariantStep) {
    match step
    case Other(st) => CanStep(v.sys, st) && !st.Open? && !st.Subscribe?
    case SubscribeFirst(c) => CanStep(v.sys, Subscribe(c))
    case Greet(c) => c in v.greeting
  }

  function Vary(v: Variant, step: VariantStep): Variant
    requires CanVary(v, step)
  {
    match step
    case Other(st) => v.(sys := Next(v.sys, st))
    case SubscribeFirst(c) => Variant(Next(v.sys, Subscribe(c)), v.greeting + {c})
    case Greet(c) => Variant(v.sys.(woken := v.sys.woken + {c}), v.greeting - {c})
  }

  predicate VariantExecutable(v: Variant, steps: seq<VariantStep>)
    decreases |steps|
  {
    steps == [] || (CanVary(v, steps[0]) && VariantExecutable(Vary(v, steps[0]), steps[1..]))
  }

  function VariantRun(v: Variant, steps: seq<VariantStep>): Variant
    requires VariantExecutable(v, steps)
    decreases |steps|
  {
    if steps == [] then v else VariantRun(Vary(v, steps[0]), steps[1..])
  }

  ghost predicate NoneForgotten(v: Variant) {
    forall c :: Forgotten(v.sys, c) ==> c in v.greeting
  }

  predicate Forgotten(s: System, c: ClientId) {
    c in s.subs && c in s.clients && s.clients[c].version != s.server.state && !Coming(s, c)
  }

  /** Only a subscription and a mutation without Notify let a client be forgotten. */
  lemma ForgottenBefore(s: System, step: Step, c: ClientId)
    requires CanStep(s, step) && Plain(s) && !step.Subscribe? && (step.Mutate? ==> step.notified)
    ensures Forgotten(Next(s, step), c) ==> Forgotten(s, c)
  {
    hide Do, Enabled, Window, Fold;
  }

  lemma VariantStepKeeps(v: Variant, step: VariantStep)
    requires NoneForgotten(v) && Plain(v.sys) && CanVary(v, step)
    requires step.Other? && step.step.Mutate? ==> step.step.notified
    ensures NoneForgotten(Vary(v, step)) && Plain(Vary(v, step).sys)
  {
    if step.Other? {
      StepKeepsPlain(v.sys, step.step);
      forall c
        ensures Forgotten(Next(v.sys, step.step), c) ==> Forgotten(v.sys, c)
      {
        ForgottenBefore(v.sys, step.step, c);
      }
      hide CanStep, Next, Coming, Plain;
      assert forall c :: Forgotten(v.sys, c) ==> c in v.greeting;
    } else {
      var s := if step.SubscribeFirst? then Next(v.sys, Subscribe(step.c)) else v.sys;
      assert s.server == v.sys.server && s.clients == v.sys.clients;
    }
  }

  /** With that order no wake-up is lost in any run whose mutations are notified: subscriptions need no
      condition. */
  lemma {:induction false} SubscribeFirstLosesNone(v: Variant, steps: seq<VariantStep>)
    requires NoneForgotten(v) && Plain(v.sys) && VariantExecutable(v, steps)
    requires forall i :: 0 <= i < |steps| && steps[i].Other? && steps[i].step.Mutate? ==> steps[i].step.notified
    ensures NoneForgotten(VariantRun(v, steps))
    decreases |steps|
  {
    hide NoneForgotten, Plain, CanVary, Vary;
    if steps == [] {
    } else {
      VariantStepKeeps(v, steps[0]);
      assert forall i :: 0 <= i < |steps| - 1 ==> steps[1..][i] == steps[i + 1];
      SubscribeFirstLosesNone(Vary(v, steps[0]), steps[1..]);
    }
  }
}
