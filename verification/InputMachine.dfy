/** User input as a concurrent machine: threads that ask for input, one at a time per
    manager, clients that reply, and threads that interrupt. A step is one critical section,
    one publication or one notification; notifications come after unlocking, and wake-ups
    may be spurious. The labels of the steps form the log of a run. */
module InputMachine {
  import opened AnyValues
  import opened InputRequests

  type Thread = nat

  datatype Pc =
    // GetUserInput, in the order of its statements
    | Locking(server: string, id: uint64, request: UserInputRequest)
    | FindingHandler(server: string, id: uint64, request: UserInputRequest)
    | FindingChannel(server: string, id: uint64, request: UserInputRequest, hasHandler: bool)
    | Initialising(server: string, id: uint64, request: UserInputRequest)
    | Publishing(server: string, id: uint64, request: UserInputRequest)
    | Checking(server: string, id: uint64)
    | Sleeping(server: string, id: uint64)
    | Retracting(server: string, id: uint64, outcome: Option<UserInputReply>)
    | Returning(server: string, id: uint64, outcome: Option<UserInputReply>)
    // the other calls
    | Interrupting(server: string, id: uint64)
    | Notifying(server: string)

  /** `owner` holds the mutex that serialises GetUserInput. `pcs` has the threads that are
      inside a call, any number of them. */
  datatype State = State(
    handlers: map<string, RequestState>, channels: set<string>, owner: Option<Thread>, pcs: map<Thread, Pc>)

  datatype Step =
    | RegisterHandler(server: string)
    | RegisterChannel(server: string)
    | Call(t: Thread, server: string, id: uint64, request: UserInputRequest)
    | Lock(t: Thread)
    | FindHandler(t: Thread)
    | FindChannel(t: Thread)
    | Init(t: Thread, server: string, id: uint64)
    | Publish(t: Thread, server: string, id: uint64, request: UserInputRequest)
    | Sleep(t: Thread)
    | SpuriousWake(t: Thread)
    | Finish(t: Thread, server: string, id: uint64, outcome: Option<UserInputReply>)
    | Retract(t: Thread, server: string)
    | Return(t: Thread, server: string, id: uint64, reply: UserInputReply)
    | Reply(t: Thread, server: string, id: uint64, reply: UserInputReply, accepted: bool)
    | CallInterrupt(t: Thread, server: string, id: uint64, found: bool)
    | Interrupt(t: Thread, server: string, id: uint64, matched: bool)
    | NotifyOne(t: Thread, server: string, woken: Option<Thread>)

  const INITIAL := State(map[], {}, None, map[])

  predicate IsSleeper(s: State, t: Thread, server: string) {
    t in s.pcs && s.pcs[t].Sleeping? && s.pcs[t].server == server
  }

  predicate At(s: State, t: Thread, pc: Pc) {
    t in s.pcs && s.pcs[t] == pc
  }

  predicate Enabled(s: State, a: Step) {
    match a
    case RegisterHandler(server) => server !in s.handlers
    case RegisterChannel(server) => server !in s.channels
    case Call(t, _, _, _) => t !in s.pcs
    case Lock(t) => t in s.pcs && s.pcs[t].Locking? && s.owner == None
    case FindHandler(t) => t in s.pcs && s.pcs[t].FindingHandler?
    case FindChannel(t) => t in s.pcs && s.pcs[t].FindingChannel?
    case Init(t, server, id) =>
      t in s.pcs && s.pcs[t].Initialising? && s.pcs[t].server == server && s.pcs[t].id == id && server in s.handlers
    case Publish(t, server, id, request) => At(s, t, Publishing(server, id, request))
    case Sleep(t) =>
      t in s.pcs && s.pcs[t].Checking? && s.pcs[t].server in s.handlers
      && s.pcs[t].id != 0 && !Ready(s.handlers[s.pcs[t].server], s.pcs[t].id)
    case SpuriousWake(t) => t in s.pcs && s.pcs[t].Sleeping?
    case Finish(t, server, id, outcome) =>
      At(s, t, Checking(server, id)) && server in s.handlers
      && (id == 0 || Ready(s.handlers[server], id)) && outcome == Outcome(s.handlers[server], id)
    case Retract(t, server) => t in s.pcs && s.pcs[t].Retracting? && s.pcs[t].server == server
    case Return(t, server, id, reply) =>
      t in s.pcs && s.pcs[t].Returning? && s.pcs[t].server == server && s.pcs[t].id == id
      && reply == if s.pcs[t].outcome.None? then INVALID_REPLY else s.pcs[t].outcome.value
    case Reply(t, server, id, reply, accepted) =>
      t !in s.pcs && server in s.handlers && accepted == Accepts(s.handlers[server], id, reply)
    case CallInterrupt(t, server, _, found) => t !in s.pcs && found == (server in s.handlers)
    case Interrupt(t, server, id, matched) =>
      At(s, t, Interrupting(server, id)) && server in s.handlers && matched == (s.handlers[server].requestId == id)
    case NotifyOne(t, server, woken) =>
      At(s, t, Notifying(server))
      && match woken
         case None => forall u :: u in s.pcs ==> !IsSleeper(s, u, server)
         case Some(u) => IsSleeper(s, u, server)
  }

  function Go(s: State, t: Thread, pc: Pc): State {
    s.(pcs := s.pcs[t := pc])
  }

  function Leave(s: State, t: Thread): State {
    s.(pcs := s.pcs - {t})
  }

  function Do(s: State, a: Step): State
    requires Enabled(s, a)
  {
    match a
    case RegisterHandler(server) => s.(handlers := s.handlers[server := NO_REQUEST])
    case RegisterChannel(server) => s.(channels := s.channels + {server})
    case Call(t, server, id, request) => Go(s, t, Locking(server, id, request))
    case Lock(t) =>
      Go(s, t, FindingHandler(s.pcs[t].server, s.pcs[t].id, s.pcs[t].request)).(owner := Some(t))
    case FindHandler(t) =>
      var pc := s.pcs[t];
      Go(s, t, FindingChannel(pc.server, pc.id, pc.request, pc.server in s.handlers))
    case FindChannel(t) =>
      var pc := s.pcs[t];
      Go(s, t, if pc.hasHandler && pc.server in s.channels
               then Initialising(pc.server, pc.id, pc.request)
               else Returning(pc.server, pc.id, None))
    case Init(t, server, id) =>
      Go(s, t, Publishing(server, id, s.pcs[t].request))
        .(handlers := s.handlers[server := Initialised(id)])
    case Publish(t, server, id, _) => Go(s, t, Checking(server, id))
    case Sleep(t) => Go(s, t, Sleeping(s.pcs[t].server, s.pcs[t].id))
    case SpuriousWake(t) => Go(s, t, Checking(s.pcs[t].server, s.pcs[t].id))
    case Finish(t, server, id, outcome) => Go(s, t, Retracting(server, id, outcome))
    case Retract(t, server) => Go(s, t, Returning(server, s.pcs[t].id, s.pcs[t].outcome))
    case Return(t, _, _, _) => Leave(s, t).(owner := None)
    case Reply(t, server, id, reply, accepted) =>
      var r := s.(handlers := s.handlers[server := Replied(s.handlers[server], id, reply)]);
      if accepted then Go(r, t, Notifying(server)) else r
    case CallInterrupt(t, server, id, found) => if !found then s else Go(s, t, Interrupting(server, id))
    case Interrupt(t, server, id, matched) =>
      var r := s.(handlers := s.handlers[server := Interrupted(s.handlers[server], id)]);
      if matched then Go(r, t, Notifying(server)) else Leave(r, t)
    case NotifyOne(t, server, woken) =>
      match woken
      case None => Leave(s, t)
      case Some(u) => Go(Leave(s, t), u, Checking(server, s.pcs[u].id))
  }

  function Exec(log: seq<Step>): Option<State> {
    if log == [] then Some(INITIAL)
    else
      match Exec(log[..|log| - 1])
      case None => None
      case Some(s) => if Enabled(s, log[|log| - 1]) then Some(Do(s, log[|log| - 1])) else None
  }

  // ---- Reading the log ----

  predicate IsInit(a: Step, server: string) {
    a.Init? && a.server == server
  }

  predicate IsAccepted(a: Step, server: string) {
    a.Reply? && a.server == server && a.accepted
  }

  predicate IsMatched(a: Step, server: string) {
    a.Interrupt? && a.server == server && a.matched
  }

  predicate IsCallOf(a: Step, t: Thread) {
    a.Call? && a.t == t
  }

  /** Position of the last InitNewRequest on a server, or -1. */
  function LastInit(log: seq<Step>, server: string): (i: int)
    ensures -1 <= i < |log|
    ensures i >= 0 ==> IsInit(log[i], server)
    ensures forall j :: i < j < |log| ==> !IsInit(log[j], server)
  {
    if log == [] then -1
    else if IsInit(log[|log| - 1], server) then |log| - 1
    else LastInit(log[..|log| - 1], server)
  }

  function RequestStep(s: RequestState, a: Step, server: string): RequestState {
    if IsInit(a, server) then RequestState(a.id, INVALID_REPLY, false)
    else if IsAccepted(a, server) then s.(reply := a.reply)
    else if IsMatched(a, server) then s.(interrupt := true)
    else s
  }

  /** The fields of a server's monitor, reconstructed from the log. */
  function Request(log: seq<Step>, server: string): RequestState {
    if log == [] then NO_REQUEST else RequestStep(Request(log[..|log| - 1], server), log[|log| - 1], server)
  }

  /** The values published on the request channel of a server; None is the idle value. */
  function Channel(log: seq<Step>, server: string): seq<Option<(uint64, UserInputRequest)>> {
    if log == [] then []
    else
      var front := Channel(log[..|log| - 1], server);
      var a := log[|log| - 1];
      if a.Publish? && a.server == server then front + [Some((a.id, a.request))]
      else if a.Retract? && a.server == server then front + [None]
      else front
  }

  lemma {:induction false} ExecPrefix(log: seq<Step>, k: nat)
    requires Exec(log).Some? && k <= |log|
    ensures Exec(log[..k]).Some?
    ensures k < |log| ==> Enabled(Exec(log[..k]).value, log[k])
    decreases |log|
  {
    if k == |log| {
      assert log[..k] == log;
    } else {
      var front := log[..|log| - 1];
      if k < |front| {
        ExecPrefix(front, k);
        assert front[..k] == log[..k];
      }
    }
  }

  // ---- Invariants ----

  /** Between locking and unlocking the mutex of GetUserInput. */
  predicate Holds(pc: Pc) {
    !pc.Locking? && !pc.Interrupting? && !pc.Notifying?
  }

  /** Between InitNewRequest and the end of WaitForReply. */
  predicate InWait(pc: Pc) {
    pc.Publishing? || pc.Checking? || pc.Sleeping?
  }

  /** Between the two publications. */
  predicate Announced(pc: Pc) {
    pc.Checking? || pc.Sleeping? || pc.Retracting?
  }

  ghost predicate MutexInv(s: State) {
    && (forall t :: t in s.pcs && Holds(s.pcs[t]) ==> s.owner == Some(t))
    && (s.owner.Some? ==> s.owner.value in s.pcs && Holds(s.pcs[s.owner.value]))
  }

  ghost predicate MonitorInv(log: seq<Step>, s: State) {
    forall server :: Request(log, server) == if server in s.handlers then s.handlers[server] else NO_REQUEST
  }

  /** Handlers are never removed, so whoever has found one can go on using it. */
  ghost predicate FoundInv(s: State) {
    forall t :: t in s.pcs ==>
      var pc := s.pcs[t];
      && (InWait(pc) || pc.Initialising? || pc.Interrupting? ==> pc.server in s.handlers)
      && (pc.FindingChannel? && pc.hasHandler ==> pc.server in s.handlers)
  }

  /** The request of a transaction in progress is the last one initialised on its server. */
  ghost predicate RequestInv(log: seq<Step>, s: State) {
    forall t :: t in s.pcs && InWait(s.pcs[t]) ==> RequestOf(log, t, s.pcs[t].server, s.pcs[t].id)
  }

  ghost predicate RequestOf(log: seq<Step>, t: Thread, server: string, id: uint64) {
    var i := LastInit(log, server);
    && i >= 0 && log[i] == Init(t, server, id)
    && forall j :: i < j < |log| ==> !IsCallOf(log[j], t)
  }

  /** A valid result was read by this very call at the end of its wait. */
  ghost predicate OutcomeInv(log: seq<Step>, s: State) {
    forall t :: t in s.pcs && HasReply(s.pcs[t]) ==>
      FinishedBy(log, t, s.pcs[t].server, s.pcs[t].id, s.pcs[t].outcome.value)
  }

  ghost predicate FinishedBy(log: seq<Step>, t: Thread, server: string, id: uint64, reply: UserInputReply) {
    exists m :: 0 <= m < |log| && log[m] == Finish(t, server, id, Some(reply))
                && forall j :: m < j < |log| ==> !IsCallOf(log[j], t)
  }

  ghost predicate OwedNotify(s: State, server: string) {
    exists u :: u in s.pcs && s.pcs[u] == Notifying(server)
  }

  /** No lost wake-up: a waiter asleep although its predicate holds is owed a notification. */
  ghost predicate WakeInv(s: State) {
    forall t :: t in s.pcs && s.pcs[t].Sleeping? ==>
      && s.pcs[t].id != 0
      && (s.pcs[t].server in s.handlers && Ready(s.handlers[s.pcs[t].server], s.pcs[t].id) ==>
            OwedNotify(s, s.pcs[t].server))
  }

  /** Requests and idle values take turns, beginning with a request. */
  predicate Alternates(values: seq<Option<(uint64, UserInputRequest)>>) {
    forall k :: 0 <= k < |values| ==> (values[k].Some? <==> k % 2 == 0)
  }

  /** The transaction that currently has its request on the channel of this server. */
  predicate Open(s: State, server: string) {
    && s.owner.Some? && s.owner.value in s.pcs
    && Announced(s.pcs[s.owner.value]) && s.pcs[s.owner.value].server == server
  }

  ghost predicate ChannelInv(log: seq<Step>, s: State) {
    forall server :: ServerChannelInv(Channel(log, server), s, server)
  }

  predicate ServerChannelInv(values: seq<Option<(uint64, UserInputRequest)>>, s: State, server: string) {
    && Alternates(values)
    && (|values| % 2 == 1 <==> Open(s, server))
    && (Open(s, server) ==> values != [] && values[|values| - 1].Some?
                            && values[|values| - 1].value.0 == s.pcs[s.owner.value].id)
  }

  ghost predicate Inv(log: seq<Step>, s: State) {
    MutexInv(s) && MonitorInv(log, s) && FoundInv(s) && RequestInv(log, s) && OutcomeInv(log, s)
    && WakeInv(s) && ChannelInv(log, s)
  }

  lemma MutexStep(s: State, a: Step)
    requires MutexInv(s) && Enabled(s, a)
    ensures MutexInv(Do(s, a))
  {
  }

  lemma MonitorStep(log: seq<Step>, s: State, a: Step)
    requires MonitorInv(log, s) && Enabled(s, a)
    ensures MonitorInv(log + [a], Do(s, a))
  {
    assert (log + [a])[..|log|] == log;
  }

  lemma FoundStep(s: State, a: Step)
    requires FoundInv(s) && Enabled(s, a)
    ensures FoundInv(Do(s, a))
  {
  }

  /** A thread that waits after a step either started to wait with it or waited before,
      and in the latter case the step was no other initialisation. */
  lemma WaitingBefore(s: State, a: Step, t: Thread)
    requires MutexInv(s) && Enabled(s, a) && t in Do(s, a).pcs && InWait(Do(s, a).pcs[t])
    requires !(a.Init? && a.t == t)
    ensures t in s.pcs && InWait(s.pcs[t]) && !IsCallOf(a, t)
    ensures s.pcs[t].server == Do(s, a).pcs[t].server && s.pcs[t].id == Do(s, a).pcs[t].id
    ensures !IsInit(a, s.pcs[t].server)
  {
  }

  lemma RequestInvStep(log: seq<Step>, s: State, a: Step)
    requires MutexInv(s) && RequestInv(log, s) && Enabled(s, a)
    ensures RequestInv(log + [a], Do(s, a))
  {
    var r, more := Do(s, a), log + [a];
    forall t | t in r.pcs && InWait(r.pcs[t])
      ensures RequestOf(more, t, r.pcs[t].server, r.pcs[t].id)
    {
      LastInitSnoc(log, a, r.pcs[t].server);
      if !(a.Init? && a.t == t) {
        WaitingBefore(s, a, t);
        assert RequestOf(log, t, s.pcs[t].server, s.pcs[t].id);
        assert forall j :: 0 <= j < |log| ==> more[j] == log[j];
      }
    }
  }

  lemma LastInitSnoc(log: seq<Step>, a: Step, server: string)
    ensures LastInit(log + [a], server) == if IsInit(a, server) then |log| else LastInit(log, server)
  {
    assert (log + [a])[..|log|] == log;
  }

  predicate HasReply(pc: Pc) {
    (pc.Retracting? || pc.Returning?) && pc.outcome.Some?
  }

  lemma OutcomeBefore(s: State, a: Step, t: Thread)
    requires Enabled(s, a) && t in Do(s, a).pcs && HasReply(Do(s, a).pcs[t])
    ensures var pc := Do(s, a).pcs[t];
            || a == Finish(t, pc.server, pc.id, pc.outcome)
            || (&& t in s.pcs && HasReply(s.pcs[t]) && !IsCallOf(a, t)
                && s.pcs[t].server == pc.server && s.pcs[t].id == pc.id && s.pcs[t].outcome == pc.outcome)
  {
  }

  lemma FinishedBySnoc(log: seq<Step>, a: Step, t: Thread, server: string, id: uint64, reply: UserInputReply)
    requires a == Finish(t, server, id, Some(reply)) || (FinishedBy(log, t, server, id, reply) && !IsCallOf(a, t))
    ensures FinishedBy(log + [a], t, server, id, reply)
  {
    var more := log + [a];
    if a == Finish(t, server, id, Some(reply)) {
      assert more[|log|] == a;
    } else {
      var m :| 0 <= m < |log| && log[m] == Finish(t, server, id, Some(reply))
               && forall j :: m < j < |log| ==> !IsCallOf(log[j], t);
      assert more[m] == log[m];
    }
  }

  lemma OutcomeInvStep(log: seq<Step>, s: State, a: Step)
    requires OutcomeInv(log, s) && Enabled(s, a)
    ensures OutcomeInv(log + [a], Do(s, a))
  {
    var r := Do(s, a);
    forall t | t in r.pcs && HasReply(r.pcs[t])
      ensures FinishedBy(log + [a], t, r.pcs[t].server, r.pcs[t].id, r.pcs[t].outcome.value)
    {
      OutcomeBefore(s, a, t);
      FinishedBySnoc(log, a, t, r.pcs[t].server, r.pcs[t].id, r.pcs[t].outcome.value);
    }
  }

  lemma SleeperBefore(s: State, a: Step, t: Thread)
    requires MutexInv(s) && FoundInv(s) && WakeInv(s) && Enabled(s, a)
    requires t in Do(s, a).pcs && Do(s, a).pcs[t].Sleeping?
    ensures var r := Do(s, a);
            var server, id := r.pcs[t].server, r.pcs[t].id;
            && id != 0 && server in r.handlers && server in s.handlers
            && (a == Sleep(t) ==> !Ready(r.handlers[server], id))
            && (a != Sleep(t) ==>
                  At(s, t, Sleeping(server, id)) && !IsInit(a, server) && !(a.NotifyOne? && a.server == server))
  {
  }

  lemma WakeStep(s: State, a: Step)
    requires MutexInv(s) && FoundInv(s) && WakeInv(s) && Enabled(s, a)
    ensures WakeInv(Do(s, a))
  {
    var r := Do(s, a);
    forall t | t in r.pcs && r.pcs[t].Sleeping?
      ensures r.pcs[t].id != 0
      ensures var server := r.pcs[t].server;
              server in r.handlers && Ready(r.handlers[server], r.pcs[t].id) ==> OwedNotify(r, server)
    {
      SleeperBefore(s, a, t);
      var server := r.pcs[t].server;
      if Ready(r.handlers[server], r.pcs[t].id) && !((a.Reply? || a.Interrupt?) && At(r, a.t, Notifying(server))) {
        var u :| u in s.pcs && s.pcs[u] == Notifying(server);
        assert u in r.pcs && r.pcs[u] == Notifying(server);
      }
    }
  }

  lemma OpenStep(s: State, a: Step, server: string)
    requires MutexInv(s) && Enabled(s, a)
    ensures Open(Do(s, a), server) <==>
              (a.Publish? && a.server == server) || (Open(s, server) && !(a.Retract? && a.server == server))
    ensures a.Publish? && a.server == server ==>
              !Open(s, server) && Do(s, a).owner == Some(a.t) && At(Do(s, a), a.t, Checking(server, a.id))
    ensures a.Retract? && a.server == server ==> Open(s, server)
    ensures Open(s, server) && Open(Do(s, a), server) ==>
              Do(s, a).owner == s.owner && Do(s, a).pcs[s.owner.value].id == s.pcs[s.owner.value].id
  {
  }

  lemma ChannelStep(log: seq<Step>, s: State, a: Step)
    requires MutexInv(s) && ChannelInv(log, s) && Enabled(s, a)
    ensures ChannelInv(log + [a], Do(s, a))
  {
    forall server
      ensures ServerChannelInv(Channel(log + [a], server), Do(s, a), server)
    {
      assert ServerChannelInv(Channel(log, server), s, server);
      assert (log + [a])[..|log|] == log;
      ServerChannelStep(Channel(log, server), s, a, server);
    }
  }

  lemma ServerChannelStep(values: seq<Option<(uint64, UserInputRequest)>>, s: State, a: Step, server: string)
    requires MutexInv(s) && ServerChannelInv(values, s, server) && Enabled(s, a)
    ensures var more := if a.Publish? && a.server == server then values + [Some((a.id, a.request))]
                        else if a.Retract? && a.server == server then values + [None]
                        else values;
            ServerChannelInv(more, Do(s, a), server)
  {
    OpenStep(s, a, server);
  }

  lemma {:induction false} Invariant(log: seq<Step>)
    requires Exec(log).Some?
    ensures Inv(log, Exec(log).value)
  {
    if log != [] {
      var front, a := log[..|log| - 1], log[|log| - 1];
      var s := Exec(front).value;
      Invariant(front);
      MutexStep(s, a);
      MonitorStep(front, s, a);
      FoundStep(s, a);
      RequestInvStep(front, s, a);
      OutcomeInvStep(front, s, a);
      WakeStep(s, a);
      ChannelStep(front, s, a);
      assert log == front + [a];
    }
  }

  // ---- What a wait returns, in terms of the log alone ----

  predicate IsInterruptOf(a: Step, server: string, id: uint64) {
    a.Interrupt? && a.server == server && a.id == id
  }

  predicate IsValidReplyTo(a: Step, server: string, id: uint64) {
    a.Reply? && a.server == server && a.id == id && a.reply.requestType != 0
  }

  predicate AnyAccepted(log: seq<Step>, server: string, from: int) {
    exists j :: from < j < |log| && 0 <= j && IsAccepted(log[j], server)
  }

  predicate AnyMatched(log: seq<Step>, server: string, from: int) {
    exists j :: from < j < |log| && 0 <= j && IsMatched(log[j], server)
  }

  lemma AnySnoc(log: seq<Step>, a: Step, server: string, from: int)
    ensures AnyAccepted(log + [a], server, from) <==>
              AnyAccepted(log, server, from) || (from < |log| && IsAccepted(a, server))
    ensures AnyMatched(log + [a], server, from) <==>
              AnyMatched(log, server, from) || (from < |log| && IsMatched(a, server))
  {
    var more := log + [a];
    assert more[|log|] == a;
    assert forall j :: 0 <= j < |log| ==> more[j] == log[j];
  }

  /** The last init on a server, and the accepted replies and matched interrupts after it,
      determine the monitor's fields. */
  lemma {:induction false} RequestFromLog(log: seq<Step>, server: string)
    ensures var i, s := LastInit(log, server), Request(log, server);
            && s.requestId == (if i < 0 then 0 else log[i].id)
            && (s.interrupt <==> AnyMatched(log, server, i))
            && (AnyAccepted(log, server, i) || s.reply == INVALID_REPLY)
    ensures var i, s := LastInit(log, server), Request(log, server);
            forall j :: i < j < |log| && 0 <= j && IsAccepted(log[j], server) && !AnyAccepted(log, server, j)
              ==> s.reply == log[j].reply
  {
    if log != [] {
      var front, a := log[..|log| - 1], log[|log| - 1];
      RequestFromLog(front, server);
      assert log == front + [a];
      LastInitSnoc(front, a, server);
      AnySnoc(front, a, server, LastInit(front, server));
      AnySnoc(front, a, server, |front|);
      forall j | LastInit(log, server) < j < |log| && 0 <= j
                 && IsAccepted(log[j], server) && !AnyAccepted(log, server, j)
        ensures Request(log, server).reply == log[j].reply
      {
        AnySnoc(front, a, server, j);
      }
    }
  }

  lemma LastInitStable(log: seq<Step>, server: string, j: nat, k: nat)
    requires j <= k <= |log| && LastInit(log[..k], server) < j
    ensures LastInit(log[..j], server) == LastInit(log[..k], server)
  {
    var i, i' := LastInit(log[..k], server), LastInit(log[..j], server);
    if i >= 0 {
      assert log[..j][i] == log[..k][i];
    }
    if i' >= 0 {
      assert log[..k][i'] == log[..j][i'];
    }
  }

  /** What the flags in the log mean, and where the monitor stands at a position. */
  lemma MonitorAt(log: seq<Step>, k: nat, server: string) returns (s: State)
    requires Exec(log).Some? && k < |log|
    ensures Exec(log[..k]) == Some(s) && Inv(log[..k], s) && Enabled(s, log[k])
    ensures server in s.handlers ==> s.handlers[server] == Request(log[..k], server)
  {
    ExecPrefix(log, k);
    Invariant(log[..k]);
    s := Exec(log[..k]).value;
  }

  /** An accepted reply is valid, answers the current request and is the only one for it. */
  lemma AcceptedReply(log: seq<Step>, k: nat, server: string)
    requires Exec(log).Some? && k < |log| && IsAccepted(log[k], server)
    ensures var i := LastInit(log[..k], server);
            && i >= 0 && log[i].id != 0 && IsValidReplyTo(log[k], server, log[i].id)
            && forall j :: i < j < k ==> !IsAccepted(log[j], server)
  {
    var s := MonitorAt(log, k, server);
    var before := log[..k];
    RequestFromLog(before, server);
    var i := LastInit(before, server);
    if AnyAccepted(before, server, i) {
      var j := LastAccepted(before, server, i);
      assert log[j] == before[j];
      var s' := MonitorAt(log, j, server);
      assert false;
    }
    assert forall j :: i < j < k && 0 <= j ==> log[j] == before[j];
  }

  lemma LastAccepted(log: seq<Step>, server: string, from: int) returns (j: nat)
    requires AnyAccepted(log, server, from)
    ensures from < j < |log| && IsAccepted(log[j], server) && !AnyAccepted(log, server, j)
  {
    j := |log| - 1;
    while !IsAccepted(log[j], server)
      invariant from < j < |log| && !AnyAccepted(log, server, j)
      invariant AnyAccepted(log, server, from)
      decreases j
    {
      j := j - 1;
    }
  }

  /** Replying: in every run a reply is accepted if and only if it is the first valid one
      to the request that was last initialised on the server. So there is at most one per
      request, and replies to older requests are refused. */
  lemma FirstValidReplyIsAccepted(log: seq<Step>, k: nat)
    requires Exec(log).Some? && k < |log| && log[k].Reply?
    ensures var a := log[k];
            var i := LastInit(log[..k], a.server);
            a.accepted <==>
              && a.id != 0 && IsValid(a.reply)
              && i >= 0 && log[i].id == a.id
              && forall j :: i < j < k ==> !IsValidReplyTo(log[j], a.server, a.id)
  {
    var a := log[k];
    var before := log[..k];
    var i := LastInit(before, a.server);
    var s := MonitorAt(log, k, a.server);
    RequestFromLog(before, a.server);
    if a.accepted {
      AcceptedReply(log, k, a.server);
      forall j | i < j < k
        ensures !IsValidReplyTo(log[j], a.server, a.id)
      {
        if IsValidReplyTo(log[j], a.server, a.id) {
          ValidReplyLeavesAccepted(log, j, k, a.server);
        }
      }
    } else if i >= 0 && a.id != 0 && log[i].id == a.id && IsValid(a.reply) {
      assert AnyAccepted(before, a.server, i);
      var j := LastAccepted(before, a.server, i);
      assert log[j] == before[j];
      LastInitStable(log, a.server, j, k);
      AcceptedReply(log, j, a.server);
    }
  }

  /** After a valid reply to the current request some reply to it has been accepted. */
  lemma ValidReplyLeavesAccepted(log: seq<Step>, j: nat, k: nat, server: string)
    requires Exec(log).Some? && k <= |log|
    requires 0 <= LastInit(log[..k], server) < j < k
    requires var id := log[LastInit(log[..k], server)].id; id != 0 && IsValidReplyTo(log[j], server, id)
    ensures exists m :: LastInit(log[..k], server) < m <= j && IsAccepted(log[m], server)
  {
    LastInitStable(log, server, j, k);
    var s := MonitorAt(log, j, server);
    var before := log[..j];
    RequestFromLog(before, server);
    if !IsAccepted(log[j], server) {
      var m := LastAccepted(before, server, LastInit(before, server));
      assert log[m] == before[m];
    }
  }

  /** Waiting: in every run the end of a wait finds its own request as the last one
      initialised on the server. It returns false if and only if an interrupt for that
      request came after the initialisation, even when a reply had been accepted too;
      otherwise it returns the first valid reply to that request. Interrupts and replies
      with other ids never matter, nor does anything from before the initialisation. */
  lemma WaitOutcome(log: seq<Step>, k: nat)
    requires Exec(log).Some? && k < |log| && log[k].Finish? && log[k].id != 0
    ensures var a := log[k];
            var i := LastInit(log[..k], a.server);
            && i >= 0 && log[i] == Init(a.t, a.server, a.id)
            && (a.outcome == None <==> exists j :: i < j < k && IsInterruptOf(log[j], a.server, a.id))
    ensures var a := log[k];
            var i := LastInit(log[..k], a.server);
            a.outcome.Some? ==>
              exists j :: i < j < k && IsFirstValidReply(log, i, j, a.server, a.id) && log[j].reply == a.outcome.value
  {
    WaitInterrupted(log, k);
    if log[k].outcome.Some? {
      WaitReplied(log, k);
    }
  }

  lemma WaitInterrupted(log: seq<Step>, k: nat)
    requires Exec(log).Some? && k < |log| && log[k].Finish? && log[k].id != 0
    ensures var a := log[k];
            var i := LastInit(log[..k], a.server);
            && i >= 0 && log[i] == Init(a.t, a.server, a.id)
            && (a.outcome == None <==> exists j :: i < j < k && IsInterruptOf(log[j], a.server, a.id))
            && (a.outcome.Some? ==> a.outcome.value == Request(log[..k], a.server).reply
                                    && IsValid(a.outcome.value))
  {
    var a := log[k];
    var before := log[..k];
    var i := LastInit(before, a.server);
    var s := MonitorAt(log, k, a.server);
    RequestFromLog(before, a.server);
    assert RequestOf(before, a.t, a.server, a.id);
    assert log[i] == before[i];
    forall j | i < j < k
      ensures IsMatched(before[j], a.server) <==> IsInterruptOf(log[j], a.server, a.id)
    {
      MatchedInterrupt(log, j, k, a.server);
    }
  }

  lemma WaitReplied(log: seq<Step>, k: nat)
    requires Exec(log).Some? && k < |log| && log[k].Finish? && log[k].id != 0 && log[k].outcome.Some?
    ensures var a := log[k];
            var i := LastInit(log[..k], a.server);
            exists j :: i < j < k && IsFirstValidReply(log, i, j, a.server, a.id) && log[j].reply == a.outcome.value
  {
    var a := log[k];
    var before := log[..k];
    var i := LastInit(before, a.server);
    WaitInterrupted(log, k);
    RequestFromLog(before, a.server);
    var j := LastAccepted(before, a.server, i);
    assert log[j] == before[j];
    LastInitStable(log, a.server, j, k);
    AcceptedReply(log, j, a.server);
    FirstValidReplyIsAccepted(log, j);
    assert IsFirstValidReply(log, i, j, a.server, a.id);
  }

  predicate IsFirstValidReply(log: seq<Step>, i: int, j: int, server: string, id: uint64)
    requires -1 <= i < j < |log|
  {
    IsValidReplyTo(log[j], server, id) && forall m :: i < m < j ==> !IsValidReplyTo(log[m], server, id)
  }

  lemma MatchedInterrupt(log: seq<Step>, j: nat, k: nat, server: string)
    requires Exec(log).Some? && k <= |log| && 0 <= LastInit(log[..k], server) < j < k
    ensures IsMatched(log[j], server) <==> IsInterruptOf(log[j], server, log[LastInit(log[..k], server)].id)
  {
    LastInitStable(log, server, j, k);
    var s := MonitorAt(log, j, server);
    RequestFromLog(log[..j], server);
  }

  /** A wait that returns a reply, with its initialisation i and the reply's position j. */
  lemma FinishedWait(log: seq<Step>, m: nat) returns (i: nat, j: nat)
    requires Exec(log).Some? && m < |log| && log[m].Finish? && log[m].outcome.Some?
    ensures var a := log[m];
            && i < j < m && a.id != 0 && log[i] == Init(a.t, a.server, a.id)
            && IsFirstValidReply(log, i, j, a.server, a.id) && log[j].reply == a.outcome.value
            && forall n :: i < n < m ==>
                 !IsCallOf(log[n], a.t) && !IsInit(log[n], a.server) && !IsInterruptOf(log[n], a.server, a.id)
  {
    var a, before := log[m], log[..m];
    var s := MonitorAt(log, m, a.server);
    WaitOutcome(log, m);
    assert RequestOf(before, a.t, a.server, a.id);
    i := LastInit(before, a.server);
    j :| i < j < m && IsFirstValidReply(log, i, j, a.server, a.id) && log[j].reply == a.outcome.value;
    assert forall n :: i < n < m ==> log[n] == before[n];
  }

  lemma FinishOfReturn(log: seq<Step>, k: nat) returns (m: nat)
    requires Exec(log).Some? && k < |log| && log[k].Return? && IsValid(log[k].reply)
    ensures var a := log[k];
            && m < k && log[m] == Finish(a.t, a.server, a.id, Some(a.reply))
            && forall n :: m <= n < k ==> !IsCallOf(log[n], a.t)
  {
    var a, before := log[k], log[..k];
    var s := MonitorAt(log, k, a.server);
    ReturnHasReply(s, a);
    assert FinishedBy(before, a.t, a.server, a.id, a.reply);
    m := FinishIn(log, k, a.t, a.server, a.id, a.reply);
  }

  lemma ReturnHasReply(s: State, a: Step)
    requires a.Return? && Enabled(s, a) && IsValid(a.reply)
    ensures HasReply(s.pcs[a.t]) && s.pcs[a.t].outcome.value == a.reply
    ensures s.pcs[a.t].server == a.server && s.pcs[a.t].id == a.id
  {
  }

  lemma FinishIn(log: seq<Step>, k: nat, t: Thread, server: string, id: uint64, reply: UserInputReply)
    returns (m: nat)
    requires k <= |log| && FinishedBy(log[..k], t, server, id, reply)
    ensures m < k && log[m] == Finish(t, server, id, Some(reply))
    ensures forall n :: m <= n < k ==> !IsCallOf(log[n], t)
  {
    var before := log[..k];
    m :| 0 <= m < k && before[m] == Finish(t, server, id, Some(reply))
         && forall n :: m < n < k ==> !IsCallOf(before[n], t);
    assert forall n :: m <= n < k ==> log[n] == before[n];
  }

  /** GetUserInput: a valid reply is returned only if it is the first valid reply given to
      this call's own request after this call initialised it, no other request was
      initialised on that server in between and no interrupt for it arrived. */
  lemma ReturnedReply(log: seq<Step>, k: nat) returns (i: nat, j: nat, m: nat)
    requires Exec(log).Some? && k < |log| && log[k].Return? && IsValid(log[k].reply)
    ensures var a := log[k];
            && i < j < m < k && a.id != 0
            && log[i] == Init(a.t, a.server, a.id)
            && IsFirstValidReply(log, i, j, a.server, a.id) && log[j].reply == a.reply
            && log[m] == Finish(a.t, a.server, a.id, Some(a.reply))
            && (forall n :: i < n < k ==> !IsCallOf(log[n], a.t))
            && (forall n :: i < n < m ==> !IsInit(log[n], a.server) && !IsInterruptOf(log[n], a.server, a.id))
  {
    m := FinishOfReturn(log, k);
    i, j := FinishedWait(log, m);
  }

  // ---- Nobody is left waiting ----

  /** Whatever a waiter of this thread waits for is there. */
  predicate Served(s: State, t: Thread) {
    t in s.pcs && InWait(s.pcs[t]) ==>
      s.pcs[t].id == 0 || (s.pcs[t].server in s.handlers && Ready(s.handlers[s.pcs[t].server], s.pcs[t].id))
  }

  /** Steps that a transaction is away from returning, once it is served. */
  function Distance(pc: Pc): nat {
    match pc
    case Publishing(_, _, _) => 4
    case Sleeping(_, _) => 4
    case Checking(_, _) => 3
    case Retracting(_, _, _) => 2
    case Returning(_, _, _) => 1
    case _ => 5
  }

  predicate InTransaction(s: State, t: Thread) {
    t in s.pcs && (InWait(s.pcs[t]) || s.pcs[t].Retracting? || s.pcs[t].Returning?)
  }

  predicate IsOwnStep(a: Step, t: Thread) {
    match a
    case Publish(u, _, _, _) => u == t
    case Sleep(u) => u == t
    case SpuriousWake(u) => u == t
    case Finish(u, _, _, _) => u == t
    case Retract(u, _) => u == t
    case Return(u, _, _, _) => u == t
    case _ => false
  }

  lemma OwnStepAdvances(s: State, a: Step, t: Thread)
    requires MutexInv(s) && FoundInv(s) && Enabled(s, a) && InTransaction(s, t) && Served(s, t)
    requires IsOwnStep(a, t) && !a.Return?
    ensures var r := Do(s, a);
            InTransaction(r, t) && Served(r, t) && Distance(r.pcs[t]) < Distance(s.pcs[t])
  {
  }

  lemma OtherStepHarmless(s: State, a: Step, t: Thread)
    requires MutexInv(s) && FoundInv(s) && Enabled(s, a) && InTransaction(s, t) && Served(s, t)
    requires !IsOwnStep(a, t)
    ensures var r := Do(s, a);
            && t in r.pcs
            && (r.pcs[t] == s.pcs[t] || (s.pcs[t].Sleeping? && r.pcs[t] == Checking(s.pcs[t].server, s.pcs[t].id)))
            && Served(r, t)
  {
    assert s.owner == Some(t);
  }

  /** Once served a transaction stays served, and no step of any thread takes it further
      away from its end; its own steps all bring it closer. */
  lemma ServedIsStable(log: seq<Step>, s: State, a: Step, t: Thread)
    requires Inv(log, s) && Enabled(s, a) && InTransaction(s, t) && Served(s, t)
    requires !(a.Return? && a.t == t)
    ensures var r := Do(s, a);
            && InTransaction(r, t) && Served(r, t)
            && Distance(r.pcs[t]) <= Distance(s.pcs[t])
            && (IsOwnStep(a, t) ==> Distance(r.pcs[t]) < Distance(s.pcs[t]))
  {
    if IsOwnStep(a, t) {
      OwnStepAdvances(s, a, t);
    } else {
      OtherStepHarmless(s, a, t);
    }
  }

  /** A served transaction that has not returned can always be advanced, by a step of its
      own or, when it is asleep, by a notification that is already owed and that can only
      wake this very thread. Spurious wake-ups are not needed. */
  lemma ServedAdvances(log: seq<Step>, s: State, t: Thread) returns (a: Step)
    requires Inv(log, s) && InTransaction(s, t) && Served(s, t)
    ensures Enabled(s, a) && !a.SpuriousWake?
    ensures (a.Return? && a.t == t) || Distance(Do(s, a).pcs[t]) < Distance(s.pcs[t])
    ensures s.pcs[t].Sleeping? <==> a.NotifyOne?
    ensures a.NotifyOne? ==> a.woken == Some(t) && Do(s, a).pcs[t].Checking?
    ensures !a.NotifyOne? ==> IsOwnStep(a, t)
  {
    if s.pcs[t].Sleeping? {
      a := SleeperIsWoken(s, t);
    } else {
      a := AwakeAdvances(s, t);
      if !a.Return? {
        OwnStepAdvances(s, a, t);
      }
    }
  }

  lemma SleeperIsWoken(s: State, t: Thread) returns (a: Step)
    requires FoundInv(s) && WakeInv(s) && t in s.pcs && s.pcs[t].Sleeping? && Served(s, t)
    ensures a.NotifyOne? && a.woken == Some(t) && Enabled(s, a)
    ensures t in Do(s, a).pcs && Do(s, a).pcs[t] == Checking(s.pcs[t].server, s.pcs[t].id)
  {
    var server := s.pcs[t].server;
    assert OwedNotify(s, server);
    var u :| u in s.pcs && s.pcs[u] == Notifying(server);
    a := NotifyOne(u, server, Some(t));
  }

  lemma AwakeAdvances(s: State, t: Thread) returns (a: Step)
    requires FoundInv(s) && InTransaction(s, t) && !s.pcs[t].Sleeping? && Served(s, t)
    ensures Enabled(s, a) && IsOwnStep(a, t) && !a.SpuriousWake?
  {
    match s.pcs[t]
    case Publishing(server, id, request) => a := Publish(t, server, id, request);
    case Checking(server, id) => a := Finish(t, server, id, Outcome(s.handlers[server], id));
    case Retracting(server, _, _) => a := Retract(t, server);
    case Returning(server, id, outcome) =>
      a := Return(t, server, id, if outcome.None? then INVALID_REPLY else outcome.value);
  }

  function OwnSteps(steps: seq<Step>, t: Thread): nat {
    if steps == [] then 0
    else OwnSteps(steps[..|steps| - 1], t) + if IsOwnStep(steps[|steps| - 1], t) then 1 else 0
  }

  /** Over whole runs: however a run goes on after a transaction has been served, as long as
      the call has not returned it stays served, and its own steps together with the distance
      that is left are at most the distance it had. */
  lemma {:induction false} ServedTerminates(log: seq<Step>, steps: seq<Step>, t: Thread)
    requires Exec(log).Some? && Exec(log + steps).Some?
    requires InTransaction(Exec(log).value, t) && Served(Exec(log).value, t)
    requires forall k :: 0 <= k < |steps| ==> !(steps[k].Return? && steps[k].t == t)
    ensures var s, r := Exec(log).value, Exec(log + steps).value;
            && InTransaction(r, t) && Served(r, t)
            && OwnSteps(steps, t) + Distance(r.pcs[t]) <= Distance(s.pcs[t])
    decreases |steps|
  {
    if steps == [] {
      assert log + steps == log;
    } else {
      var front, a := steps[..|steps| - 1], steps[|steps| - 1];
      assert (log + steps)[..|log + steps| - 1] == log + front;
      ServedTerminates(log, front, t);
      Invariant(log + front);
      ServedIsStable(log + front, Exec(log + front).value, a, t);
    }
  }

  /** There is never more than one thread for a notification to choose from. */
  lemma OneWaiter(log: seq<Step>, t: Thread, u: Thread)
    requires Exec(log).Some?
    requires var s := Exec(log).value; t in s.pcs && u in s.pcs && InWait(s.pcs[t]) && InWait(s.pcs[u])
    ensures t == u
  {
    Invariant(log);
  }

  // ---- The request channel ----

  /** In every run the values published on a request channel are (request, idle) pairs, with
      at most one request left over at the end. It is left over exactly while the one
      transaction that holds the mutex is between its two publications, and it is its own. */
  lemma ChannelAlternates(log: seq<Step>, server: string)
    requires Exec(log).Some?
    ensures var s, values := Exec(log).value, Channel(log, server);
            && (forall k :: 0 <= k < |values| ==> (values[k].Some? <==> k % 2 == 0))
            && (|values| % 2 == 1 <==> exists t :: t in s.pcs && Announced(s.pcs[t]) && s.pcs[t].server == server)
            && (forall t :: t in s.pcs && Announced(s.pcs[t]) && s.pcs[t].server == server
                  ==> values[|values| - 1].Some? && values[|values| - 1].value.0 == s.pcs[t].id)
    ensures var s := Exec(log).value;
            forall other :: other != server && |Channel(log, server)| % 2 == 1 ==> |Channel(log, other)| % 2 == 0
  {
    Invariant(log);
    var s := Exec(log).value;
    assert forall t :: t in s.pcs && Announced(s.pcs[t]) ==> s.owner == Some(t);
    assert ServerChannelInv(Channel(log, server), s, server);
    assert forall other :: ServerChannelInv(Channel(log, other), s, other);
  }

  // ---- Interrupts ----

  /** A run given by all its intermediate states. */
  predicate Path(states: seq<State>, steps: seq<Step>) {
    && |states| == |steps| + 1
    && forall k :: 0 <= k < |steps| ==> Enabled(states[k], steps[k]) && Do(states[k], steps[k]) == states[k + 1]
  }

  lemma {:induction false} PathExec(log: seq<Step>, states: seq<State>, steps: seq<Step>)
    requires Path(states, steps) && Exec(log) == Some(states[0])
    ensures Exec(log + steps) == Some(states[|steps|])
    decreases |steps|
  {
    if steps == [] {
      assert log + steps == log;
    } else {
      var n := |steps| - 1;
      var front := log + steps[..n];
      PathExec(log, states[..n + 1], steps[..n]);
      assert log + steps == front + [steps[n]];
      ExecSnoc(front, steps[n]);
    }
  }

  lemma ExecSnoc(log: seq<Step>, a: Step)
    requires Exec(log).Some? && Enabled(Exec(log).value, a)
    ensures Exec(log + [a]) == Some(Do(Exec(log).value, a))
  {
    assert (log + [a])[..|log|] == log;
  }

  function InterruptSteps(t: Thread, u: Thread, server: string, id: uint64): seq<Step> {
    [CallInterrupt(u, server, id, true), Interrupt(u, server, id, true),
     NotifyOne(u, server, Some(t)), Finish(t, server, id, None)]
  }

  lemma PathConcat(states: seq<State>, steps: seq<Step>, states': seq<State>, steps': seq<Step>)
    requires Path(states, steps) && Path(states', steps') && states[|steps|] == states'[0]
    ensures Path(states + states'[1..], steps + steps')
  {
    var all := states + states'[1..];
    forall k | 0 <= k < |steps + steps'|
      ensures Enabled(all[k], (steps + steps')[k]) && Do(all[k], (steps + steps')[k]) == all[k + 1]
    {
      if k >= |steps| {
        assert all[k] == states'[k - |steps|] && all[k + 1] == states'[k + 1 - |steps|];
      }
    }
  }

  lemma TwoSteps(s0: State, a: Step, s1: State, b: Step, s2: State)
    requires Enabled(s0, a) && Do(s0, a) == s1 && Enabled(s1, b) && Do(s1, b) == s2
    ensures Path([s0, s1, s2], [a, b])
  {
  }

  lemma InterruptPath(s: State, t: Thread, u: Thread, server: string, id: uint64) returns (states: seq<State>)
    requires At(s, t, Sleeping(server, id)) && u !in s.pcs && id != 0
    requires server in s.handlers && s.handlers[server].requestId == id
    ensures Path(states, InterruptSteps(t, u, server, id)) && states[0] == s
  {
    var s1 := Go(s, u, Interrupting(server, id));
    var s2 := Go(s, u, Notifying(server)).(handlers := s.handlers[server := s.handlers[server].(interrupt := true)]);
    assert Go(s1, u, Notifying(server)).pcs == s2.pcs;
    var first := [s, s1, s2];
    TwoSteps(s, CallInterrupt(u, server, id, true), s1, Interrupt(u, server, id, true), s2);
    var second := WakeAndFinish(s2, t, u, server, id);
    PathConcat(first, [CallInterrupt(u, server, id, true), Interrupt(u, server, id, true)],
               second, [NotifyOne(u, server, Some(t)), Finish(t, server, id, None)]);
    states := first + second[1..];
  }

  lemma WakeAndFinish(s: State, t: Thread, u: Thread, server: string, id: uint64) returns (states: seq<State>)
    requires At(s, t, Sleeping(server, id)) && At(s, u, Notifying(server)) && id != 0
    requires server in s.handlers && s.handlers[server].interrupt
    ensures Path(states, [NotifyOne(u, server, Some(t)), Finish(t, server, id, None)]) && states[0] == s
  {
    var s1 := Do(s, NotifyOne(u, server, Some(t)));
    states := [s, s1, Do(s1, Finish(t, server, id, None))];
  }

  /** Interrupting needs no mutex that the waiter holds: from any state in which a thread
      sleeps in its wait, any idle thread can interrupt it, and it then returns false. */
  lemma SleeperCanBeInterrupted(log: seq<Step>, t: Thread, u: Thread)
    requires Exec(log).Some?
    requires var s := Exec(log).value; t in s.pcs && s.pcs[t].Sleeping? && u !in s.pcs
    ensures var pc := Exec(log).value.pcs[t];
            Exec(log + InterruptSteps(t, u, pc.server, pc.id)).Some?
  {
    Invariant(log);
    var s := Exec(log).value;
    var server, id := s.pcs[t].server, s.pcs[t].id;
    assert RequestOf(log, t, server, id);
    RequestFromLog(log, server);
    assert s.handlers[server] == Request(log, server);
    var states := InterruptPath(s, t, u, server, id);
    PathExec(log, states, InterruptSteps(t, u, server, id));
  }

  /** An interrupt whose critical section comes before the initialisation of its request,
      and then the request. */
  function EarlyInterrupt(server: string, id: uint64): seq<Step> {
    [RegisterHandler(server), RegisterChannel(server),
     CallInterrupt(1, server, id, true), Interrupt(1, server, id, false)]
  }

  function LateRequest(server: string, id: uint64, request: UserInputRequest): seq<Step> {
    [Call(2, server, id, request), Lock(2), FindHandler(2), FindChannel(2)]
    + [Init(2, server, id), Publish(2, server, id, request), Sleep(2)]
  }

  function Owned(server: string, handler: RequestState, pc: Pc): State {
    State(map[server := handler], {server}, Some(2), map[2 := pc])
  }

  lemma EarlyInterruptPath(server: string, id: uint64) returns (states: seq<State>)
    requires id != 0
    ensures Path(states, EarlyInterrupt(server, id)) && states[0] == INITIAL
    ensures states[4] == State(map[server := NO_REQUEST], {server}, None, map[])
  {
    var s1 := INITIAL.(handlers := map[server := NO_REQUEST]);
    var s2 := s1.(channels := {server});
    var s3 := s2.(pcs := map[1 := Interrupting(server, id)]);
    assert s3.pcs - {1} == map[];
    var registering, interrupting := [INITIAL, s1, s2], [s2, s3, s2];
    TwoSteps(INITIAL, RegisterHandler(server), s1, RegisterChannel(server), s2);
    TwoSteps(s2, CallInterrupt(1, server, id, true), s3, Interrupt(1, server, id, false), s2);
    PathConcat(registering, [RegisterHandler(server), RegisterChannel(server)],
               interrupting, [CallInterrupt(1, server, id, true), Interrupt(1, server, id, false)]);
    assert [RegisterHandler(server), RegisterChannel(server)]
           + [CallInterrupt(1, server, id, true), Interrupt(1, server, id, false)] == EarlyInterrupt(server, id);
    states := registering + interrupting[1..];
  }

  lemma LateRequestPath(server: string, id: uint64, request: UserInputRequest) returns (states: seq<State>)
    requires id != 0
    ensures Path(states, LateRequest(server, id, request))
    ensures states[0] == State(map[server := NO_REQUEST], {server}, None, map[])
    ensures states[7] == Owned(server, RequestState(id, INVALID_REPLY, false), Sleeping(server, id))
  {
    var locking := LockingPath(server, id, request);
    var finding := FindingPath(server, id, request);
    var waiting := WaitingPath(server, id, request);
    PathConcat(locking, [Call(2, server, id, request), Lock(2)], finding, [FindHandler(2), FindChannel(2)]);
    var lookup := locking + finding[1..];
    assert [Call(2, server, id, request), Lock(2)] + [FindHandler(2), FindChannel(2)] ==
           [Call(2, server, id, request), Lock(2), FindHandler(2), FindChannel(2)];
    PathConcat(lookup, [Call(2, server, id, request), Lock(2), FindHandler(2), FindChannel(2)],
               waiting, [Init(2, server, id), Publish(2, server, id, request), Sleep(2)]);
    states := lookup + waiting[1..];
  }

  lemma LockingPath(server: string, id: uint64, request: UserInputRequest) returns (states: seq<State>)
    ensures Path(states, [Call(2, server, id, request), Lock(2)])
    ensures states[0] == State(map[server := NO_REQUEST], {server}, None, map[])
    ensures states[2] == Owned(server, NO_REQUEST, FindingHandler(server, id, request))
  {
    var s0 := State(map[server := NO_REQUEST], {server}, None, map[]);
    var s1 := s0.(pcs := map[2 := Locking(server, id, request)]);
    var s2 := Owned(server, NO_REQUEST, FindingHandler(server, id, request));
    assert Do(s1, Lock(2)) == s2;
    states := [s0, s1, s2];
  }

  lemma FindingPath(server: string, id: uint64, request: UserInputRequest) returns (states: seq<State>)
    ensures Path(states, [FindHandler(2), FindChannel(2)])
    ensures states[0] == Owned(server, NO_REQUEST, FindingHandler(server, id, request))
    ensures states[2] == Owned(server, NO_REQUEST, Initialising(server, id, request))
  {
    var s0 := Owned(server, NO_REQUEST, FindingHandler(server, id, request));
    var s1 := Owned(server, NO_REQUEST, FindingChannel(server, id, request, true));
    var s2 := Owned(server, NO_REQUEST, Initialising(server, id, request));
    assert Do(s0, FindHandler(2)) == s1;
    assert Do(s1, FindChannel(2)) == s2;
    states := [s0, s1, s2];
  }

  lemma WaitingPath(server: string, id: uint64, request: UserInputRequest) returns (states: seq<State>)
    requires id != 0
    ensures Path(states, [Init(2, server, id), Publish(2, server, id, request), Sleep(2)])
    ensures states[0] == Owned(server, NO_REQUEST, Initialising(server, id, request))
    ensures states[3] == Owned(server, RequestState(id, INVALID_REPLY, false), Sleeping(server, id))
  {
    var current := RequestState(id, INVALID_REPLY, false);
    var s0 := Owned(server, NO_REQUEST, Initialising(server, id, request));
    var s1 := Owned(server, current, Publishing(server, id, request));
    var s2 := Owned(server, current, Checking(server, id));
    var s3 := Owned(server, current, Sleeping(server, id));
    assert Do(s0, Init(2, server, id)) == s1;
    assert Do(s1, Publish(2, server, id, request)) == s2;
    assert Do(s2, Sleep(2)) == s3;
    states := [s0, s1, s2, s3];
  }

  /** The interface's note that implementations take care of an interrupt arriving before
      its request does not hold: after this run the interrupt for the request is over, yet
      the requesting thread sleeps, what it waits for has not happened and nobody owes it a
      notification. By WaitOutcome an interrupt works if and only if it comes after the
      initialisation of its request. */
  lemma EarlyInterruptIsLost(server: string, id: uint64, request: UserInputRequest)
    requires id != 0
    ensures var log := EarlyInterrupt(server, id) + LateRequest(server, id, request);
            && Exec(log).Some?
            && var s := Exec(log).value;
               && s.pcs == map[2 := Sleeping(server, id)]
               && !Served(s, 2) && !OwedNotify(s, server)
  {
    var before := EarlyInterruptPath(server, id);
    PathExec([], before, EarlyInterrupt(server, id));
    assert [] + EarlyInterrupt(server, id) == EarlyInterrupt(server, id);
    var after := LateRequestPath(server, id, request);
    PathExec(EarlyInterrupt(server, id), after, LateRequest(server, id, request));
  }
}
