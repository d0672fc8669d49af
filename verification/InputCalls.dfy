/** Whole calls of GetUserInput and Interrupt in the user input machine: what a call returns
    and publishes, in terms of how it was called and of what the log has in between. */
module InputCalls {
  import opened AnyValues
  import opened InputRequests
  import opened InputMachine

  // ---- The steps of one thread ----

  datatype Kind = CallKind | FindHandlerKind | FindChannelKind | InitKind | FinishKind | InterruptKind

  predicate IsKind(a: Step, t: Thread, kind: Kind) {
    match kind
    case CallKind => a.Call? && a.t == t
    case FindHandlerKind => a.FindHandler? && a.t == t
    case FindChannelKind => a.FindChannel? && a.t == t
    case InitKind => a.Init? && a.t == t
    case FinishKind => a.Finish? && a.t == t
    case InterruptKind => a.CallInterrupt? && a.t == t
  }

  /** Position of the last step of a kind by a thread, or -1. */
  function Last(log: seq<Step>, t: Thread, kind: Kind): (i: int)
    ensures -1 <= i < |log|
    ensures i >= 0 ==> IsKind(log[i], t, kind)
    ensures forall j :: i < j < |log| ==> !IsKind(log[j], t, kind)
  {
    if log == [] then -1
    else if IsKind(log[|log| - 1], t, kind) then |log| - 1
    else Last(log[..|log| - 1], t, kind)
  }

  lemma LastSnoc(log: seq<Step>, a: Step, t: Thread, kind: Kind)
    ensures Last(log + [a], t, kind) == if IsKind(a, t, kind) then |log| else Last(log, t, kind)
  {
    assert (log + [a])[..|log|] == log;
  }

  // ---- What is registered ----

  function Handlers(log: seq<Step>): set<string> {
    if log == [] then {}
    else
      var front, a := Handlers(log[..|log| - 1]), log[|log| - 1];
      if a.RegisterHandler? then front + {a.server} else front
  }

  function Channels(log: seq<Step>): set<string> {
    if log == [] then {}
    else
      var front, a := Channels(log[..|log| - 1]), log[|log| - 1];
      if a.RegisterChannel? then front + {a.server} else front
  }

  lemma {:induction false} Registrations(log: seq<Step>)
    requires Exec(log).Some?
    ensures Exec(log).value.handlers.Keys == Handlers(log) && Exec(log).value.channels == Channels(log)
  {
    if log != [] {
      Registrations(log[..|log| - 1]);
      Invariant(log[..|log| - 1]);
      RegistrationStep(Exec(log[..|log| - 1]).value, log[|log| - 1]);
    }
  }

  lemma RegistrationStep(s: State, a: Step)
    requires FoundInv(s) && Enabled(s, a)
    ensures Do(s, a).handlers.Keys == s.handlers.Keys + if a.RegisterHandler? then {a.server} else {}
    ensures Do(s, a).channels == s.channels + if a.RegisterChannel? then {a.server} else {}
  {
  }

  // ---- The story of a thread ----

  /** The last steps of each kind by a thread with their positions, and what was registered
      when it made its lookups. */
  datatype Story = Story(
    call: int, findHandler: int, findChannel: int, init: int, finish: int,
    called: Option<Step>, initial: Option<Step>, finished: Option<Step>, interrupting: Option<Step>,
    handlers: set<string>, channels: set<string>)

  function StepAt(log: seq<Step>, i: int): Option<Step>
    requires i < |log|
  {
    if i < 0 then None else Some(log[i])
  }

  function StepOf(log: seq<Step>, t: Thread, kind: Kind): Option<Step> {
    StepAt(log, Last(log, t, kind))
  }

  /** What was registered when a thread last looked a handler up. */
  function HandlersSeen(log: seq<Step>, t: Thread): set<string> {
    var h := Last(log, t, FindHandlerKind);
    if h < 0 then {} else Handlers(log[..h])
  }

  function ChannelsSeen(log: seq<Step>, t: Thread): set<string> {
    var g := Last(log, t, FindChannelKind);
    if g < 0 then {} else Channels(log[..g])
  }

  function StoryOf(log: seq<Step>, t: Thread): Story {
    Story(Last(log, t, CallKind), Last(log, t, FindHandlerKind), Last(log, t, FindChannelKind),
          Last(log, t, InitKind), Last(log, t, FinishKind),
          StepOf(log, t, CallKind), StepOf(log, t, InitKind), StepOf(log, t, FinishKind),
          StepOf(log, t, InterruptKind), HandlersSeen(log, t), ChannelsSeen(log, t))
  }

  /** How one more step, the n-th, changes the story. */
  function Extend(story: Story, t: Thread, a: Step, n: nat, handlers: set<string>, channels: set<string>): Story {
    Story(if IsKind(a, t, CallKind) then n else story.call,
          if IsKind(a, t, FindHandlerKind) then n else story.findHandler,
          if IsKind(a, t, FindChannelKind) then n else story.findChannel,
          if IsKind(a, t, InitKind) then n else story.init,
          if IsKind(a, t, FinishKind) then n else story.finish,
          if IsKind(a, t, CallKind) then Some(a) else story.called,
          if IsKind(a, t, InitKind) then Some(a) else story.initial,
          if IsKind(a, t, FinishKind) then Some(a) else story.finished,
          if IsKind(a, t, InterruptKind) then Some(a) else story.interrupting,
          if IsKind(a, t, FindHandlerKind) then handlers else story.handlers,
          if IsKind(a, t, FindChannelKind) then channels else story.channels)
  }

  lemma StepSnoc(log: seq<Step>, a: Step, t: Thread, kind: Kind)
    ensures Last(log + [a], t, kind) == if IsKind(a, t, kind) then |log| else Last(log, t, kind)
    ensures StepOf(log + [a], t, kind) == if IsKind(a, t, kind) then Some(a) else StepOf(log, t, kind)
  {
    LastSnoc(log, a, t, kind);
  }

  lemma SeenSnoc(log: seq<Step>, a: Step, t: Thread)
    ensures HandlersSeen(log + [a], t) == if IsKind(a, t, FindHandlerKind) then Handlers(log) else HandlersSeen(log, t)
    ensures ChannelsSeen(log + [a], t) == if IsKind(a, t, FindChannelKind) then Channels(log) else ChannelsSeen(log, t)
  {
    LastSnoc(log, a, t, FindHandlerKind);
    LastSnoc(log, a, t, FindChannelKind);
    var more := log + [a];
    assert more[..|log|] == log;
    var h, g := Last(log, t, FindHandlerKind), Last(log, t, FindChannelKind);
    assert h >= 0 ==> more[..h] == log[..h];
    assert g >= 0 ==> more[..g] == log[..g];
  }

  lemma StorySnoc(log: seq<Step>, a: Step, t: Thread)
    ensures StoryOf(log + [a], t) == Extend(StoryOf(log, t), t, a, |log|, Handlers(log), Channels(log))
  {
    StepSnoc(log, a, t, CallKind);
    StepSnoc(log, a, t, FindHandlerKind);
    StepSnoc(log, a, t, FindChannelKind);
    StepSnoc(log, a, t, InitKind);
    StepSnoc(log, a, t, FinishKind);
    StepSnoc(log, a, t, InterruptKind);
    SeenSnoc(log, a, t);
  }

  predicate Before(story: Story, n: nat) {
    story.call < n && story.findHandler < n && story.findChannel < n && story.init < n && story.finish < n
  }

  /** Both lookups of the call have been successful. */
  predicate Known(story: Story, server: string) {
    server in story.handlers && server in story.channels
  }

  predicate CalledAs(story: Story, t: Thread, server: string, id: uint64) {
    && story.call >= 0 && story.called.Some? && story.called.value.Call?
    && story.called.value.t == t && story.called.value.server == server && story.called.value.id == id
  }

  predicate CalledWith(story: Story, t: Thread, server: string, id: uint64, request: UserInputRequest) {
    story.call >= 0 && story.called == Some(Call(t, server, id, request))
  }

  predicate NotYetInitialised(story: Story) {
    story.init < story.call && story.finish < story.call
  }

  predicate InitialisedAs(story: Story, t: Thread, server: string, id: uint64) {
    && story.call < story.findHandler < story.findChannel < story.init
    && Known(story, server) && story.initial == Some(Init(t, server, id))
  }

  predicate FinishedAs(story: Story, t: Thread, server: string, id: uint64, outcome: Option<UserInputReply>) {
    && InitialisedAs(story, t, server, id)
    && story.init < story.finish && story.finished == Some(Finish(t, server, id, outcome))
  }

  /** How far a thread has come in its call, read off its story. */
  predicate Stage(story: Story, t: Thread, pc: Pc) {
    match pc
    case Locking(server, id, request) => CalledWith(story, t, server, id, request) && NotStarted(story)
    case FindingHandler(server, id, request) => CalledWith(story, t, server, id, request) && NotStarted(story)
    case FindingChannel(server, id, request, hasHandler) =>
      && CalledWith(story, t, server, id, request) && NotYetInitialised(story)
      && story.findChannel < story.call < story.findHandler
      && hasHandler == (server in story.handlers)
    case Initialising(server, id, request) =>
      && CalledWith(story, t, server, id, request) && NotYetInitialised(story)
      && story.call < story.findHandler < story.findChannel && Known(story, server)
    case Publishing(server, id, request) =>
      && CalledWith(story, t, server, id, request)
      && InitialisedAs(story, t, server, id) && story.finish < story.call
    case Checking(server, id) =>
      CalledAs(story, t, server, id) && InitialisedAs(story, t, server, id) && story.finish < story.call
    case Sleeping(server, id) =>
      CalledAs(story, t, server, id) && InitialisedAs(story, t, server, id) && story.finish < story.call
    case Retracting(server, id, outcome) =>
      CalledAs(story, t, server, id) && FinishedAs(story, t, server, id, outcome)
    case Returning(server, id, outcome) =>
      && CalledAs(story, t, server, id)
      && (FinishedAs(story, t, server, id, outcome) || Refused(story, server, outcome))
    case Interrupting(server, id) => story.interrupting == Some(CallInterrupt(t, server, id, true))
    case Notifying(_) => true
  }

  predicate NotStarted(story: Story) {
    story.findHandler < story.call && story.findChannel < story.call && NotYetInitialised(story)
  }

  predicate Refused(story: Story, server: string, outcome: Option<UserInputReply>) {
    && story.call < story.findHandler < story.findChannel && NotYetInitialised(story)
    && !Known(story, server) && outcome == None
  }

  /** Threads are moved on by their own steps only, except for being woken up. */
  lemma OthersStay(s: State, a: Step, t: Thread)
    requires Enabled(s, a) && t in s.pcs && t in Do(s, a).pcs && !IsOfThread(a, t)
    ensures Do(s, a).pcs[t] == s.pcs[t]
            || (s.pcs[t].Sleeping? && Do(s, a).pcs[t] == Checking(s.pcs[t].server, s.pcs[t].id))
  {
  }

  predicate IsOfThread(a: Step, t: Thread) {
    !a.RegisterHandler? && !a.RegisterChannel? && a.t == t
  }

  lemma OwnStage(s: State, a: Step, t: Thread, story: Story, n: nat)
    requires Enabled(s, a) && t in Do(s, a).pcs && Before(story, n) && IsOfThread(a, t)
    requires t in s.pcs ==> Stage(story, t, s.pcs[t])
    ensures Stage(Extend(story, t, a, n, s.handlers.Keys, s.channels), t, Do(s, a).pcs[t])
  {
  }

  lemma ExtendByOther(story: Story, t: Thread, a: Step, n: nat, handlers: set<string>, channels: set<string>)
    requires !IsOfThread(a, t)
    ensures Extend(story, t, a, n, handlers, channels) == story
  {
  }

  lemma StageStep(s: State, a: Step, t: Thread, story: Story, n: nat)
    requires Enabled(s, a) && t in Do(s, a).pcs && Before(story, n)
    requires t in s.pcs ==> Stage(story, t, s.pcs[t])
    ensures Stage(Extend(story, t, a, n, s.handlers.Keys, s.channels), t, Do(s, a).pcs[t])
  {
    if IsOfThread(a, t) {
      OwnStage(s, a, t, story, n);
    } else {
      ExtendByOther(story, t, a, n, s.handlers.Keys, s.channels);
      NoOtherBegins(s, a, t);
      OthersStay(s, a, t);
    }
  }

  lemma NoOtherBegins(s: State, a: Step, t: Thread)
    requires Enabled(s, a) && t in Do(s, a).pcs && !IsOfThread(a, t)
    ensures t in s.pcs
  {
  }

  lemma {:induction false} Stages(log: seq<Step>, t: Thread)
    requires Exec(log).Some? && t in Exec(log).value.pcs
    ensures Stage(StoryOf(log, t), t, Exec(log).value.pcs[t])
  {
    if log != [] {
      var front, a := log[..|log| - 1], log[|log| - 1];
      var s := Exec(front).value;
      if t in s.pcs {
        Stages(front, t);
      }
      Registrations(front);
      assert log == front + [a];
      StorySnoc(front, a, t);
      StageStep(s, a, t, StoryOf(front, t), |front|);
    }
  }

  // ---- What a call of GetUserInput answers ----

  predicate InterruptedBetween(log: seq<Step>, i: int, m: int, server: string, id: uint64) {
    exists j :: 0 <= j < |log| && i < j < m && IsInterruptOf(log[j], server, id)
  }

  /** A Finish reads the monitor of its own initialisation, and what it reads is settled by
      the interrupts and replies since then. */
  lemma FinishExact(log: seq<Step>, m: nat, i: nat)
    requires Exec(log).Some? && m < |log| && log[m].Finish?
    requires i < m && log[i] == Init(log[m].t, log[m].server, log[m].id)
    requires forall j :: i < j < m ==> !IsKind(log[j], log[m].t, InitKind)
    ensures forall j :: i < j < m ==> !IsInit(log[j], log[m].server)
    ensures var a := log[m];
            && (a.outcome == None <==> a.id == 0 || InterruptedBetween(log, i, m, a.server, a.id))
            && (a.outcome.Some? ==>
                  exists j :: i < j < m && IsFirstValidReply(log, i, j, a.server, a.id)
                              && log[j].reply == a.outcome.value)
  {
    var a, before := log[m], log[..m];
    var s := MonitorAt(log, m, a.server);
    assert RequestOf(before, a.t, a.server, a.id);
    var last := LastInit(before, a.server);
    assert before[last] == log[last] == Init(a.t, a.server, a.id);
    assert before[i] == log[i];
    assert last == i;
    assert forall j :: i < j < m ==> before[j] == log[j];
    if a.id != 0 {
      WaitOutcome(log, m);
    }
  }

  /** What the story of a thread says about the log. */
  lemma StoryInLog(log: seq<Step>, k: nat, t: Thread)
    requires k <= |log|
    ensures var story := StoryOf(log[..k], t);
            && story.call < k && story.findHandler < k && story.findChannel < k
            && -1 <= story.init < k && story.finish < k
            && (story.call >= 0 ==> Some(log[story.call]) == story.called)
            && (story.findHandler >= 0 ==>
                  && log[story.findHandler] == FindHandler(t)
                  && story.handlers == Handlers(log[..story.findHandler]))
            && (story.findChannel >= 0 ==>
                  && log[story.findChannel] == FindChannel(t)
                  && story.channels == Channels(log[..story.findChannel]))
            && (story.init >= 0 ==> Some(log[story.init]) == story.initial)
            && (story.finish >= 0 ==> Some(log[story.finish]) == story.finished)
            && (forall j :: story.call < j < k ==> !IsKind(log[j], t, CallKind))
            && (forall j :: story.init < j < k ==> !IsKind(log[j], t, InitKind))
  {
    var before := log[..k];
    var h, g := Last(before, t, FindHandlerKind), Last(before, t, FindChannelKind);
    assert forall j :: 0 <= j < k ==> before[j] == log[j];
    assert h >= 0 ==> before[..h] == log[..h];
    assert g >= 0 ==> before[..g] == log[..g];
  }

  /** The parts of a call that returns, from the call to the return: its lookups and, if both
      find something, its initialisation i and the end m of its wait. */
  datatype Parts = Parts(call: int, findHandler: int, findChannel: int, init: int, finish: int)

  predicate ArePartsOf(log: seq<Step>, k: nat, p: Parts)
    requires k < |log| && log[k].Return?
  {
    var a := log[k];
    && 0 <= p.call < p.findHandler < p.findChannel < k
    && log[p.call].Call? && log[p.call].t == a.t && log[p.call].server == a.server && log[p.call].id == a.id
    && (forall j :: p.call < j < k ==> !IsCallOf(log[j], a.t))
    && log[p.findHandler] == FindHandler(a.t) && log[p.findChannel] == FindChannel(a.t)
  }

  predicate BothFound(log: seq<Step>, p: Parts, server: string)
    requires 0 <= p.findHandler <= |log| && 0 <= p.findChannel <= |log|
  {
    server in Handlers(log[..p.findHandler]) && server in Channels(log[..p.findChannel])
  }

  predicate Waited(log: seq<Step>, k: nat, p: Parts)
    requires k < |log| && log[k].Return?
  {
    var a := log[k];
    && 0 <= p.findChannel < p.init < p.finish < k
    && log[p.init] == Init(a.t, a.server, a.id)
    && log[p.finish].Finish? && log[p.finish].t == a.t
    && log[p.finish].server == a.server && log[p.finish].id == a.id
    && (forall j :: p.init < j < p.finish ==> !IsInit(log[j], a.server))
  }

  /** The call initialised a request if and only if both its lookups found something. */
  predicate InitialisedIfFound(log: seq<Step>, k: nat, p: Parts)
    requires k < |log| && log[k].Return? && ArePartsOf(log, k, p)
  {
    if BothFound(log, p, log[k].server) then Waited(log, k, p)
    else forall j :: p.call < j < k ==> !IsKind(log[j], log[k].t, InitKind)
  }

  /** The answer is invalid if and only if nothing was initialised, the id is zero or an
      interrupt came during the wait; otherwise it is the first valid reply in it. */
  predicate AnswersExactly(log: seq<Step>, k: nat, p: Parts)
    requires k < |log| && log[k].Return? && ArePartsOf(log, k, p) && InitialisedIfFound(log, k, p)
  {
    var a := log[k];
    && (a.reply == INVALID_REPLY <==>
          || !BothFound(log, p, a.server) || a.id == 0
          || InterruptedBetween(log, p.init, p.finish, a.server, a.id))
    && (a.reply != INVALID_REPLY ==>
          exists j :: p.init < j < p.finish && IsFirstValidReply(log, p.init, j, a.server, a.id)
                      && log[j].reply == a.reply)
  }

  /** GetUserInput over all runs, exactly. The call initialises a request, under the server and
      the id it was made with, if and only if both its lookups find what they look for. It
      answers with the invalid reply if and only if it initialised none, its id is zero or an
      interrupt for the id came between the initialisation and the end of its wait. In all
      other cases it answers with the first valid reply to the id after the initialisation. */
  lemma CallAnswers(log: seq<Step>, k: nat) returns (p: Parts)
    requires Exec(log).Some? && k < |log| && log[k].Return?
    ensures ArePartsOf(log, k, p)
    ensures InitialisedIfFound(log, k, p) && AnswersExactly(log, k, p)
  {
    var t := log[k].t;
    var s := StageAt(log, k, t);
    StoryInLog(log, k, t);
    var story := StoryOf(log[..k], t);
    p := Parts(story.call, story.findHandler, story.findChannel, story.init, story.finish);
    StoryHasParts(log, k, s, story, p);
    AnswerFromStory(log, k, s, story, p);
  }

  lemma StageAt(log: seq<Step>, k: nat, t: Thread) returns (s: State)
    requires Exec(log).Some? && k < |log|
    ensures Exec(log[..k]) == Some(s) && Enabled(s, log[k])
    ensures t in s.pcs ==> Stage(StoryOf(log[..k], t), t, s.pcs[t])
  {
    ExecPrefix(log, k);
    s := Exec(log[..k]).value;
    if t in s.pcs {
      Stages(log[..k], t);
    }
  }

  lemma StoryHasParts(log: seq<Step>, k: nat, s: State, story: Story, p: Parts)
    requires k < |log| && log[k].Return? && Enabled(s, log[k]) && Stage(story, log[k].t, s.pcs[log[k].t])
    requires p == Parts(story.call, story.findHandler, story.findChannel, story.init, story.finish)
    requires p.call < k && p.findHandler < k && p.findChannel < k
    requires p.call >= 0 ==> Some(log[p.call]) == story.called
    requires p.findHandler >= 0 ==> log[p.findHandler] == FindHandler(log[k].t)
    requires p.findChannel >= 0 ==> log[p.findChannel] == FindChannel(log[k].t)
    requires forall j :: p.call < j < k && 0 <= j ==> !IsKind(log[j], log[k].t, CallKind)
    ensures ArePartsOf(log, k, p)
  {
  }

  lemma AnswerFromStory(log: seq<Step>, k: nat, s: State, story: Story, p: Parts)
    requires Exec(log).Some? && k < |log| && log[k].Return? && Enabled(s, log[k])
    requires Stage(story, log[k].t, s.pcs[log[k].t])
    requires p == Parts(story.call, story.findHandler, story.findChannel, story.init, story.finish)
    requires 0 <= p.findHandler < k && 0 <= p.findChannel < k && -1 <= p.init < k && p.finish < k
    requires ArePartsOf(log, k, p)
    requires story.handlers == Handlers(log[..p.findHandler]) && story.channels == Channels(log[..p.findChannel])
    requires p.init >= 0 ==> Some(log[p.init]) == story.initial
    requires p.finish >= 0 ==> Some(log[p.finish]) == story.finished
    requires forall j :: p.init < j < k ==> !IsKind(log[j], log[k].t, InitKind)
    ensures InitialisedIfFound(log, k, p) && AnswersExactly(log, k, p)
  {
    var a := log[k];
    if BothFound(log, p, a.server) {
      FinishExact(log, p.finish, p.init);
    }
  }

  /** What is announced on a request channel is the request the call was made with, under the
      server and the id it was made with and after it was initialised. */
  lemma PublishedRequest(log: seq<Step>, k: nat) returns (c: nat, i: nat)
    requires Exec(log).Some? && k < |log| && log[k].Publish?
    ensures var a := log[k];
            && c < i < k && log[c] == Call(a.t, a.server, a.id, a.request) && log[i] == Init(a.t, a.server, a.id)
            && (forall j :: c < j < k ==> !IsCallOf(log[j], a.t))
  {
    var a := log[k];
    var s := StageAt(log, k, a.t);
    StoryInLog(log, k, a.t);
    var story := StoryOf(log[..k], a.t);
    c, i := story.call, story.init;
  }

  /** An interrupt reaches the monitor under the server and the id it was called with. */
  lemma InterruptHasCall(log: seq<Step>, k: nat) returns (c: nat)
    requires Exec(log).Some? && k < |log| && log[k].Interrupt?
    ensures c < k && log[c] == CallInterrupt(log[k].t, log[k].server, log[k].id, true)
  {
    var a := log[k];
    var s := StageAt(log, k, a.t);
    c := Last(log[..k], a.t, InterruptKind);
  }

  // ---- Nobody is stuck ----

  /** In every state what is not registered can be, and any thread that is in no call can begin
      any call: ask for input with any id and request, reply to any known server, and interrupt
      any id. */
  lemma CallsArePossible(
    log: seq<Step>, t: Thread, server: string, id: uint64, request: UserInputRequest, reply: UserInputReply)
    requires Exec(log).Some? && t !in Exec(log).value.pcs
    ensures var s := Exec(log).value;
            && Enabled(s, Call(t, server, id, request))
            && (exists found :: Enabled(s, CallInterrupt(t, server, id, found)))
            && (server !in Handlers(log) ==> Enabled(s, RegisterHandler(server)))
            && (server !in Channels(log) ==> Enabled(s, RegisterChannel(server)))
            && (server in Handlers(log) ==> exists accepted :: Enabled(s, Reply(t, server, id, reply, accepted)))
  {
    Registrations(log);
    var s := Exec(log).value;
    assert Enabled(s, CallInterrupt(t, server, id, server in s.handlers));
    if server in s.handlers {
      assert Enabled(s, Reply(t, server, id, reply, Accepts(s.handlers[server], id, reply)));
    }
  }

  /** The thread that makes a step, if it is one of a call in progress. */
  predicate IsStepOf(a: Step, t: Thread) {
    match a
    case RegisterHandler(_) => false
    case RegisterChannel(_) => false
    case Call(_, _, _, _) => false
    case Reply(_, _, _, _, _) => false
    case CallInterrupt(_, _, _, _) => false
    case SpuriousWake(_) => false
    case _ => a.t == t
  }

  /** A thread inside a call can always make its next step, unless it sleeps in its wait or
      waits for the mutex while another call of GetUserInput holds it. */
  lemma NobodyIsStuck(log: seq<Step>, t: Thread) returns (a: Step)
    requires Exec(log).Some? && t in Exec(log).value.pcs
    requires !Exec(log).value.pcs[t].Sleeping?
    requires Exec(log).value.pcs[t].Locking? ==>
               forall u :: u in Exec(log).value.pcs ==> !Holds(Exec(log).value.pcs[u])
    ensures IsStepOf(a, t) && Enabled(Exec(log).value, a)
  {
    Invariant(log);
    var s := Exec(log).value;
    match s.pcs[t]
    case Locking(_, _, _) => a := Lock(t);
    case FindingHandler(_, _, _) => a := FindHandler(t);
    case FindingChannel(_, _, _, _) => a := FindChannel(t);
    case Initialising(server, id, _) => a := Init(t, server, id);
    case Publishing(server, id, request) => a := Publish(t, server, id, request);
    case Checking(server, id) =>
      a := if id == 0 || Ready(s.handlers[server], id) then Finish(t, server, id, Outcome(s.handlers[server], id))
           else Sleep(t);
    case Retracting(server, _, _) => a := Retract(t, server);
    case Returning(server, id, outcome) =>
      a := Return(t, server, id, if outcome.None? then INVALID_REPLY else outcome.value);
    case Interrupting(server, id) => a := Interrupt(t, server, id, s.handlers[server].requestId == id);
    case Notifying(server) =>
      if u :| u in s.pcs && IsSleeper(s, u, server) {
        a := NotifyOne(t, server, Some(u));
      } else {
        a := NotifyOne(t, server, None);
      }
  }
}
