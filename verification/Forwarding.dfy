/** The server's end of a job: events are named, encoded and handed to a value manager.
    With the client's manager behind it, the client's job interface sees the server's calls. */
module Forwarding {
  import opened AnyValues
  import opened Naming
  import opened Codecs
  import opened ValueSets
  import opened IndexGeneration
  import opened ClientManager

  // ---- What an event publishes ----

  /** The published value that an event updates, if it updates one. */
  function SlotOf(e: JobEvent): Option<ValueNameInfo> {
    match e
    case InstructionStateUpdated(i, _) => Some(ValueNameInfo(InstructionName, i))
    case BreakpointInstructionUpdated(_) => Some(ValueNameInfo(BreakpointInstructionName, 0))
    case VariableUpdated(i, _, _) => Some(ValueNameInfo(VariableName, i))
    case JobStateUpdated(_) => Some(ValueNameInfo(JobStatusName, 0))
    case PutValue(_, _) => Some(ValueNameInfo(OutputValueEntryName, 0))
    case Message(_) => Some(ValueNameInfo(MessageEntryName, 0))
    case Log(_, _) => Some(ValueNameInfo(LogEntryName, 0))
    case InitNumberOfInstructions(_) => None
    case InterruptRequest(_) => None
    case ProcedureTicked => None
  }

  /** The value published for an event; log, message and output entries carry an index. */
  function EncodedEvent(e: JobEvent, index: uint64): AnyValue
    requires SlotOf(e).Some?
  {
    match e
    case InstructionStateUpdated(_, state) => InstructionStateValue(state)
    case BreakpointInstructionUpdated(i) => GetBreakpointInstructionValue(i)
    case VariableUpdated(_, value, connected) => EncodeVariableState(value, connected)
    case JobStateUpdated(state) => GetJobStateValue(state)
    case PutValue(value, description) => EncodeOutputValueEntry(OutputValueEntry(index, description, value))
    case Message(message) => EncodeMessageEntry(MessageEntry(index, message))
    case Log(severity, text) => EncodeLogEntry(LogEntry(index, severity, text))
  }

  /** How many events of a history update the given value. */
  function CountOf(history: seq<JobEvent>, slot: ValueNameInfo): nat {
    if history == [] then 0
    else CountOf(history[..|history| - 1], slot) + if SlotOf(history[|history| - 1]) == Some(slot) then 1 else 0
  }

  /** The update that an event causes after a history: entries of each sort are numbered by
      themselves, whatever other events come in between. */
  function UpdateFor(prefix: string, history: seq<JobEvent>, e: JobEvent): (string, AnyValue)
    requires SlotOf(e).Some?
  {
    var slot := SlotOf(e).value;
    SlotWellFormed(e);
    (PVName(prefix, slot), EncodedEvent(e, NthIndex(CountOf(history, slot) + 1)))
  }

  function RequestsFor(prefix: string, history: seq<JobEvent>, e: JobEvent): seq<Request> {
    if e.InitNumberOfInstructions? then [Register(InstructionValueSet(prefix, e.nInstr))]
    else if e.InterruptRequest? then [InterruptInput(GetInputServerName(prefix), e.id)]
    else if SlotOf(e) == None then []
    else var (name, value) := UpdateFor(prefix, history, e); [Publish(name, value)]
  }

  /** All requests that a job makes, in order: those of its construction and then those of
      each call. */
  function Program(prefix: string, nVars: uint32, history: seq<JobEvent>): seq<Request> {
    if history == [] then [Register(InitialValueSet(prefix, nVars)), Register(ChannelValueSet(prefix))]
    else
      var front := history[..|history| - 1];
      Program(prefix, nVars, front) + RequestsFor(prefix, front, history[|history| - 1])
  }

  function ChannelValueSet(prefix: string): NameAnyValueSet {
    ChannelValues(GetInputServerName(prefix))
  }

  /** The ids of the interrupts in a history, and the interrupts among requests. */
  function InterruptIds(history: seq<JobEvent>): seq<uint64> {
    if history == [] then []
    else
      var front, e := InterruptIds(history[..|history| - 1]), history[|history| - 1];
      if e.InterruptRequest? then front + [e.id] else front
  }

  function Interrupts(requests: seq<Request>): seq<(string, uint64)> {
    if requests == [] then []
    else
      var front, r := Interrupts(requests[..|requests| - 1]), requests[|requests| - 1];
      if r.InterruptInput? then front + [(r.inputServerName, r.id)] else front
  }

  lemma {:induction false} InterruptIdsConcat(a: seq<JobEvent>, b: seq<JobEvent>)
    ensures InterruptIds(a + b) == InterruptIds(a) + InterruptIds(b)
    decreases |b|
  {
    if b == [] {
      assert a + b == a;
    } else {
      InterruptIdsConcat(a, b[..|b| - 1]);
      assert (a + b)[..|a + b| - 1] == a + b[..|b| - 1];
    }
  }

  lemma {:induction false} NoInterrupts(events: seq<JobEvent>)
    requires forall k :: 0 <= k < |events| ==> !events[k].InterruptRequest?
    ensures InterruptIds(events) == []
  {
    if events != [] {
      NoInterrupts(events[..|events| - 1]);
    }
  }

  /** Interrupts get through to the client's job interface one by one and in order, whatever
      else happens, and none are made up. */
  lemma {:induction false} InterruptsAreForwarded(prefix: string, nVars: uint32, history: seq<JobEvent>)
    ensures InterruptIds(ClientTrace(prefix, nVars, history)) == InterruptIds(history)
  {
    if history == [] {
      NoInterrupts(ClientTrace(prefix, nVars, []));
    } else {
      var front, e := history[..|history| - 1], history[|history| - 1];
      InterruptsAreForwarded(prefix, nVars, front);
      SeenInterrupts(prefix, nVars, Instructions(front), e);
      InterruptIdsConcat(ClientTrace(prefix, nVars, front), Seen(prefix, nVars, Instructions(front), e));
    }
  }

  lemma SeenInterrupts(prefix: string, nVars: uint32, nInstr: uint32, e: JobEvent)
    ensures InterruptIds(Seen(prefix, nVars, nInstr, e)) == if e.InterruptRequest? then [e.id] else []
  {
    if e.InterruptRequest? {
      assert [e][..0] == [];
    } else {
      NoInterrupts(Seen(prefix, nVars, nInstr, e));
    }
  }

  /** A job asks its manager for exactly the interrupts it is called with, each at the input
      server for which it registered a handler, by the name composed for that server. */
  lemma {:induction false} InterruptsOfProgram(serverPrefix: string, idx: uint32, nVars: uint32, history: seq<JobEvent>)
    ensures var server := ComposedName(serverPrefix, idx, InputServer);
            var made := Interrupts(Program(CreateJobPrefix(serverPrefix, idx), nVars, history));
            && Program(CreateJobPrefix(serverPrefix, idx), nVars, [])[1] == Register(ChannelValues(server))
            && |made| == |InterruptIds(history)|
            && forall k :: 0 <= k < |made| ==> made[k] == (server, InterruptIds(history)[k])
  {
    var prefix := CreateJobPrefix(serverPrefix, idx);
    if history == [] {
      NoInterruptRequests(Program(prefix, nVars, []));
    } else {
      var front, e := history[..|history| - 1], history[|history| - 1];
      var program, added := Program(prefix, nVars, front), RequestsFor(prefix, front, e);
      InterruptsOfProgram(serverPrefix, idx, nVars, front);
      if added == [] {
        assert program + added == program;
      } else {
        assert (program + added)[..|program|] == program;
      }
    }
  }

  lemma {:induction false} NoInterruptRequests(requests: seq<Request>)
    requires forall k :: 0 <= k < |requests| ==> !requests[k].InterruptInput?
    ensures Interrupts(requests) == []
  {
    if requests != [] {
      NoInterruptRequests(requests[..|requests| - 1]);
    }
  }

  lemma SlotWellFormed(e: JobEvent)
    ensures SlotOf(e).Some? ==> WellFormed(SlotOf(e).value)
  {
  }

  // ---- What the client sees ----

  /** The number of instructions registered: the first call with a number above zero counts,
      later ones clash with its names. */
  function Instructions(history: seq<JobEvent>): uint32 {
    if history == [] then 0
    else
      var n, e := Instructions(history[..|history| - 1]), history[|history| - 1];
      if n == 0 && e.InitNumberOfInstructions? then e.nInstr else n
  }

  function InitialStates(n: uint32): seq<JobEvent> {
    seq(n, i requires 0 <= i < n => InstructionStateUpdated(i, INITIAL_INSTRUCTION_STATE))
  }

  /** The calls on the client's job interface that one call on the server's end leads to,
      with so many variables and instructions registered. */
  function Seen(prefix: string, nVars: uint32, nInstr: uint32, e: JobEvent): seq<JobEvent> {
    match e
    case InterruptRequest(_) => [e]
    case ProcedureTicked => []
    case InitNumberOfInstructions(n) =>
      if prefix == "" || nInstr > 0 || n == 0 then [] else InitialStates(n) + [e]
    case InstructionStateUpdated(i, _) => if prefix != "" && i < nInstr then [e] else []
    case VariableUpdated(i, value, _) => if prefix != "" && i < nVars && value != Empty then [e] else []
    case _ => if prefix == "" then [] else [e]
  }

  const INITIAL_EVENTS: seq<JobEvent> :=
    [JobStateUpdated(INITIAL_JOB_STATE), BreakpointInstructionUpdated(INVALID_INSTRUCTION_INDEX),
     Log(0, ""), Message(""), PutValue(Empty, "")]

  /** Everything the client sees: fixed notifications at construction and then, call by
      call, the server's calls with the same arguments and in the same order, without
      ticks, indices that are out of range and empty variable values. */
  function ClientTrace(prefix: string, nVars: uint32, history: seq<JobEvent>): seq<JobEvent> {
    if history == [] then if prefix == "" then [] else INITIAL_EVENTS
    else
      var front := history[..|history| - 1];
      ClientTrace(prefix, nVars, front) + Seen(prefix, nVars, Instructions(front), history[|history| - 1])
  }

  // ---- Why ----

  /** One value on its way through naming, encoding, parsing and decoding. */
  lemma EventSurvives(prefix: string, e: JobEvent, index: uint64)
    requires SlotOf(e).Some?
    ensures WellFormed(SlotOf(e).value)
    ensures RunCallback(ParseValueName(PVName(prefix, SlotOf(e).value)), EncodedEvent(e, index)) ==
            if prefix == "" || (e.VariableUpdated? && e.value == Empty) then [] else [e]
  {
    ParseInvertsPrint(prefix, SlotOf(e).value);
    CallbackDecodes(e, index);
  }

  lemma CallbackDecodes(e: JobEvent, index: uint64)
    requires SlotOf(e).Some?
    ensures RunCallback(SlotOf(e).value, EncodedEvent(e, index)) ==
            if e.VariableUpdated? && e.value == Empty then [] else [e]
  {
  }

  /** No value of the job is registered. */
  ghost predicate Free(callbacks: map<string, ValueNameInfo>, prefix: string) {
    forall info :: WellFormed(info) ==> PVName(prefix, info) !in callbacks
  }

  /** Of a job's values exactly the published ones are registered, with their own callbacks,
      whatever else is registered with the same client. */
  ghost predicate Registered(callbacks: map<string, ValueNameInfo>, prefix: string, nVars: uint32, nInstr: uint32) {
    forall info :: WellFormed(info) ==>
      && (PVName(prefix, info) in callbacks <==> Published(info, nVars, nInstr))
      && (PVName(prefix, info) in callbacks ==>
            callbacks[PVName(prefix, info)] == ParseValueName(PVName(prefix, info)))
  }

  lemma RegisterInitial(callbacks: map<string, ValueNameInfo>, prefix: string, nVars: uint32)
    requires Free(callbacks, prefix)
    ensures var values := InitialValueSet(prefix, nVars);
            Acceptable(values, callbacks.Keys) && Registered(callbacks + Callbacks(values), prefix, nVars, 0)
  {
    var values := InitialValueSet(prefix, nVars);
    InitialNames(prefix, nVars);
    forall info | WellFormed(info)
      ensures PVName(prefix, info) in NameSet(values) <==> Published(info, nVars, 0)
    {
      InitialNameAt(prefix, nVars, info);
    }
  }

  lemma InitialNameAt(prefix: string, nVars: uint32, info: ValueNameInfo)
    requires WellFormed(info)
    ensures PVName(prefix, info) in NameSet(InitialValueSet(prefix, nVars)) <==> Published(info, nVars, 0)
  {
    InitialNames(prefix, nVars);
    forall other | Published(other, nVars, 0) && PVName(prefix, other) == PVName(prefix, info)
      ensures other == info
    {
      NameInInjective(prefix, JobValue(other), JobValue(info));
    }
  }

  lemma InstructionNameAt(prefix: string, nInstr: uint32, info: ValueNameInfo)
    requires WellFormed(info)
    ensures PVName(prefix, info) in NameSet(InstructionValueSet(prefix, nInstr))
            <==> info.valType == InstructionName && info.idx < nInstr
  {
    InstructionNames(prefix, nInstr);
    forall i: uint32 | i < nInstr && PVName(prefix, ValueNameInfo(InstructionName, i)) == PVName(prefix, info)
      ensures info == ValueNameInfo(InstructionName, i)
    {
      NameInInjective(prefix, JobValue(ValueNameInfo(InstructionName, i)), JobValue(info));
    }
    assert forall i: uint32 :: GetInstructionPVName(prefix, i) == PVName(prefix, ValueNameInfo(InstructionName, i));
  }

  lemma RegisterInstructions(callbacks: map<string, ValueNameInfo>, prefix: string, nVars: uint32, nInstr: uint32)
    requires Registered(callbacks, prefix, nVars, 0)
    ensures var values := InstructionValueSet(prefix, nInstr);
            && Acceptable(values, callbacks.Keys)
            && Registered(callbacks + Callbacks(values), prefix, nVars, nInstr)
  {
    var values := InstructionValueSet(prefix, nInstr);
    InstructionNames(prefix, nInstr);
    forall i: uint32 | i < nInstr
      ensures GetInstructionPVName(prefix, i) !in callbacks
    {
      assert GetInstructionPVName(prefix, i) == PVName(prefix, ValueNameInfo(InstructionName, i));
    }
    forall info | WellFormed(info)
      ensures PVName(prefix, info) in NameSet(values) <==> info.valType == InstructionName && info.idx < nInstr
    {
      InstructionNameAt(prefix, nInstr, info);
    }
  }

  // ---- Notifications during registration ----

  /** What the client is told about a value when it is registered; variables have no
      meaningful value yet. */
  function InitialEvent(info: ValueNameInfo): seq<JobEvent> {
    match info.valType
    case JobStatusName => [JobStateUpdated(INITIAL_JOB_STATE)]
    case BreakpointInstructionName => [BreakpointInstructionUpdated(INVALID_INSTRUCTION_INDEX)]
    case LogEntryName => [Log(0, "")]
    case MessageEntryName => [Message("")]
    case OutputValueEntryName => [PutValue(Empty, "")]
    case InstructionName => [InstructionStateUpdated(info.idx, INITIAL_INSTRUCTION_STATE)]
    case _ => []
  }

  lemma InitialValueDecodes(info: ValueNameInfo)
    ensures RunCallback(info, InitialValue(info.valType)) == InitialEvent(info)
    ensures RunCallback(UNKNOWN_NAME, InitialValue(info.valType)) == []
  {
  }

  lemma PairNotification(prefix: string, info: ValueNameInfo)
    requires WellFormed(info)
    ensures var pair := InitialPair(prefix, info);
            && RunCallback(ParseValueName(pair.0), pair.1) == (if prefix == "" then [] else InitialEvent(info))
            && (IsInstruction(pair) <==> prefix != "" && info.valType == InstructionName)
  {
    ParseInvertsPrint(prefix, info);
    InitialValueDecodes(info);
  }

  /** One pair more at the end of a set that a job registers. */
  lemma PairAppended(prefix: string, front: NameAnyValueSet, info: ValueNameInfo)
    requires WellFormed(info)
    ensures var values := front + [InitialPair(prefix, info)];
            && Notifications(values) == Notifications(front) + (if prefix == "" then [] else InitialEvent(info))
            && CountInstructions(values) ==
                 if prefix != "" && info.valType == InstructionName then Increment32(CountInstructions(front))
                 else CountInstructions(front)
  {
    var pair := InitialPair(prefix, info);
    PairNotification(prefix, info);
    NotificationsSnoc([], front, pair);
    CountSnoc(front, pair);
    assert [] + Notifications(front) == Notifications(front);
    assert [] + Notifications(front + [pair]) == Notifications(front + [pair]);
  }

  function InitialEvents(infos: seq<ValueNameInfo>): seq<JobEvent> {
    if infos == [] then [] else InitialEvents(infos[..|infos| - 1]) + InitialEvent(infos[|infos| - 1])
  }

  function InstructionCount(infos: seq<ValueNameInfo>): uint32 {
    if infos == [] then 0
    else
      var front := InstructionCount(infos[..|infos| - 1]);
      if infos[|infos| - 1].valType == InstructionName then Increment32(front) else front
  }

  lemma {:induction false} SetNotifications(prefix: string, values: NameAnyValueSet, infos: seq<ValueNameInfo>)
    requires |values| == |infos|
    requires forall k :: 0 <= k < |infos| ==> WellFormed(infos[k]) && values[k] == InitialPair(prefix, infos[k])
    ensures Notifications(values) == if prefix == "" then [] else InitialEvents(infos)
    ensures CountInstructions(values) == if prefix == "" then 0 else InstructionCount(infos)
    decreases |infos|
  {
    if infos != [] {
      var front, info := values[..|infos| - 1], infos[|infos| - 1];
      assert values == front + [InitialPair(prefix, info)];
      SetNotifications(prefix, front, infos[..|infos| - 1]);
      PairAppended(prefix, front, info);
    }
  }

  function InitialInfos(nVars: uint32): seq<ValueNameInfo> {
    seq(nVars + |FIXED_KINDS|, k requires 0 <= k < nVars + |FIXED_KINDS| => InitialInfo(k))
  }

  function InstructionInfos(n: uint32): seq<ValueNameInfo> {
    seq(n, k requires 0 <= k < n => ValueNameInfo(InstructionName, k))
  }

  lemma {:induction false} EventsOfInitialInfos(nVars: uint32)
    ensures InitialEvents(InitialInfos(nVars)) == INITIAL_EVENTS && InstructionCount(InitialInfos(nVars)) == 0
    decreases nVars
  {
    if nVars == 0 {
      EventsOfFixedInfos(|FIXED_KINDS|);
      assert InitialInfos(0)[..|FIXED_KINDS|] == InitialInfos(0);
    } else {
      EventsOfInitialInfos(nVars - 1);
      assert InitialInfos(nVars)[..nVars - 1 + |FIXED_KINDS|] == InitialInfos(nVars - 1);
    }
  }

  lemma {:induction false} EventsOfFixedInfos(k: nat)
    requires k <= |FIXED_KINDS|
    ensures InitialEvents(InitialInfos(0)[..k]) == INITIAL_EVENTS[..k] && InstructionCount(InitialInfos(0)[..k]) == 0
  {
    if k > 0 {
      EventsOfFixedInfos(k - 1);
      assert InitialInfos(0)[..k][..k - 1] == InitialInfos(0)[..k - 1];
      assert InitialInfos(0)[..k][k - 1] == InitialInfo(k - 1);
      FixedEvent(k - 1);
      assert INITIAL_EVENTS[..k] == INITIAL_EVENTS[..k - 1] + [INITIAL_EVENTS[k - 1]];
    }
  }

  lemma FixedEvent(k: nat)
    requires k < |FIXED_KINDS|
    ensures |INITIAL_EVENTS| == |FIXED_KINDS|
    ensures InitialEvent(InitialInfo(k)) == [INITIAL_EVENTS[k]] && InitialInfo(k).valType != InstructionName
  {
  }

  lemma {:induction false} EventsOfInstructionInfos(n: uint32)
    ensures InitialEvents(InstructionInfos(n)) == InitialStates(n) && InstructionCount(InstructionInfos(n)) == n
    decreases n
  {
    if n > 0 {
      EventsOfInstructionInfos(n - 1);
      assert InstructionInfos(n)[..n - 1] == InstructionInfos(n - 1);
      assert InitialStates(n) == InitialStates(n - 1) + InitialEvent(ValueNameInfo(InstructionName, n - 1));
    }
  }

  lemma InitialNotifications(prefix: string, nVars: uint32)
    ensures Notifications(InitialValueSet(prefix, nVars)) == if prefix == "" then [] else INITIAL_EVENTS
    ensures CountInstructions(InitialValueSet(prefix, nVars)) == 0
  {
    SetNotifications(prefix, InitialValueSet(prefix, nVars), InitialInfos(nVars));
    EventsOfInitialInfos(nVars);
  }

  lemma InstructionNotifications(prefix: string, n: uint32)
    ensures Notifications(InstructionValueSet(prefix, n)) == if prefix == "" then [] else InitialStates(n)
    ensures CountInstructions(InstructionValueSet(prefix, n)) == if prefix == "" then 0 else n
  {
    SetNotifications(prefix, InstructionValueSet(prefix, n), InstructionInfos(n));
    EventsOfInstructionInfos(n);
  }
}
