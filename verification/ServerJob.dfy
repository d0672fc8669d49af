/** The server's job interface over the client's value manager, method by method. */
module ServerJob {
  import opened AnyValues
  import opened Naming
  import opened Codecs
  import opened ValueSets
  import opened IndexGeneration
  import opened ClientManager
  import opened Forwarding

  const LOG_SLOT := ValueNameInfo(LogEntryName, 0)
  const MESSAGE_SLOT := ValueNameInfo(MessageEntryName, 0)
  const OUTPUT_SLOT := ValueNameInfo(OutputValueEntryName, 0)

  lemma SeenWhenPublished(prefix: string, nVars: uint32, nInstr: uint32, e: JobEvent)
    requires SlotOf(e).Some?
    ensures WellFormed(SlotOf(e).value)
    ensures Seen(prefix, nVars, nInstr, e) ==
            if prefix == "" || (e.VariableUpdated? && e.value == Empty) || !Published(SlotOf(e).value, nVars, nInstr)
            then [] else [e]
  {
  }

  /** What the client's manager makes of the update for an event. */
  lemma UpdateIsSeen(
    callbacks: map<string, ValueNameInfo>, prefix: string, nVars: uint32, nInstr: uint32, e: JobEvent, index: uint64)
    requires Registered(callbacks, prefix, nVars, nInstr) && SlotOf(e).Some?
    ensures WellFormed(SlotOf(e).value)
    ensures var name, value := PVName(prefix, SlotOf(e).value), EncodedEvent(e, index);
            (if name in callbacks then RunCallback(callbacks[name], value) else []) == Seen(prefix, nVars, nInstr, e)
  {
    SeenWhenPublished(prefix, nVars, nInstr, e);
    EventSurvives(prefix, e, index);
  }

  lemma HistoryGrows(prefix: string, nVars: uint32, history: seq<JobEvent>, e: JobEvent)
    ensures var more := history + [e];
            && ClientTrace(prefix, nVars, more) ==
                 ClientTrace(prefix, nVars, history) + Seen(prefix, nVars, Instructions(history), e)
            && Program(prefix, nVars, more) == Program(prefix, nVars, history) + RequestsFor(prefix, history, e)
            && Instructions(more) ==
                 (if Instructions(history) == 0 && e.InitNumberOfInstructions? then e.nInstr else Instructions(history))
  {
    assert (history + [e])[..|history|] == history;
  }

  lemma CountsGrow(history: seq<JobEvent>, e: JobEvent)
    ensures CountOf(history + [e], LOG_SLOT) == CountOf(history, LOG_SLOT) + if e.Log? then 1 else 0
    ensures CountOf(history + [e], MESSAGE_SLOT) == CountOf(history, MESSAGE_SLOT) + if e.Message? then 1 else 0
    ensures CountOf(history + [e], OUTPUT_SLOT) == CountOf(history, OUTPUT_SLOT) + if e.PutValue? then 1 else 0
  {
    assert (history + [e])[..|history|] == history;
  }

  lemma InitialOutcome(callbacks: map<string, ValueNameInfo>, prefix: string, nVars: uint32, n: nat)
    requires Free(callbacks, prefix)
    requires StopsAt(InitialValueSet(prefix, nVars), callbacks.Keys, n)
    ensures var values := InitialValueSet(prefix, nVars);
            && Registered(callbacks + Callbacks(values[..n]), prefix, nVars, 0)
            && Reported(values, n) == ClientTrace(prefix, nVars, [])
  {
    var values := InitialValueSet(prefix, nVars);
    RegisterInitial(callbacks, prefix, nVars);
    InitialNotifications(prefix, nVars);
    FailureLeavesPrefix(values, callbacks, n);
    assert values[..n] == values;
  }

  /** On a client that has none of the job's values yet they are all registered, and the
      fixed initial events are seen. In any case registration goes up to the first clash. */
  method InitializeJobAndVariables(avManager: ClientAnyValueManager, jobPrefix: string, nVars: uint32)
    returns (ghost n: nat)
    modifies avManager
    ensures avManager.asked == old(avManager.asked) + Program(jobPrefix, nVars, [])
    ensures var values := InitialValueSet(jobPrefix, nVars);
            && StopsAt(values, old(avManager.cbMap).Keys, n)
            && avManager.cbMap == old(avManager.cbMap) + Callbacks(values[..n])
            && avManager.trace == old(avManager.trace) + Reported(values, n)
    ensures Free(old(avManager.cbMap), jobPrefix) ==>
              && Registered(avManager.cbMap, jobPrefix, nVars, 0)
              && avManager.trace == old(avManager.trace) + ClientTrace(jobPrefix, nVars, [])
  {
    ghost var callbacks := avManager.cbMap;
    var values := GetInitialValueSet(jobPrefix, nVars);
    var ok;
    ok, n := avManager.AddAnyValues(values);
    var added := avManager.AddInputHandler(GetInputServerName(jobPrefix));
    if Free(callbacks, jobPrefix) {
      InitialOutcome(callbacks, jobPrefix, nVars, n);
    }
  }

  /** A second registration of instructions stops at its first name. */
  lemma InstructionsClash(
    callbacks: map<string, ValueNameInfo>, prefix: string, nVars: uint32, before: uint32, nInstr: uint32, n: nat)
    requires Registered(callbacks, prefix, nVars, before) && before > 0
    requires StopsAt(InstructionValueSet(prefix, nInstr), callbacks.Keys, n)
    ensures n == 0
  {
    FailureLeavesPrefix(InstructionValueSet(prefix, nInstr), callbacks, n);
    assert InstructionValueSet(prefix, nInstr) != [] ==>
             InstructionValueSet(prefix, nInstr)[0].0 == PVName(prefix, ValueNameInfo(InstructionName, 0));
  }

  lemma FirstRegistration(
    callbacks: map<string, ValueNameInfo>, prefix: string, nVars: uint32, nInstr: uint32, n: nat)
    requires Registered(callbacks, prefix, nVars, 0)
    requires StopsAt(InstructionValueSet(prefix, nInstr), callbacks.Keys, n)
    ensures var values := InstructionValueSet(prefix, nInstr);
            && n == |values|
            && Registered(callbacks + Callbacks(values[..n]), prefix, nVars, nInstr)
            && Reported(values, n) == Seen(prefix, nVars, 0, InitNumberOfInstructions(nInstr))
  {
    var values := InstructionValueSet(prefix, nInstr);
    RegisterInstructions(callbacks, prefix, nVars, nInstr);
    FailureLeavesPrefix(values, callbacks, n);
    InstructionNotifications(prefix, nInstr);
    assert values[..n] == values;
  }

  lemma LaterRegistration(callbacks: map<string, ValueNameInfo>, values: NameAnyValueSet)
    ensures callbacks + Callbacks(values[..0]) == callbacks
    ensures Reported(values, 0) == []
  {
    assert values[..0] == [];
    assert |values| == 0 ==> values == [];
  }

  /** What registering instructions amounts to, depending on how many there are already. */
  lemma RegistrationOutcome(
    callbacks: map<string, ValueNameInfo>, prefix: string, nVars: uint32, before: uint32, nInstr: uint32, n: nat)
    requires Registered(callbacks, prefix, nVars, before)
    requires StopsAt(InstructionValueSet(prefix, nInstr), callbacks.Keys, n)
    ensures var values := InstructionValueSet(prefix, nInstr);
            && Registered(callbacks + Callbacks(values[..n]), prefix, nVars, if before == 0 then nInstr else before)
            && Reported(values, n) == Seen(prefix, nVars, before, InitNumberOfInstructions(nInstr))
  {
    if before == 0 {
      FirstRegistration(callbacks, prefix, nVars, nInstr, n);
    } else {
      InstructionsClash(callbacks, prefix, nVars, before, nInstr, n);
      LaterRegistration(callbacks, InstructionValueSet(prefix, nInstr));
    }
  }

  /** If the job is registered, the first instructions are registered and seen, and later
      ones are not. In any case registration goes up to the first clash. */
  method InitializeInstructions(
    avManager: ClientAnyValueManager, jobPrefix: string, nInstr: uint32, ghost nVars: uint32, ghost before: uint32)
    returns (ghost n: nat)
    modifies avManager
    ensures avManager.asked == old(avManager.asked) + [Register(InstructionValueSet(jobPrefix, nInstr))]
    ensures var values := InstructionValueSet(jobPrefix, nInstr);
            && StopsAt(values, old(avManager.cbMap).Keys, n)
            && avManager.cbMap == old(avManager.cbMap) + Callbacks(values[..n])
            && avManager.trace == old(avManager.trace) + Reported(values, n)
    ensures Registered(old(avManager.cbMap), jobPrefix, nVars, before) ==>
              && Registered(avManager.cbMap, jobPrefix, nVars, if before == 0 then nInstr else before)
              && avManager.trace ==
                   old(avManager.trace) + Seen(jobPrefix, nVars, before, InitNumberOfInstructions(nInstr))
  {
    ghost var callbacks := avManager.cbMap;
    var values := GetInstructionValueSet(jobPrefix, nInstr);
    var ok;
    ok, n := avManager.AddAnyValues(values);
    if Registered(callbacks, jobPrefix, nVars, before) {
      RegistrationOutcome(callbacks, jobPrefix, nVars, before, nInstr, n);
    }
  }

  /** What a job has brought about: its values are registered, the client has been told what
      the calls so far amount to, and the manager was asked for exactly that. */
  ghost predicate IsLinked(
    callbacks: map<string, ValueNameInfo>, trace: seq<JobEvent>, asked: seq<Request>,
    before: seq<JobEvent>, askedBefore: seq<Request>, prefix: string, nVars: uint32, history: seq<JobEvent>)
  {
    && Registered(callbacks, prefix, nVars, Instructions(history))
    && trace == before + ClientTrace(prefix, nVars, history)
    && asked == askedBefore + Program(prefix, nVars, history)
  }

  lemma LinkedGrows(
    callbacks: map<string, ValueNameInfo>, trace: seq<JobEvent>, asked: seq<Request>,
    before: seq<JobEvent>, askedBefore: seq<Request>, prefix: string, nVars: uint32, history: seq<JobEvent>,
    e: JobEvent, after: map<string, ValueNameInfo>)
    requires IsLinked(callbacks, trace, asked, before, askedBefore, prefix, nVars, history)
    requires Registered(after, prefix, nVars, Instructions(history + [e]))
    ensures IsLinked(after, trace + Seen(prefix, nVars, Instructions(history), e),
                     asked + RequestsFor(prefix, history, e), before, askedBefore, prefix, nVars, history + [e])
  {
    HistoryGrows(prefix, nVars, history, e);
    Associative(before, ClientTrace(prefix, nVars, history), Seen(prefix, nVars, Instructions(history), e));
    Associative(askedBefore, Program(prefix, nVars, history), RequestsFor(prefix, history, e));
  }

  lemma Associative<T>(a: seq<T>, b: seq<T>, c: seq<T>)
    ensures a + b + c == a + (b + c)
  {
  }

  /** Publishing the update that an event calls for keeps the link. */
  lemma LinkedPublish(
    callbacks: map<string, ValueNameInfo>, trace: seq<JobEvent>, asked: seq<Request>,
    before: seq<JobEvent>, askedBefore: seq<Request>, prefix: string, nVars: uint32, history: seq<JobEvent>,
    e: JobEvent, name: string, value: AnyValue)
    requires IsLinked(callbacks, trace, asked, before, askedBefore, prefix, nVars, history)
    requires SlotOf(e).Some? && (name, value) == UpdateFor(prefix, history, e)
    ensures IsLinked(callbacks, trace + (if name in callbacks then RunCallback(callbacks[name], value) else []),
                     asked + [Publish(name, value)], before, askedBefore, prefix, nVars, history + [e])
  {
    HistoryGrows(prefix, nVars, history, e);
    UpdateIsSeen(callbacks, prefix, nVars, Instructions(history), e, NthIndex(CountOf(history, SlotOf(e).value) + 1));
    LinkedGrows(callbacks, trace, asked, before, askedBefore, prefix, nVars, history, e, callbacks);
  }

  // The updates for the entries that carry an index.

  lemma OutputUpdate(prefix: string, history: seq<JobEvent>, value: AnyValue, description: string, idx: uint64)
    requires idx == NthIndex(CountOf(history, OUTPUT_SLOT) + 1)
    ensures UpdateFor(prefix, history, PutValue(value, description)) ==
            (GetOutputValueEntryName(prefix), EncodeOutputValueEntry(OutputValueEntry(idx, description, value)))
  {
  }

  lemma MessageUpdate(prefix: string, history: seq<JobEvent>, message: string, idx: uint64)
    requires idx == NthIndex(CountOf(history, MESSAGE_SLOT) + 1)
    ensures UpdateFor(prefix, history, Message(message)) ==
            (GetMessageEntryName(prefix), EncodeMessageEntry(MessageEntry(idx, message)))
  {
  }

  lemma LogUpdate(prefix: string, history: seq<JobEvent>, severity: int32, text: string, idx: uint64)
    requires idx == NthIndex(CountOf(history, LOG_SLOT) + 1)
    ensures UpdateFor(prefix, history, Log(severity, text)) ==
            (GetLogEntryName(prefix), EncodeLogEntry(LogEntry(idx, severity, text)))
  {
  }

  class ServerJobInfoIO {
    const jobPrefix: string
    const nVars: uint32
    const avManager: ClientAnyValueManager
    const logIdxGen: IndexGenerator
    const msgIdxGen: IndexGenerator
    const outValIdxGen: IndexGenerator
    /** The calls made on this object. */
    ghost var history: seq<JobEvent>
    /** What the client had seen and its manager been asked for before this object was made. */
    ghost const before: seq<JobEvent>
    ghost const askedBefore: seq<Request>

    /** The client has been told what the calls so far amount to. */
    ghost predicate Linked()
      reads this, avManager
    {
      IsLinked(avManager.cbMap, avManager.trace, avManager.asked, before, askedBefore, jobPrefix, nVars, history)
    }

    ghost predicate Valid()
      reads this, avManager, logIdxGen, msgIdxGen, outValIdxGen
    {
      && logIdxGen != msgIdxGen && logIdxGen != outValIdxGen && msgIdxGen != outValIdxGen
      && logIdxGen.Valid() && logIdxGen.issued == CountOf(history, LOG_SLOT)
      && msgIdxGen.Valid() && msgIdxGen.issued == CountOf(history, MESSAGE_SLOT)
      && outValIdxGen.Valid() && outValIdxGen.issued == CountOf(history, OUTPUT_SLOT)
      && Linked()
    }

    constructor (jobPrefix: string, nVars: uint32, avManager: ClientAnyValueManager)
      modifies avManager
      ensures Free(old(avManager.cbMap), jobPrefix) ==> Valid()
      ensures history == [] && before == old(avManager.trace) && askedBefore == old(avManager.asked)
      ensures avManager.asked == askedBefore + Program(jobPrefix, nVars, [])
      ensures this.jobPrefix == jobPrefix && this.nVars == nVars && this.avManager == avManager
      ensures fresh(logIdxGen) && fresh(msgIdxGen) && fresh(outValIdxGen)
    {
      this.jobPrefix := jobPrefix;
      this.nVars := nVars;
      this.avManager := avManager;
      logIdxGen := new IndexGenerator();
      msgIdxGen := new IndexGenerator();
      outValIdxGen := new IndexGenerator();
      history, before, askedBefore := [], avManager.trace, avManager.asked;
      new;
      ghost var n := InitializeJobAndVariables(avManager, jobPrefix, nVars);
    }

    method InitNumberOfInstructions(nInstr: uint32)
      requires Valid()
      modifies this, avManager
      ensures Valid() && history == old(history) + [JobEvent.InitNumberOfInstructions(nInstr)]
    {
      ghost var n := InitializeInstructions(avManager, jobPrefix, nInstr, nVars, Instructions(history));
      CountsGrow(history, JobEvent.InitNumberOfInstructions(nInstr));
      LinkedGrows(old(avManager.cbMap), old(avManager.trace), old(avManager.asked), before, askedBefore,
                  jobPrefix, nVars, history, JobEvent.InitNumberOfInstructions(nInstr), avManager.cbMap);
      history := history + [JobEvent.InitNumberOfInstructions(nInstr)];
    }

    /** The part common to all publishing methods: the update that `e` calls for is passed on. */
    method Publish(name: string, value: AnyValue, ghost e: JobEvent)
      requires SlotOf(e).Some? && (name, value) == UpdateFor(jobPrefix, history, e)
      requires Linked()
      modifies this`history, avManager`trace, avManager`asked
      ensures Linked() && history == old(history) + [e]
      ensures CountOf(history, LOG_SLOT) == CountOf(old(history), LOG_SLOT) + if e.Log? then 1 else 0
      ensures CountOf(history, MESSAGE_SLOT) == CountOf(old(history), MESSAGE_SLOT) + if e.Message? then 1 else 0
      ensures CountOf(history, OUTPUT_SLOT) == CountOf(old(history), OUTPUT_SLOT) + if e.PutValue? then 1 else 0
    {
      LinkedPublish(avManager.cbMap, avManager.trace, avManager.asked, before, askedBefore,
                    jobPrefix, nVars, history, e, name, value);
      CountsGrow(history, e);
      var ok := avManager.UpdateAnyValue(name, value);
      history := history + [e];
    }

    method InstructionStateUpdated(instrIdx: uint32, state: InstructionState)
      requires Valid()
      modifies this, avManager
      ensures Valid() && history == old(history) + [JobEvent.InstructionStateUpdated(instrIdx, state)]
    {
      var name := GetInstructionPVName(jobPrefix, instrIdx);
      Publish(name, InstructionStateValue(state), JobEvent.InstructionStateUpdated(instrIdx, state));
    }

    method BreakpointInstructionUpdated(instrIdx: uint32)
      requires Valid()
      modifies this, avManager
      ensures Valid() && history == old(history) + [JobEvent.BreakpointInstructionUpdated(instrIdx)]
    {
      var name := GetBreakpointInstructionPVName(jobPrefix);
      Publish(name, GetBreakpointInstructionValue(instrIdx), JobEvent.BreakpointInstructionUpdated(instrIdx));
    }

    method VariableUpdated(varIdx: uint32, value: AnyValue, connected: bool)
      requires Valid()
      modifies this, avManager
      ensures Valid() && history == old(history) + [JobEvent.VariableUpdated(varIdx, value, connected)]
    {
      var name := GetVariablePVName(jobPrefix, varIdx);
      Publish(name, EncodeVariableState(value, connected), JobEvent.VariableUpdated(varIdx, value, connected));
    }

    method JobStateUpdated(state: uint32)
      requires Valid()
      modifies this, avManager
      ensures Valid() && history == old(history) + [JobEvent.JobStateUpdated(state)]
    {
      var name := GetJobStatePVName(jobPrefix);
      Publish(name, GetJobStateValue(state), JobEvent.JobStateUpdated(state));
    }

    method PutValue(value: AnyValue, description: string)
      requires Valid()
      modifies this, avManager, outValIdxGen
      ensures Valid() && history == old(history) + [JobEvent.PutValue(value, description)]
    {
      var idx := outValIdxGen.NewIndex();
      OutputUpdate(jobPrefix, history, value, description, idx);
      var name := GetOutputValueEntryName(jobPrefix);
      var entry := OutputValueEntry(idx, description, value);
      Publish(name, EncodeOutputValueEntry(entry), JobEvent.PutValue(value, description));
    }

    method Message(message: string)
      requires Valid()
      modifies this, avManager, msgIdxGen
      ensures Valid() && history == old(history) + [JobEvent.Message(message)]
    {
      var idx := msgIdxGen.NewIndex();
      MessageUpdate(jobPrefix, history, message, idx);
      var name := GetMessageEntryName(jobPrefix);
      Publish(name, EncodeMessageEntry(MessageEntry(idx, message)), JobEvent.Message(message));
    }

    method Log(severity: int32, text: string)
      requires Valid()
      modifies this, avManager, logIdxGen
      ensures Valid() && history == old(history) + [JobEvent.Log(severity, text)]
    {
      var idx := logIdxGen.NewIndex();
      LogUpdate(jobPrefix, history, severity, text, idx);
      var name := GetLogEntryName(jobPrefix);
      Publish(name, EncodeLogEntry(LogEntry(idx, severity, text)), JobEvent.Log(severity, text));
    }

    method Interrupt(id: uint64)
      requires Valid()
      modifies this, avManager
      ensures Valid() && history == old(history) + [InterruptRequest(id)]
    {
      CountsGrow(history, InterruptRequest(id));
      LinkedGrows(avManager.cbMap, avManager.trace, avManager.asked, before, askedBefore,
                  jobPrefix, nVars, history, InterruptRequest(id), avManager.cbMap);
      avManager.Interrupt(GetInputServerName(jobPrefix), id);
      history := history + [InterruptRequest(id)];
    }

    method ProcedureTicked()
      requires Valid()
      modifies this
      ensures Valid() && history == old(history) + [JobEvent.ProcedureTicked]
    {
      CountsGrow(history, JobEvent.ProcedureTicked);
      LinkedGrows(avManager.cbMap, avManager.trace, avManager.asked, before, askedBefore,
                  jobPrefix, nVars, history, JobEvent.ProcedureTicked, avManager.cbMap);
      history := history + [JobEvent.ProcedureTicked];
    }

    /** One call of the job interface. */
    method Call(e: JobEvent)
      requires Valid()
      modifies this, avManager, logIdxGen, msgIdxGen, outValIdxGen
      ensures Valid() && history == old(history) + [e]
    {
      match e
      case InitNumberOfInstructions(n) => InitNumberOfInstructions(n);
      case InstructionStateUpdated(i, state) => InstructionStateUpdated(i, state);
      case BreakpointInstructionUpdated(i) => BreakpointInstructionUpdated(i);
      case VariableUpdated(i, value, connected) => VariableUpdated(i, value, connected);
      case JobStateUpdated(state) => JobStateUpdated(state);
      case PutValue(value, description) => PutValue(value, description);
      case Message(message) => Message(message);
      case Log(severity, text) => Log(severity, text);
      case InterruptRequest(id) => Interrupt(id);
      case ProcedureTicked => ProcedureTicked();
    }

    method CallAll(calls: seq<JobEvent>)
      requires Valid()
      modifies this, avManager, logIdxGen, msgIdxGen, outValIdxGen
      ensures Valid() && history == old(history) + calls
    {
      for k := 0 to |calls|
        invariant Valid() && history == old(history) + calls[..k]
      {
        Call(calls[k]);
        assert calls[..k + 1] == calls[..k] + [calls[k]];
        Associative(old(history), calls[..k], [calls[k]]);
      }
      assert calls[..|calls|] == calls;
    }
  }

  /** A whole job: for every prefix, number of variables and sequence of calls, what the
      client's job interface sees is exactly ClientTrace, and what the manager was asked for
      on the way is exactly Program. */
  method RunJob(jobPrefix: string, nVars: uint32, calls: seq<JobEvent>)
    returns (trace: seq<JobEvent>, ghost asked: seq<Request>)
    ensures trace == ClientTrace(jobPrefix, nVars, calls)
    ensures asked == Program(jobPrefix, nVars, calls)
  {
    var client := new ClientAnyValueManager();
    var job := new ServerJobInfoIO(jobPrefix, nVars, client);
    job.CallAll(calls);
    assert [] + calls == calls;
    trace, asked := client.trace, client.asked;
    assert trace == [] + ClientTrace(jobPrefix, nVars, calls);
    assert asked == [] + Program(jobPrefix, nVars, calls);
  }
}
