/** The client's value manager: turns updates of named values back into calls on a job
    interface. */
module ClientManager {
  import opened AnyValues
  import opened Naming
  import opened Codecs
  import opened ValueSets

  /** Calls on the job interface. The same calls go into the server's end. */
  datatype JobEvent =
    | InitNumberOfInstructions(nInstr: uint32)
    | InstructionStateUpdated(instrIdx: uint32, state: InstructionState)
    | BreakpointInstructionUpdated(breakpointIdx: uint32)
    | VariableUpdated(varIdx: uint32, value: AnyValue, connected: bool)
    | JobStateUpdated(jobState: uint32)
    | PutValue(output: AnyValue, description: string)
    | Message(message: string)
    | Log(severity: int32, text: string)
    | InterruptRequest(id: uint64)
    | ProcedureTicked

  /** What a manager is asked for. An input handler asks for its request channel. */
  datatype Request =
    | Register(values: NameAnyValueSet)
    | Publish(name: string, value: AnyValue)
    | InterruptInput(inputServerName: string, id: uint64)

  function ChannelValues(inputServerName: string): NameAnyValueSet {
    [(GetInputRequestPVName(inputServerName), INPUT_REQUEST_ANYVALUE)]
  }

  // ---- Callbacks ----

  /** The calls that the callback for a parsed name makes when it is given a value. */
  function RunCallback(info: ValueNameInfo, v: AnyValue): seq<JobEvent> {
    match info.valType
    case JobStatusName =>
      (match DecodeJobState(v) case Some(state) => [JobStateUpdated(state)] case None => [])
    case InstructionName =>
      (match ToInstructionState(v) case Some(state) => [InstructionStateUpdated(info.idx, state)] case None => [])
    case VariableName =>
      var (value, connected) := DecodeVariableState(v);
      if value == Empty then [] else [VariableUpdated(info.idx, value, connected)]
    case LogEntryName =>
      (match DecodeLogEntry(v) case Some(e) => [Log(e.severity, e.message)] case None => [])
    case MessageEntryName =>
      (match DecodeMessageEntry(v) case Some(e) => [Message(e.message)] case None => [])
    case OutputValueEntryName =>
      (match DecodeOutputValueEntry(v) case Some(e) => [PutValue(e.value, e.description)] case None => [])
    case BreakpointInstructionName =>
      (match DecodeBreakpointInstructionIndex(v) case Some(i) => [BreakpointInstructionUpdated(i)] case None => [])
    case UnknownName => []
  }

  // ---- Registration ----

  predicate IsInstruction(pair: (string, AnyValue)) {
    ParseValueName(pair.0).valType == InstructionName
  }

  /** `++c` on a 32 bit unsigned integer. */
  function Increment32(c: uint32): uint32 {
    if c == 0xFFFF_FFFF then 0 else c + 1
  }

  /** The number of instructions in a set, as the 32 bit counter sees it. */
  function CountInstructions(values: NameAnyValueSet): uint32 {
    if values == [] then 0
    else
      var front := CountInstructions(values[..|values| - 1]);
      if IsInstruction(values[|values| - 1]) then Increment32(front) else front
  }

  /** The calls made while a set is registered: each new value is passed to its callback. */
  function Notifications(values: NameAnyValueSet): seq<JobEvent> {
    if values == [] then []
    else
      var pair := values[|values| - 1];
      Notifications(values[..|values| - 1]) + RunCallback(ParseValueName(pair.0), pair.1)
  }

  function Callbacks(values: NameAnyValueSet): map<string, ValueNameInfo> {
    map name | name in NameSet(values) :: ParseValueName(name)
  }

  /** The first n pairs are new and distinct, and the next one, if there is one, is not. */
  predicate StopsAt(values: NameAnyValueSet, known: set<string>, n: nat) {
    && n <= |values| && Acceptable(values[..n], known)
    && (n < |values| ==> !Acceptable(values[..n + 1], known))
  }

  lemma AcceptablePrefix(values: NameAnyValueSet, known: set<string>, n: nat)
    requires n <= |values| && Acceptable(values, known)
    ensures Acceptable(values[..n], known)
  {
    forall k | 0 <= k < n
      ensures values[..n][k].0 !in known
    {
      assert values[k].0 in NameSet(values);
    }
  }

  lemma AcceptableSnoc(values: NameAnyValueSet, pair: (string, AnyValue), known: set<string>)
    ensures Acceptable(values + [pair], known)
            <==> Acceptable(values, known) && pair.0 !in known && pair.0 !in NameSet(values)
  {
    NameSetSnoc(values, pair);
    DistinctSnoc(values, pair);
  }

  /** Registration is not all-or-nothing, unlike what the interface says: a failure leaves
      the callbacks unchanged if and only if the very first name was known already. */
  lemma FailureLeavesPrefix(values: NameAnyValueSet, callbacks: map<string, ValueNameInfo>, n: nat)
    requires StopsAt(values, callbacks.Keys, n)
    ensures n == |values| <==> Acceptable(values, callbacks.Keys)
    ensures values != [] ==> (n == 0 <==> values[0].0 in callbacks)
    ensures n < |values| ==>
              (callbacks + Callbacks(values[..n]) == callbacks <==> values[0].0 in callbacks)
  {
    assert values[..|values|] == values;
    if n > 0 {
      assert values[..n][0] == values[0];
      assert values[0].0 in NameSet(values[..n]);
      assert values[0].0 in callbacks + Callbacks(values[..n]);
    }
    if n < |values| {
      if Acceptable(values, callbacks.Keys) {
        AcceptablePrefix(values, callbacks.Keys, n + 1);
      }
      assert values[..n + 1] == values[..n] + [values[n]];
      AcceptableSnoc(values[..n], values[n], callbacks.Keys);
      assert n == 0 ==> NameSet(values[..n]) == {};
    }
  }

  lemma CallbacksSnoc(callbacks: map<string, ValueNameInfo>, values: NameAnyValueSet, pair: (string, AnyValue))
    ensures callbacks + Callbacks(values + [pair]) == (callbacks + Callbacks(values))[pair.0 := ParseValueName(pair.0)]
  {
    NameSetSnoc(values, pair);
  }

  lemma NotificationsSnoc(trace: seq<JobEvent>, values: NameAnyValueSet, pair: (string, AnyValue))
    ensures trace + Notifications(values + [pair]) ==
            trace + Notifications(values) + RunCallback(ParseValueName(pair.0), pair.1)
  {
    assert (values + [pair])[..|values|] == values;
  }

  lemma CountSnoc(values: NameAnyValueSet, pair: (string, AnyValue))
    ensures CountInstructions(values + [pair]) ==
            if IsInstruction(pair) then Increment32(CountInstructions(values)) else CountInstructions(values)
  {
    assert (values + [pair])[..|values|] == values;
  }

  /** How many pairs of a set are instructions. */
  function NumberOfInstructions(values: NameAnyValueSet): nat {
    if values == [] then 0
    else NumberOfInstructions(values[..|values| - 1]) + if IsInstruction(values[|values| - 1]) then 1 else 0
  }

  /** The counter is exact up to 2^32 and wraps around there. */
  lemma {:induction false} CountExact(values: NameAnyValueSet)
    ensures CountInstructions(values) == NumberOfInstructions(values) % 0x1_0000_0000
  {
    if values != [] {
      CountExact(values[..|values| - 1]);
      OneMore(NumberOfInstructions(values[..|values| - 1]));
    }
  }

  lemma OneMore(n: nat)
    ensures (n + 1) % 0x1_0000_0000 == Increment32(n % 0x1_0000_0000)
  {
  }

  /** The calls made when registration stops in front of the n-th pair: one for each new value
      and, after a complete set with instructions in it, their number. */
  function Reported(values: NameAnyValueSet, n: nat): seq<JobEvent>
    requires n <= |values|
  {
    var count := CountInstructions(values);
    Notifications(values[..n]) + if n == |values| && count > 0 then [InitNumberOfInstructions(count)] else []
  }

  class ClientAnyValueManager {
    /** A callback is determined by the parsed name that it was created for. */
    var cbMap: map<string, ValueNameInfo>
    /** The calls made on the job interface so far. */
    var trace: seq<JobEvent>
    /** The requests received so far, whatever became of them. */
    ghost var asked: seq<Request>

    constructor ()
      ensures cbMap == map[] && trace == [] && asked == []
    {
      cbMap, trace, asked := map[], [], [];
    }

    method AddAnyValues(values: NameAnyValueSet) returns (ok: bool, ghost n: nat)
      modifies this
      ensures StopsAt(values, old(cbMap).Keys, n) && (ok <==> n == |values|)
      ensures cbMap == old(cbMap) + Callbacks(values[..n])
      ensures trace == old(trace) + Reported(values, n)
      ensures asked == old(asked) + [Register(values)]
    {
      asked := asked + [Register(values)];
      var nInstr: uint32 := 0;
      var k := 0;
      while k < |values|
        invariant 0 <= k <= |values|
        invariant Acceptable(values[..k], old(cbMap).Keys)
        invariant cbMap == old(cbMap) + Callbacks(values[..k])
        invariant trace == old(trace) + Notifications(values[..k])
        invariant nInstr == CountInstructions(values[..k])
        invariant asked == old(asked) + [Register(values)]
      {
        var (name, value) := values[k];
        assert values[..k + 1] == values[..k] + [values[k]];
        AcceptableSnoc(values[..k], values[k], old(cbMap).Keys);
        CallbacksSnoc(old(cbMap), values[..k], values[k]);
        NotificationsSnoc(old(trace), values[..k], values[k]);
        CountSnoc(values[..k], values[k]);
        if name in cbMap {
          assert Reported(values, k) == Notifications(values[..k]);
          return false, k;
        }
        var info := ParseValueName(name);
        if info.valType == InstructionName {
          nInstr := Increment32(nInstr);
        }
        trace := trace + RunCallback(info, value);
        cbMap := cbMap[name := info];
        k := k + 1;
      }
      assert values[..k] == values;
      if nInstr > 0 {
        trace := trace + [InitNumberOfInstructions(nInstr)];
      }
      assert trace == old(trace) + Reported(values, k);
      ok, n := true, k;
    }

    method AddInputHandler(inputServerName: string) returns (ok: bool)
      modifies this`asked
      ensures ok && asked == old(asked) + [Register(ChannelValues(inputServerName))]
    {
      asked := asked + [Register(ChannelValues(inputServerName))];
      ok := true;
    }

    method UpdateAnyValue(name: string, value: AnyValue) returns (ok: bool)
      modifies this`trace, this`asked
      ensures ok <==> name in cbMap
      ensures trace == old(trace) + if ok then RunCallback(cbMap[name], value) else []
      ensures asked == old(asked) + [Publish(name, value)]
    {
      asked := asked + [Publish(name, value)];
      if name !in cbMap {
        return false;
      }
      trace := trace + RunCallback(cbMap[name], value);
      ok := true;
    }

    method Interrupt(inputServerName: string, id: uint64)
      modifies this`trace, this`asked
      ensures trace == old(trace) + [InterruptRequest(id)]
      ensures asked == old(asked) + [InterruptInput(inputServerName, id)]
    {
      asked := asked + [InterruptInput(inputServerName, id)];
      trace := trace + [InterruptRequest(id)];
    }
  }

  /** Registration at a repeated name: the call fails, and the first of the two pairs stays
      registered and has been notified. */
  method RepeatedNameStaysRegistered(name: string, value: AnyValue)
    returns (ok: bool, cbMap: map<string, ValueNameInfo>, trace: seq<JobEvent>)
    ensures !ok
    ensures cbMap == map[name := ParseValueName(name)] && trace == RunCallback(ParseValueName(name), value)
  {
    var values := [(name, value), (name, value)];
    var client := new ClientAnyValueManager();
    ghost var n;
    ok, n := client.AddAnyValues(values);
    RepeatedNameStops(name, value, n);
    cbMap, trace := client.cbMap, client.trace;
  }

  lemma RepeatedNameStops(name: string, value: AnyValue, n: nat)
    requires StopsAt([(name, value), (name, value)], {}, n)
    ensures var values := [(name, value), (name, value)];
            && n == 1
            && map[] + Callbacks(values[..n]) == map[name := ParseValueName(name)]
            && [] + Reported(values, n) == RunCallback(ParseValueName(name), value)
  {
    var values := [(name, value), (name, value)];
    assert values[..0] == [] && values[..1] == [(name, value)] && values[..2] == values;
    assert !DistinctNames(values) by {
      assert values[0].0 == values[1].0;
    }
    assert [(name, value)][0].0 == name;
    assert NameSet([(name, value)]) == {name};
    NotificationsSnoc([], [], (name, value));
    assert [] + [(name, value)] == [(name, value)];
  }
}
