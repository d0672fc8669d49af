/** Sets of named values: their names and the sets a job registers. */
module ValueSets {
  import opened AnyValues
  import opened Naming
  import opened Codecs

  function NameSet(values: NameAnyValueSet): set<string> {
    set k | 0 <= k < |values| :: values[k].0
  }

  predicate DistinctNames(values: NameAnyValueSet) {
    forall i, j :: 0 <= i < j < |values| ==> values[i].0 != values[j].0
  }

  /** A set that can be registered beside the names that are already known. */
  predicate Acceptable(values: NameAnyValueSet, known: set<string>) {
    DistinctNames(values) && NameSet(values) !! known
  }

  /** The values of a set as a map; later pairs win. */
  function AsMap(values: NameAnyValueSet): (m: map<string, AnyValue>)
    ensures m.Keys == NameSet(values)
  {
    if values == [] then map[]
    else
      var last := |values| - 1;
      var m := AsMap(values[..last])[values[last].0 := values[last].1];
      assert NameSet(values) == NameSet(values[..last]) + {values[last].0};
      m
  }

  lemma {:induction false} AsMapAt(values: NameAnyValueSet, k: nat)
    requires k < |values| && DistinctNames(values)
    ensures AsMap(values)[values[k].0] == values[k].1
  {
    var last := |values| - 1;
    if k < last {
      AsMapAt(values[..last], k);
      assert values[..last][k] == values[k];
    }
  }

  method GetNames(values: NameAnyValueSet) returns (names: set<string>)
    ensures names == NameSet(values)
  {
    names := {};
    for k := 0 to |values|
      invariant names == NameSet(values[..k])
    {
      names := names + {values[k].0};
      assert values[..k + 1] == values[..k] + [values[k]];
    }
    assert values[..|values|] == values;
  }

  lemma NameSetSnoc(front: NameAnyValueSet, pair: (string, AnyValue))
    ensures NameSet(front + [pair]) == NameSet(front) + {pair.0}
  {
    var values := front + [pair];
    assert values[|front|] == pair;
    forall k | 0 <= k < |front|
      ensures values[k] == front[k]
    {
    }
  }

  lemma DistinctSnoc(front: NameAnyValueSet, pair: (string, AnyValue))
    ensures DistinctNames(front + [pair]) <==> DistinctNames(front) && pair.0 !in NameSet(front)
  {
    var values := front + [pair];
    assert forall k :: 0 <= k < |front| ==> values[k] == front[k];
    if DistinctNames(values) {
      assert values[|front|] == pair;
    }
  }

  /** Comparing the number of names with the number of pairs detects exactly the duplicates. */
  lemma {:induction false} NameCount(values: NameAnyValueSet)
    ensures |NameSet(values)| <= |values|
    ensures |NameSet(values)| == |values| <==> DistinctNames(values)
  {
    if values == [] {
      assert NameSet(values) == {};
    } else {
      var front, pair := values[..|values| - 1], values[|values| - 1];
      assert values == front + [pair];
      NameCount(front);
      NameSetSnoc(front, pair);
      DistinctSnoc(front, pair);
      if pair.0 in NameSet(front) {
        assert NameSet(front) + {pair.0} == NameSet(front);
      }
    }
  }

  // ---- What a job registers ----

  /** The kinds of value with a fixed name, in the order in which they are registered. */
  const FIXED_KINDS: seq<ValueNameType> :=
    [JobStatusName, BreakpointInstructionName, LogEntryName, MessageEntryName, OutputValueEntryName]

  function InitialValue(kind: ValueNameType): AnyValue {
    match kind
    case JobStatusName => GetJobStateValue(INITIAL_JOB_STATE)
    case BreakpointInstructionName => GetBreakpointInstructionValue(INVALID_INSTRUCTION_INDEX)
    case LogEntryName => LOG_ENTRY_ANYVALUE
    case MessageEntryName => MESSAGE_ENTRY_ANYVALUE
    case OutputValueEntryName => OUTPUT_VALUE_ENTRY_ANYVALUE
    case VariableName => VARIABLE_ANYVALUE
    case InstructionName => INSTRUCTION_STATE_ANYVALUE
    case UnknownName => Empty
  }

  /** The k-th value that a job registers at construction: the fixed ones, then its variables. */
  function InitialInfo(k: nat): ValueNameInfo
    requires k < 0x1_0000_0000 + |FIXED_KINDS|
  {
    if k < |FIXED_KINDS| then ValueNameInfo(FIXED_KINDS[k], 0)
    else ValueNameInfo(VariableName, k - |FIXED_KINDS|)
  }

  function InitialPair(prefix: string, info: ValueNameInfo): (string, AnyValue)
    requires WellFormed(info)
  {
    (PVName(prefix, info), InitialValue(info.valType))
  }

  function InitialValueSet(prefix: string, nVars: uint32): NameAnyValueSet {
    seq(nVars + |FIXED_KINDS|, k requires 0 <= k < nVars + |FIXED_KINDS| => InitialPair(prefix, InitialInfo(k)))
  }

  function InstructionValueSet(prefix: string, nInstr: uint32): NameAnyValueSet {
    seq(nInstr, k requires 0 <= k < nInstr => InitialPair(prefix, ValueNameInfo(InstructionName, k)))
  }

  method GetInitialValueSet(prefix: string, nVars: uint32) returns (values: NameAnyValueSet)
    ensures values == InitialValueSet(prefix, nVars)
  {
    values := [(GetJobStatePVName(prefix), GetJobStateValue(INITIAL_JOB_STATE))];
    values := values + [(GetBreakpointInstructionPVName(prefix),
                         GetBreakpointInstructionValue(INVALID_INSTRUCTION_INDEX))];
    values := values + [(GetLogEntryName(prefix), LOG_ENTRY_ANYVALUE)];
    values := values + [(GetMessageEntryName(prefix), MESSAGE_ENTRY_ANYVALUE)];
    values := values + [(GetOutputValueEntryName(prefix), OUTPUT_VALUE_ENTRY_ANYVALUE)];
    var varIdx := 0;
    while varIdx < nVars
      invariant 0 <= varIdx <= nVars
      invariant values == InitialValueSet(prefix, varIdx)
    {
      values := values + [(GetVariablePVName(prefix, varIdx), VARIABLE_ANYVALUE)];
      varIdx := varIdx + 1;
    }
  }

  method GetInstructionValueSet(prefix: string, nInstr: uint32) returns (values: NameAnyValueSet)
    ensures values == InstructionValueSet(prefix, nInstr)
  {
    values := [];
    var instrIdx := 0;
    while instrIdx < nInstr
      invariant 0 <= instrIdx <= nInstr
      invariant values == InstructionValueSet(prefix, instrIdx)
    {
      values := values + [(GetInstructionPVName(prefix, instrIdx), INSTRUCTION_STATE_ANYVALUE)];
      instrIdx := instrIdx + 1;
    }
  }

  /** Which kinds of value a job with so many variables and instructions publishes. */
  predicate Published(info: ValueNameInfo, nVars: uint32, nInstr: uint32) {
    WellFormed(info) && match info.valType
      case InstructionName => info.idx < nInstr
      case VariableName => info.idx < nVars
      case _ => true
  }

  lemma InitialNames(prefix: string, nVars: uint32)
    ensures DistinctNames(InitialValueSet(prefix, nVars))
    ensures forall name :: name in NameSet(InitialValueSet(prefix, nVars)) <==>
              exists info :: Published(info, nVars, 0) && name == PVName(prefix, info)
  {
    var values := InitialValueSet(prefix, nVars);
    forall i, j | 0 <= i < j < |values|
      ensures values[i].0 != values[j].0
    {
      if values[i].0 == values[j].0 {
        NameInInjective(prefix, JobValue(InitialInfo(i)), JobValue(InitialInfo(j)));
      }
    }
    forall info | Published(info, nVars, 0)
      ensures PVName(prefix, info) in NameSet(values)
    {
      var k := InitialPosition(info);
      assert values[k].0 == PVName(prefix, info);
    }
    forall name | name in NameSet(values)
      ensures exists info :: Published(info, nVars, 0) && name == PVName(prefix, info)
    {
      var k :| 0 <= k < |values| && values[k].0 == name;
      assert Published(InitialInfo(k), nVars, 0) && name == PVName(prefix, InitialInfo(k));
    }
  }

  /** Where a published value other than an instruction stands in the initial set. */
  function InitialPosition(info: ValueNameInfo): (k: nat)
    requires WellFormed(info) && info.valType != InstructionName
    ensures k < 0x1_0000_0000 + |FIXED_KINDS| && InitialInfo(k) == info
  {
    match info.valType
    case JobStatusName => 0
    case BreakpointInstructionName => 1
    case LogEntryName => 2
    case MessageEntryName => 3
    case OutputValueEntryName => 4
    case VariableName => info.idx + |FIXED_KINDS|
  }

  lemma InstructionNames(prefix: string, nInstr: uint32)
    ensures DistinctNames(InstructionValueSet(prefix, nInstr))
    ensures forall name :: name in NameSet(InstructionValueSet(prefix, nInstr)) <==>
              exists i: uint32 :: i < nInstr && name == GetInstructionPVName(prefix, i)
  {
    var values := InstructionValueSet(prefix, nInstr);
    forall i, j | 0 <= i < j < |values|
      ensures values[i].0 != values[j].0
    {
      if values[i].0 == values[j].0 {
        var a, b := ValueNameInfo(InstructionName, i), ValueNameInfo(InstructionName, j);
        NameInInjective(prefix, JobValue(a), JobValue(b));
      }
    }
    forall i: uint32 | i < nInstr
      ensures GetInstructionPVName(prefix, i) in NameSet(values)
    {
      assert values[i].0 == GetInstructionPVName(prefix, i);
    }
    forall name | name in NameSet(values)
      ensures exists i: uint32 :: i < nInstr && name == GetInstructionPVName(prefix, i)
    {
      var k :| 0 <= k < |values| && values[k].0 == name;
      assert name == GetInstructionPVName(prefix, k);
    }
  }
}
