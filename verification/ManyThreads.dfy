/** What can be read from the published values when any number of threads report on each job:
    the last push decides, whatever the order of the lookups was. */
module ManyThreads {
  import opened AnyValues
  import opened Naming
  import opened ValueSets
  import opened ClientManager
  import opened Forwarding
  import opened Convergence
  import P = PublishMachine

  type Thread = P.Thread

  /** The step belongs to some job: it looks up a value in order to publish an event for it,
      registers one of the sets of a job, or looks up a request channel. */
  ghost predicate IsStepOfJob(serverPrefix: string, a: P.Step) {
    && (a.FindServer? ==> exists idx: uint32, e: JobEvent, index: uint64 :: Reports(serverPrefix, a, idx, e, index))
    && (a.AddAnyValues? ==> exists idx: uint32, n: uint32 :: IsJobSet(serverPrefix, a.values, idx, n))
    && (a.FindChannel? ==> exists idx: uint32 :: IsChannelOf(serverPrefix, idx, a.name))
  }

  predicate Reports(serverPrefix: string, a: P.Step, idx: uint32, e: JobEvent, index: uint64) {
    && a.FindServer? && SlotOf(e).Some? && WellFormed(SlotOf(e).value)
    && a.name == PVName(CreateJobPrefix(serverPrefix, idx), SlotOf(e).value)
    && a.value == EncodedEvent(e, index)
  }

  predicate IsJobSet(serverPrefix: string, values: NameAnyValueSet, idx: uint32, n: uint32) {
    var prefix := CreateJobPrefix(serverPrefix, idx);
    || values == InitialValueSet(prefix, n)
    || values == InstructionValueSet(prefix, n)
    || values == ChannelValueSet(prefix)
  }

  /** A run in which the manager is used by jobs only, each with any number of threads. */
  ghost predicate OfJobs(serverPrefix: string, steps: seq<P.Step>) {
    forall k :: 0 <= k < |steps| ==> IsStepOfJob(serverPrefix, steps[k])
  }

  /** Position of the last push on a name, or -1. */
  function LastPush(steps: seq<P.Step>, name: string): (j: int)
    ensures -1 <= j < |steps|
    ensures j >= 0 ==> steps[j].PushUpdate? && steps[j].name == name
    ensures forall k :: j < k < |steps| ==> !(steps[k].PushUpdate? && steps[k].name == name)
  {
    if steps == [] then -1
    else
      var a := steps[|steps| - 1];
      if a.PushUpdate? && a.name == name then |steps| - 1 else LastPush(steps[..|steps| - 1], name)
  }

  lemma {:induction false} PushesEndWithLast(steps: seq<P.Step>, name: string)
    ensures PushesOn(steps, name) == [] <==> LastPush(steps, name) == -1
    ensures var pushes, j := PushesOn(steps, name), LastPush(steps, name);
            j >= 0 ==> pushes[|pushes| - 1] == steps[j].value
  {
    if steps != [] {
      PushesEndWithLast(steps[..|steps| - 1], name);
    }
  }

  /** A call in progress has begun with a lookup. */
  ghost predicate BeganWithLookup(steps: seq<P.Step>, t: Thread, call: P.Found) {
    match call
    case ForUpdate(_, name, value) =>
      exists k :: 0 <= k < |steps| && steps[k] == P.FindServer(t, name, value, true)
    case ForInput(_, name) =>
      exists k :: 0 <= k < |steps| && steps[k] == P.FindChannel(t, name, true)
  }

  lemma BeganEarlier(front: seq<P.Step>, a: P.Step, t: Thread, call: P.Found)
    requires BeganWithLookup(front, t, call)
    ensures BeganWithLookup(front + [a], t, call)
  {
    var steps := front + [a];
    match call
    case ForUpdate(_, name, value) =>
      var k :| 0 <= k < |front| && front[k] == P.FindServer(t, name, value, true);
      assert steps[k] == front[k];
    case ForInput(_, name) =>
      var k :| 0 <= k < |front| && front[k] == P.FindChannel(t, name, true);
      assert steps[k] == front[k];
  }

  lemma CallBefore(m: P.Manager, a: P.Step, t: Thread)
    requires P.Enabled(m, a) && t in P.Do(m, a).calls
    ensures var call := P.Do(m, a).calls[t];
            || (t in m.calls && m.calls[t] == call)
            || (call.ForUpdate? && a == P.FindServer(t, call.name, call.value, true))
            || (call.ForInput? && a == P.FindChannel(t, call.name, true))
  {
  }

  lemma {:induction false} CallsBeganWithLookup(steps: seq<P.Step>, t: Thread)
    requires P.Exec(steps).Some? && t in P.Exec(steps).value.calls
    ensures BeganWithLookup(steps, t, P.Exec(steps).value.calls[t])
  {
    if steps != [] {
      var front, a := steps[..|steps| - 1], steps[|steps| - 1];
      CallBefore(P.Exec(front).value, a, t);
      assert steps == front + [a];
      if t in P.Exec(front).value.calls && P.Exec(front).value.calls[t] == P.Exec(steps).value.calls[t] {
        CallsBeganWithLookup(front, t);
        BeganEarlier(front, a, t, P.Exec(steps).value.calls[t]);
      } else {
        assert steps[|front|] == a;
      }
    }
  }

  /** The lookup that a push belongs to. */
  lemma {:induction false} PushHasLookup(steps: seq<P.Step>, j: nat) returns (k: nat)
    requires P.Exec(steps).Some? && j < |steps| && steps[j].PushUpdate?
    requires forall i :: 0 <= i < |steps| && steps[i].FindChannel? ==> steps[i].name != steps[j].name
    ensures k < j && steps[k] == P.FindServer(steps[j].t, steps[j].name, steps[j].value, true)
    decreases |steps|
  {
    var front := steps[..|steps| - 1];
    if j < |front| {
      k := PushHasLookup(front, j);
    } else {
      CallsBeganWithLookup(front, steps[j].t);
      k := LookupOf(front, P.Exec(front).value, steps[j]);
    }
  }

  lemma LookupOf(front: seq<P.Step>, m: P.Manager, a: P.Step) returns (k: nat)
    requires P.Enabled(m, a) && a.PushUpdate?
    requires BeganWithLookup(front, a.t, m.calls[a.t])
    requires forall i :: 0 <= i < |front| && front[i].FindChannel? ==> front[i].name != a.name
    ensures k < |front| && front[k] == P.FindServer(a.t, a.name, a.value, true)
  {
    match m.calls[a.t]
    case ForUpdate(_, name, value) =>
      k :| 0 <= k < |front| && front[k] == P.FindServer(a.t, name, value, true);
    case ForInput(_, _) => assert false;
  }

  lemma ValueInJobSet(
    serverPrefix: string, values: NameAnyValueSet, i: uint32, n: uint32, idx: uint32, slot: ValueNameInfo)
    requires IsJobSet(serverPrefix, values, i, n) && WellFormed(slot)
    ensures var name := PVName(CreateJobPrefix(serverPrefix, idx), slot);
            name in NameSet(values) ==> AsMap(values)[name] == InitialValue(slot.valType)
  {
    var prefix, name := CreateJobPrefix(serverPrefix, i), PVName(CreateJobPrefix(serverPrefix, idx), slot);
    assert name == ComposedName(serverPrefix, idx, JobValue(slot));
    if name in NameSet(values) {
      var k :| 0 <= k < |values| && values[k].0 == name;
      if values == ChannelValueSet(prefix) {
        ComposedNamesInjective(serverPrefix, i, InputRequest, serverPrefix, idx, JobValue(slot));
      } else {
        InitialNames(prefix, n);
        InstructionNames(prefix, n);
        var info := if values == InitialValueSet(prefix, n) then InitialInfo(k) else ValueNameInfo(InstructionName, k);
        assert values[k] == InitialPair(prefix, info);
        ComposedNamesInjective(serverPrefix, i, JobValue(info), serverPrefix, idx, JobValue(slot));
        AsMapAt(values, k);
      }
    }
  }

  lemma {:induction false} RegisteredWithInitial(
    serverPrefix: string, steps: seq<P.Step>, idx: uint32, slot: ValueNameInfo)
    requires OfJobs(serverPrefix, steps) && WellFormed(slot)
    ensures var r := RegisteredValue(steps, PVName(CreateJobPrefix(serverPrefix, idx), slot));
            r.Some? ==> r.value == InitialValue(slot.valType)
  {
    if steps != [] {
      var a := steps[|steps| - 1];
      RegisteredWithInitial(serverPrefix, steps[..|steps| - 1], idx, slot);
      assert IsStepOfJob(serverPrefix, a);
      if a.AddAnyValues? {
        var i: uint32, n: uint32 :| IsJobSet(serverPrefix, a.values, i, n);
        ValueInJobSet(serverPrefix, a.values, i, n, idx, slot);
      }
    }
  }

  /** The value of a push is that of an event for the very slot, reported earlier by the same
      thread. */
  lemma PushReportsSlot(serverPrefix: string, steps: seq<P.Step>, j: nat, idx: uint32, slot: ValueNameInfo)
    returns (k: nat, e: JobEvent, index: uint64)
    requires P.Exec(steps).Some? && OfJobs(serverPrefix, steps) && WellFormed(slot)
    requires j < |steps| && steps[j].PushUpdate?
    requires steps[j].name == PVName(CreateJobPrefix(serverPrefix, idx), slot)
    ensures k < j && steps[k] == P.FindServer(steps[j].t, steps[j].name, steps[j].value, true)
    ensures Reports(serverPrefix, steps[k], idx, e, index) && SlotOf(e) == Some(slot)
  {
    var name := PVName(CreateJobPrefix(serverPrefix, idx), slot);
    assert name == ComposedName(serverPrefix, idx, JobValue(slot));
    forall i | 0 <= i < |steps| && steps[i].FindChannel?
      ensures steps[i].name != name
    {
      assert IsStepOfJob(serverPrefix, steps[i]);
      var other: uint32 :| IsChannelOf(serverPrefix, other, steps[i].name);
      if steps[i].name == name {
        ComposedNamesInjective(serverPrefix, other, InputRequest, serverPrefix, idx, JobValue(slot));
      }
    }
    k := PushHasLookup(steps, j);
    assert IsStepOfJob(serverPrefix, steps[k]);
    var i: uint32;
    i, e, index :| Reports(serverPrefix, steps[k], i, e, index);
    assert name == ComposedName(serverPrefix, i, JobValue(SlotOf(e).value));
    ComposedNamesInjective(serverPrefix, i, JobValue(SlotOf(e).value), serverPrefix, idx, JobValue(slot));
  }

  /** With any number of threads reporting on each job at the same time: once its server has
      drained, a value tells the event whose push came last, which its thread had reported
      before, or the initial value if nothing was pushed. */
  lemma ServedValueTellsLastPush(serverPrefix: string, steps: seq<P.Step>, idx: uint32, slot: ValueNameInfo)
    returns (k: int, e: JobEvent)
    requires P.Exec(steps).Some? && OfJobs(serverPrefix, steps) && WellFormed(slot)
    ensures var name := PVName(CreateJobPrefix(serverPrefix, idx), slot);
            var s, j := ServerOf(P.Exec(steps).value, name), LastPush(steps, name);
            && (j >= 0 ==>
                  && 0 <= k < j && steps[k] == P.FindServer(steps[j].t, name, steps[j].value, true)
                  && SlotOf(e) == Some(slot)
                  && exists index: uint64 :: Reports(serverPrefix, steps[k], idx, e, index))
            && (s.Some? && P.U.Drained(s.value) ==>
                  && name in s.value.published
                  && RunCallback(ParseValueName(name), s.value.published[name].value) ==
                       if j < 0 then InitialEvent(slot)
                       else if e.VariableUpdated? && e.value == Empty then [] else [e])
  {
    var prefix := CreateJobPrefix(serverPrefix, idx);
    var name := PVName(prefix, slot);
    k, e := -1, ProcedureTicked;
    ServedIsSpec(steps, name);
    SpecIsLastPush(steps, name);
    PushesEndWithLast(steps, name);
    ParseInvertsPrint(prefix, slot);
    if LastPush(steps, name) >= 0 {
      var index;
      k, e, index := PushReportsSlot(serverPrefix, steps, LastPush(steps, name), idx, slot);
      CallbackDecodes(e, index);
    } else {
      RegisteredWithInitial(serverPrefix, steps, idx, slot);
      InitialValueDecodes(slot);
    }
  }
}
