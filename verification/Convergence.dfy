/** What can be read from the published values: jobs on one manager of the server, each with
    a caller of its own, in any interleaving with each other and with the workers. */
module Convergence {
  import opened AnyValues
  import opened Naming
  import opened Codecs
  import opened ValueSets
  import opened ClientManager
  import opened Forwarding
  import opened Callers
  import IndexGeneration
  import P = PublishMachine

  // ---- The last push on a name ----

  /** The values pushed for a name in a run of the manager, in order. */
  function PushesOn(steps: seq<P.Step>, name: string): seq<AnyValue> {
    if steps == [] then []
    else
      var front, a := PushesOn(steps[..|steps| - 1], name), steps[|steps| - 1];
      if a.PushUpdate? && a.name == name then front + [a.value] else front
  }

  /** The value that a name was registered with. */
  function RegisteredValue(steps: seq<P.Step>, name: string): Option<AnyValue> {
    if steps == [] then None
    else
      var front, a := RegisteredValue(steps[..|steps| - 1], name), steps[|steps| - 1];
      if a.AddAnyValues? && a.ok && name in NameSet(a.values) then Some(AsMap(a.values)[name]) else front
  }

  lemma PushNeedsName(steps: seq<P.Step>)
    requires P.Exec(steps).Some? && steps != []
    ensures var front, a := steps[..|steps| - 1], steps[|steps| - 1];
            && P.Exec(front).Some?
            && (a.PushUpdate? ==> a.name in P.Spec(front))
            && (a.AddAnyValues? && a.ok ==> NameSet(a.values) !! P.Spec(front).Keys)
  {
    var front := steps[..|steps| - 1];
    P.Refinement(front);
    var m := P.Exec(front).value;
    assert P.CallsInv(m) && P.Spec(front).Keys == m.index.Keys;
  }

  /** The one map gives for each name its last push, or what it was registered with. */
  lemma {:induction false} SpecIsLastPush(steps: seq<P.Step>, name: string)
    requires P.Exec(steps).Some?
    ensures name in P.Spec(steps) <==> RegisteredValue(steps, name).Some?
    ensures name !in P.Spec(steps) ==> PushesOn(steps, name) == []
    ensures name in P.Spec(steps) ==>
              var pushes := PushesOn(steps, name);
              P.Spec(steps)[name] == if pushes == [] then RegisteredValue(steps, name).value else pushes[|pushes| - 1]
  {
    if steps != [] {
      var front, a := steps[..|steps| - 1], steps[|steps| - 1];
      PushNeedsName(steps);
      SpecIsLastPush(front, name);
      LastPushStep(P.Spec(front), RegisteredValue(front, name), PushesOn(front, name), name, a);
    }
  }

  lemma LastPushStep(
    spec: map<string, AnyValue>, registered: Option<AnyValue>, pushes: seq<AnyValue>, name: string, a: P.Step)
    requires name in spec <==> registered.Some?
    requires name !in spec ==> pushes == []
    requires name in spec ==> spec[name] == if pushes == [] then registered.value else pushes[|pushes| - 1]
    requires a.PushUpdate? ==> a.name in spec
    requires a.AddAnyValues? && a.ok ==> NameSet(a.values) !! spec.Keys
    ensures var after := P.SpecStep(spec, a);
            var more := if a.PushUpdate? && a.name == name then pushes + [a.value] else pushes;
            && (name in after <==> registered.Some? || (a.AddAnyValues? && a.ok && name in NameSet(a.values)))
            && (name !in after ==> more == [])
            && (name in after ==>
                  after[name] == if more != [] then more[|more| - 1]
                                 else if name in spec then registered.value else AsMap(a.values)[name])
  {
  }

  // ---- The entries of a job ----

  /** The values that requests publish under a name. */
  function ValuesFor(requests: seq<Request>, name: string): seq<AnyValue> {
    if requests == [] then []
    else
      var front, r := ValuesFor(requests[..|requests| - 1], name), requests[|requests| - 1];
      if r.Publish? && r.name == name then front + [r.value] else front
  }

  /** The index that a published log, message or output entry carries. */
  function EntryIndex(slot: ValueNameInfo, v: AnyValue): Option<uint64> {
    match slot.valType
    case LogEntryName => (match DecodeLogEntry(v) case Some(e) => Some(e.index) case None => None)
    case MessageEntryName => (match DecodeMessageEntry(v) case Some(e) => Some(e.index) case None => None)
    case OutputValueEntryName => (match DecodeOutputValueEntry(v) case Some(e) => Some(e.index) case None => None)
    case _ => None
  }

  lemma ValuesForSnoc(requests: seq<Request>, r: Request, name: string)
    ensures ValuesFor(requests + [r], name) ==
            ValuesFor(requests, name) + if r.Publish? && r.name == name then [r.value] else []
  {
    assert (requests + [r])[..|requests|] == requests;
  }

  lemma ProgramSnoc(prefix: string, nVars: uint32, front: seq<JobEvent>, e: JobEvent)
    ensures Program(prefix, nVars, front + [e]) == Program(prefix, nVars, front) + RequestsFor(prefix, front, e)
    ensures Instructions(front + [e]) ==
            if Instructions(front) == 0 && e.InitNumberOfInstructions? then e.nInstr else Instructions(front)
  {
    assert (front + [e])[..|front|] == front;
  }

  lemma SameNameSameSlot(prefix: string, e: JobEvent, slot: ValueNameInfo)
    requires SlotOf(e).Some? && WellFormed(slot)
    ensures WellFormed(SlotOf(e).value)
    ensures PVName(prefix, SlotOf(e).value) == PVName(prefix, slot) <==> SlotOf(e).value == slot
  {
    SlotWellFormed(e);
    if PVName(prefix, SlotOf(e).value) == PVName(prefix, slot) {
      NameInInjective(prefix, JobValue(SlotOf(e).value), JobValue(slot));
    }
  }

  lemma UpdateParts(prefix: string, front: seq<JobEvent>, e: JobEvent, slot: ValueNameInfo)
    requires SlotOf(e).Some? && WellFormed(slot)
    ensures WellFormed(SlotOf(e).value) && UpdateFor(prefix, front, e).0 == PVName(prefix, SlotOf(e).value)
    ensures UpdateFor(prefix, front, e).0 == PVName(prefix, slot) <==> SlotOf(e) == Some(slot)
    ensures SlotOf(e) == Some(slot) ==> UpdateFor(prefix, front, e).1 == NextValue(front, e)
  {
    SameNameSameSlot(prefix, e, slot);
  }

  /** The value that an event leads to after a history. */
  function NextValue(front: seq<JobEvent>, e: JobEvent): AnyValue
    requires SlotOf(e).Some?
  {
    EncodedEvent(e, IndexGeneration.NthIndex(CountOf(front, SlotOf(e).value) + 1))
  }

  lemma LastUpdate(prefix: string, nVars: uint32, front: seq<JobEvent>, e: JobEvent, slot: ValueNameInfo)
    requires WellFormed(slot)
    ensures ValuesFor(Program(prefix, nVars, front + [e]), PVName(prefix, slot)) ==
            ValuesFor(Program(prefix, nVars, front), PVName(prefix, slot)) +
              if SlotOf(e) == Some(slot) then [NextValue(front, e)] else []
  {
    ProgramSnoc(prefix, nVars, front, e);
    ValuesOfCall(Program(prefix, nVars, front), prefix, front, e, PVName(prefix, slot));
    if SlotOf(e).Some? {
      UpdateParts(prefix, front, e, slot);
    }
  }

  lemma ValuesOfCall(requests: seq<Request>, prefix: string, front: seq<JobEvent>, e: JobEvent, name: string)
    ensures ValuesFor(requests + RequestsFor(prefix, front, e), name) ==
            ValuesFor(requests, name) +
              if SlotOf(e).Some? && UpdateFor(prefix, front, e).0 == name then [UpdateFor(prefix, front, e).1] else []
  {
    var added := RequestsFor(prefix, front, e);
    if added == [] {
      assert requests + added == requests;
    } else {
      assert added == [added[0]];
      ValuesForSnoc(requests, added[0], name);
    }
  }

  lemma NoUpdates(prefix: string, nVars: uint32, name: string)
    ensures ValuesFor(Program(prefix, nVars, []), name) == []
  {
    var first, second := Register(InitialValueSet(prefix, nVars)), Register(ChannelValueSet(prefix));
    ValuesForSnoc([first], second, name);
    ValuesForSnoc([], first, name);
    assert [] + [first] == [first] && [first] + [second] == [first, second];
  }

  lemma {:induction false} UpdateCount(prefix: string, nVars: uint32, calls: seq<JobEvent>, slot: ValueNameInfo)
    requires WellFormed(slot)
    ensures |ValuesFor(Program(prefix, nVars, calls), PVName(prefix, slot))| == CountOf(calls, slot)
    decreases |calls|
  {
    if calls == [] {
      NoUpdates(prefix, nVars, PVName(prefix, slot));
    } else {
      var front, last := calls[..|calls| - 1], calls[|calls| - 1];
      assert calls == front + [last];
      UpdateCount(prefix, nVars, front, slot);
      LastUpdate(prefix, nVars, front, last, slot);
    }
  }

  /** The k-th update of a slot encodes the k-th event for that slot with the k-th index,
      whatever other events the job reports in between. */
  lemma {:induction false} UpdatesAreNumbered(
    prefix: string, nVars: uint32, calls: seq<JobEvent>, slot: ValueNameInfo, k: nat)
    returns (e: JobEvent)
    requires WellFormed(slot) && k < CountOf(calls, slot)
    ensures var values := ValuesFor(Program(prefix, nVars, calls), PVName(prefix, slot));
            && |values| == CountOf(calls, slot)
            && SlotOf(e) == Some(slot) && values[k] == EncodedEvent(e, IndexGeneration.NthIndex(k + 1))
    decreases |calls|
  {
    var front, last := calls[..|calls| - 1], calls[|calls| - 1];
    assert calls == front + [last];
    UpdateCount(prefix, nVars, calls, slot);
    UpdateCount(prefix, nVars, front, slot);
    LastUpdate(prefix, nVars, front, last, slot);
    if k < CountOf(front, slot) {
      e := UpdatesAreNumbered(prefix, nVars, front, slot, k);
    } else {
      e := last;
      assert SlotOf(e) == Some(slot) && k == CountOf(front, slot);
      assert NextValue(front, e) == EncodedEvent(e, IndexGeneration.NthIndex(k + 1));
    }
  }

  lemma EntryIndexAt(prefix: string, nVars: uint32, calls: seq<JobEvent>, slot: ValueNameInfo, k: nat)
    requires slot.valType in {LogEntryName, MessageEntryName, OutputValueEntryName} && slot.idx == 0
    requires k < CountOf(calls, slot)
    ensures var values := ValuesFor(Program(prefix, nVars, calls), PVName(prefix, slot));
            && |values| == CountOf(calls, slot)
            && EntryIndex(slot, values[k]) == Some(IndexGeneration.NthIndex(k + 1))
  {
    var e := UpdatesAreNumbered(prefix, nVars, calls, slot, k);
    EventIndex(e, IndexGeneration.NthIndex(k + 1));
  }

  /** The entries that a job publishes under one name carry the indices 1, 2, 3 and so on;
      they are never zero and 2^64 - 1 entries in a row carry different ones. */
  lemma EntryIndicesDistinct(
    prefix: string, nVars: uint32, calls: seq<JobEvent>, slot: ValueNameInfo, j: nat, k: nat)
    requires slot.valType in {LogEntryName, MessageEntryName, OutputValueEntryName} && slot.idx == 0
    requires j <= k < CountOf(calls, slot)
    ensures var values := ValuesFor(Program(prefix, nVars, calls), PVName(prefix, slot));
            && |values| == CountOf(calls, slot)
            && EntryIndex(slot, values[k]) == Some(IndexGeneration.NthIndex(k + 1))
            && EntryIndex(slot, values[k]) != Some(0)
            && (k < 0xFFFF_FFFF_FFFF_FFFF ==> EntryIndex(slot, values[k]) == Some(k + 1))
            && (0 < k - j < 0xFFFF_FFFF_FFFF_FFFF ==> EntryIndex(slot, values[j]) != EntryIndex(slot, values[k]))
  {
    EntryIndexAt(prefix, nVars, calls, slot, j);
    EntryIndexAt(prefix, nVars, calls, slot, k);
    IndexFacts(j, k);
  }

  lemma IndexFacts(j: nat, k: nat)
    requires j <= k
    ensures var a, b := IndexGeneration.NthIndex(j + 1), IndexGeneration.NthIndex(k + 1);
            && b != 0 && (k < 0xFFFF_FFFF_FFFF_FFFF ==> b == k + 1)
            && (0 < k - j < 0xFFFF_FFFF_FFFF_FFFF ==> a != b)
  {
    IndexGeneration.IndicesDistinct(j + 1, k + 1);
    IndexGeneration.IndicesDistinct(k + 1, k + 1);
    IndexGeneration.FirstIndices(k + 1);
  }

  lemma EventIndex(e: JobEvent, index: uint64)
    requires SlotOf(e).Some? && SlotOf(e).value.valType in {LogEntryName, MessageEntryName, OutputValueEntryName}
    ensures EntryIndex(SlotOf(e).value, EncodedEvent(e, index)) == Some(index)
  {
  }

  // ---- What a job's requests lead to ----

  /** The event updates the slot, and the slot's value is registered by then. */
  predicate Reaches(nVars: uint32, front: seq<JobEvent>, e: JobEvent, slot: ValueNameInfo) {
    SlotOf(e) == Some(slot) && Published(slot, nVars, Instructions(front))
  }

  /** The values that the events of a job give to a slot. */
  function PublishedValues(nVars: uint32, calls: seq<JobEvent>, slot: ValueNameInfo): seq<AnyValue> {
    if calls == [] then []
    else
      var front, e := calls[..|calls| - 1], calls[|calls| - 1];
      PublishedValues(nVars, front, slot) + if Reaches(nVars, front, e, slot) then [NextValue(front, e)] else []
  }

  /** The last event that reached a slot. */
  function LastEvent(nVars: uint32, calls: seq<JobEvent>, slot: ValueNameInfo): Option<JobEvent> {
    if calls == [] then None
    else
      var front, e := calls[..|calls| - 1], calls[|calls| - 1];
      if Reaches(nVars, front, e, slot) then Some(e) else LastEvent(nVars, front, slot)
  }

  /** The last value that a job gives to a slot encodes the last event that reached it. */
  lemma {:induction false} LastValue(nVars: uint32, calls: seq<JobEvent>, slot: ValueNameInfo) returns (index: uint64)
    ensures var values, last := PublishedValues(nVars, calls, slot), LastEvent(nVars, calls, slot);
            && (values == [] <==> last == None)
            && (last.Some? ==>
                  SlotOf(last.value) == Some(slot) && values[|values| - 1] == EncodedEvent(last.value, index))
  {
    if calls == [] {
      index := 0;
    } else {
      var front, e := calls[..|calls| - 1], calls[|calls| - 1];
      index := LastValue(nVars, front, slot);
      if Reaches(nVars, front, e, slot) {
        index := IndexGeneration.NthIndex(CountOf(front, slot) + 1);
      }
    }
  }

  /** What has become of a slot's name: it is known exactly if the slot is published, and then
      it has had its initial value and those of the events. */
  predicate SlotInv(h: Histories, prefix: string, nVars: uint32, calls: seq<JobEvent>, slot: ValueNameInfo)
    requires WellFormed(slot)
  {
    && (PVName(prefix, slot) in h <==> Published(slot, nVars, Instructions(calls)))
    && (PVName(prefix, slot) in h ==>
          h[PVName(prefix, slot)] == [InitialValue(slot.valType)] + PublishedValues(nVars, calls, slot))
  }

  lemma {:induction false} UnpublishedHasNoValues(nVars: uint32, calls: seq<JobEvent>, slot: ValueNameInfo)
    requires !Published(slot, nVars, Instructions(calls))
    ensures PublishedValues(nVars, calls, slot) == []
  {
    if calls != [] {
      UnpublishedHasNoValues(nVars, calls[..|calls| - 1], slot);
    }
  }

  lemma FoldOfConstruction(prefix: string, nVars: uint32)
    ensures Fold(Program(prefix, nVars, [])) ==
            After(Firsts(InitialValueSet(prefix, nVars)), Register(ChannelValueSet(prefix)))
  {
    InitialNames(prefix, nVars);
    FoldTwo(InitialValueSet(prefix, nVars), ChannelValueSet(prefix));
  }

  lemma FoldTwo(values: NameAnyValueSet, more: NameAnyValueSet)
    requires DistinctNames(values)
    ensures Fold([Register(values), Register(more)]) == After(Firsts(values), Register(more))
  {
    var first, second := Register(values), Register(more);
    FoldSnoc([], first);
    FoldSnoc([first], second);
    assert [] + [first] == [first] && [first] + [second] == [first, second];
    assert map[] + Firsts(values) == Firsts(values);
  }

  lemma FirstOfSlot(prefix: string, nVars: uint32, slot: ValueNameInfo)
    requires WellFormed(slot) && Published(slot, nVars, 0)
    ensures PVName(prefix, slot) in Firsts(InitialValueSet(prefix, nVars))
    ensures Firsts(InitialValueSet(prefix, nVars))[PVName(prefix, slot)] == [InitialValue(slot.valType)]
  {
    InitialNames(prefix, nVars);
    InitialNameAt(prefix, nVars, slot);
    var k := InitialPosition(slot);
    assert InitialValueSet(prefix, nVars)[k] == InitialPair(prefix, slot);
    AsMapAt(InitialValueSet(prefix, nVars), k);
  }

  lemma ChannelIsNoSlot(prefix: string, slot: ValueNameInfo)
    requires WellFormed(slot)
    ensures PVName(prefix, slot) !in NameSet(ChannelValueSet(prefix))
  {
    if PVName(prefix, slot) == ChannelValueSet(prefix)[0].0 {
      NameInInjective(prefix, JobValue(slot), InputRequest);
    }
  }

  lemma InitialHistory(prefix: string, nVars: uint32, slot: ValueNameInfo)
    requires WellFormed(slot)
    ensures SlotInv(Fold(Program(prefix, nVars, [])), prefix, nVars, [], slot)
  {
    FoldOfConstruction(prefix, nVars);
    InitialNameAt(prefix, nVars, slot);
    KeptByOthers(Firsts(InitialValueSet(prefix, nVars)), prefix, slot);
    if Published(slot, nVars, 0) {
      FirstOfSlot(prefix, nVars, slot);
    }
  }

  lemma KeptByOthers(h: Histories, prefix: string, slot: ValueNameInfo)
    requires WellFormed(slot)
    ensures var name, after := PVName(prefix, slot), After(h, Register(ChannelValueSet(prefix)));
            (name in after <==> name in h) && (name in h ==> after[name] == h[name])
  {
    ChannelIsNoSlot(prefix, slot);
  }

  lemma InstructionsRegistered(
    h: Histories, prefix: string, nVars: uint32, front: seq<JobEvent>, nInstr: uint32, slot: ValueNameInfo)
    requires WellFormed(slot)
    requires forall other :: WellFormed(other) ==> SlotInv(h, prefix, nVars, front, other)
    ensures SlotInv(After(h, Register(InstructionValueSet(prefix, nInstr))),
                    prefix, nVars, front + [InitNumberOfInstructions(nInstr)], slot)
  {
    var values, e := InstructionValueSet(prefix, nInstr), InitNumberOfInstructions(nInstr);
    ProgramSnoc(prefix, nVars, front, e);
    assert (front + [e])[..|front|] == front;
    assert PublishedValues(nVars, front + [e], slot) == PublishedValues(nVars, front, slot);
    InstructionNames(prefix, nInstr);
    InstructionNameAt(prefix, nInstr, slot);
    assert SlotInv(h, prefix, nVars, front, slot);
    InstructionsAcceptable(h, prefix, nVars, front, nInstr);
    if Acceptable(values, h.Keys) && PVName(prefix, slot) in NameSet(values) {
      assert values[slot.idx].0 == PVName(prefix, slot);
      AsMapAt(values, slot.idx);
      UnpublishedHasNoValues(nVars, front, slot);
    }
  }

  lemma InstructionsAcceptable(h: Histories, prefix: string, nVars: uint32, front: seq<JobEvent>, nInstr: uint32)
    requires forall other :: WellFormed(other) ==> SlotInv(h, prefix, nVars, front, other)
    ensures Acceptable(InstructionValueSet(prefix, nInstr), h.Keys) <==> nInstr == 0 || Instructions(front) == 0
  {
    var values := InstructionValueSet(prefix, nInstr);
    InstructionNames(prefix, nInstr);
    forall i: uint32
      ensures GetInstructionPVName(prefix, i) in h <==> i < Instructions(front)
    {
      assert SlotInv(h, prefix, nVars, front, ValueNameInfo(InstructionName, i));
    }
    if nInstr > 0 {
      assert GetInstructionPVName(prefix, 0) in NameSet(values);
    }
  }

  lemma UpdatePublished(
    h: Histories, prefix: string, nVars: uint32, front: seq<JobEvent>, e: JobEvent, slot: ValueNameInfo)
    requires WellFormed(slot) && SlotOf(e).Some?
    requires SlotInv(h, prefix, nVars, front, slot)
    ensures var (name, value) := UpdateFor(prefix, front, e);
            SlotInv(After(h, Publish(name, value)), prefix, nVars, front + [e], slot)
  {
    ProgramSnoc(prefix, nVars, front, e);
    assert (front + [e])[..|front|] == front;
    UpdateParts(prefix, front, e, slot);
  }

  /** A job that is alone on a manager gives each of its values its initial value and then,
      from its registration on, the value of every event for it. */
  lemma {:induction false} ProgramHistory(prefix: string, nVars: uint32, calls: seq<JobEvent>)
    ensures forall slot :: WellFormed(slot) ==> SlotInv(Fold(Program(prefix, nVars, calls)), prefix, nVars, calls, slot)
  {
    if calls == [] {
      forall slot | WellFormed(slot)
        ensures SlotInv(Fold(Program(prefix, nVars, [])), prefix, nVars, [], slot)
      {
        InitialHistory(prefix, nVars, slot);
      }
    } else {
      var front, e := calls[..|calls| - 1], calls[|calls| - 1];
      assert calls == front + [e];
      ProgramHistory(prefix, nVars, front);
      forall slot | WellFormed(slot)
        ensures SlotInv(Fold(Program(prefix, nVars, calls)), prefix, nVars, calls, slot)
      {
        CallHistory(prefix, nVars, front, e, slot);
      }
    }
  }

  /** What the requests of one call make of the histories; there is at most one. */
  function AfterCall(h: Histories, prefix: string, front: seq<JobEvent>, e: JobEvent): Histories {
    var added := RequestsFor(prefix, front, e);
    if added == [] then h else After(h, added[0])
  }

  lemma FoldOfFew(requests: seq<Request>, added: seq<Request>)
    requires |added| <= 1
    ensures Fold(requests + added) == if added == [] then Fold(requests) else After(Fold(requests), added[0])
  {
    if added == [] {
      assert requests + added == requests;
    } else {
      assert added == [added[0]];
      FoldSnoc(requests, added[0]);
    }
  }

  lemma CallKeepsSlot(
    h: Histories, prefix: string, nVars: uint32, front: seq<JobEvent>, e: JobEvent, slot: ValueNameInfo)
    requires WellFormed(slot)
    requires forall other :: WellFormed(other) ==> SlotInv(h, prefix, nVars, front, other)
    ensures SlotInv(AfterCall(h, prefix, front, e), prefix, nVars, front + [e], slot)
  {
    assert SlotInv(h, prefix, nVars, front, slot);
    if e.InitNumberOfInstructions? {
      InstructionsRegistered(h, prefix, nVars, front, e.nInstr, slot);
    } else if SlotOf(e).Some? {
      UpdatePublished(h, prefix, nVars, front, e, slot);
    } else {
      assert (front + [e])[..|front|] == front;
    }
  }

  lemma CallHistory(prefix: string, nVars: uint32, front: seq<JobEvent>, e: JobEvent, slot: ValueNameInfo)
    requires WellFormed(slot)
    requires forall other :: WellFormed(other) ==>
               SlotInv(Fold(Program(prefix, nVars, front)), prefix, nVars, front, other)
    ensures SlotInv(Fold(Program(prefix, nVars, front + [e])), prefix, nVars, front + [e], slot)
  {
    ProgramSnoc(prefix, nVars, front, e);
    FoldOfFew(Program(prefix, nVars, front), RequestsFor(prefix, front, e));
    CallKeepsSlot(Fold(Program(prefix, nVars, front)), prefix, nVars, front, e, slot);
  }

  // ---- Jobs on one manager ----

  /** The calls made so far on the interface of a job, all by the same caller. */
  datatype Job = Job(caller: Thread, nVars: uint32, calls: seq<JobEvent>)

  /** The requests of a job that look at the index of names. */
  function JobProgram(serverPrefix: string, idx: uint32, job: Job): seq<Request> {
    IndexRequests(Program(CreateJobPrefix(serverPrefix, idx), job.nVars, job.calls))
  }

  /** The caller that a name belongs to, by the job index in the name. */
  function CallerOf(serverPrefix: string, jobs: map<uint32, Job>, name: string): Option<Thread> {
    match Recover(name)
    case Some((prefix, idx, _)) => if prefix == serverPrefix && idx in jobs then Some(jobs[idx].caller) else None
    case None => None
  }

  predicate IsChannelOf(serverPrefix: string, idx: uint32, name: string) {
    name == ComposedName(serverPrefix, idx, InputRequest)
  }

  predicate IsCaller(jobs: map<uint32, Job>, t: Thread) {
    exists i :: i in jobs && jobs[i].caller == t
  }

  /** A run in which the manager is used by these jobs: each of them, by its own caller, has
      so far made some first part of the requests that its construction and its calls lead
      to, and user input goes through the jobs' request channels. */
  predicate IsRunOf(serverPrefix: string, jobs: map<uint32, Job>, steps: seq<P.Step>) {
    && (forall i, j :: i in jobs && j in jobs && jobs[i].caller == jobs[j].caller ==> i == j)
    && (forall i :: i in jobs ==> RequestsOf(AllMade(steps), jobs[i].caller) <= JobProgram(serverPrefix, i, jobs[i]))
    && (forall k :: 0 <= k < |AllMade(steps)| ==> IsCaller(jobs, AllMade(steps)[k].t))
    && (forall k :: 0 <= k < |steps| && steps[k].FindChannel? ==>
          exists i :: i in jobs && IsChannelOf(serverPrefix, i, steps[k].name))
  }

  /** The registrations of a job's construction. */
  function ConstructionSteps(prefix: string, t: Thread, nVars: uint32): seq<P.Step> {
    [P.AddAnyValues(t, InitialValueSet(prefix, nVars), true), P.AddAnyValues(t, ChannelValueSet(prefix), true)]
  }

  lemma MadeByTwo(t: Thread, first: NameAnyValueSet, second: NameAnyValueSet)
    ensures var made := AllMade([P.AddAnyValues(t, first, true), P.AddAnyValues(t, second, true)]);
            && made == [Made(t, Register(first)), Made(t, Register(second))]
            && RequestsOf(made, t) == [Register(first), Register(second)]
  {
    var a, b := P.AddAnyValues(t, first, true), P.AddAnyValues(t, second, true);
    assert [a, b][..1] == [a] && [a][..0] == [];
    assert AllMade([a]) == [Made(t, Register(first))];
    RequestsSnoc([], Made(t, Register(first)));
    RequestsSnoc([Made(t, Register(first))], Made(t, Register(second)));
    assert [] + [Made(t, Register(first))] == [Made(t, Register(first))];
    assert [Made(t, Register(first))] + [Made(t, Register(second))] ==
           [Made(t, Register(first)), Made(t, Register(second))];
  }

  lemma TwoRegistrations(t: Thread, first: NameAnyValueSet, second: NameAnyValueSet)
    requires DistinctNames(first) && Acceptable(second, NameSet(first))
    ensures P.Exec([P.AddAnyValues(t, first, true), P.AddAnyValues(t, second, true)]).Some?
  {
    var a, b := P.AddAnyValues(t, first, true), P.AddAnyValues(t, second, true);
    assert [a, b][..1] == [a] && [a][..0] == [];
    assert P.Exec([a]) == Some(P.Do(P.NEW_MANAGER, a));
    assert P.Do(P.NEW_MANAGER, a).index.Keys == NameSet(first);
  }

  lemma ConstructionIsPossible(prefix: string, t: Thread, nVars: uint32)
    ensures P.Exec(ConstructionSteps(prefix, t, nVars)).Some?
  {
    InitialNames(prefix, nVars);
    ChannelIsFree(prefix, nVars);
    TwoRegistrations(t, InitialValueSet(prefix, nVars), ChannelValueSet(prefix));
  }

  lemma ChannelIsFree(prefix: string, nVars: uint32)
    ensures Acceptable(ChannelValueSet(prefix), NameSet(InitialValueSet(prefix, nVars)))
  {
    InitialNames(prefix, nVars);
    forall info | Published(info, nVars, 0)
      ensures PVName(prefix, info) !in NameSet(ChannelValueSet(prefix))
    {
      ChannelIsNoSlot(prefix, info);
    }
  }

  lemma ConstructionIsMade(prefix: string, t: Thread, nVars: uint32)
    ensures var made := AllMade(ConstructionSteps(prefix, t, nVars));
            && RequestsOf(made, t) == IndexRequests(Program(prefix, nVars, []))
            && forall k :: 0 <= k < |made| ==> made[k].t == t
  {
    MadeByTwo(t, InitialValueSet(prefix, nVars), ChannelValueSet(prefix));
    TwoIndexRequests(InitialValueSet(prefix, nVars), ChannelValueSet(prefix));
  }

  /** Such runs begin with the construction of any job on a new manager. */
  lemma ConstructionIsRunOf(serverPrefix: string, idx: uint32, t: Thread, nVars: uint32)
    ensures var steps := ConstructionSteps(CreateJobPrefix(serverPrefix, idx), t, nVars);
            var jobs := map[idx := Job(t, nVars, [])];
            && P.Exec(steps).Some? && IsRunOf(serverPrefix, jobs, steps)
            && RequestsOf(AllMade(steps), t) == JobProgram(serverPrefix, idx, jobs[idx])
  {
    var prefix := CreateJobPrefix(serverPrefix, idx);
    ConstructionIsPossible(prefix, t, nVars);
    ConstructionIsMade(prefix, t, nVars);
    OneJobRuns(serverPrefix, idx, Job(t, nVars, []), ConstructionSteps(prefix, t, nVars));
  }

  lemma TwoIndexRequests(first: NameAnyValueSet, second: NameAnyValueSet)
    ensures IndexRequests([Register(first), Register(second)]) == [Register(first), Register(second)]
  {
    var a, b := Register(first), Register(second);
    assert [a, b][..1] == [a] && [a][..0] == [];
    assert IndexRequests([a]) == [a];
  }

  lemma OneJobRuns(serverPrefix: string, idx: uint32, job: Job, steps: seq<P.Step>)
    requires RequestsOf(AllMade(steps), job.caller) == JobProgram(serverPrefix, idx, job)
    requires forall k :: 0 <= k < |AllMade(steps)| ==> AllMade(steps)[k].t == job.caller
    requires forall k :: 0 <= k < |steps| ==> !steps[k].FindChannel?
    ensures IsRunOf(serverPrefix, map[idx := job], steps)
  {
    assert idx in map[idx := job];
    assert IsCaller(map[idx := job], job.caller);
  }

  lemma CallerOfName(serverPrefix: string, jobs: map<uint32, Job>, idx: uint32, what: JobName)
    requires idx in jobs && WellFormedName(what)
    ensures CallerOf(serverPrefix, jobs, ComposedName(serverPrefix, idx, what)) == Some(jobs[idx].caller)
  {
    RecoverInverts(serverPrefix, idx, what);
  }

  ghost predicate IsNameOf(serverPrefix: string, idx: uint32, name: string) {
    exists what: JobName :: WellFormedName(what) && name == ComposedName(serverPrefix, idx, what)
  }

  ghost predicate IsRequestOf(serverPrefix: string, idx: uint32, r: Request) {
    match r
    case Register(values) => forall k :: 0 <= k < |values| ==> IsNameOf(serverPrefix, idx, values[k].0)
    case Publish(name, _) => IsNameOf(serverPrefix, idx, name)
    case InterruptInput(name, _) => IsNameOf(serverPrefix, idx, name)
  }

  ghost predicate AllOf(serverPrefix: string, idx: uint32, requests: seq<Request>) {
    forall k :: 0 <= k < |requests| ==> IsRequestOf(serverPrefix, idx, requests[k])
  }

  lemma AllOfConcat(serverPrefix: string, idx: uint32, a: seq<Request>, b: seq<Request>)
    requires AllOf(serverPrefix, idx, a) && AllOf(serverPrefix, idx, b)
    ensures AllOf(serverPrefix, idx, a + b)
  {
  }

  lemma {:induction false} AllOfIndexRequests(serverPrefix: string, idx: uint32, requests: seq<Request>)
    requires AllOf(serverPrefix, idx, requests)
    ensures AllOf(serverPrefix, idx, IndexRequests(requests))
  {
    if requests != [] {
      AllOfIndexRequests(serverPrefix, idx, requests[..|requests| - 1]);
    }
  }

  lemma SetsAreOf(serverPrefix: string, idx: uint32, n: uint32)
    ensures var prefix := CreateJobPrefix(serverPrefix, idx);
            && IsRequestOf(serverPrefix, idx, Register(InitialValueSet(prefix, n)))
            && IsRequestOf(serverPrefix, idx, Register(InstructionValueSet(prefix, n)))
            && IsRequestOf(serverPrefix, idx, Register(ChannelValueSet(prefix)))
  {
    var prefix := CreateJobPrefix(serverPrefix, idx);
    var values, instructions := InitialValueSet(prefix, n), InstructionValueSet(prefix, n);
    forall k | 0 <= k < |values|
      ensures IsNameOf(serverPrefix, idx, values[k].0)
    {
      assert values[k].0 == ComposedName(serverPrefix, idx, JobValue(InitialInfo(k)));
    }
    forall k | 0 <= k < |instructions|
      ensures IsNameOf(serverPrefix, idx, instructions[k].0)
    {
      assert instructions[k].0 == ComposedName(serverPrefix, idx, JobValue(ValueNameInfo(InstructionName, k)));
    }
    assert ChannelValueSet(prefix)[0].0 == ComposedName(serverPrefix, idx, InputRequest);
  }

  lemma {:induction false} ProgramIsOf(serverPrefix: string, idx: uint32, nVars: uint32, calls: seq<JobEvent>)
    ensures AllOf(serverPrefix, idx, Program(CreateJobPrefix(serverPrefix, idx), nVars, calls))
  {
    var prefix := CreateJobPrefix(serverPrefix, idx);
    if calls == [] {
      SetsAreOf(serverPrefix, idx, nVars);
    } else {
      var front, e := calls[..|calls| - 1], calls[|calls| - 1];
      ProgramIsOf(serverPrefix, idx, nVars, front);
      CallIsOf(serverPrefix, idx, front, e);
      AllOfConcat(serverPrefix, idx, Program(prefix, nVars, front), RequestsFor(prefix, front, e));
    }
  }

  lemma CallIsOf(serverPrefix: string, idx: uint32, front: seq<JobEvent>, e: JobEvent)
    ensures AllOf(serverPrefix, idx, RequestsFor(CreateJobPrefix(serverPrefix, idx), front, e))
  {
    if e.InitNumberOfInstructions? {
      SetsAreOf(serverPrefix, idx, e.nInstr);
    } else if SlotOf(e).Some? {
      SlotWellFormed(e);
      var (name, value) := UpdateFor(CreateJobPrefix(serverPrefix, idx), front, e);
      assert name == ComposedName(serverPrefix, idx, JobValue(SlotOf(e).value));
      assert IsNameOf(serverPrefix, idx, name);
    } else if e.InterruptRequest? {
      assert GetInputServerName(CreateJobPrefix(serverPrefix, idx)) == ComposedName(serverPrefix, idx, InputServer);
      assert IsNameOf(serverPrefix, idx, GetInputServerName(CreateJobPrefix(serverPrefix, idx)));
    }
  }

  lemma {:induction false} RequestHasPosition(made: seq<Made>, k: nat) returns (j: nat)
    requires k < |made|
    ensures j < |RequestsOf(made, made[k].t)| && RequestsOf(made, made[k].t)[j] == made[k].request
    decreases |made|
  {
    var front := made[..|made| - 1];
    if k < |front| {
      j := RequestHasPosition(front, k);
    } else {
      j := |RequestsOf(front, made[k].t)|;
    }
  }

  lemma {:induction false} LookupIsMade(steps: seq<P.Step>, k: nat) returns (j: nat)
    requires k < |steps| && steps[k].FindServer?
    ensures j < |AllMade(steps)| && AllMade(steps)[j] == Made(steps[k].t, Publish(steps[k].name, steps[k].value))
    decreases |steps|
  {
    var front := steps[..|steps| - 1];
    if k < |front| {
      j := LookupIsMade(front, k);
    } else {
      j := |AllMade(front)|;
    }
  }

  /** Jobs with different indices never ask for each other's names. */
  lemma JobsAreSeparate(serverPrefix: string, jobs: map<uint32, Job>, steps: seq<P.Step>)
    requires IsRunOf(serverPrefix, jobs, steps)
    ensures Separate(name => CallerOf(serverPrefix, jobs, name), AllMade(steps))
  {
    var made := AllMade(steps);
    forall k | 0 <= k < |made|
      ensures KeepsTo(name => CallerOf(serverPrefix, jobs, name), made[k])
    {
      RequestIsOfJob(serverPrefix, jobs, steps, k);
    }
  }

  lemma RequestIsOfJob(serverPrefix: string, jobs: map<uint32, Job>, steps: seq<P.Step>, k: nat)
    requires IsRunOf(serverPrefix, jobs, steps) && k < |AllMade(steps)|
    ensures KeepsTo(name => CallerOf(serverPrefix, jobs, name), AllMade(steps)[k])
  {
    var made := AllMade(steps);
    assert IsCaller(jobs, made[k].t);
    var i :| i in jobs && jobs[i].caller == made[k].t;
    ProgramIsOf(serverPrefix, i, jobs[i].nVars, jobs[i].calls);
    AllOfIndexRequests(serverPrefix, i, Program(CreateJobPrefix(serverPrefix, i), jobs[i].nVars, jobs[i].calls));
    RequestInProgram(serverPrefix, i, JobProgram(serverPrefix, i, jobs[i]), made, k);
    RequestKeeps(serverPrefix, jobs, i, made[k]);
  }

  lemma RequestInProgram(serverPrefix: string, idx: uint32, program: seq<Request>, made: seq<Made>, k: nat)
    requires k < |made| && RequestsOf(made, made[k].t) <= program && AllOf(serverPrefix, idx, program)
    ensures IsRequestOf(serverPrefix, idx, made[k].request)
  {
    var j := RequestHasPosition(made, k);
    assert program[j] == made[k].request;
  }

  lemma RequestKeeps(serverPrefix: string, jobs: map<uint32, Job>, idx: uint32, made: Made)
    requires idx in jobs && jobs[idx].caller == made.t && IsRequestOf(serverPrefix, idx, made.request)
    ensures KeepsTo(name => CallerOf(serverPrefix, jobs, name), made)
  {
    forall name | IsNameOf(serverPrefix, idx, name)
      ensures CallerOf(serverPrefix, jobs, name) == Some(made.t)
    {
      var what: JobName :| WellFormedName(what) && name == ComposedName(serverPrefix, idx, what);
      CallerOfName(serverPrefix, jobs, idx, what);
    }
  }

  /** Nobody but the job's own caller looks up the values of a job. */
  lemma JobIsOnlyCaller(
    serverPrefix: string, jobs: map<uint32, Job>, steps: seq<P.Step>, idx: uint32, slot: ValueNameInfo)
    requires IsRunOf(serverPrefix, jobs, steps) && idx in jobs && WellFormed(slot)
    ensures OnlyCaller(steps, PVName(CreateJobPrefix(serverPrefix, idx), slot), jobs[idx].caller)
  {
    var name := PVName(CreateJobPrefix(serverPrefix, idx), slot);
    assert name == ComposedName(serverPrefix, idx, JobValue(slot));
    CallerOfName(serverPrefix, jobs, idx, JobValue(slot));
    JobsAreSeparate(serverPrefix, jobs, steps);
    forall k | 0 <= k < |steps| && steps[k].FindServer? && steps[k].name == name
      ensures steps[k].t == jobs[idx].caller
    {
      var j := LookupIsMade(steps, k);
      assert KeepsTo(name => CallerOf(serverPrefix, jobs, name), AllMade(steps)[j]);
    }
    forall k | 0 <= k < |steps| && steps[k].FindChannel?
      ensures steps[k].name != name
    {
      if steps[k].name == name {
        var i :| i in jobs && IsChannelOf(serverPrefix, i, steps[k].name);
        ComposedNamesInjective(serverPrefix, i, InputRequest, serverPrefix, idx, JobValue(slot));
      }
    }
  }

  // ---- The served value ----

  /** What a client should learn about a slot: the last event that reached it, or the initial
      notification if there was none. An empty variable value is not passed on. */
  function LastSeen(nVars: uint32, calls: seq<JobEvent>, slot: ValueNameInfo): seq<JobEvent> {
    match LastEvent(nVars, calls, slot)
    case Some(e) => if e.VariableUpdated? && e.value == Empty then [] else [e]
    case None => InitialEvent(slot)
  }

  lemma HistoryDecodes(nVars: uint32, calls: seq<JobEvent>, slot: ValueNameInfo)
    ensures var values := [InitialValue(slot.valType)] + PublishedValues(nVars, calls, slot);
            RunCallback(slot, values[|values| - 1]) == LastSeen(nVars, calls, slot)
  {
    var index := LastValue(nVars, calls, slot);
    LastDecodes(nVars, calls, slot, index);
  }

  lemma LastDecodes(nVars: uint32, calls: seq<JobEvent>, slot: ValueNameInfo, index: uint64)
    requires LastEvent(nVars, calls, slot).Some? ==> SlotOf(LastEvent(nVars, calls, slot).value) == Some(slot)
    ensures var v := match LastEvent(nVars, calls, slot)
                     case Some(e) => EncodedEvent(e, index)
                     case None => InitialValue(slot.valType);
            RunCallback(slot, v) == LastSeen(nVars, calls, slot)
  {
    match LastEvent(nVars, calls, slot)
    case Some(e) => CallbackDecodes(e, index);
    case None => InitialValueDecodes(slot);
  }

  lemma ValueInOneMap(
    serverPrefix: string, jobs: map<uint32, Job>, steps: seq<P.Step>, idx: uint32, slot: ValueNameInfo)
    requires P.Exec(steps).Some? && IsRunOf(serverPrefix, jobs, steps) && idx in jobs && WellFormed(slot)
    requires RequestsOf(AllMade(steps), jobs[idx].caller) == JobProgram(serverPrefix, idx, jobs[idx])
    ensures var name, job := PVName(CreateJobPrefix(serverPrefix, idx), slot), jobs[idx];
            && (name in P.Spec(steps) <==> Published(slot, job.nVars, Instructions(job.calls)))
            && (name in P.Spec(steps) && !InFlight(P.Exec(steps).value, name, job.caller) ==>
                  var values := [InitialValue(slot.valType)] + PublishedValues(job.nVars, job.calls, slot);
                  P.Spec(steps)[name] == values[|values| - 1])
  {
    var job := jobs[idx];
    var name := PVName(CreateJobPrefix(serverPrefix, idx), slot);
    assert name == ComposedName(serverPrefix, idx, JobValue(slot));
    CallerOfName(serverPrefix, jobs, idx, JobValue(slot));
    JobsAreSeparate(serverPrefix, jobs, steps);
    JobIsOnlyCaller(serverPrefix, jobs, steps, idx, slot);
    SpecIsFold(steps, name, job.caller);
    P.Refinement(steps);
    Separation(n => CallerOf(serverPrefix, jobs, n), AllMade(steps), job.caller);
    ProgramHistory(CreateJobPrefix(serverPrefix, idx), job.nVars, job.calls);
    FoldOfIndexRequests(Program(CreateJobPrefix(serverPrefix, idx), job.nVars, job.calls));
    assert SlotInv(Fold(JobProgram(serverPrefix, idx, job)), CreateJobPrefix(serverPrefix, idx),
                   job.nVars, job.calls, slot);
  }

  /** The name of a registered value leads to the one server that serves it. */
  function ServerOf(m: P.Manager, name: string): (s: Option<P.U.Server>)
    ensures s.Some? ==> name in m.index && m.index[name] < |m.servers| && s.value == m.servers[m.index[name]]
  {
    if name in m.index && m.index[name] < |m.servers| then Some(m.servers[m.index[name]]) else None
  }

  lemma ServedIsSpec(steps: seq<P.Step>, name: string)
    requires P.Exec(steps).Some?
    ensures ServerOf(P.Exec(steps).value, name).Some? <==> name in P.Spec(steps)
    ensures var s := ServerOf(P.Exec(steps).value, name);
            s.Some? && P.U.Drained(s.value) ==>
              name in s.value.published && s.value.published[name] == Base64(P.Spec(steps)[name])
  {
    P.DrainedServesLatest(steps, name);
  }

  /** Take any number of jobs with different indices on one manager, any interleaving of their
      requests with each other, with user input and with the workers, and a job all of whose
      calls so far have looked their names up. A value of the job has a server exactly if the
      job publishes it. When no push of the job to it is under way and its server has drained,
      the client's callback, chosen by parsing the name and run on the served value, reports
      the last event that reached the value, or the initial one if there was none. */
  lemma ServedValueTellsLastEvent(
    serverPrefix: string, jobs: map<uint32, Job>, steps: seq<P.Step>, idx: uint32, slot: ValueNameInfo)
    requires P.Exec(steps).Some? && IsRunOf(serverPrefix, jobs, steps) && idx in jobs && WellFormed(slot)
    requires RequestsOf(AllMade(steps), jobs[idx].caller) == JobProgram(serverPrefix, idx, jobs[idx])
    ensures var m, job := P.Exec(steps).value, jobs[idx];
            var name := PVName(CreateJobPrefix(serverPrefix, idx), slot);
            var s := ServerOf(m, name);
            && (s.Some? <==> Published(slot, job.nVars, Instructions(job.calls)))
            && (s.Some? && !InFlight(m, name, job.caller) && P.U.Drained(s.value) ==>
                  && name in s.value.published
                  && RunCallback(ParseValueName(name), s.value.published[name].value) ==
                       LastSeen(job.nVars, job.calls, slot))
  {
    var prefix := CreateJobPrefix(serverPrefix, idx);
    ServedIsSpec(steps, PVName(prefix, slot));
    ValueInOneMap(serverPrefix, jobs, steps, idx, slot);
    ParseInvertsPrint(prefix, slot);
    HistoryDecodes(jobs[idx].nVars, jobs[idx].calls, slot);
  }
}
