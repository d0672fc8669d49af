/** The reply delegator as a concurrent machine: threads queue replies, interrupt all of
    them or halt the worker, which waits on a condition variable and delivers replies
    outside the lock. A step is one critical section, one notification or the return of the
    reply function. The labels of the steps form the log of a run. */
module DelegatorMachine {
  import opened AnyValues
  import opened ReplyDelegator

  type Thread = nat

  datatype Pc =
    | Waiting
    | Asleep
    | Delivering(info: ReplyInfo)  // inside the reply function
    | Closing(info: ReplyInfo)     // the reply function has returned, the lock not yet retaken
    | Exited

  datatype State = State(d: DelegatorState, pc: Pc, owing: set<Thread>)

  datatype Step =
    | QueueReply(t: Thread, info: ReplyInfo)
    | InterruptAll(t: Thread, called: Option<uint64>)
    | Halt(t: Thread)
    | NotifyOne(t: Thread)
    | SpuriousWake
    | Sleep
    | Take(info: ReplyInfo)
    | Delivered(info: ReplyInfo)
    | Close
    | Stop

  const INITIAL := State(NO_REPLIES, Waiting, {})

  predicate Enabled(s: State, a: Step) {
    match a
    case QueueReply(t, _) => t !in s.owing
    case InterruptAll(t, called) => t !in s.owing && called == InterruptedId(s.d)
    case Halt(t) => t !in s.owing
    case NotifyOne(t) => t in s.owing
    case SpuriousWake => s.pc == Asleep
    case Sleep => s.pc == Waiting && !HasWork(s.d)
    case Take(info) => s.pc == Waiting && s.d.queue != [] && s.d.queue[0] == info
    case Delivered(info) => s.pc == Delivering(info)
    case Close => s.pc.Closing?
    case Stop => s.pc == Waiting && s.d.queue == [] && s.d.halt
  }

  function Do(s: State, a: Step): State
    requires Enabled(s, a)
  {
    match a
    case QueueReply(t, info) => s.(d := Queueing(s.d, info), owing := s.owing + {t})
    case InterruptAll(_, _) => s.(d := Clearing(s.d))
    case Halt(t) => s.(d := s.d.(halt := true), owing := s.owing + {t})
    case NotifyOne(t) => s.(owing := s.owing - {t}, pc := if s.pc == Asleep then Waiting else s.pc)
    case SpuriousWake => s.(pc := Waiting)
    case Sleep => s.(pc := Asleep)
    case Take(info) => s.(d := Taking(s.d), pc := Delivering(info))
    case Delivered(info) => s.(pc := Closing(info))
    case Close => s.(d := s.d.(activeId := 0), pc := if s.d.halt then Exited else Waiting)
    case Stop => s.(pc := Exited)
  }

  function Exec(log: seq<Step>): Option<State> {
    if log == [] then Some(INITIAL)
    else
      match Exec(log[..|log| - 1])
      case None => None
      case Some(s) => if Enabled(s, log[|log| - 1]) then Some(Do(s, log[|log| - 1])) else None
  }

  // ---- Reading the log ----

  /** All replies ever queued, in order; a reply's position here identifies it. */
  function Queued(log: seq<Step>): seq<ReplyInfo> {
    if log == [] then []
    else
      var front, a := Queued(log[..|log| - 1]), log[|log| - 1];
      if a.QueueReply? then front + [a.info] else front
  }

  /** How many replies have left the queue, taken or cleared. */
  function Next(log: seq<Step>): nat {
    if log == [] then 0
    else
      var front, a := log[..|log| - 1], log[|log| - 1];
      if a.Take? then Next(front) + 1
      else if a.InterruptAll? then |Queued(front)|
      else Next(front)
  }

  /** Positions of the replies taken for delivery. */
  function Taken(log: seq<Step>): seq<nat> {
    if log == [] then []
    else
      var front, a := log[..|log| - 1], log[|log| - 1];
      if a.Take? then Taken(front) + [Next(front)] else Taken(front)
  }

  function Interval(lo: nat, hi: nat): (s: set<nat>)
    ensures forall p :: p in s <==> lo <= p < hi
  {
    if lo >= hi then {} else Interval(lo, hi - 1) + {hi - 1}
  }

  /** Positions of the replies that an InterruptAll removed from the queue. */
  function Cleared(log: seq<Step>): set<nat> {
    if log == [] then {}
    else
      var front, a := log[..|log| - 1], log[|log| - 1];
      if a.InterruptAll? then Cleared(front) + Interval(Next(front), |Queued(front)|) else Cleared(front)
  }

  /** The replies for which the reply function has returned. */
  function Deliveries(log: seq<Step>): seq<ReplyInfo> {
    if log == [] then []
    else
      var front, a := Deliveries(log[..|log| - 1]), log[|log| - 1];
      if a.Delivered? then front + [a.info] else front
  }

  function InFlight(s: State): seq<ReplyInfo> {
    if s.pc.Delivering? then [s.pc.info] else []
  }

  function Select(all: seq<ReplyInfo>, positions: seq<nat>): seq<ReplyInfo>
    requires forall k :: 0 <= k < |positions| ==> positions[k] < |all|
  {
    if positions == [] then []
    else Select(all, positions[..|positions| - 1]) + [all[positions[|positions| - 1]]]
  }

  lemma {:induction false} SelectGrows(all: seq<ReplyInfo>, more: seq<ReplyInfo>, positions: seq<nat>)
    requires forall k :: 0 <= k < |positions| ==> positions[k] < |all|
    ensures Select(all + more, positions) == Select(all, positions)
  {
    if positions != [] {
      var last := |positions| - 1;
      SelectGrows(all, more, positions[..last]);
    }
  }

  lemma {:induction false} SelectPrefix(all: seq<ReplyInfo>, positions: seq<nat>)
    requires |positions| <= |all| && forall k :: 0 <= k < |positions| ==> positions[k] == k
    ensures Select(all, positions) == all[..|positions|]
  {
    if positions != [] {
      var last := |positions| - 1;
      SelectPrefix(all, positions[..last]);
      assert all[..last + 1] == all[..last] + [all[last]];
    }
  }

  // ---- Invariants ----

  predicate StateInv(s: State) {
    && s.d.activeId == (if s.pc.Delivering? || s.pc.Closing? then s.pc.info.id else 0)
    && (s.pc == Asleep && HasWork(s.d) ==> s.owing != {})
    && (s.pc == Exited ==> s.d.halt)
  }

  predicate Increasing(positions: seq<nat>) {
    forall i, j :: 0 <= i < j < |positions| ==> positions[i] < positions[j]
  }

  ghost predicate Accounted(
    s: State, queued: seq<ReplyInfo>, next: nat, taken: seq<nat>, cleared: set<nat>, deliveries: seq<ReplyInfo>) {
    && next <= |queued| && s.d.queue == queued[next..]
    && Increasing(taken)
    && (forall k :: 0 <= k < |taken| ==> taken[k] < next)
    && (forall p :: p in cleared ==> p < next && p !in taken)
    && (forall p: nat :: p < next ==> p in taken || p in cleared)
    && deliveries + InFlight(s) == Select(queued, taken)
  }

  lemma StateInvStep(s: State, a: Step)
    requires StateInv(s) && Enabled(s, a)
    ensures StateInv(Do(s, a))
  {
  }

  lemma {:induction false} RunInv(log: seq<Step>)
    requires Exec(log).Some?
    ensures StateInv(Exec(log).value)
  {
    if log != [] {
      RunInv(log[..|log| - 1]);
      StateInvStep(Exec(log[..|log| - 1]).value, log[|log| - 1]);
    }
  }

  lemma QueueAccounted(
    s: State, t: Thread, info: ReplyInfo,
    queued: seq<ReplyInfo>, next: nat, taken: seq<nat>, cleared: set<nat>, deliveries: seq<ReplyInfo>)
    requires Accounted(s, queued, next, taken, cleared, deliveries) && Enabled(s, QueueReply(t, info))
    ensures Accounted(Do(s, QueueReply(t, info)), queued + [info], next, taken, cleared, deliveries)
  {
    SelectGrows(queued, [info], taken);
  }

  lemma TakeAccounted(
    s: State, info: ReplyInfo,
    queued: seq<ReplyInfo>, next: nat, taken: seq<nat>, cleared: set<nat>, deliveries: seq<ReplyInfo>)
    requires Accounted(s, queued, next, taken, cleared, deliveries) && Enabled(s, Take(info))
    ensures Accounted(Do(s, Take(info)), queued, next + 1, taken + [next], cleared, deliveries)
  {
    var taken' := taken + [next];
    assert queued[next] == info;
    assert forall p :: p in taken' <==> p in taken || p == next;
    assert taken'[..|taken|] == taken;
  }

  lemma ClearAccounted(
    s: State, a: Step,
    queued: seq<ReplyInfo>, next: nat, taken: seq<nat>, cleared: set<nat>, deliveries: seq<ReplyInfo>)
    requires Accounted(s, queued, next, taken, cleared, deliveries) && a.InterruptAll? && Enabled(s, a)
    ensures Accounted(Do(s, a), queued, |queued|, taken, cleared + Interval(next, |queued|), deliveries)
  {
  }

  lemma OtherAccounted(
    s: State, a: Step,
    queued: seq<ReplyInfo>, next: nat, taken: seq<nat>, cleared: set<nat>, deliveries: seq<ReplyInfo>)
    requires Accounted(s, queued, next, taken, cleared, deliveries) && Enabled(s, a)
    requires !a.QueueReply? && !a.Take? && !a.InterruptAll?
    ensures Accounted(Do(s, a), queued, next, taken, cleared,
                      if a.Delivered? then deliveries + [a.info] else deliveries)
  {
    if a.Delivered? {
      assert deliveries + [a.info] + [] == deliveries + [a.info];
    }
  }

  /** In every run each reply ever queued has exactly one fate. The ones that left the queue
      were either taken or cleared by an InterruptAll, never both; the others are still
      queued, in order. Those delivered and the one in flight are the ones taken, each
      once and in the order of queueing. */
  lemma {:induction false} Conservation(log: seq<Step>)
    requires Exec(log).Some?
    ensures Accounted(Exec(log).value, Queued(log), Next(log), Taken(log), Cleared(log), Deliveries(log))
  {
    if log != [] {
      var front, a := log[..|log| - 1], log[|log| - 1];
      var s := Exec(front).value;
      Conservation(front);
      var queued, next, taken := Queued(front), Next(front), Taken(front);
      match a
      case QueueReply(t, info) =>
        QueueAccounted(s, t, info, queued, next, taken, Cleared(front), Deliveries(front));
      case Take(info) =>
        TakeAccounted(s, info, queued, next, taken, Cleared(front), Deliveries(front));
      case InterruptAll(_, _) =>
        ClearAccounted(s, a, queued, next, taken, Cleared(front), Deliveries(front));
      case _ =>
        OtherAccounted(s, a, queued, next, taken, Cleared(front), Deliveries(front));
    }
  }

  /** Without interruption nothing is lost: delivered, in flight and queued are, strung
      together, exactly what was queued. */
  lemma NothingLost(log: seq<Step>)
    requires Exec(log).Some? && forall k :: 0 <= k < |log| ==> !log[k].InterruptAll?
    ensures Deliveries(log) + InFlight(Exec(log).value) + Exec(log).value.d.queue == Queued(log)
  {
    Conservation(log);
    UninterruptedTakesAll(log);
    SelectPrefix(Queued(log), Taken(log));
    Split(Queued(log), Next(log));
  }

  lemma Split(all: seq<ReplyInfo>, n: nat)
    requires n <= |all|
    ensures all[..n] + all[n..] == all
  {
  }

  lemma {:induction false} UninterruptedTakesAll(log: seq<Step>)
    requires forall k :: 0 <= k < |log| ==> !log[k].InterruptAll?
    ensures |Taken(log)| == Next(log) && forall k :: 0 <= k < Next(log) ==> Taken(log)[k] == k
  {
    if log != [] {
      UninterruptedTakesAll(log[..|log| - 1]);
    }
  }

  // ---- InterruptAll is a barrier ----

  lemma {:induction false} ExecPrefix(log: seq<Step>, k: nat)
    requires Exec(log).Some? && k <= |log|
    ensures Exec(log[..k]).Some?
    ensures k < |log| ==> Enabled(Exec(log[..k]).value, log[k])
    decreases |log|
  {
    if k == |log| {
      assert log[..k] == log;
    } else {
      var front := log[..|log| - 1];
      if k < |front| {
        ExecPrefix(front, k);
        assert front[..k] == log[..k];
      }
    }
  }

  lemma {:induction false} NextMonotone(log: seq<Step>, i: nat, j: nat)
    requires Exec(log).Some? && i <= j <= |log|
    ensures Next(log[..i]) <= Next(log[..j]) && Queued(log[..i]) <= Queued(log[..j])
    decreases j
  {
    if i < j {
      NextMonotone(log, i, j - 1);
      assert log[..j][..j - 1] == log[..j - 1];
      ExecPrefix(log, j - 1);
      Conservation(log[..j - 1]);
    }
  }

  /** A reply taken after an InterruptAll was queued after it: its position is not among
      those queued before. The interrupt function is called, under the same lock, with the
      id of the reply that was taken and whose delivery is not closed; if there is no such
      reply or its id is zero it is not called. */
  lemma InterruptAllIsBarrier(log: seq<Step>, i: nat)
    requires Exec(log).Some? && i < |log| && log[i].InterruptAll?
    ensures Exec(log[..i]).Some?
    ensures var pc := Exec(log[..i]).value.pc;
            log[i].called == if (pc.Delivering? || pc.Closing?) && pc.info.id != 0 then Some(pc.info.id) else None
    ensures forall j :: i < j < |log| && log[j].Take? ==>
              && |Queued(log[..i])| <= Next(log[..j]) < |Queued(log[..j])|
              && log[j].info == Queued(log[..j])[Next(log[..j])]
  {
    ExecPrefix(log, i);
    RunInv(log[..i]);
    forall j | i < j < |log| && log[j].Take?
      ensures |Queued(log[..i])| <= Next(log[..j]) < |Queued(log[..j])|
      ensures log[j].info == Queued(log[..j])[Next(log[..j])]
    {
      assert log[..i + 1][..i] == log[..i];
      NextMonotone(log, i + 1, j);
      ExecPrefix(log, j);
      Conservation(log[..j]);
    }
  }

  // ---- Shutdown ----

  function TakesSince(log: seq<Step>, h: nat): nat {
    if |log| <= h then 0
    else TakesSince(log[..|log| - 1], h) + if log[|log| - 1].Take? then 1 else 0
  }

  /** After the halt flag is set at most one further reply is taken, and none if the worker
      was already delivering. */
  lemma {:induction false} AtMostOneAfterHalt(log: seq<Step>, h: nat)
    requires Exec(log).Some? && h < |log| && log[h].Halt?
    ensures Exec(log).value.d.halt
    ensures TakesSince(log, h) <= 1
    ensures Exec(log).value.pc in {Waiting, Asleep} ==> TakesSince(log, h) == 0
    ensures Exec(log[..h]).Some? && Exec(log[..h]).value.pc !in {Waiting, Asleep} ==>
              TakesSince(log, h) == 0 && Exec(log).value.pc !in {Waiting, Asleep}
    decreases |log|
  {
    var front := log[..|log| - 1];
    if h < |front| {
      assert front[..h] == log[..h];
      AtMostOneAfterHalt(front, h);
    } else {
      assert log[..h] == front;
      assert TakesSince(front, h) == 0;
    }
  }

  /** A worker that is waiting with replies queued when it is halted does take one of them
      before it exits, unless an InterruptAll comes: so it takes exactly one. */
  lemma {:induction false} OneAfterHalt(log: seq<Step>, h: nat)
    requires Exec(log).Some? && h < |log| && log[h].Halt? && Exec(log[..h]).Some?
    requires Exec(log[..h]).value.pc in {Waiting, Asleep} && Exec(log[..h]).value.d.queue != []
    requires forall k :: h <= k < |log| ==> !log[k].InterruptAll?
    ensures var s := Exec(log).value;
            && (TakesSince(log, h) == 0 ==> s.pc in {Waiting, Asleep} && s.d.queue != [])
            && (s.pc == Exited ==> TakesSince(log, h) == 1)
    decreases |log|
  {
    var front := log[..|log| - 1];
    AtMostOneAfterHalt(log, h);
    if h < |front| {
      assert front[..h] == log[..h];
      OneAfterHalt(front, h);
    } else {
      assert log[..h] == front;
      assert TakesSince(front, h) == 0;
    }
  }

  /** The worker ends only because it was halted, and then with nothing in delivery. */
  lemma ExitsOnlyWhenHalted(log: seq<Step>)
    requires Exec(log).Some? && Exec(log).value.pc == Exited
    ensures exists h :: 0 <= h < |log| && log[h].Halt?
    ensures Exec(log).value.d.activeId == 0
  {
    RunInv(log);
    HaltComesFromHalt(log);
  }

  lemma {:induction false} HaltComesFromHalt(log: seq<Step>)
    requires Exec(log).Some? && Exec(log).value.d.halt
    ensures exists h :: 0 <= h < |log| && log[h].Halt?
  {
    var front := log[..|log| - 1];
    if log[|log| - 1].Halt? {
      assert log[|log| - 1].Halt?;
    } else {
      HaltComesFromHalt(front);
      var h :| 0 <= h < |front| && front[h].Halt?;
      assert log[h].Halt?;
    }
  }

  /** Other threads are never refused: in every state a thread that owes no notification can
      queue any reply, interrupt all and halt, and one that owes a notification can give it. */
  lemma CallsArePossible(log: seq<Step>, t: Thread, info: ReplyInfo)
    requires Exec(log).Some?
    ensures var s := Exec(log).value;
            if t in s.owing then Enabled(s, NotifyOne(t))
            else && Enabled(s, QueueReply(t, info)) && Enabled(s, Halt(t))
                 && exists called :: Enabled(s, InterruptAll(t, called))
  {
    var s := Exec(log).value;
    if t !in s.owing {
      assert Enabled(s, InterruptAll(t, InterruptedId(s.d)));
    }
  }

  function Distance(pc: Pc): nat {
    match pc
    case Asleep => 4
    case Waiting => 3
    case Delivering(_) => 2
    case Closing(_) => 1
    case Exited => 0
  }

  predicate IsWorkerStep(a: Step) {
    !a.QueueReply? && !a.InterruptAll? && !a.Halt? && !a.NotifyOne?
  }

  function WorkerSteps(log: seq<Step>, h: nat): nat {
    if |log| <= h then 0
    else WorkerSteps(log[..|log| - 1], h) + if IsWorkerStep(log[|log| - 1]) then 1 else 0
  }

  /** Once halted the worker takes at most as many steps as it is away from its end,
      whatever the other threads do. */
  lemma {:induction false} HaltedWorkerTerminates(log: seq<Step>, h: nat)
    requires Exec(log).Some? && h <= |log| && Exec(log[..h]).Some? && Exec(log[..h]).value.d.halt
    ensures Exec(log).value.d.halt
    ensures WorkerSteps(log, h) + Distance(Exec(log).value.pc) <= Distance(Exec(log[..h]).value.pc)
    decreases |log|
  {
    if |log| == h {
      assert log[..h] == log;
    } else {
      var front := log[..|log| - 1];
      assert front[..h] == log[..h];
      HaltedWorkerTerminates(front, h);
    }
  }

  // ---- The worker catches up ----

  /** Nothing is left to deliver: the worker has exited, or waits with no reason to go on. */
  predicate Settled(s: State) {
    s.pc == Exited || (s.pc in {Waiting, Asleep} && !HasWork(s.d))
  }

  /** How many steps the worker is at most away from that. */
  function Backlog(s: State): nat {
    if Settled(s) then 0
    else
      match s.pc
      case Asleep => 3 * |s.d.queue| + 2
      case Waiting => 3 * |s.d.queue| + 1
      case Delivering(_) => 3 * |s.d.queue| + 3
      case Closing(_) => 3 * |s.d.queue| + 2
  }

  lemma BacklogDecreases(s: State, a: Step)
    requires Enabled(s, a) && !a.QueueReply? && !a.Halt?
    ensures Settled(s) ==> Settled(Do(s, a))
    ensures !Settled(s) ==> Backlog(Do(s, a)) + (if IsWorkerStep(a) then 1 else 0) <= Backlog(s)
  {
  }

  /** Without further replies and halts the worker has settled after at most Backlog steps of
      its own; interrupting only makes it sooner. */
  lemma {:induction false} WorkerSettles(log: seq<Step>, h: nat)
    requires Exec(log).Some? && h <= |log| && Exec(log[..h]).Some?
    requires forall k :: h <= k < |log| ==> !log[k].QueueReply? && !log[k].Halt?
    ensures Settled(Exec(log).value) || WorkerSteps(log, h) + Backlog(Exec(log).value) <= Backlog(Exec(log[..h]).value)
    decreases |log|
  {
    if |log| == h {
      assert log[..h] == log;
    } else {
      var front := log[..|log| - 1];
      assert front[..h] == log[..h];
      WorkerSettles(front, h);
      BacklogDecreases(Exec(front).value, log[|log| - 1]);
    }
  }

  /** Until it has settled there is always a step that brings the worker closer, whether or
      not it is halted: its own, the return of the reply function, or, when it sleeps, a
      notification that is already owed. After a halt it settles only by exiting. */
  lemma WorkerAdvances(log: seq<Step>) returns (a: Step)
    requires Exec(log).Some? && !Settled(Exec(log).value)
    ensures var s := Exec(log).value;
            && Enabled(s, a) && a != SpuriousWake && !a.QueueReply? && !a.Halt? && !a.InterruptAll?
            && Backlog(Do(s, a)) < Backlog(s)
            && (s.d.halt ==> Distance(Do(s, a).pc) < Distance(s.pc))
            && (a.NotifyOne? <==> s.pc == Asleep)
            && (a.Delivered? <==> s.pc.Delivering?)
  {
    RunInv(log);
    var s := Exec(log).value;
    match s.pc {
      case Asleep =>
        var t :| t in s.owing;
        a := NotifyOne(t);
      case Waiting => a := if s.d.queue != [] then Take(s.d.queue[0]) else Stop;
      case Delivering(info) => a := Delivered(info);
      case Closing(_) => a := Close;
    }
    BacklogDecreases(s, a);
  }
}
