/** One server as a concurrent machine: any number of producer threads push updates and
    wake a worker, which waits on a condition variable, swaps the queue out and publishes.
    A step is one critical section, one notification or one action of the worker on its own
    data. Unlocking and notifying are separate steps, and wake-ups may be spurious. */
module UpdateMachine {
  import opened AnyValues
  import opened UpdateQueue

  type Thread = nat

  datatype WorkerPc =
    | Starting    // the initial values are not served yet
    | Waiting     // about to look whether the queue is empty
    | Asleep      // blocked in the condition variable
    | Popping     // has seen a non-empty queue, about to swap it out
    | Processing  // works through the batch
    | Exited

  /** `owing` holds the threads that have pushed a command and not yet called notify. */
  datatype Server = Server(
    initial: Store, published: Store, batch: seq<Command>, queue: seq<Command>, pc: WorkerPc, owing: set<Thread>)

  datatype Step =
    | Push(t: Thread, name: string, value: Encoded)
    | PushExit(t: Thread)
    | NotifyOne(t: Thread)
    | Start
    | SpuriousWake
    | Sleep
    | SeeNonEmpty
    | Pop
    | Process(command: Command)
    | EndBatch

  function NewServer(initial: Store): Server {
    Server(initial, map[], [], [], Starting, {})
  }

  predicate Enabled(s: Server, a: Step) {
    match a
    case Push(t, _, _) => t !in s.owing
    case PushExit(t) => t !in s.owing
    case NotifyOne(t) => t in s.owing
    case Start => s.pc == Starting
    case SpuriousWake => s.pc == Asleep
    case Sleep => s.pc == Waiting && s.queue == []
    case SeeNonEmpty => s.pc == Waiting && s.queue != []
    case Pop => s.pc == Popping
    case Process(command) => s.pc == Processing && s.batch != [] && s.batch[0] == command
    case EndBatch => s.pc == Processing && s.batch == []
  }

  function Do(s: Server, a: Step): Server
    requires Enabled(s, a)
  {
    match a
    case Push(t, name, value) => s.(queue := s.queue + [Update(name, value)], owing := s.owing + {t})
    case PushExit(t) => s.(queue := s.queue + [Exit], owing := s.owing + {t})
    case NotifyOne(t) => s.(owing := s.owing - {t}, pc := if s.pc == Asleep then Waiting else s.pc)
    case Start => s.(published := s.initial, pc := Waiting)
    case SpuriousWake => s.(pc := Waiting)
    case Sleep => s.(pc := Asleep)
    case SeeNonEmpty => s.(pc := Popping)
    case Pop => s.(batch := s.queue, queue := [], pc := Processing)
    case Process(command) =>
      if command == Exit then s.(batch := s.batch[1..], pc := Exited)
      else s.(batch := s.batch[1..], published := ApplyOne(s.published, command))
    case EndBatch => s.(pc := Waiting)
  }

  /** The state after a sequence of steps, if each of them was possible. */
  function Exec(s: Server, steps: seq<Step>): Option<Server> {
    if steps == [] then Some(s)
    else
      match Exec(s, steps[..|steps| - 1])
      case None => None
      case Some(m) => if Enabled(m, steps[|steps| - 1]) then Some(Do(m, steps[|steps| - 1])) else None
  }

  // ---- What can be read off a sequence of steps ----

  /** The commands pushed, in the order in which the queue received them. */
  function Pushed(steps: seq<Step>): seq<Command> {
    if steps == [] then []
    else
      var front := Pushed(steps[..|steps| - 1]);
      match steps[|steps| - 1]
      case Push(_, name, value) => front + [Update(name, value)]
      case PushExit(_) => front + [Exit]
      case _ => front
  }

  /** The commands the worker has taken off its batches. */
  function Consumed(steps: seq<Step>): seq<Command> {
    if steps == [] then []
    else
      var front := Consumed(steps[..|steps| - 1]);
      match steps[|steps| - 1]
      case Process(command) => front + [command]
      case _ => front
  }

  // ---- Invariants ----

  /** What holds in every reachable state whatever the history. The last clause rules out
      a lost wake-up: a worker asleep on a non-empty queue is still owed a notification. */
  predicate Inv(s: Server) {
    && (s.pc in {Starting, Waiting, Asleep, Popping} ==> s.batch == [])
    && (s.pc == Popping ==> s.queue != [])
    && (s.pc == Asleep && s.queue != [] ==> s.owing != {})
  }

  function Pending(s: Server): seq<Command> {
    s.batch + s.queue
  }

  predicate Accepting(s: Server) {
    s.pc != Exited && Exit !in Pending(s)
  }

  /** What the server will serve once it has caught up: the batch in progress and then the
      queue, folded over what is served now. */
  function View(s: Server): Store {
    if s.pc == Exited then s.published else Apply(Base(s), UntilExit(Pending(s)))
  }

  /** What is served now; a server that has not started yet will first serve its initial values. */
  function Base(s: Server): Store {
    if s.pc == Starting then s.initial else s.published
  }

  lemma StepKeepsInv(s: Server, a: Step)
    requires Inv(s) && Enabled(s, a)
    ensures Inv(Do(s, a))
  {
  }

  lemma PushView(s: Server, a: Step)
    requires Enabled(s, a) && (a.Push? || a.PushExit?)
    ensures View(Do(s, a)) == if a.Push? && Accepting(s) then View(s)[a.name := a.value] else View(s)
    ensures Accepting(Do(s, a)) <==> Accepting(s) && !a.PushExit?
  {
    var c := if a.Push? then Update(a.name, a.value) else Exit;
    assert Pending(Do(s, a)) == Pending(s) + [c];
    ApplyPushed(Base(s), Pending(s), c);
  }

  lemma ProcessView(s: Server, command: Command)
    requires Enabled(s, Process(command))
    ensures Pending(s) == [command] + Pending(Do(s, Process(command)))
    ensures View(Do(s, Process(command))) == View(s)
    ensures Accepting(Do(s, Process(command))) <==> Accepting(s)
  {
    var rest := Pending(Do(s, Process(command)));
    assert Pending(s) == [command] + rest;
    if command != Exit {
      ApplyPopped(s.published, command, rest);
    }
  }

  predicate IsQuiet(a: Step) {
    !a.Push? && !a.PushExit? && !a.Process?
  }

  lemma QuietStep(s: Server, a: Step)
    requires Inv(s) && Enabled(s, a) && IsQuiet(a)
    ensures var r := Do(s, a);
            && Pending(r) == Pending(s) && Base(r) == Base(s)
            && (r.pc == Exited <==> s.pc == Exited)
            && r.published == if a.Start? then s.initial else s.published
  {
  }

  /** A push is the one step that changes the view, as long as no exit is in front of it;
      all the steps of the worker are stutters. */
  lemma StepView(s: Server, a: Step)
    requires Inv(s) && Enabled(s, a)
    ensures View(Do(s, a)) == if a.Push? && Accepting(s) then View(s)[a.name := a.value] else View(s)
    ensures Accepting(Do(s, a)) <==> Accepting(s) && !a.PushExit?
  {
    if a.Push? || a.PushExit? {
      PushView(s, a);
    } else if a.Process? {
      ProcessView(s, a.command);
    } else {
      QuietStep(s, a);
    }
  }

  lemma {:induction false} RunKeepsInv(s: Server, steps: seq<Step>)
    requires Inv(s) && Exec(s, steps).Some?
    ensures Inv(Exec(s, steps).value)
  {
    if steps != [] {
      RunKeepsInv(s, steps[..|steps| - 1]);
      StepKeepsInv(Exec(s, steps[..|steps| - 1]).value, steps[|steps| - 1]);
    }
  }

  // ---- Batches do not matter and shutdown drains ----

  /** How a state that started from `initial` relates to what was pushed and consumed. */
  predicate Accounted(initial: Store, s: Server, pushed: seq<Command>, consumed: seq<Command>) {
    && consumed + Pending(s) == pushed
    && s.initial == initial
    && (s.pc == Starting ==> consumed == [])
    && (s.pc != Starting ==> s.published == Apply(initial, UntilExit(consumed)))
    && (s.pc != Exited ==> Exit !in consumed)
    && (s.pc == Exited ==> consumed == UntilExit(consumed) + [Exit])
  }

  lemma ProcessAccounted(initial: Store, s: Server, pushed: seq<Command>, consumed: seq<Command>, c: Command)
    requires Accounted(initial, s, pushed, consumed) && Enabled(s, Process(c))
    ensures Accounted(initial, Do(s, Process(c)), pushed, consumed + [c])
  {
    var r, done := Do(s, Process(c)), consumed + [c];
    assert done + Pending(r) == pushed by {
      assert Pending(s) == [c] + Pending(r);
      assert consumed + ([c] + Pending(r)) == done + Pending(r);
    }
    assert r.published == Apply(initial, UntilExit(done)) by {
      ApplyPushed(initial, consumed, c);
    }
    assert if c == Exit then done == UntilExit(done) + [Exit] else Exit !in done by {
      ApplyPushed(initial, consumed, c);
      UntilExitWhole(consumed);
    }
  }

  /** Nothing pushed is lost or reordered on its way through the queue and the batches. */
  lemma {:induction false} Conservation(initial: Store, steps: seq<Step>)
    requires Exec(NewServer(initial), steps).Some?
    ensures Accounted(initial, Exec(NewServer(initial), steps).value, Pushed(steps), Consumed(steps))
  {
    if steps != [] {
      var front, a := steps[..|steps| - 1], steps[|steps| - 1];
      var s := Exec(NewServer(initial), front).value;
      Conservation(initial, front);
      RunKeepsInv(NewServer(initial), front);
      if a.Process? {
        ProcessAccounted(initial, s, Pushed(front), Consumed(front), a.command);
      } else if a.Push? || a.PushExit? {
        var c := if a.Push? then Update(a.name, a.value) else Exit;
        assert Pending(Do(s, a)) == Pending(s) + [c];
        assert Consumed(front) + Pending(Do(s, a)) == Consumed(front) + Pending(s) + [c];
      } else {
        QuietStep(s, a);
      }
    }
  }

  /** In every run, however producers interleave and wherever the batches are cut: the
      updates applied are a prefix of those pushed in front of the first exit; when the
      worker has exited they are all of those and nothing behind the exit was applied. */
  lemma DrainingShutdown(initial: Store, steps: seq<Step>)
    requires Exec(NewServer(initial), steps).Some?
    ensures var s := Exec(NewServer(initial), steps).value;
            var applied, due := UntilExit(Consumed(steps)), UntilExit(Pushed(steps));
            && applied <= due
            && (s.pc != Starting ==> s.published == Apply(initial, applied))
            && (s.pc == Exited ==> Exit in Pushed(steps) && applied == due)
            && View(s) == Apply(initial, due)
  {
    Conservation(initial, steps);
    var s := Exec(NewServer(initial), steps).value;
    var done := Consumed(steps);
    UntilExitConcat(done, Pending(s));
    if s.pc != Exited {
      UntilExitWhole(done);
      ApplyConcat(initial, done, UntilExit(Pending(s)));
    }
  }

  // ---- The worker terminates once an exit is queued ----

  predicate IsWorkerStep(a: Step) {
    !a.Push? && !a.PushExit? && !a.NotifyOne?
  }

  function Rank(s: Server): nat {
    if s.pc == Exited then 0
    else if Exit in s.batch then |UntilExit(s.batch)| + 1
    else |s.batch| + |UntilExit(s.queue)| + 1 +
         match s.pc
         case Starting => 4
         case Asleep => 3
         case Waiting => 2
         case Popping => 1
         case _ => 3
  }

  lemma ProcessRank(s: Server, c: Command)
    requires !Accepting(s) && Enabled(s, Process(c))
    ensures Rank(Do(s, Process(c))) < Rank(s)
  {
    var rest := s.batch[1..];
    assert s.batch == [c] + rest;
    if c != Exit {
      ApplyPopped(map[], c, rest);
    }
  }

  lemma PushRank(s: Server, a: Step)
    requires !Accepting(s) && Enabled(s, a) && (a.Push? || a.PushExit?)
    ensures Rank(Do(s, a)) == Rank(s)
  {
    if s.pc != Exited && Exit !in s.batch {
      assert Exit in s.queue;
      ApplyPushed(map[], s.queue, if a.Push? then Update(a.name, a.value) else Exit);
    }
  }

  lemma RankDecreases(s: Server, a: Step)
    requires Inv(s) && !Accepting(s) && Enabled(s, a)
    ensures !Accepting(Do(s, a))
    ensures Rank(Do(s, a)) + (if IsWorkerStep(a) then 1 else 0) <= Rank(s)
  {
    StepView(s, a);
    if a.Push? || a.PushExit? {
      PushRank(s, a);
    } else if a.Process? {
      ProcessRank(s, a.command);
    }
  }

  function WorkerSteps(steps: seq<Step>): nat {
    if steps == [] then 0
    else WorkerSteps(steps[..|steps| - 1]) + if IsWorkerStep(steps[|steps| - 1]) then 1 else 0
  }

  /** From a state with a queued exit on, the worker takes at most Rank more steps,
      whatever else is pushed meanwhile. */
  lemma {:induction false} WorkerTerminates(s: Server, steps: seq<Step>)
    requires Inv(s) && !Accepting(s) && Exec(s, steps).Some?
    ensures WorkerSteps(steps) + Rank(Exec(s, steps).value) <= Rank(s)
    ensures !Accepting(Exec(s, steps).value)
  {
    if steps != [] {
      var front := steps[..|steps| - 1];
      WorkerTerminates(s, front);
      RunKeepsInv(s, front);
      RankDecreases(Exec(s, front).value, steps[|steps| - 1]);
    }
  }

  // ---- The worker catches up ----

  /** A server that has caught up, or has shut down. */
  predicate Drained(s: Server) {
    s.pc == Exited || (s.pc != Starting && Pending(s) == [])
  }

  /** How many steps the worker is at most away from having caught up. */
  function Backlog(s: Server): nat {
    if Drained(s) then 0
    else
      match s.pc
      case Starting => |s.batch| + |s.queue| + 4
      case Asleep => |s.queue| + 3
      case Waiting => |s.queue| + 2
      case Popping => |s.queue| + 1
      case Processing => |s.batch| + if s.queue == [] then 0 else |s.queue| + 3
  }

  lemma BacklogDecreases(s: Server, a: Step)
    requires Inv(s) && Enabled(s, a) && !a.Push? && !a.PushExit?
    ensures Drained(s) ==> Drained(Do(s, a))
    ensures !Drained(s) ==> Backlog(Do(s, a)) + (if IsWorkerStep(a) then 1 else 0) <= Backlog(s)
  {
  }

  /** Without further pushes the worker has caught up after at most Backlog steps of its own,
      and it stays so. */
  lemma {:induction false} WorkerDrains(s: Server, steps: seq<Step>)
    requires Inv(s) && Exec(s, steps).Some?
    requires forall k :: 0 <= k < |steps| ==> !steps[k].Push? && !steps[k].PushExit?
    ensures var r := Exec(s, steps).value;
            Drained(r) || WorkerSteps(steps) + Backlog(r) <= Backlog(s)
    ensures WorkerSteps(steps) >= Backlog(s) ==> Drained(Exec(s, steps).value)
  {
    if steps != [] {
      var front := steps[..|steps| - 1];
      WorkerDrains(s, front);
      RunKeepsInv(s, front);
      BacklogDecreases(Exec(s, front).value, steps[|steps| - 1]);
    }
    BacklogZero(Exec(s, steps).value);
  }

  lemma BacklogZero(s: Server)
    requires Inv(s)
    ensures Backlog(s) == 0 <==> Drained(s)
  {
  }

  /** Until it has caught up the worker is never stuck, whether or not an exit is queued: awake
      it has a step to take, and asleep on a non-empty queue there is a thread whose pending
      notification wakes it. */
  lemma WorkerProgress(s: Server) returns (a: Step)
    requires Inv(s) && !Drained(s)
    ensures Enabled(s, a) && a != SpuriousWake && !a.Push? && !a.PushExit?
    ensures Backlog(Do(s, a)) < Backlog(s)
    ensures !Accepting(s) ==> Rank(Do(s, a)) < Rank(s)
    ensures s.pc == Asleep ==> a.NotifyOne? && Do(s, a).pc == Waiting
    ensures s.pc != Asleep ==> IsWorkerStep(a)
  {
    match s.pc {
      case Starting => a := Start;
      case Waiting => a := SeeNonEmpty;
      case Asleep =>
        var t :| t in s.owing;
        a := NotifyOne(t);
      case Popping => a := Pop;
      case Processing => a := if s.batch == [] then EndBatch else Process(s.batch[0]);
    }
    BacklogDecreases(s, a);
    if !Accepting(s) {
      RankDecreases(s, a);
    }
  }
}
