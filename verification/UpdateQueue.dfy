/** The queue of pending value updates of one server, and the loop that publishes them. */
module UpdateQueue {
  import opened AnyValues
  import opened ValueSets

  datatype Command = Update(name: string, value: Encoded) | Exit

  /** What a PvAccess server currently serves. */
  type Store = map<string, Encoded>

  // ---- Meaning of command sequences ----

  function ApplyOne(store: Store, c: Command): Store {
    match c
    case Update(name, value) => store[name := value]
    case Exit => store
  }

  function Apply(store: Store, cs: seq<Command>): Store
    decreases |cs|
  {
    if cs == [] then store else Apply(ApplyOne(store, cs[0]), cs[1..])
  }

  /** The commands in front of the first exit command. */
  function UntilExit(cs: seq<Command>): (r: seq<Command>)
    ensures r <= cs && Exit !in r
    ensures Exit in cs <==> |r| < |cs|
    ensures |r| < |cs| ==> cs[|r|] == Exit
  {
    if cs == [] || cs[0].Exit? then [] else [cs[0]] + UntilExit(cs[1..])
  }

  lemma {:induction false} ApplyConcat(store: Store, a: seq<Command>, b: seq<Command>)
    ensures Apply(store, a + b) == Apply(Apply(store, a), b)
    decreases |a|
  {
    if a == [] {
      assert a + b == b;
    } else {
      assert (a + b)[1..] == a[1..] + b;
      ApplyConcat(ApplyOne(store, a[0]), a[1..], b);
    }
  }

  lemma {:induction false} UntilExitConcat(a: seq<Command>, b: seq<Command>)
    ensures UntilExit(a + b) == if Exit in a then UntilExit(a) else a + UntilExit(b)
    decreases |a|
  {
    if a == [] {
      assert a + b == b;
    } else {
      assert (a + b)[1..] == a[1..] + b;
      assert a == [a[0]] + a[1..];
      UntilExitConcat(a[1..], b);
    }
  }

  lemma ApplySnoc(store: Store, cs: seq<Command>, c: Command)
    ensures Apply(store, cs + [c]) == ApplyOne(Apply(store, cs), c)
  {
    ApplyConcat(store, cs, [c]);
    assert [c][1..] == [];
  }

  lemma UntilExitWhole(cs: seq<Command>)
    requires Exit !in cs
    ensures UntilExit(cs) == cs
  {
    UntilExitConcat(cs, []);
    assert cs + [] == cs;
  }

  /** Publishing what precedes the exit in two portions. */
  lemma ApplyInPortions(store: Store, a: seq<Command>, b: seq<Command>)
    requires Exit !in a
    ensures Apply(store, UntilExit(a + b)) == Apply(Apply(store, UntilExit(a)), UntilExit(b))
  {
    UntilExitWhole(a);
    UntilExitConcat(a, b);
    ApplyConcat(store, a, UntilExit(b));
  }

  /** A further command at the back takes effect last, unless an exit stands in front of it. */
  lemma ApplyPushed(store: Store, cs: seq<Command>, c: Command)
    ensures Apply(store, UntilExit(cs + [c])) ==
            if Exit in cs then Apply(store, UntilExit(cs)) else ApplyOne(Apply(store, UntilExit(cs)), c)
    ensures UntilExit(cs + [c]) == if Exit in cs || c == Exit then UntilExit(cs) else UntilExit(cs) + [c]
  {
    UntilExitConcat(cs, [c]);
    assert UntilExit([c]) == if c == Exit then [] else [c] by {
      assert [c][1..] == [];
    }
    if Exit !in cs {
      UntilExitWhole(cs);
      ApplySnoc(store, cs, c);
      assert cs + [] == cs;
    }
  }

  /** The command at the front takes effect first. */
  lemma ApplyPopped(store: Store, c: Command, cs: seq<Command>)
    requires c != Exit
    ensures UntilExit([c] + cs) == [c] + UntilExit(cs)
    ensures Apply(store, UntilExit([c] + cs)) == Apply(ApplyOne(store, c), UntilExit(cs))
  {
    assert ([c] + cs)[1..] == cs;
    assert ([c] + UntilExit(cs))[1..] == UntilExit(cs);
  }

  // ---- The queue ----

  class AnyValueUpdateQueue {
    var valueUpdates: seq<Command>

    constructor ()
      ensures valueUpdates == []
    {
      valueUpdates := [];
    }

    method Push(channel: string, value: Encoded)
      modifies this
      ensures valueUpdates == old(valueUpdates) + [Update(channel, value)]
    {
      valueUpdates := valueUpdates + [Update(channel, value)];
    }

    method PushExit()
      modifies this
      ensures valueUpdates == old(valueUpdates) + [Exit]
    {
      valueUpdates := valueUpdates + [Exit];
    }

    /** Swaps the whole queue out. */
    method PopCommands() returns (result: seq<Command>)
      modifies this
      ensures result == old(valueUpdates) && valueUpdates == []
    {
      result := [];
      valueUpdates, result := result, valueUpdates;
    }
  }

  // ---- The publishing loop ----

  class PvAccessServer {
    var values: Store

    constructor ()
      ensures values == map[]
    {
      values := map[];
    }

    method AddVariable(name: string, value: Encoded)
      modifies this
      ensures values == old(values)[name := value]
    {
      values := values[name := value];
    }

    method SetValue(name: string, value: Encoded)
      modifies this
      ensures values == old(values)[name := value]
    {
      values := values[name := value];
    }
  }

  /** Publishes the updates of one batch in order; stops at an exit command, which is
      consumed, and leaves what is behind it in the batch. */
  method ProcessCommandQueue(batch: seq<Command>, server: PvAccessServer) returns (exit: bool, queue: seq<Command>)
    modifies server
    ensures server.values == Apply(old(server.values), UntilExit(batch))
    ensures exit <==> Exit in batch
    ensures queue == batch[|UntilExit(batch)| + (if exit then 1 else 0)..]
  {
    queue := batch;
    ghost var n := 0;
    while queue != []
      invariant n <= |batch| && queue == batch[n..]
      invariant |UntilExit(batch)| == n + |UntilExit(queue)|
      invariant Apply(server.values, UntilExit(queue)) == Apply(old(server.values), UntilExit(batch))
      decreases |queue|
    {
      var command := queue[0];
      assert batch[n] == command && batch[n + 1..] == queue[1..];
      if command == Exit {
        return true, queue[1..];
      }
      assert UntilExit(queue)[1..] == UntilExit(queue[1..]);
      server.SetValue(command.name, command.value);
      queue := queue[1..];
      n := n + 1;
    }
    exit := false;
  }

  // ---- One server ----

  /** The values that a server starts with, in their wire form. */
  function InitialStore(values: NameAnyValueSet): (s: Store)
    ensures s.Keys == NameSet(values)
  {
    var m := AsMap(values);
    map name | name in m :: Base64(m[name])
  }

  function Flatten(batches: seq<seq<Command>>): seq<Command> {
    if batches == [] then [] else Flatten(batches[..|batches| - 1]) + batches[|batches| - 1]
  }

  lemma {:induction false} FlattenPrefix(batches: seq<seq<Command>>, k: nat)
    requires k <= |batches|
    ensures Flatten(batches[..k]) <= Flatten(batches)
    decreases |batches| - k
  {
    if k == |batches| {
      assert batches[..k] == batches;
    } else {
      assert batches[..k + 1][..k] == batches[..k];
      FlattenPrefix(batches, k + 1);
    }
  }

  lemma FlattenSnoc(batches: seq<seq<Command>>, k: nat)
    requires k < |batches|
    ensures Flatten(batches[..k + 1]) == Flatten(batches[..k]) + batches[k]
  {
    assert batches[..k + 1][..k] == batches[..k];
  }

  class EPICSServer {
    const initial: NameAnyValueSet
    const updateQueue: AnyValueUpdateQueue

    constructor (values: NameAnyValueSet)
      ensures initial == values
      ensures fresh(updateQueue) && updateQueue.valueUpdates == []
    {
      initial := values;
      updateQueue := new AnyValueUpdateQueue();
    }

    method UpdateAnyValue(name: string, value: AnyValue)
      modifies updateQueue
      ensures updateQueue.valueUpdates == old(updateQueue.valueUpdates) + [Update(name, Base64(value))]
    {
      updateQueue.Push(name, Base64(value));
    }

    /** The worker's loop, from its start on an empty queue. `arrivals[k]` is whatever the
        producers pushed, in any number of calls, between the (k-1)-th and the k-th swap;
        it is not empty because the worker waits for that. The served values depend only
        on all the arrivals strung together and not on how they were cut into batches. */
    method UpdateLoop(arrivals: seq<seq<Command>>) returns (server: PvAccessServer, exit: bool)
      requires updateQueue.valueUpdates == []
      requires forall k :: 0 <= k < |arrivals| ==> arrivals[k] != []
      modifies updateQueue
      ensures fresh(server)
      ensures exit <==> Exit in Flatten(arrivals)
      ensures server.values == Apply(InitialStore(initial), UntilExit(Flatten(arrivals)))
    {
      server := StartServer();
      exit := false;
      var k := 0;
      while !exit && k < |arrivals|
        invariant 0 <= k <= |arrivals|
        invariant !exit ==> updateQueue.valueUpdates == []
        invariant exit <==> Exit in Flatten(arrivals[..k])
        invariant server.values == Apply(InitialStore(initial), UntilExit(Flatten(arrivals[..k])))
      {
        updateQueue.valueUpdates := updateQueue.valueUpdates + arrivals[k];
        var batch := updateQueue.PopCommands();
        assert batch == arrivals[k];
        FlattenSnoc(arrivals, k);
        ApplyInPortions(InitialStore(initial), Flatten(arrivals[..k]), batch);
        var rest;
        exit, rest := ProcessCommandQueue(batch, server);
        k := k + 1;
      }
      FlattenPrefix(arrivals, k);
      assert arrivals[..|arrivals|] == arrivals;
      ghost var done, all := Flatten(arrivals[..k]), Flatten(arrivals);
      assert all == done + all[|done|..];
      UntilExitConcat(done, all[|done|..]);
    }

    method StartServer() returns (server: PvAccessServer)
      ensures fresh(server) && server.values == InitialStore(initial)
    {
      server := new PvAccessServer();
      var k := 0;
      while k < |initial|
        invariant 0 <= k <= |initial|
        invariant server.values == InitialStore(initial[..k])
      {
        server.AddVariable(initial[k].0, Base64(initial[k].1));
        assert initial[..k + 1][..k] == initial[..k];
        k := k + 1;
      }
      assert initial[..k] == initial;
    }
  }
}
