/** The client's worker that passes replies on to the server, one at a time. */
module ReplyDelegator {
  import opened AnyValues
  import opened Codecs

  datatype ReplyInfo = ReplyInfo(id: uint64, reply: UserInputReply)

  /** What one pass of the worker through its wait leads to. */
  datatype Wakeup = GoToSleep | Deliver(info: ReplyInfo) | StopWorker

  /** The fields that the delegator's mutex protects. */
  datatype DelegatorState = DelegatorState(queue: seq<ReplyInfo>, activeId: uint64, halt: bool)

  const NO_REPLIES := DelegatorState([], 0, false)

  // The critical sections. The worker's wait ends when there is something to do.

  predicate HasWork(d: DelegatorState) {
    d.queue != [] || d.halt
  }

  function Queueing(d: DelegatorState, info: ReplyInfo): DelegatorState {
    d.(queue := d.queue + [info])
  }

  function Clearing(d: DelegatorState): DelegatorState {
    d.(queue := [])
  }

  /** The id for which InterruptAll calls the interrupt function, if it does. */
  function InterruptedId(d: DelegatorState): Option<uint64> {
    if d.activeId != 0 then Some(d.activeId) else None
  }

  function Taking(d: DelegatorState): DelegatorState
    requires d.queue != []
  {
    d.(queue := d.queue[1..], activeId := d.queue[0].id)
  }

  class ClientReplyDelegator {
    var replyQueue: seq<ReplyInfo>
    var activeId: uint64
    var halt: bool
    /** The calls made to the interrupt function so far. */
    var interruptCalls: seq<uint64>

    function State(): DelegatorState
      reads this
    {
      DelegatorState(replyQueue, activeId, halt)
    }

    constructor ()
      ensures State() == NO_REPLIES && interruptCalls == []
    {
      replyQueue, activeId, halt, interruptCalls := [], 0, false, [];
    }

    method QueueReply(id: uint64, reply: UserInputReply)
      modifies this`replyQueue
      ensures State() == Queueing(old(State()), ReplyInfo(id, reply))
    {
      replyQueue := replyQueue + [ReplyInfo(id, reply)];
    }

    /** Drops everything that is queued and interrupts the reply that is being delivered. */
    method InterruptAll()
      modifies this`replyQueue, this`interruptCalls
      ensures State() == Clearing(old(State()))
      ensures match InterruptedId(State())
              case Some(id) => interruptCalls == old(interruptCalls) + [id]
              case None => interruptCalls == old(interruptCalls)
    {
      replyQueue := [];
      if activeId != 0 {
        interruptCalls := interruptCalls + [activeId];
      }
    }

    method Halt()
      modifies this`halt
      ensures State() == old(State()).(halt := true)
    {
      halt := true;
    }

    /** The worker's critical section from its wait up to the delivery. */
    method TryTake() returns (next: Wakeup)
      modifies this`replyQueue, this`activeId
      ensures next == GoToSleep <==> !HasWork(old(State()))
      ensures next.Deliver? <==> old(replyQueue) != []
      ensures next.Deliver? ==> old(replyQueue)[0] == next.info && State() == Taking(old(State()))
      ensures !next.Deliver? ==> State() == old(State())
    {
      if replyQueue == [] && !halt {
        return GoToSleep;
      }
      if replyQueue != [] {
        var info := replyQueue[0];
        replyQueue := replyQueue[1..];
        activeId := info.id;
        return Deliver(info);
      }
      next := StopWorker;
    }

    /** The worker's critical section after the delivery; tells whether the loop ends. */
    method Close() returns (stop: bool)
      modifies this`activeId
      ensures State() == old(State()).(activeId := 0) && stop == halt
    {
      activeId := 0;
      stop := halt;
    }
  }

  /** The client's side of the request channel of one input server. */
  class EPICSIOClientImpl {
    const replyDelegator: ClientReplyDelegator
    /** The calls of GetUserInput on the client's manager so far. */
    var inputCalls: seq<(string, uint64, UserInputRequest)>

    constructor ()
      ensures fresh(replyDelegator) && replyDelegator.State() == NO_REPLIES && inputCalls == []
    {
      replyDelegator := new ClientReplyDelegator();
      inputCalls := [];
    }

    /** The call on the manager; `answer` is what the user says to this request. */
    method GetUserInput(inputServerName: string, id: uint64, request: UserInputRequest, answer: UserInputReply)
      returns (reply: UserInputReply)
      modifies this`inputCalls
      ensures inputCalls == old(inputCalls) + [(inputServerName, id, request)] && reply == answer
    {
      inputCalls := inputCalls + [(inputServerName, id, request)];
      reply := answer;
    }

    /** Reacts to a value seen on the request channel of an input server: for a request the
        user is asked, for that server and with the id and the request that the value stands
        for, and the answer is queued under that id. */
    method HandleUserInput(inputServerName: string, value: AnyValue, answer: UserInputReply)
      modifies this`inputCalls, replyDelegator
      ensures var d := replyDelegator;
              match RequestIn(value)
              case Some((id, request)) =>
                && inputCalls == old(inputCalls) + [(inputServerName, id, request)]
                && d.State() == Queueing(old(d.State()), ReplyInfo(id, answer))
                && d.interruptCalls == old(d.interruptCalls)
              case None =>
                && inputCalls == old(inputCalls)
                && d.State() == Clearing(old(d.State()))
                && d.interruptCalls == old(d.interruptCalls) + if d.activeId != 0 then [d.activeId] else []
    {
      var req := DecodeInputRequest(value);
      if req.None? || req.value.1.requestType == INVALID_INPUT {
        replyDelegator.InterruptAll();
        return;
      }
      var reply := GetUserInput(inputServerName, req.value.0, req.value.1, answer);
      replyDelegator.QueueReply(req.value.0, reply);
    }
  }

  /** The request that a published value stands for, if any. */
  function RequestIn(value: AnyValue): Option<(uint64, UserInputRequest)> {
    match DecodeInputRequest(value)
    case Some((id, request)) => if request.requestType == INVALID_INPUT then None else Some((id, request))
    case None => None
  }

  /** What the server publishes on a request channel: a request or the idle value. */
  function ChannelValue(v: Option<(uint64, UserInputRequest)>): AnyValue {
    match v
    case Some((id, request)) => EncodeInputRequest(id, request)
    case None => INPUT_REQUEST_ANYVALUE
  }

  /** The client reads a published request back exactly as it was made, unless its type is
      the invalid one, which it cannot tell from the idle value. */
  lemma RequestsSurviveTheChannel(v: Option<(uint64, UserInputRequest)>)
    ensures RequestIn(ChannelValue(v)) ==
            if v.Some? && v.value.1.requestType != INVALID_INPUT then v else None
  {
  }
}
