/** The monitor that holds the one user input request of an input server. */
module InputRequests {
  import opened AnyValues

  datatype RequestState = RequestState(requestId: uint64, reply: UserInputReply, interrupt: bool)

  const NO_REQUEST := RequestState(0, INVALID_REPLY, false)

  /** A reply is taken only for the current request and only if there is none yet. */
  predicate Accepts(s: RequestState, id: uint64, reply: UserInputReply) {
    id != 0 && IsValid(reply) && id == s.requestId && !IsValid(s.reply)
  }

  /** What a waiter for this request waits for. */
  predicate Ready(s: RequestState, id: uint64) {
    (IsValid(s.reply) && id == s.requestId) || s.interrupt
  }

  /** What a waiter takes home; None stands for the pair of false and the invalid reply. */
  function Outcome(s: RequestState, id: uint64): Option<UserInputReply> {
    if id == 0 || s.interrupt then None else Some(s.reply)
  }

  // The three critical sections that change the monitor.

  function Initialised(id: uint64): RequestState {
    RequestState(id, INVALID_REPLY, false)
  }

  function Replied(s: RequestState, id: uint64, reply: UserInputReply): RequestState {
    if Accepts(s, id, reply) then s.(reply := reply) else s
  }

  function Interrupted(s: RequestState, id: uint64): RequestState {
    if s.requestId == id then s.(interrupt := true) else s
  }

  class InputRequestServer {
    var requestId: uint64
    var reply: UserInputReply
    var interrupt: bool

    function State(): RequestState
      reads this
    {
      RequestState(requestId, reply, interrupt)
    }

    constructor ()
      ensures State() == NO_REQUEST
    {
      requestId := 0;
      reply := INVALID_REPLY;
      interrupt := false;
    }

    method InitNewRequest(id: uint64)
      modifies this
      ensures State() == Initialised(id)
    {
      requestId := id;
      interrupt := false;
      reply := INVALID_REPLY;
    }

    /** Returns whether the reply was taken; a waiter is notified exactly then. */
    method SetClientReply(id: uint64, newReply: UserInputReply) returns (accepted: bool)
      modifies this
      ensures accepted <==>
                id != 0 && newReply.requestType != 0 && id == old(requestId) && old(reply).requestType == 0
      ensures accepted <==> Accepts(old(State()), id, newReply)
      ensures State() == Replied(old(State()), id, newReply)
    {
      if id == 0 || !IsValid(newReply) {
        return false;
      }
      if id != requestId || IsValid(reply) {
        return false;
      }
      reply := newReply;
      accepted := true;
    }

    /** One pass through the wait: either the predicate is false and the caller goes to
        sleep, or the result is read in the same critical section. */
    method TryWaitForReply(id: uint64) returns (done: bool, retrieved: bool, value: UserInputReply)
      ensures done <==> id == 0 || interrupt || (id == requestId && reply.requestType != 0)
      ensures done <==> id == 0 || Ready(State(), id)
      ensures retrieved <==> done && Outcome(State(), id).Some?
      ensures retrieved ==> id != 0 && value == State().reply && IsValid(value)
      ensures !retrieved ==> value == INVALID_REPLY
    {
      done, retrieved, value := true, false, INVALID_REPLY;
      if id == 0 {
        return;
      }
      var replyReceived := IsValid(reply) && id == requestId;
      if !(replyReceived || interrupt) {
        done := false;
        return;
      }
      if interrupt {
        return;
      }
      retrieved, value := true, reply;
    }

    /** Returns whether the interrupt matched; a waiter is notified exactly then. */
    method Interrupt(id: uint64) returns (matched: bool)
      modifies this
      ensures matched <==> old(requestId) == id
      ensures State() == Interrupted(old(State()), id)
    {
      if requestId != id {
        return false;
      }
      interrupt := true;
      matched := true;
    }
  }
}
