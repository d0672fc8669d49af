/** The small part of the AnyValue library that the server's codecs touch, and the
    user input request and reply records of oac-tree. */
module AnyValues {
  type uint32 = n: int | 0 <= n < 0x1_0000_0000
  type uint64 = n: int | 0 <= n < 0x1_0000_0000_0000_0000
  type int32 = n: int | -0x8000_0000 <= n < 0x8000_0000

  datatype Option<+T> = None | Some(value: T)

  /** The state of one instruction; `status` is the enumerator's number. */
  datatype InstructionState = InstructionState(breakpoint: bool, status: uint32)

  /** A typed value. `InstructionStateValue` is the image of oac-tree's own codec for
      instruction states, whose layout is not part of this model. */
  datatype AnyValue =
    | Empty
    | Boolean(flag: bool)
    | UInt32(word: uint32)
    | UInt64(long: uint64)
    | Int32(number: int32)
    | Text(chars: string)
    | InstructionStateValue(state: InstructionState)
    | Struct(fields: map<string, AnyValue>)
  {
    predicate HasField(name: string) {
      Struct? && name in fields
    }

    function Field(name: string): AnyValue
      requires HasField(name)
    {
      fields[name]
    }
  }

  /** A value in the uniform wire form that every published value takes; the base64
      text itself is not modelled, only that it can be decoded again. */
  datatype Encoded = Base64(value: AnyValue)

  /** Request types are C++ enumerators, so any 32 bit number can turn up; only zero, the
      invalid type, is ever compared against. */
  type InputRequestType = uint32

  const INVALID_INPUT: InputRequestType := 0

  datatype UserInputRequest =
    UserInputRequest(requestType: InputRequestType, metadata: AnyValue, inputValue: AnyValue)

  datatype UserInputReply =
    UserInputReply(requestType: InputRequestType, result: bool, payload: AnyValue)

  const INVALID_REPLY := UserInputReply(INVALID_INPUT, false, Empty)

  predicate IsValid(reply: UserInputReply) {
    reply.requestType != INVALID_INPUT
  }

  type NameAnyValueSet = seq<(string, AnyValue)>
}
