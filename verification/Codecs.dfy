/** How events are packed into values for publication and unpacked by clients. */
module Codecs {
  import opened AnyValues

  const INDEX_FIELD := "index"
  const VARIABLE_VALUE_FIELD := "var_value"
  const VARIABLE_CONNECTED_FIELD := "var_connected"
  const INPUT_REQUEST_INDEX_FIELD := "idx"
  const INPUT_REQUEST_TYPE_FIELD := "request_type"
  const INPUT_REQUEST_METADATA_FIELD := "metadata"
  const INPUT_REQUEST_INPUT_VALUE_FIELD := "input_value"
  const SEVERITY_FIELD := "severity"
  const MESSAGE_FIELD := "message"
  const DESCRIPTION_FIELD := "description"
  const VALUE_FIELD := "value"
  const JOB_STATE_FIELD := "state"

  const INITIAL_JOB_STATE: uint32 := 0
  const INVALID_INSTRUCTION_INDEX: uint32 := 0xFFFF_FFFF

  const VARIABLE_ANYVALUE :=
    Struct(map[VARIABLE_VALUE_FIELD := Empty, VARIABLE_CONNECTED_FIELD := Boolean(false)])
  const INPUT_REQUEST_ANYVALUE :=
    Struct(map[INPUT_REQUEST_INDEX_FIELD := UInt64(0), INPUT_REQUEST_TYPE_FIELD := UInt32(0),
               INPUT_REQUEST_METADATA_FIELD := Empty, INPUT_REQUEST_INPUT_VALUE_FIELD := Empty])
  const LOG_ENTRY_ANYVALUE :=
    Struct(map[INDEX_FIELD := UInt64(0), SEVERITY_FIELD := Int32(0), MESSAGE_FIELD := Text("")])
  const MESSAGE_ENTRY_ANYVALUE :=
    Struct(map[INDEX_FIELD := UInt64(0), MESSAGE_FIELD := Text("")])
  const OUTPUT_VALUE_ENTRY_ANYVALUE :=
    Struct(map[INDEX_FIELD := UInt64(0), DESCRIPTION_FIELD := Text(""), VALUE_FIELD := Empty])
  const JOB_STATE_ANYVALUE := Struct(map[JOB_STATE_FIELD := UInt32(INITIAL_JOB_STATE)])
  const INITIAL_INSTRUCTION_STATE := InstructionState(false, 0)
  const INSTRUCTION_STATE_ANYVALUE := InstructionStateValue(INITIAL_INSTRUCTION_STATE)

  /** Assignment to one field of a local copy of a structure. */
  function WithField(v: AnyValue, name: string, x: AnyValue): AnyValue
    requires v.Struct?
  {
    Struct(v.fields[name := x])
  }

  // ---- Job state, breakpoint, variables, instructions ----

  function GetJobStateValue(state: uint32): AnyValue {
    WithField(JOB_STATE_ANYVALUE, JOB_STATE_FIELD, UInt32(state))
  }

  function DecodeJobState(v: AnyValue): Option<uint32> {
    if v.HasField(JOB_STATE_FIELD) && v.Field(JOB_STATE_FIELD).UInt32?
    then Some(v.Field(JOB_STATE_FIELD).word) else None
  }

  function GetBreakpointInstructionValue(idx: uint32): AnyValue {
    Struct(map[INDEX_FIELD := UInt32(idx)])
  }

  function DecodeBreakpointInstructionIndex(v: AnyValue): Option<uint32> {
    if !v.HasField(INDEX_FIELD) then None
    else if !v.Field(INDEX_FIELD).UInt32? then None
    else Some(v.Field(INDEX_FIELD).word)
  }

  function EncodeVariableState(value: AnyValue, connected: bool): AnyValue {
    Struct(map[VARIABLE_VALUE_FIELD := value, VARIABLE_CONNECTED_FIELD := Boolean(connected)])
  }

  function DecodeVariableState(v: AnyValue): (AnyValue, bool) {
    if !v.HasField(VARIABLE_VALUE_FIELD) then (Empty, false)
    else if !(v.HasField(VARIABLE_CONNECTED_FIELD) && v.Field(VARIABLE_CONNECTED_FIELD).Boolean?) then (Empty, false)
    else (v.Field(VARIABLE_VALUE_FIELD), v.Field(VARIABLE_CONNECTED_FIELD).flag)
  }

  function ToInstructionState(v: AnyValue): Option<InstructionState> {
    if v.InstructionStateValue? then Some(v.state) else None
  }

  // ---- Log, message and output entries ----

  datatype LogEntry = LogEntry(index: uint64, severity: int32, message: string)
  datatype MessageEntry = MessageEntry(index: uint64, message: string)
  datatype OutputValueEntry = OutputValueEntry(index: uint64, description: string, value: AnyValue)

  predicate HasIndex(v: AnyValue) {
    v.HasField(INDEX_FIELD) && v.Field(INDEX_FIELD).UInt64?
  }

  predicate HasText(v: AnyValue, name: string) {
    v.HasField(name) && v.Field(name).Text?
  }

  function EncodeLogEntry(e: LogEntry): AnyValue {
    var r := WithField(LOG_ENTRY_ANYVALUE, INDEX_FIELD, UInt64(e.index));
    WithField(WithField(r, SEVERITY_FIELD, Int32(e.severity)), MESSAGE_FIELD, Text(e.message))
  }

  function DecodeLogEntry(v: AnyValue): Option<LogEntry> {
    if HasIndex(v) && v.HasField(SEVERITY_FIELD) && v.Field(SEVERITY_FIELD).Int32? && HasText(v, MESSAGE_FIELD)
    then Some(LogEntry(v.Field(INDEX_FIELD).long, v.Field(SEVERITY_FIELD).number, v.Field(MESSAGE_FIELD).chars))
    else None
  }

  function EncodeMessageEntry(e: MessageEntry): AnyValue {
    WithField(WithField(MESSAGE_ENTRY_ANYVALUE, INDEX_FIELD, UInt64(e.index)), MESSAGE_FIELD, Text(e.message))
  }

  function DecodeMessageEntry(v: AnyValue): Option<MessageEntry> {
    if HasIndex(v) && HasText(v, MESSAGE_FIELD)
    then Some(MessageEntry(v.Field(INDEX_FIELD).long, v.Field(MESSAGE_FIELD).chars))
    else None
  }

  function EncodeOutputValueEntry(e: OutputValueEntry): AnyValue {
    var r := WithField(OUTPUT_VALUE_ENTRY_ANYVALUE, INDEX_FIELD, UInt64(e.index));
    WithField(WithField(r, DESCRIPTION_FIELD, Text(e.description)), VALUE_FIELD, e.value)
  }

  function DecodeOutputValueEntry(v: AnyValue): Option<OutputValueEntry> {
    if HasIndex(v) && HasText(v, DESCRIPTION_FIELD) && v.HasField(VALUE_FIELD)
    then Some(OutputValueEntry(v.Field(INDEX_FIELD).long, v.Field(DESCRIPTION_FIELD).chars, v.Field(VALUE_FIELD)))
    else None
  }

  // ---- Input requests ----

  function EncodeInputRequest(id: uint64, request: UserInputRequest): AnyValue {
    Struct(map[INPUT_REQUEST_INDEX_FIELD := UInt64(id), INPUT_REQUEST_TYPE_FIELD := UInt32(request.requestType),
               INPUT_REQUEST_METADATA_FIELD := request.metadata,
               INPUT_REQUEST_INPUT_VALUE_FIELD := request.inputValue])
  }

  function DecodeInputRequest(v: AnyValue): Option<(uint64, UserInputRequest)> {
    if !(v.HasField(INPUT_REQUEST_INDEX_FIELD) && v.Field(INPUT_REQUEST_INDEX_FIELD).UInt64?) then None
    else if !(v.HasField(INPUT_REQUEST_TYPE_FIELD) && v.Field(INPUT_REQUEST_TYPE_FIELD).UInt32?) then None
    else if !v.HasField(INPUT_REQUEST_METADATA_FIELD) then None
    else if !v.HasField(INPUT_REQUEST_INPUT_VALUE_FIELD) then None
    else Some((v.Field(INPUT_REQUEST_INDEX_FIELD).long,
               UserInputRequest(v.Field(INPUT_REQUEST_TYPE_FIELD).word,
                                v.Field(INPUT_REQUEST_METADATA_FIELD),
                                v.Field(INPUT_REQUEST_INPUT_VALUE_FIELD))))
  }

  // ---- What decodes, and to what ----

  predicate IsField(v: AnyValue, name: string, x: AnyValue) {
    v.Struct? && name in v.fields && v.fields[name] == x
  }

  /** Decoding succeeds exactly on structures that have all the fields of the entry with the
      right types, whatever else they have, and yields just those fields. */
  lemma EntriesExact(v: AnyValue, log: LogEntry, message: MessageEntry, output: OutputValueEntry)
    ensures DecodeLogEntry(v) == Some(log) <==>
              && IsField(v, "index", UInt64(log.index)) && IsField(v, "severity", Int32(log.severity))
              && IsField(v, "message", Text(log.message))
    ensures DecodeMessageEntry(v) == Some(message) <==>
              IsField(v, "index", UInt64(message.index)) && IsField(v, "message", Text(message.message))
    ensures DecodeOutputValueEntry(v) == Some(output) <==>
              && IsField(v, "index", UInt64(output.index)) && IsField(v, "description", Text(output.description))
              && IsField(v, "value", output.value)
  {
  }

  lemma StatesExact(v: AnyValue, state: uint32, idx: uint32, value: AnyValue, connected: bool)
    ensures DecodeJobState(v) == Some(state) <==> IsField(v, "state", UInt32(state))
    ensures DecodeBreakpointInstructionIndex(v) == Some(idx) <==> IsField(v, "index", UInt32(idx))
    ensures value != Empty || connected ==>
              (DecodeVariableState(v) == (value, connected) <==>
                 IsField(v, "var_value", value) && IsField(v, "var_connected", Boolean(connected)))
  {
  }

  lemma InputRequestExact(v: AnyValue, id: uint64, request: UserInputRequest)
    ensures DecodeInputRequest(v) == Some((id, request)) <==>
              && IsField(v, "idx", UInt64(id)) && IsField(v, "request_type", UInt32(request.requestType))
              && IsField(v, "metadata", request.metadata) && IsField(v, "input_value", request.inputValue)
  {
  }

  /** The values with which names are registered. */
  lemma InitialValuesExact()
    ensures GetJobStateValue(INITIAL_JOB_STATE) == Struct(map["state" := UInt32(0)])
    ensures GetBreakpointInstructionValue(INVALID_INSTRUCTION_INDEX) == Struct(map["index" := UInt32(0xFFFF_FFFF)])
    ensures LOG_ENTRY_ANYVALUE ==
            Struct(map["index" := UInt64(0), "severity" := Int32(0), "message" := Text("")])
    ensures MESSAGE_ENTRY_ANYVALUE == Struct(map["index" := UInt64(0), "message" := Text("")])
    ensures OUTPUT_VALUE_ENTRY_ANYVALUE ==
            Struct(map["index" := UInt64(0), "description" := Text(""), "value" := Empty])
    ensures VARIABLE_ANYVALUE == Struct(map["var_value" := Empty, "var_connected" := Boolean(false)])
    ensures INPUT_REQUEST_ANYVALUE ==
            Struct(map["idx" := UInt64(0), "request_type" := UInt32(0), "metadata" := Empty, "input_value" := Empty])
  {
  }
}
