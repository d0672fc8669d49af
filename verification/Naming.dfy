/** Names of published values: how they are composed from a server prefix, a job index and
    the kind of value, and how a client parses them back. */
module Naming {
  import opened AnyValues

  const INSTRUCTION_ID := "INSTR-"
  const BREAKPOINT_INSTRUCTION_ID := "BP-INSTR"
  const VARIABLE_ID := "VAR-"
  const INPUT_SERVER_NAME := "INPUT"
  const INPUT_REQUEST_NAME := "-REQ"
  const LOG_ENTRY_ID := "LOG"
  const MESSAGE_ENTRY_ID := "MSG"
  const OUTPUT_VALUE_ENTRY_ID := "OUT"
  const JOB_STATE_ID := "STATE"

  datatype ValueNameType =
    | UnknownName
    | InstructionName
    | VariableName
    | LogEntryName
    | MessageEntryName
    | OutputValueEntryName
    | JobStatusName
    | BreakpointInstructionName

  datatype ValueNameInfo = ValueNameInfo(valType: ValueNameType, idx: uint32)

  const UNKNOWN_NAME := ValueNameInfo(UnknownName, 0)

  // ---- Decimal numerals ----

  const DIGITS := "0123456789"

  predicate IsDigit(c: char) {
    '0' <= c <= '9'
  }

  function ToString(n: nat): (s: string)
    ensures |s| > 0
    ensures forall i :: 0 <= i < |s| ==> IsDigit(s[i])
    ensures |s| > 1 ==> n >= 10 && s[0] != '0'
    ensures n > 0 ==> s[0] != '0'
  {
    if n < 10 then [DIGITS[n]] else ToString(n / 10) + [DIGITS[n % 10]]
  }

  function DigitValue(c: char): (d: nat)
    requires IsDigit(c)
    ensures d < 10 && c == DIGITS[d]
  {
    c as int - '0' as int
  }

  function DigitsValue(s: string): nat
    requires forall i :: 0 <= i < |s| ==> IsDigit(s[i])
  {
    if s == "" then 0 else 10 * DigitsValue(s[..|s| - 1]) + DigitValue(s[|s| - 1])
  }

  lemma {:induction false} DigitsValueOfToString(n: nat)
    ensures DigitsValue(ToString(n)) == n
  {
    var s := ToString(n);
    if n < 10 {
      assert s[..0] == "";
    } else {
      assert s[..|s| - 1] == ToString(n / 10);
      DigitsValueOfToString(n / 10);
    }
  }

  /** A decimal numeral without superfluous zeros. */
  predicate IsNumeral(s: string) {
    && s != "" && (forall i :: 0 <= i < |s| ==> IsDigit(s[i]))
    && (|s| > 1 ==> s[0] != '0')
  }

  /** Such a numeral is what its value is printed as. */
  lemma {:induction false} ToStringOfDigitsValue(s: string)
    requires IsNumeral(s)
    ensures ToString(DigitsValue(s)) == s
    ensures s[0] != '0' ==> DigitsValue(s) > 0
  {
    var front, last := s[..|s| - 1], s[|s| - 1];
    assert DIGITS[DigitValue(last)] == last;
    if front == "" {
      assert s == [last];
    } else {
      ToStringOfDigitsValue(front);
      assert DigitsValue(s) / 10 == DigitsValue(front) && DigitsValue(s) % 10 == DigitValue(last);
      assert s == front + [last];
    }
  }

  // ---- Name builders ----

  function CreateJobPrefix(serverPrefix: string, idx: uint32): string {
    serverPrefix + ":PROC-" + ToString(idx) + ":"
  }

  function GetInstructionPVName(prefix: string, index: uint32): string {
    prefix + INSTRUCTION_ID + ToString(index)
  }

  function GetBreakpointInstructionPVName(prefix: string): string {
    prefix + BREAKPOINT_INSTRUCTION_ID
  }

  function GetVariablePVName(prefix: string, index: uint32): string {
    prefix + VARIABLE_ID + ToString(index)
  }

  function GetInputServerName(prefix: string): string {
    prefix + INPUT_SERVER_NAME
  }

  function GetInputRequestPVName(serverName: string): string {
    serverName + INPUT_REQUEST_NAME
  }

  function GetLogEntryName(prefix: string): string {
    prefix + LOG_ENTRY_ID
  }

  function GetMessageEntryName(prefix: string): string {
    prefix + MESSAGE_ENTRY_ID
  }

  function GetOutputValueEntryName(prefix: string): string {
    prefix + OUTPUT_VALUE_ENTRY_ID
  }

  function GetJobStatePVName(prefix: string): string {
    prefix + JOB_STATE_ID
  }

  // ---- String searches and number parsing of the C++ library ----

  /** Position of the last occurrence of `sub` that starts at or before `from`, or -1. */
  function RFindFrom(s: string, sub: string, from: int): int
    requires from + |sub| <= |s|
    decreases from + 1
  {
    if from < 0 then -1
    else if s[from..from + |sub|] == sub then from
    else RFindFrom(s, sub, from - 1)
  }

  function RFind(s: string, sub: string): int {
    RFindFrom(s, sub, |s| - |sub|)
  }

  function FindLastOf(s: string, c: char): (pos: int)
    ensures -1 <= pos < |s|
    ensures pos >= 0 ==> s[pos] == c
    ensures forall i :: pos < i < |s| ==> s[i] != c
  {
    if s == "" then -1
    else if s[|s| - 1] == c then |s| - 1
    else FindLastOf(s[..|s| - 1], c)
  }

  predicate IsSpace(c: char) {
    c == ' ' || '\t' <= c <= '\r'
  }

  function SkipSpaces(s: string): string {
    if s != "" && IsSpace(s[0]) then SkipSpaces(s[1..]) else s
  }

  function DigitPrefix(s: string): (d: string)
    ensures forall i :: 0 <= i < |d| ==> IsDigit(d[i])
  {
    if s != "" && IsDigit(s[0]) then [s[0]] + DigitPrefix(s[1..]) else ""
  }

  const UNSIGNED_LONG_RANGE: int := 0x1_0000_0000_0000_0000

  /** `std::stoul` in base ten for a 64 bit `unsigned long`: leading white space, an optional
      sign (a minus negates modulo 2^64) and the longest run of digits. None stands for
      both exceptions, no digits and out of range. */
  function StringToUnsignedLong(s: string): Option<nat> {
    var t := SkipSpaces(s);
    var signed := t != "" && (t[0] == '+' || t[0] == '-');
    var digits := DigitPrefix(if signed then t[1..] else t);
    if digits == "" then None
    else
      var n := DigitsValue(digits);
      if n >= UNSIGNED_LONG_RANGE then None
      else if signed && t[0] == '-' then Some((UNSIGNED_LONG_RANGE - n) % UNSIGNED_LONG_RANGE)
      else Some(n)
  }

  // ---- Parsing names ----

  predicate EndsWith(s: string, sub: string) {
    var pos := RFind(s, sub);
    pos >= 0 && pos + |sub| == |s|
  }

  function ParseIndex(s: string): Option<uint32> {
    match StringToUnsignedLong(s)
    case None => None
    case Some(n) =>
      if ToString(n) != s then None
      else if n > 0xFFFF_FFFF then None
      else Some(n)
  }

  const POSTFIXES: seq<(string, ValueNameType)> :=
    [ (JOB_STATE_ID, JobStatusName),
      (LOG_ENTRY_ID, LogEntryName),
      (MESSAGE_ENTRY_ID, MessageEntryName),
      (OUTPUT_VALUE_ENTRY_ID, OutputValueEntryName),
      (BREAKPOINT_INSTRUCTION_ID, BreakpointInstructionName) ]

  /** The first entry of the table, from `k` on, that the name ends with. */
  function FirstPostfix(name: string, table: seq<(string, ValueNameType)>): Option<(string, ValueNameType)> {
    if table == [] then None
    else if EndsWith(name, table[0].0) then Some(table[0])
    else FirstPostfix(name, table[1..])
  }

  function ParseIndexedName(name: string): ValueNameInfo {
    var pos := FindLastOf(name, '-');
    if pos < 0 then UNKNOWN_NAME
    else
      match ParseIndex(name[pos + 1..])
      case None => UNKNOWN_NAME
      case Some(idx) =>
        var remainder := name[..pos + 1];
        if EndsWith(remainder, INSTRUCTION_ID) && |remainder| != |INSTRUCTION_ID| then
          ValueNameInfo(InstructionName, idx)
        else if EndsWith(remainder, VARIABLE_ID) && |remainder| != |VARIABLE_ID| then
          ValueNameInfo(VariableName, idx)
        else UNKNOWN_NAME
  }

  function ParseValueName(name: string): ValueNameInfo {
    match FirstPostfix(name, POSTFIXES)
    case Some((postfix, postfixType)) =>
      if |name| == |postfix| then UNKNOWN_NAME else ValueNameInfo(postfixType, 0)
    case None => ParseIndexedName(name)
  }

  // ---- The parser accepts exactly the printed names ----

  /** Only instructions and variables carry an index. */
  predicate WellFormed(info: ValueNameInfo) {
    && info.valType != UnknownName
    && (info.valType in {InstructionName, VariableName} || info.idx == 0)
  }

  /** The published name for a kind of value, as the server builds it. */
  function PVName(prefix: string, info: ValueNameInfo): string
    requires WellFormed(info)
  {
    match info.valType
    case InstructionName => GetInstructionPVName(prefix, info.idx)
    case VariableName => GetVariablePVName(prefix, info.idx)
    case LogEntryName => GetLogEntryName(prefix)
    case MessageEntryName => GetMessageEntryName(prefix)
    case OutputValueEntryName => GetOutputValueEntryName(prefix)
    case JobStatusName => GetJobStatePVName(prefix)
    case BreakpointInstructionName => GetBreakpointInstructionPVName(prefix)
  }

  lemma EndsWithExact(s: string, sub: string)
    ensures EndsWith(s, sub) <==> |sub| <= |s| && s[|s| - |sub|..] == sub
  {
    if |sub| <= |s| {
      assert s[|s| - |sub|..|s| - |sub| + |sub|] == s[|s| - |sub|..];
      if s[|s| - |sub|..] != sub {
        RFindBound(s, sub, |s| - |sub| - 1);
      }
    }
  }

  lemma {:induction false} RFindBound(s: string, sub: string, from: int)
    requires from + |sub| <= |s|
    ensures RFindFrom(s, sub, from) <= from || RFindFrom(s, sub, from) == -1
    decreases from + 1
  {
    if from >= 0 && s[from..from + |sub|] != sub {
      RFindBound(s, sub, from - 1);
    }
  }

  lemma {:induction false} DigitPrefixOfDigits(s: string)
    requires forall i :: 0 <= i < |s| ==> IsDigit(s[i])
    ensures DigitPrefix(s) == s
  {
    if s != "" {
      DigitPrefixOfDigits(s[1..]);
    }
  }

  /** An index is accepted exactly when it is the canonical numeral of a 32 bit number: no
      sign, no white space, no leading zero, nothing behind it, however lenient the library
      routine underneath is. */
  lemma ParseIndexExact(s: string, idx: uint32)
    ensures ParseIndex(s) == Some(idx) <==> s == ToString(idx)
  {
    DigitPrefixOfDigits(ToString(idx));
    DigitsValueOfToString(idx);
  }

  /** The same without reference to the printer: a non-empty string of digits, zero not in
      front of others, with that value. */
  lemma ParseIndexNumeral(s: string, idx: uint32)
    ensures ParseIndex(s) == Some(idx) <==> IsNumeral(s) && DigitsValue(s) == idx
  {
    ParseIndexExact(s, idx);
    DigitsValueOfToString(idx);
    if IsNumeral(s) {
      ToStringOfDigitsValue(s);
    }
  }

  lemma SuffixOfConcat(prefix: string, suffix: string, sub: string)
    requires |sub| <= |suffix|
    ensures EndsWith(prefix + suffix, sub) <==> suffix[|suffix| - |sub|..] == sub
  {
    var s := prefix + suffix;
    EndsWithExact(s, sub);
    assert s[|s| - |sub|..] == suffix[|suffix| - |sub|..];
  }

  lemma {:induction false} FindLastOfConcat(left: string, c: char, right: string)
    requires c !in right
    ensures FindLastOf(left + [c] + right, c) == |left|
    decreases |right|
  {
    var s := left + [c] + right;
    if right == "" {
      assert s[|s| - 1] == c;
    } else {
      var shorter := right[..|right| - 1];
      assert s[|s| - 1] == right[|right| - 1];
      assert s[..|s| - 1] == left + [c] + shorter;
      FindLastOfConcat(left, c, shorter);
    }
  }

  /** No name ends in two of the postfixes, so the order of the table is irrelevant. */
  lemma PostfixesExclusive(name: string, i: nat, j: nat)
    requires i < |POSTFIXES| && j < |POSTFIXES|
    requires EndsWith(name, POSTFIXES[i].0) && EndsWith(name, POSTFIXES[j].0)
    ensures i == j
  {
    LastTwo(name, POSTFIXES[i].0);
    LastTwo(name, POSTFIXES[j].0);
    PostfixTails(i, j);
  }

  lemma LastTwo(name: string, postfix: string)
    requires EndsWith(name, postfix) && |postfix| >= 2
    ensures |name| >= 2 && name[|name| - 2..] == postfix[|postfix| - 2..]
  {
    EndsWithExact(name, postfix);
    assert name[|name| - 2..] == name[|name| - |postfix|..][|postfix| - 2..];
  }

  lemma PostfixTails(i: nat, j: nat)
    requires i < |POSTFIXES| && j < |POSTFIXES|
    ensures |POSTFIXES[i].0| >= 2 && |POSTFIXES[j].0| >= 2
    ensures POSTFIXES[i].0[|POSTFIXES[i].0| - 2..] == POSTFIXES[j].0[|POSTFIXES[j].0| - 2..] ==> i == j
  {
    PostfixTail(i);
    PostfixTail(j);
    assert forall k, l :: 0 <= k < l < |POSTFIX_TAILS| ==> POSTFIX_TAILS[k] != POSTFIX_TAILS[l];
  }

  const POSTFIX_TAILS: seq<string> := ["TE", "OG", "SG", "UT", "TR"]

  lemma PostfixTail(i: nat)
    requires i < |POSTFIXES|
    ensures |POSTFIXES[i].0| >= 2 && POSTFIXES[i].0[|POSTFIXES[i].0| - 2..] == POSTFIX_TAILS[i]
  {
    var s := POSTFIXES[i].0;
    var n := |s|;
    assert n >= 2 && s[n - 2] == POSTFIX_TAILS[i][0] && s[n - 1] == POSTFIX_TAILS[i][1];
    assert s[n - 2..] == [s[n - 2], s[n - 1]];
  }

  /** No published name ends in a digit except those that carry an index. */
  lemma NoPostfixAfterDigit(name: string)
    requires name != "" && IsDigit(name[|name| - 1])
    ensures FirstPostfix(name, POSTFIXES) == None
  {
    forall i | 0 <= i < |POSTFIXES|
      ensures !EndsWith(name, POSTFIXES[i].0)
    {
      EndsWithExact(name, POSTFIXES[i].0);
    }
    FirstPostfixExact(name, POSTFIXES);
  }

  lemma {:induction false} FirstPostfixExact(name: string, table: seq<(string, ValueNameType)>)
    ensures FirstPostfix(name, table) == None <==> forall i :: 0 <= i < |table| ==> !EndsWith(name, table[i].0)
    ensures var r := FirstPostfix(name, table); r.Some? ==> r.value in table && EndsWith(name, r.value.0)
  {
    if table != [] {
      FirstPostfixExact(name, table[1..]);
      assert table == [table[0]] + table[1..];
    }
  }

  lemma IdentifiersExclusive(prefix: string)
    ensures EndsWith(prefix + INSTRUCTION_ID, INSTRUCTION_ID)
    ensures EndsWith(prefix + VARIABLE_ID, VARIABLE_ID)
    ensures !EndsWith(prefix + VARIABLE_ID, INSTRUCTION_ID)
    ensures !EndsWith(prefix + INSTRUCTION_ID, VARIABLE_ID)
  {
    SuffixOfConcat(prefix, INSTRUCTION_ID, INSTRUCTION_ID);
    SuffixOfConcat(prefix, VARIABLE_ID, VARIABLE_ID);
    SuffixOfConcat(prefix, INSTRUCTION_ID, VARIABLE_ID);
    var v := prefix + VARIABLE_ID;
    EndsWithExact(v, INSTRUCTION_ID);
    assert v[|v| - 3] == 'A';
  }

  /** A name with an index behind the last dash is split there again. */
  lemma IndexedNameSplits(remainder: string, idx: uint32)
    requires remainder != "" && remainder[|remainder| - 1] == '-'
    ensures var name := remainder + ToString(idx);
            && FirstPostfix(name, POSTFIXES) == None
            && FindLastOf(name, '-') == |remainder| - 1
            && name[|remainder|..] == ToString(idx)
            && name[..|remainder|] == remainder
  {
    var digits := ToString(idx);
    var name := remainder + digits;
    assert name[|name| - 1] == digits[|digits| - 1];
    NoPostfixAfterDigit(name);
    var left := remainder[..|remainder| - 1];
    assert remainder == left + ['-'];
    FindLastOfConcat(left, '-', digits);
  }

  lemma IndexedNameEndsInDigit(prefix: string, info: ValueNameInfo)
    requires info.valType in {InstructionName, VariableName}
    ensures var name := PVName(prefix, info); IsDigit(name[|name| - 1])
  {
    var digits := ToString(info.idx);
    var name := PVName(prefix, info);
    assert name[|name| - 1] == digits[|digits| - 1];
  }

  lemma InstructionNameParses(prefix: string, idx: uint32)
    ensures ParseValueName(GetInstructionPVName(prefix, idx)) ==
            if prefix == "" then UNKNOWN_NAME else ValueNameInfo(InstructionName, idx)
  {
    IdentifiersExclusive(prefix);
    IndexedNameSplits(prefix + INSTRUCTION_ID, idx);
    ParseIndexExact(ToString(idx), idx);
  }

  lemma VariableNameParses(prefix: string, idx: uint32)
    ensures ParseValueName(GetVariablePVName(prefix, idx)) ==
            if prefix == "" then UNKNOWN_NAME else ValueNameInfo(VariableName, idx)
  {
    IdentifiersExclusive(prefix);
    IndexedNameSplits(prefix + VARIABLE_ID, idx);
    ParseIndexExact(ToString(idx), idx);
  }

  lemma FixedNameParses(prefix: string, i: nat)
    requires i < |POSTFIXES|
    ensures ParseValueName(prefix + POSTFIXES[i].0) ==
            if prefix == "" then UNKNOWN_NAME else ValueNameInfo(POSTFIXES[i].1, 0)
  {
    var name := prefix + POSTFIXES[i].0;
    SuffixOfConcat(prefix, POSTFIXES[i].0, POSTFIXES[i].0);
    FirstPostfixExact(name, POSTFIXES);
    var r := FirstPostfix(name, POSTFIXES);
    assert r.Some?;
    var j :| 0 <= j < |POSTFIXES| && POSTFIXES[j] == r.value;
    PostfixesExclusive(name, i, j);
  }

  /** Parsing inverts all seven printers, provided there is something in front. */
  lemma ParseInvertsPrint(prefix: string, info: ValueNameInfo)
    requires WellFormed(info)
    ensures ParseValueName(PVName(prefix, info)) == if prefix == "" then UNKNOWN_NAME else info
  {
    match info.valType
    case InstructionName => InstructionNameParses(prefix, info.idx);
    case VariableName => VariableNameParses(prefix, info.idx);
    case JobStatusName => FixedNameParses(prefix, 0);
    case LogEntryName => FixedNameParses(prefix, 1);
    case MessageEntryName => FixedNameParses(prefix, 2);
    case OutputValueEntryName => FixedNameParses(prefix, 3);
    case BreakpointInstructionName => FixedNameParses(prefix, 4);
  }

  lemma PostfixNames(prefix: string, entry: (string, ValueNameType))
    requires entry in POSTFIXES
    ensures var info := ValueNameInfo(entry.1, 0);
            WellFormed(info) && PVName(prefix, info) == prefix + entry.0
  {
  }

  lemma IndexedNameIsPrinted(name: string) returns (prefix: string)
    requires ParseIndexedName(name).valType != UnknownName
    ensures var info := ParseIndexedName(name);
            info.valType in {InstructionName, VariableName} && prefix != "" && name == PVName(prefix, info)
  {
    var info := ParseIndexedName(name);
    var pos := FindLastOf(name, '-');
    var remainder, digits := name[..pos + 1], name[pos + 1..];
    assert name == remainder + digits;
    ParseIndexExact(digits, info.idx);
    var id := if info.valType == InstructionName then INSTRUCTION_ID else VARIABLE_ID;
    assert EndsWith(remainder, id) && |remainder| != |id|;
    prefix := SplitSuffix(remainder, id);
  }

  lemma SplitSuffix(s: string, sub: string) returns (prefix: string)
    requires EndsWith(s, sub)
    ensures s == prefix + sub
  {
    EndsWithExact(s, sub);
    prefix := s[..|s| - |sub|];
  }

  /** The prefix in front of a name that parses as known. */
  lemma KnownNameIsPrinted(name: string) returns (prefix: string)
    requires ParseValueName(name).valType != UnknownName
    ensures WellFormed(ParseValueName(name))
    ensures prefix != "" && name == PVName(prefix, ParseValueName(name))
  {
    FirstPostfixExact(name, POSTFIXES);
    match FirstPostfix(name, POSTFIXES)
    case Some(entry) =>
      prefix := SplitSuffix(name, entry.0);
      PostfixNames(prefix, entry);
    case None =>
      prefix := IndexedNameIsPrinted(name);
  }

  /** Exact characterisation: a name parses as a known kind with some index if and only if
      it is that kind's printed name behind a non-empty prefix. */
  lemma ParseExact(name: string, info: ValueNameInfo)
    requires info.valType != UnknownName
    ensures ParseValueName(name) == info
            <==> WellFormed(info) && exists prefix: string :: prefix != "" && name == PVName(prefix, info)
  {
    if ParseValueName(name) == info {
      var prefix := KnownNameIsPrinted(name);
    }
    if WellFormed(info) {
      forall prefix: string | prefix != "" && name == PVName(prefix, info)
        ensures ParseValueName(name) == info
      {
        ParseInvertsPrint(prefix, info);
      }
    }
  }

  /** Names as they appear on the network. */
  lemma NamesOnTheWire()
    ensures CreateJobPrefix("SRV", 10) == "SRV:PROC-10:"
    ensures GetInstructionPVName("SRV:PROC-10:", 5) == "SRV:PROC-10:INSTR-5"
    ensures GetVariablePVName("SRV:PROC-10:", 0) == "SRV:PROC-10:VAR-0"
    ensures GetBreakpointInstructionPVName("SRV:PROC-10:") == "SRV:PROC-10:BP-INSTR"
    ensures GetJobStatePVName("SRV:PROC-10:") == "SRV:PROC-10:STATE"
    ensures GetLogEntryName("SRV:PROC-10:") == "SRV:PROC-10:LOG"
    ensures GetMessageEntryName("SRV:PROC-10:") == "SRV:PROC-10:MSG"
    ensures GetOutputValueEntryName("SRV:PROC-10:") == "SRV:PROC-10:OUT"
    ensures GetInputServerName("SRV:PROC-10:") == "SRV:PROC-10:INPUT"
    ensures GetInputRequestPVName("SRV:PROC-10:INPUT") == "SRV:PROC-10:INPUT-REQ"
  {
    assert ToString(10) == ToString(1) + [DIGITS[0]] == "10";
  }

  /** Neither the input server nor its request channel is ever taken for a value of a job. */
  lemma InputNamesAreUnknown(prefix: string)
    ensures ParseValueName(GetInputServerName(prefix)) == UNKNOWN_NAME
    ensures ParseValueName(GetInputRequestPVName(GetInputServerName(prefix))) == UNKNOWN_NAME
  {
    var server := GetInputServerName(prefix);
    assert server[|server| - 2..] == "UT" && server[|server| - 3] == 'P';
    NeverParsed(server);
    var request := GetInputRequestPVName(server);
    assert request[|request| - 2..] == "EQ";
    NeverParsed(request);
  }

  lemma NeverParsed(name: string)
    requires |name| >= 3
    requires name[|name| - 1] == 'Q' || (name[|name| - 1] == 'T' && name[|name| - 3] == 'P')
    ensures ParseValueName(name) == UNKNOWN_NAME
  {
    if ParseValueName(name).valType != UnknownName {
      var prefix := KnownNameIsPrinted(name);
      var info := ParseValueName(name);
      if info.valType in {InstructionName, VariableName} {
        IndexedNameEndsInDigit(prefix, info);
      }
      assert false;
    }
  }

  // ---- The namespace of a whole server ----

  /** Everything a job registers: its published values, its input server and the channel
      on which that server announces requests. */
  datatype JobName = JobValue(info: ValueNameInfo) | InputServer | InputRequest

  predicate WellFormedName(what: JobName) {
    what.JobValue? ==> WellFormed(what.info)
  }

  function NameIn(prefix: string, what: JobName): string
    requires WellFormedName(what)
  {
    match what
    case JobValue(info) => PVName(prefix, info)
    case InputServer => GetInputServerName(prefix)
    case InputRequest => GetInputRequestPVName(GetInputServerName(prefix))
  }

  function ComposedName(serverPrefix: string, job: uint32, what: JobName): string
    requires WellFormedName(what)
  {
    NameIn(CreateJobPrefix(serverPrefix, job), what)
  }

  const PROC := ":PROC"

  /** Reads a composed name back: the last colon ends the job prefix and the last dash in
      front of it starts the job index. */
  function Recover(name: string): Option<(string, uint32, JobName)> {
    var colon := FindLastOf(name, ':');
    if colon < 0 then None
    else
      match RecoverJob(name[..colon])
      case None => None
      case Some((serverPrefix, job)) => Some((serverPrefix, job, RecoverTail(name[colon + 1..])))
  }

  function RecoverJob(head: string): Option<(string, uint32)> {
    var dash := FindLastOf(head, '-');
    if dash < |PROC| then None
    else
      match ParseIndex(head[dash + 1..])
      case None => None
      case Some(job) => Some((head[..dash - |PROC|], job))
  }

  function RecoverTail(tail: string): JobName {
    if tail == NameIn("", InputServer) then InputServer
    else if tail == NameIn("", InputRequest) then InputRequest
    else JobValue(ParseValueName("_" + tail))
  }

  lemma NameInSplits(prefix: string, what: JobName)
    requires WellFormedName(what)
    ensures NameIn(prefix, what) == prefix + NameIn("", what)
    ensures ':' !in NameIn("", what)
  {
    match what
    case InputServer =>
    case InputRequest =>
      assert prefix + INPUT_SERVER_NAME + INPUT_REQUEST_NAME == prefix + (INPUT_SERVER_NAME + INPUT_REQUEST_NAME);
    case JobValue(info) =>
      if info.valType in {InstructionName, VariableName} {
        IndexedNameInSplits(prefix, info);
      }
  }

  lemma IndexedNameInSplits(prefix: string, info: ValueNameInfo)
    requires info.valType in {InstructionName, VariableName}
    ensures PVName(prefix, info) == prefix + PVName("", info)
    ensures ':' !in PVName("", info)
  {
    var id := if info.valType == InstructionName then INSTRUCTION_ID else VARIABLE_ID;
    var digits := ToString(info.idx);
    assert ':' !in id && ':' !in digits;
    assert "" + id == id;
    assert PVName("", info) == id + digits;
    assert prefix + id + digits == prefix + (id + digits);
  }

  lemma TailIsRecovered(what: JobName)
    requires WellFormedName(what)
    ensures RecoverTail(NameIn("", what)) == what
  {
    if what.JobValue? {
      NameInSplits("_", what);
      ParseInvertsPrint("_", what.info);
      InputNamesAreUnknown("_");
      NameInSplits("_", InputServer);
      NameInSplits("_", InputRequest);
    }
  }

  /** Under one prefix, the empty one included, different things have different names. */
  lemma NameInInjective(prefix: string, a: JobName, b: JobName)
    requires WellFormedName(a) && WellFormedName(b)
    requires NameIn(prefix, a) == NameIn(prefix, b)
    ensures a == b
  {
    NameInSplits(prefix, a);
    NameInSplits(prefix, b);
    var x, y := NameIn("", a), NameIn("", b);
    assert (prefix + x)[|prefix|..] == x && (prefix + y)[|prefix|..] == y;
    TailIsRecovered(a);
    TailIsRecovered(b);
  }

  /** Server prefix, job index, kind and index can all be read back from any composed name,
      whatever characters the server prefix contains. */
  lemma RecoverInverts(serverPrefix: string, job: uint32, what: JobName)
    requires WellFormedName(what)
    ensures Recover(ComposedName(serverPrefix, job, what)) == Some((serverPrefix, job, what))
  {
    ComposedNameParts(serverPrefix, job, what);
    JobIsRecovered(serverPrefix, job);
    TailIsRecovered(what);
    RecoverFromParts(ComposedName(serverPrefix, job, what), JobHead(serverPrefix, job), NameIn("", what));
  }

  lemma RecoverFromParts(name: string, head: string, tail: string)
    requires FindLastOf(name, ':') == |head| && name[..|head|] == head && name[|head| + 1..] == tail
    ensures Recover(name) == match RecoverJob(head)
                             case Some((serverPrefix, job)) => Some((serverPrefix, job, RecoverTail(tail)))
                             case None => None
  {
    var colon := FindLastOf(name, ':');
    assert colon == |head| && name[..colon] == head && name[colon + 1..] == tail;
  }

  function JobHead(serverPrefix: string, job: uint32): string {
    serverPrefix + PROC + ['-'] + ToString(job)
  }

  lemma ComposedNameParts(serverPrefix: string, job: uint32, what: JobName)
    requires WellFormedName(what)
    ensures var name, head := ComposedName(serverPrefix, job, what), JobHead(serverPrefix, job);
            && FindLastOf(name, ':') == |head|
            && name[..|head|] == head && name[|head| + 1..] == NameIn("", what)
  {
    var head, tail := JobHead(serverPrefix, job), NameIn("", what);
    NameInSplits(CreateJobPrefix(serverPrefix, job), what);
    assert CreateJobPrefix(serverPrefix, job) == head + [':'];
    assert ComposedName(serverPrefix, job, what) == head + [':'] + tail;
    FindLastOfConcat(head, ':', tail);
  }

  lemma JobIsRecovered(serverPrefix: string, job: uint32)
    ensures RecoverJob(JobHead(serverPrefix, job)) == Some((serverPrefix, job))
  {
    var head, dash := JobHead(serverPrefix, job), |serverPrefix| + |PROC|;
    FindLastOfConcat(serverPrefix + PROC, '-', ToString(job));
    assert head[dash + 1..] == ToString(job) && head[..dash - |PROC|] == serverPrefix;
    ParseIndexExact(ToString(job), job);
  }

  /** Two names of any two jobs on any two servers coincide only if everything coincides. */
  lemma ComposedNamesInjective(
    server1: string, job1: uint32, what1: JobName, server2: string, job2: uint32, what2: JobName)
    requires WellFormedName(what1) && WellFormedName(what2)
    requires ComposedName(server1, job1, what1) == ComposedName(server2, job2, what2)
    ensures server1 == server2 && job1 == job2 && what1 == what2
  {
    RecoverInverts(server1, job1, what1);
    RecoverInverts(server2, job2, what2);
  }
}
