/**
 Chat commands that nodes announce: their descriptors and when an announcement is valid.
 Texts are sequences of Unicode characters; the order of their UTF-8 bytes is the order of code points.
 Which characters are printable, and the protobuf encoding of a descriptor, are parameters.
 */
module Commands {
  import opened Wrappers
  import opened Bytes
  import opened Texts
  import Wire

  const MAX_COMMANDS: nat := 8
  const MAX_ARGS: nat := 4
  const MAX_COMMANDS_BYTES: nat := 4096
  const MAX_SUMMARY_CHARS: nat := 120
  const MAX_DESCRIPTION_CHARS: nat := 80
  const MAX_ALLOWED_CHARS: nat := 128
  const MAX_STRING_LENGTH: nat := 1024
  const MAX_NESTING: nat := 64
  const MAX_ENUM_VALUES: nat := 16
  const MAX_ENUM_VALUE_CHARS: nat := 64
  const MAX_RESULT_CHARS: nat := 64
  const RESERVED_NAMES: set<string> := {"ayuda", "help", "comandos"}

  datatype ArgType = Unspecified | Text | Integer | Number | Boolean | Enumeration

  datatype CommandArg = CommandArg(
    name: string, kind: ArgType, required: bool, description: string, maxLength: int, allowedChars: string,
    maxNesting: int, enumValues: seq<string>, rest: bool)

  datatype ResultSpec = ResultSpec(kind: ArgType, maxChars: int)

  datatype CommandDescriptor = CommandDescriptor(
    name: string, capabilityId: string, toolName: string, summary: string, args: seq<CommandArg>,
    result: Option<ResultSpec>)

  datatype Admission = Open | Trusted

  datatype RegistryEntry = RegistryEntry(tools: seq<string>, admission: Admission)

  type Registry = map<string, RegistryEntry>

  type Printable = char -> bool

  type Encoding = CommandDescriptor -> bytes

  // ----- Texts -----

  predicate IsPlainText(printable: Printable, text: string, max: nat) {
    |text| <= max && forall c :: c in text ==> printable(c)
  }

  predicate IsLower(c: char) { 'a' <= c <= 'z' }

  predicate IsDigit(c: char) { '0' <= c <= '9' }

  predicate IsIdent(text: string, max: nat, extra: char) {
    text != "" && IsLower(text[0]) && |text| <= max
    && forall c :: c in text[1..] ==> IsLower(c) || IsDigit(c) || c == extra
  }

  predicate IsCommandName(name: string) { IsIdent(name, 24, '-') }

  predicate IsArgName(name: string) { IsIdent(name, 24, '_') }

  predicate CanonicalChars(printable: Printable, chars: string) {
    |chars| <= MAX_ALLOWED_CHARS && (forall i :: 0 < i < |chars| ==> chars[i - 1] < chars[i])
    && forall c :: c in chars ==> printable(c)
  }

  /** The text before the first dot, and what follows the dot. */
  function SplitDot(s: string): (string, Option<string>) {
    if s == "" then ("", None)
    else if s[0] == '.' then ("", Some(s[1..]))
    else
      var (head, tail) := SplitDot(s[1..]);
      ([s[0]] + head, tail)
  }

  lemma {:induction false} SplitDotAt(head: string, tail: string)
    requires '.' !in head && (tail == "" || tail[0] == '.')
    ensures SplitDot(head + tail) == (head, if tail == "" then None else Some(tail[1..]))
  {
    if head == "" {
      assert head + tail == tail;
    } else {
      assert (head + tail)[1..] == head[1..] + tail && (head + tail)[0] == head[0];
      assert head == [head[0]] + head[1..];
      SplitDotAt(head[1..], tail);
    }
  }

  lemma {:induction false} SplitDotJoins(s: string)
    ensures var (head, tail) := SplitDot(s);
            '.' !in head && s == head + if tail.None? then "" else "." + tail.value
  {
    if s != "" && s[0] != '.' {
      SplitDotJoins(s[1..]);
      assert s == [s[0]] + s[1..];
    }
  }

  // ----- Arguments -----

  predicate NoTextLimits(arg: CommandArg) {
    arg.maxLength == 0 && arg.allowedChars == "" && arg.maxNesting == 0 && !arg.rest
  }

  predicate ValidEnumValue(printable: Printable, v: string) {
    1 <= |v| <= MAX_ENUM_VALUE_CHARS && forall c :: c in v ==> printable(c) && c != ' '
  }

  predicate ValidArg(printable: Printable, arg: CommandArg, last: bool) {
    IsArgName(arg.name)
    && IsPlainText(printable, arg.description, MAX_DESCRIPTION_CHARS)
    && match arg.kind
       case Text =>
         1 <= arg.maxLength <= MAX_STRING_LENGTH
         && CanonicalChars(printable, arg.allowedChars)
         && 0 <= arg.maxNesting <= MAX_NESTING
         && arg.enumValues == []
         && (arg.rest ==> last)
       case Enumeration =>
         1 <= |arg.enumValues| <= MAX_ENUM_VALUES
         && Ascending(arg.enumValues)
         && (forall v :: v in arg.enumValues ==> ValidEnumValue(printable, v))
         && NoTextLimits(arg)
       case Integer => NoTextLimits(arg) && arg.enumValues == []
       case Number => NoTextLimits(arg) && arg.enumValues == []
       case Boolean => NoTextLimits(arg) && arg.enumValues == []
       case Unspecified => false
  }

  /** The arguments of a valid descriptor: at most four, each valid, with distinct names, and the
      required ones first. */
  ghost predicate ValidArgs(printable: Printable, args: seq<CommandArg>) {
    |args| <= MAX_ARGS
    && (forall i :: 0 <= i < |args| ==> ValidArg(printable, args[i], i == |args| - 1))
    && (forall i, j :: 0 <= i < j < |args| ==> args[i].name != args[j].name)
    && (forall i, j :: 0 <= i < j < |args| && args[j].required ==> args[i].required)
  }

  predicate ValidResult(result: Option<ResultSpec>) {
    result.Some?
    && (result.value.kind == Number || result.value.kind == Integer || result.value.kind == Boolean)
    && 1 <= result.value.maxChars <= MAX_RESULT_CHARS
  }

  ghost predicate ValidDescriptor(
    printable: Printable, d: CommandDescriptor, capabilities: seq<string>, registry: Registry)
  {
    IsCommandName(d.name) && d.name !in RESERVED_NAMES
    && d.capabilityId in registry
    && d.capabilityId in capabilities
    && d.toolName in registry[d.capabilityId].tools
    && IsPlainText(printable, d.summary, MAX_SUMMARY_CHARS)
    && ValidArgs(printable, d.args)
    && ValidResult(d.result)
  }

  method ValidateDescriptor(printable: Printable, d: CommandDescriptor, capabilities: seq<string>, registry: Registry)
    returns (ok: bool)
    ensures ok <==> ValidDescriptor(printable, d, capabilities, registry)
  {
    hide ValidArgs, IsPlainText, IsCommandName;
    if !IsCommandName(d.name) || d.name in RESERVED_NAMES {
      return false;
    }
    if d.capabilityId !in registry || d.capabilityId !in capabilities {
      return false;
    }
    if d.toolName !in registry[d.capabilityId].tools || !IsPlainText(printable, d.summary, MAX_SUMMARY_CHARS) {
      return false;
    }
    ok := ValidateArgs(printable, d.args);
    return ok && ValidResult(d.result);
  }

  /** The scan remembers the names so far and whether an optional argument was seen. */
  method ValidateArgs(printable: Printable, args: seq<CommandArg>) returns (ok: bool)
    ensures ok <==> ValidArgs(printable, args)
  {
    hide ValidArg;
    if |args| > MAX_ARGS {
      return false;
    }
    var names: set<string> := {};
    var seenOptional := false;
    for i := 0 to |args|
      invariant forall n :: n in names <==> exists k :: 0 <= k < i && args[k].name == n
      invariant seenOptional <==> exists k :: 0 <= k < i && !args[k].required
      invariant forall k :: 0 <= k < i ==> ValidArg(printable, args[k], k == |args| - 1)
      invariant forall k, j :: 0 <= k < j < i ==> args[k].name != args[j].name
      invariant forall k, j :: 0 <= k < j < i && args[j].required ==> args[k].required
    {
      var arg := args[i];
      if arg.name in names {
        return false;
      }
      names := names + {arg.name};
      if !ValidArg(printable, arg, i + 1 == |args|) {
        return false;
      }
      if arg.required && seenOptional {
        return false;
      }
      seenOptional := seenOptional || !arg.required;
    }
    return true;
  }

  // ----- Announcements -----

  /** Length of the `commands` field of a beacon: tag, length and body of each descriptor. */
  function EncodedLength(encode: Encoding, commands: seq<CommandDescriptor>): nat {
    if commands == [] then 0
    else
      var len := |encode(commands[|commands| - 1])|;
      EncodedLength(encode, commands[..|commands| - 1]) + 1 + |Wire.EncodeVarint(len)| + len
  }

  ghost predicate ValidDescriptors(
    printable: Printable, encode: Encoding, commands: seq<CommandDescriptor>, capabilities: seq<string>,
    registry: Registry)
  {
    |commands| <= MAX_COMMANDS
    && EncodedLength(encode, commands) <= MAX_COMMANDS_BYTES
    && (forall i :: 0 < i < |commands| ==> Below(commands[i - 1].name, commands[i].name))
    && forall d :: d in commands ==> ValidDescriptor(printable, d, capabilities, registry)
  }

  method ValidateDescriptors(
    printable: Printable, encode: Encoding, commands: seq<CommandDescriptor>, capabilities: seq<string>,
    registry: Registry)
    returns (ok: bool)
    ensures ok <==> ValidDescriptors(printable, encode, commands, capabilities, registry)
  {
    hide ValidDescriptor;
    if |commands| > MAX_COMMANDS {
      return false;
    }
    var encoded := 0;
    for i := 0 to |commands|
      invariant encoded == EncodedLength(encode, commands[..i])
    {
      var len := |encode(commands[i])|;
      assert commands[..i + 1][..i] == commands[..i];
      encoded := encoded + 1 + |Wire.EncodeVarint(len)| + len;
    }
    assert commands[..|commands|] == commands;
    if encoded > MAX_COMMANDS_BYTES {
      return false;
    }
    if !(forall i :: 0 < i < |commands| ==> Below(commands[i - 1].name, commands[i].name)) {
      return false;
    }
    for i := 0 to |commands|
      invariant forall k :: 0 <= k < i ==> ValidDescriptor(printable, commands[k], capabilities, registry)
    {
      var valid := ValidateDescriptor(printable, commands[i], capabilities, registry);
      if !valid {
        return false;
      }
    }
    return true;
  }

  /** One invalid command spoils the announcement; in a valid one the names differ. */
  lemma NamesDiffer(
    printable: Printable, encode: Encoding, commands: seq<CommandDescriptor>, capabilities: seq<string>,
    registry: Registry,
    i: nat, j: nat)
    requires ValidDescriptors(printable, encode, commands, capabilities, registry)
    requires i < |commands| && j < |commands| && commands[i].name == commands[j].name
    ensures i == j
  {
    hide ValidDescriptor;
    var names := seq(|commands|, k requires 0 <= k < |commands| => commands[k].name);
    assert Ascending(names);
    if i < j {
      AscendingPairs(names, i, j);
      BelowIsStrict(names[i], names[j]);
    } else if j < i {
      AscendingPairs(names, j, i);
      BelowIsStrict(names[j], names[i]);
    }
  }

  // ----- The contract of a command -----

  /** What a command promises, without the texts shown to people. */
  function Contract(d: CommandDescriptor): (c: CommandDescriptor)
    ensures |c.args| == |d.args| && c.name == d.name
  {
    d.(summary := "", args := seq(|d.args|, i requires 0 <= i < |d.args| => d.args[i].(description := "")))
  }
}
