/** The grammar of command lines: reading the arguments a descriptor declares. */
module CommandArgs {
  import opened Wrappers
  import opened Bytes
  import opened Commands
  import ArithmeticParser
  import ArithmeticLexer
  import Decimal

  const MAX_LINE_CHARS: nat := 2048
  const MAX_SCALAR_CHARS: nat := 32
  const TWO_63: int := 0x8000_0000_0000_0000

  datatype ArgValue =
    | TextValue(text: string)
    | IntegerValue(whole: int)
    | NumberValue(digits: string)
    | BooleanValue(flag: bool)
    | EnumValue(choice: string)

  datatype ParseError =
    | LineTooLong
    | Missing(arg: string)
    | Extra
    | TooLong(arg: string, max: int)
    | BadChar(arg: string, ch: char)
    | TooDeep(arg: string, max: int)
    | BadInteger(arg: string)
    | BadNumber(arg: string)
    | BadBoolean(arg: string)
    | BadEnum(arg: string, values: seq<string>)

  type Parsed = seq<(string, ArgValue)>

  // ----- Blanks -----

  predicate IsBlank(c: char) { c == ' ' || c == '\t' }

  predicate Blanks(s: string) { forall c :: c in s ==> IsBlank(c) }

  predicate Solid(s: string) { forall c :: c in s ==> !IsBlank(c) }

  function TrimStart(s: string): (r: string)
    ensures r == "" || !IsBlank(r[0])
    ensures |r| <= |s|
  {
    if s != "" && IsBlank(s[0]) then TrimStart(s[1..]) else s
  }

  function TrimEnd(s: string): (r: string)
    ensures r == "" || !IsBlank(r[|r| - 1])
    ensures |r| <= |s|
  {
    if s != "" && IsBlank(s[|s| - 1]) then TrimEnd(s[..|s| - 1]) else s
  }

  /** How many characters come before the first blank. */
  function WordLength(s: string): (n: nat)
    ensures n <= |s|
  {
    if s == "" || IsBlank(s[0]) then 0 else 1 + WordLength(s[1..])
  }

  // ----- Numbers -----

  function StripMinus(t: string): string {
    if t != "" && t[0] == '-' then t[1..] else t
  }

  /** The integer a sign and digits stand for. */
  function SignedValue(t: string): int
    requires Decimal.AllDigits(StripMinus(t))
  {
    var n: int := Decimal.Value(StripMinus(t));
    if t != "" && t[0] == '-' then -n else n
  }

  predicate FitsI64(i: int) { -TWO_63 <= i < TWO_63 }

  function ParseInteger(arg: string, token: string): Result<ArgValue, ParseError> {
    if !Decimal.Plain(StripMinus(token)) || |token| > MAX_SCALAR_CHARS then Err(BadInteger(arg))
    else if FitsI64(SignedValue(token)) then Ok(IntegerValue(SignedValue(token)))
    else Err(BadInteger(arg))
  }

  predicate IsNumber(token: string) {
    var (whole, fraction) := SplitDot(StripMinus(token));
    Decimal.Plain(whole)
    && (fraction.Some? ==> fraction.value != "" && Decimal.AllDigits(fraction.value))
  }

  /** `-0`, `-0.0` and so on lose their sign. */
  function CanonicalNumber(text: string): string {
    if text != "" && text[0] == '-' && forall c :: c in text[1..] ==> c == '0' || c == '.' then text[1..] else text
  }

  function ParseNumber(arg: string, token: string): Result<ArgValue, ParseError> {
    if |token| > MAX_SCALAR_CHARS || !IsNumber(token) then Err(BadNumber(arg))
    else Ok(NumberValue(CanonicalNumber(token)))
  }

  // ----- One value -----

  /** A 32-bit integer seen as a 64-bit size. */
  function AsUsize(i: int): int { if i < 0 then i + 0x1_0000_0000_0000_0000 else i }

  function FirstOutside(s: string, allowed: string): (r: Option<char>)
    ensures r.None? <==> forall c :: c in s ==> c in allowed
  {
    if s == "" then None
    else if s[0] !in allowed then Some(s[0])
    else
      assert s == [s[0]] + s[1..];
      FirstOutside(s[1..], allowed)
  }

  function Nested(s: string): nat {
    ArithmeticLexer.ScanChars(ArithmeticParser.Nesting(0, 0), s).max
  }

  function ParseText(arg: CommandArg, token: string): Result<ArgValue, ParseError> {
    var bad := FirstOutside(token, arg.allowedChars);
    if |token| > AsUsize(arg.maxLength) then Err(TooLong(arg.name, arg.maxLength))
    else if arg.allowedChars != "" && bad.Some? then Err(BadChar(arg.name, bad.value))
    else if arg.maxNesting > 0 && Nested(token) > arg.maxNesting then Err(TooDeep(arg.name, arg.maxNesting))
    else Ok(TextValue(token))
  }

  function ParseValue(arg: CommandArg, token: string): Result<ArgValue, ParseError> {
    match arg.kind
    case Text => ParseText(arg, token)
    case Integer => ParseInteger(arg.name, token)
    case Number => ParseNumber(arg.name, token)
    case Boolean =>
      if token == "true" then Ok(BooleanValue(true))
      else if token == "false" then Ok(BooleanValue(false))
      else Err(BadBoolean(arg.name))
    case Enumeration => if token in arg.enumValues then Ok(EnumValue(token)) else Err(BadEnum(arg.name, arg.enumValues))
    case Unspecified => Err(Missing(arg.name))
  }

  /** The scan for nesting, as it runs. */
  method ReadText(arg: CommandArg, token: string) returns (r: Result<ArgValue, ParseError>)
    ensures r == ParseText(arg, token)
  {
    if |token| > AsUsize(arg.maxLength) {
      return Err(TooLong(arg.name, arg.maxLength));
    }
    if arg.allowedChars != "" {
      var bad := FirstOutside(token, arg.allowedChars);
      if bad.Some? {
        return Err(BadChar(arg.name, bad.value));
      }
    }
    if arg.maxNesting > 0 {
      var depth: nat, max: nat := 0, 0;
      assert token[0..] == token;
      for i := 0 to |token|
        invariant ArithmeticLexer.ScanChars(ArithmeticParser.Nesting(depth, max), token[i..]).max == Nested(token)
      {
        assert token[i..][1..] == token[i + 1..];
        if token[i] == '(' {
          depth := depth + 1;
          max := if max < depth then depth else max;
        } else if token[i] == ')' {
          depth := if depth == 0 then 0 else depth - 1;
        }
      }
      if max > arg.maxNesting {
        return Err(TooDeep(arg.name, arg.maxNesting));
      }
    }
    return Ok(TextValue(token));
  }

  method ReadValue(arg: CommandArg, token: string) returns (r: Result<ArgValue, ParseError>)
    ensures r == ParseValue(arg, token)
  {
    if arg.kind == Text {
      r := ReadText(arg, token);
    } else {
      r := ParseValue(arg, token);
    }
  }

  // ----- The line -----

  function Prepend<T, E>(list: seq<T>, r: Result<seq<T>, E>): Result<seq<T>, E> {
    match r
    case Ok(more) => Ok(list + more)
    case Err(e) => Err(e)
  }

  /** The token an argument takes from the cursor, and what it leaves. */
  function TakeToken(rest: bool, cursor: string): (string, string) {
    if rest then (TrimEnd(cursor), "")
    else (cursor[..WordLength(cursor)], TrimStart(cursor[WordLength(cursor)..]))
  }

  function ParseFrom(args: seq<CommandArg>, cursor: string): Result<Parsed, ParseError>
    decreases |args|
  {
    if args == [] then if cursor == "" then Ok([]) else Err(Extra)
    else if cursor == "" then if args[0].required then Err(Missing(args[0].name)) else Ok([])
    else
      var (token, left) := TakeToken(args[0].rest, cursor);
      match ParseValue(args[0], token)
      case Err(e) => Err(e)
      case Ok(v) => Prepend([(args[0].name, v)], ParseFrom(args[1..], left))
  }

  function Parse(d: CommandDescriptor, line: string): Result<Parsed, ParseError> {
    if |line| > MAX_LINE_CHARS then Err(LineTooLong) else ParseFrom(d.args, TrimStart(line))
  }

  lemma PrependTwice<T, E>(a: seq<T>, x: T, r: Result<seq<T>, E>)
    ensures Prepend(a, Prepend([x], r)) == Prepend(a + [x], r)
  {
    if r.Ok? {
      assert a + ([x] + r.value) == a + [x] + r.value;
    }
  }

  lemma PrependNothing<T, E>(r: Result<seq<T>, E>)
    ensures Prepend([], r) == r && (r.Ok? ==> Prepend(r.value, Ok([])) == r)
  {
    if r.Ok? {
      assert [] + r.value == r.value == r.value + [];
    }
  }

  method ParseArgs(d: CommandDescriptor, rest: string) returns (r: Result<Parsed, ParseError>)
    ensures r == Parse(d, rest)
  {
    hide ParseValue;
    if |rest| > MAX_LINE_CHARS {
      return Err(LineTooLong);
    }
    var out: Parsed := [];
    var cursor := TrimStart(rest);
    var i := 0;
    assert d.args[0..] == d.args;
    PrependNothing(ParseFrom(d.args, cursor));
    while i < |d.args|
      invariant i <= |d.args|
      invariant Prepend(out, ParseFrom(d.args[i..], cursor)) == ParseFrom(d.args, TrimStart(rest))
    {
      var arg := d.args[i];
      assert d.args[i..][1..] == d.args[i + 1..] && d.args[i..][0] == arg;
      if cursor == "" {
        if arg.required {
          return Err(Missing(arg.name));
        }
        break;
      }
      var token;
      ghost var left := TakeToken(arg.rest, cursor).1;
      if arg.rest {
        token := TrimEnd(cursor);
        cursor := "";
      } else {
        var end := WordLength(cursor);
        token := cursor[..end];
        cursor := TrimStart(cursor[end..]);
      }
      var v := ReadValue(arg, token);
      if v.Err? {
        return Err(v.error);
      }
      PrependTwice(out, (arg.name, v.value), ParseFrom(d.args[i + 1..], left));
      out := out + [(arg.name, v.value)];
      i := i + 1;
    }
    PrependNothing<(string, ArgValue), ParseError>(Ok(out));
    if cursor != "" {
      return Err(Extra);
    }
    return Ok(out);
  }
}
