/**
 The TypeScript twin of the command grammar, over UTF-16 units and with its regular expressions, and the
 check of a node's result; both implementations accept the same lines and results and report the same
 kinds of error.
 */
module CommandScript {
  import opened Wrappers
  import opened Bytes
  import opened Commands
  import opened CommandArgs
  import opened CommandLines
  import opened Utf16
  import ArithmeticParser
  import ArithmeticLexer
  import Decimal

  /** An argument as the script holds it. */
  datatype ScriptArg = ScriptArg(
    name: string, kind: ArgType, required: bool, maxLength: int, allowedChars: units, maxNesting: int,
    enumValues: seq<units>, rest: bool)

  datatype ScriptValue = ScriptValue(kind: ArgType, text: units)

  datatype ErrorKind =
    | LineLength | MissingArg | ExtraText | TextLength | CharNotAllowed | Nesting
    | NotInteger | NotNumber | NotBoolean | NotInEnum

  datatype ScriptError = ScriptError(kind: ErrorKind, arg: string)

  type ScriptParsed = seq<(string, ScriptValue)>

  // ----- Cutting -----

  /** `[ \t]` */
  predicate BlankUnit(u: unit) { u == ' ' as int || u == '\t' as int }

  /** `replace(/^[ \t]+/, "")` */
  function TrimBlankStart(u: units): (r: units)
    ensures |r| <= |u|
  {
    if u != [] && BlankUnit(u[0]) then TrimBlankStart(u[1..]) else u
  }

  /** `replace(/[ \t]+$/, "")` */
  function TrimBlankEnd(u: units): units {
    if u != [] && BlankUnit(u[|u| - 1]) then TrimBlankEnd(u[..|u| - 1]) else u
  }

  /** `search(/[ \t]/)`: the first match, or -1. */
  function Search(u: units): (k: int)
    ensures -1 <= k < |u|
    ensures k == -1 ==> forall i :: 0 <= i < |u| ==> !BlankUnit(u[i])
    ensures k >= 0 ==> BlankUnit(u[k]) && forall i :: 0 <= i < k ==> !BlankUnit(u[i])
  {
    if u == [] then -1
    else if BlankUnit(u[0]) then 0
    else
      var k := Search(u[1..]);
      if k == -1 then -1 else k + 1
  }

  /** Where the next token ends. */
  function Cut(u: units): (k: nat)
    ensures k <= |u|
  {
    if Search(u) == -1 then |u| else Search(u)
  }

  // ----- Regular expressions -----

  predicate DigitUnit(u: unit) { '0' as int <= u <= '9' as int }

  predicate DigitUnits(u: units) { forall x :: x in u ==> DigitUnit(x) }

  predicate Minus(u: units) { u == [] || u == ['-' as int] }

  /** `0|[1-9][0-9]*` */
  predicate IntBody(u: units) {
    u == ['0' as int] || (u != [] && '1' as int <= u[0] <= '9' as int && DigitUnits(u[1..]))
  }

  /** `(\.[0-9]+)?` */
  predicate Fraction(u: units) {
    u == [] || (|u| > 1 && u[0] == '.' as int && DigitUnits(u[1..]))
  }

  /** `^-?(0|[1-9][0-9]*)$` */
  predicate MatchesInt(u: units) { exists i :: 0 <= i <= |u| && Minus(u[..i]) && IntBody(u[i..]) }

  /** `^-?(0|[1-9][0-9]*)(\.[0-9]+)?$` */
  predicate MatchesNum(u: units) {
    exists i, j :: 0 <= i <= j <= |u| && Minus(u[..i]) && IntBody(u[i..j]) && Fraction(u[j..])
  }

  // ----- Values -----

  /** The number digits stand for. */
  function DigitsValue(u: units): int {
    if u == [] then 0 else DigitsValue(u[..|u| - 1]) * 10 + (u[|u| - 1] - '0' as int)
  }

  /** `BigInt` of a text the integer expression matches. */
  function BigValue(u: units): int {
    if u != [] && u[0] == '-' as int then -DigitsValue(u[1..]) else DigitsValue(u)
  }

  /** A minus is dropped before `/^[0.]*$/`. */
  function ScriptCanonical(u: units): units {
    if u != [] && u[0] == '-' as int && forall x :: x in u[1..] ==> x == '0' as int || x == '.' as int
    then u[1..]
    else u
  }

  function ScriptInteger(arg: string, token: units): Result<ScriptValue, ScriptError> {
    if !MatchesInt(token) || |CodePoints(token)| > MAX_SCALAR_CHARS then Err(ScriptError(NotInteger, arg))
    else
      var big := BigValue(token);
      if big > 9223372036854775807 || big < -9223372036854775808 then Err(ScriptError(NotInteger, arg))
      else Ok(ScriptValue(Integer, Encode(Decimal.OfInt(big))))
  }

  function ScriptNumber(arg: string, token: units): Result<ScriptValue, ScriptError> {
    if !MatchesNum(token) || |CodePoints(token)| > MAX_SCALAR_CHARS then Err(ScriptError(NotNumber, arg))
    else Ok(ScriptValue(Number, ScriptCanonical(token)))
  }

  /** The largest depth reached by the code points, from a depth and a largest depth so far. */
  function Deepest(depth: nat, max: nat, points: seq<int>): nat
    decreases |points|
  {
    if points == [] then max
    else if points[0] == '(' as int then Deepest(depth + 1, if max < depth + 1 then depth + 1 else max, points[1..])
    else if points[0] == ')' as int then Deepest(if depth == 0 then 0 else depth - 1, max, points[1..])
    else Deepest(depth, max, points[1..])
  }

  predicate HasForeign(points: seq<int>, allowed: seq<int>) { exists c :: c in points && c !in allowed }

  function ScriptText(arg: ScriptArg, token: units): Result<ScriptValue, ScriptError> {
    var chars := CodePoints(token);
    if |chars| > arg.maxLength then Err(ScriptError(TextLength, arg.name))
    else if arg.allowedChars != [] && HasForeign(chars, CodePoints(arg.allowedChars)) then
      Err(ScriptError(CharNotAllowed, arg.name))
    else if arg.maxNesting > 0 && Deepest(0, 0, chars) > arg.maxNesting then Err(ScriptError(Nesting, arg.name))
    else Ok(ScriptValue(Text, token))
  }

  function ScriptParseValue(arg: ScriptArg, token: units): Result<ScriptValue, ScriptError> {
    match arg.kind
    case Text => ScriptText(arg, token)
    case Integer => ScriptInteger(arg.name, token)
    case Number => ScriptNumber(arg.name, token)
    case Boolean =>
      if token == Encode("true") || token == Encode("false") then Ok(ScriptValue(Boolean, token))
      else Err(ScriptError(NotBoolean, arg.name))
    case Enumeration =>
      if token in arg.enumValues then Ok(ScriptValue(Enumeration, token)) else Err(ScriptError(NotInEnum, arg.name))
    case Unspecified => Err(ScriptError(MissingArg, arg.name))
  }

  /** The nesting scan, as it runs. */
  method ScriptReadText(arg: ScriptArg, token: units) returns (r: Result<ScriptValue, ScriptError>)
    ensures r == ScriptText(arg, token)
  {
    var chars := CodePoints(token);
    if |chars| > arg.maxLength {
      return Err(ScriptError(TextLength, arg.name));
    }
    if arg.allowedChars != [] && HasForeign(chars, CodePoints(arg.allowedChars)) {
      return Err(ScriptError(CharNotAllowed, arg.name));
    }
    if arg.maxNesting > 0 {
      var depth: nat, max: nat := 0, 0;
      assert chars[0..] == chars;
      for i := 0 to |chars|
        invariant Deepest(depth, max, chars[i..]) == Deepest(0, 0, chars)
      {
        assert chars[i..][0] == chars[i] && chars[i..][1..] == chars[i + 1..];
        if chars[i] == '(' as int {
          depth := depth + 1;
          max := if max < depth then depth else max;
        } else if chars[i] == ')' as int {
          depth := if depth == 0 then 0 else depth - 1;
        }
      }
      if max > arg.maxNesting {
        return Err(ScriptError(Nesting, arg.name));
      }
    }
    return Ok(ScriptValue(Text, token));
  }

  method ScriptReadValue(arg: ScriptArg, token: units) returns (r: Result<ScriptValue, ScriptError>)
    ensures r == ScriptParseValue(arg, token)
  {
    if arg.kind == Text {
      r := ScriptReadText(arg, token);
    } else {
      r := ScriptParseValue(arg, token);
    }
  }

  // ----- The line -----

  function ScriptTake(rest: bool, cursor: units): (units, units) {
    if rest then (TrimBlankEnd(cursor), []) else (cursor[..Cut(cursor)], TrimBlankStart(cursor[Cut(cursor)..]))
  }

  function ScriptParseFrom(args: seq<ScriptArg>, cursor: units): Result<ScriptParsed, ScriptError>
    decreases |args|
  {
    if args == [] then if cursor == [] then Ok([]) else Err(ScriptError(ExtraText, ""))
    else if cursor == [] then if args[0].required then Err(ScriptError(MissingArg, args[0].name)) else Ok([])
    else
      var (token, left) := ScriptTake(args[0].rest, cursor);
      match ScriptParseValue(args[0], token)
      case Err(e) => Err(e)
      case Ok(v) => Prepend([(args[0].name, v)], ScriptParseFrom(args[1..], left))
  }

  function ScriptParse(args: seq<ScriptArg>, line: units): Result<ScriptParsed, ScriptError> {
    if |CodePoints(line)| > MAX_LINE_CHARS then Err(ScriptError(LineLength, ""))
    else ScriptParseFrom(args, TrimBlankStart(line))
  }

  method ScriptParseArgs(args: seq<ScriptArg>, rest: units) returns (r: Result<ScriptParsed, ScriptError>)
    ensures r == ScriptParse(args, rest)
  {
    hide ScriptParseValue, CodePoints, TrimBlankStart, TrimBlankEnd;
    if |CodePoints(rest)| > MAX_LINE_CHARS {
      return Err(ScriptError(LineLength, ""));
    }
    var out: ScriptParsed := [];
    var cursor := TrimBlankStart(rest);
    var i := 0;
    assert args[0..] == args;
    PrependNothing(ScriptParseFrom(args, cursor));
    while i < |args|
      invariant i <= |args|
      invariant Prepend(out, ScriptParseFrom(args[i..], cursor)) == ScriptParseFrom(args, TrimBlankStart(rest))
    {
      var arg := args[i];
      assert args[i..][1..] == args[i + 1..] && args[i..][0] == arg;
      if cursor == [] {
        if arg.required {
          return Err(ScriptError(MissingArg, arg.name));
        }
        break;
      }
      var token;
      ghost var left := ScriptTake(arg.rest, cursor).1;
      if arg.rest {
        token := TrimBlankEnd(cursor);
        cursor := [];
      } else {
        var end := Search(cursor);
        var cut := if end == -1 then |cursor| else end;
        token := cursor[..cut];
        cursor := TrimBlankStart(cursor[cut..]);
      }
      var v := ScriptReadValue(arg, token);
      if v.Err? {
        return Err(v.error);
      }
      PrependTwice(out, (arg.name, v.value), ScriptParseFrom(args[i + 1..], left));
      out := out + [(arg.name, v.value)];
      i := i + 1;
    }
    PrependNothing<(string, ScriptValue), ScriptError>(Ok(out));
    if cursor != [] {
      return Err(ScriptError(ExtraText, ""));
    }
    return Ok(out);
  }

  // ----- Cutting commutes with encoding -----

  /** The first unit of a text is a blank exactly when its first character is, and so for the last. */
  lemma BlankEnds(s: string)
    requires s != ""
    ensures Encode(s) != []
    ensures BlankUnit(Encode(s)[0]) <==> IsBlank(s[0])
    ensures IsBlank(s[0]) ==> Encode(s)[1..] == Encode(s[1..])
    ensures var u := Encode(s); BlankUnit(u[|u| - 1]) <==> IsBlank(s[|s| - 1])
    ensures IsBlank(s[|s| - 1]) ==> Encode(s)[..|Encode(s)| - 1] == Encode(s[..|s| - 1])
  {
    EncodeSnoc(s);
    var c, d := OfChar(s[0]), OfChar(s[|s| - 1]);
    assert Encode(s)[0] == c[0] && Encode(s)[|Encode(s)| - 1] == d[|d| - 1];
  }

  lemma {:induction false} TrimStartEncoded(s: string)
    ensures TrimBlankStart(Encode(s)) == Encode(TrimStart(s))
  {
    if s != "" {
      BlankEnds(s);
      if IsBlank(s[0]) {
        TrimStartEncoded(s[1..]);
      }
    }
  }

  lemma {:induction false} TrimEndEncoded(s: string)
    ensures TrimBlankEnd(Encode(s)) == Encode(TrimEnd(s))
  {
    if s != "" {
      BlankEnds(s);
      if IsBlank(s[|s| - 1]) {
        TrimEndEncoded(s[..|s| - 1]);
      }
    }
  }

  lemma {:induction false} SolidEncoded(s: string)
    requires Solid(s)
    ensures forall i :: 0 <= i < |Encode(s)| ==> !BlankUnit(Encode(s)[i])
  {
    if s != "" {
      var head := OfChar(s[0]);
      SolidEncoded(s[1..]);
      assert s[0] in s && forall k :: 0 <= k < |head| ==> !BlankUnit(head[k]);
    }
  }

  lemma CutsAt(u: units, k: nat)
    requires k <= |u| && (forall i :: 0 <= i < k ==> !BlankUnit(u[..k][i])) && (k < |u| ==> BlankUnit(u[k..][0]))
    ensures Cut(u) == k
  {
    assert forall i :: 0 <= i < k ==> u[i] == u[..k][i];
  }

  /** Searching by unit cuts where the word ends. */
  lemma CutEncoded(s: string)
    ensures Cut(Encode(s)) == |Encode(s[..WordLength(s)])|
    ensures Encode(s)[..Cut(Encode(s))] == Encode(s[..WordLength(s)])
    ensures Encode(s)[Cut(Encode(s))..] == Encode(s[WordLength(s)..])
  {
    var w := WordLength(s);
    WordIsSolid(s);
    SolidEncoded(s[..w]);
    EncodeCut(s, w);
    if w < |s| {
      BlankEnds(s[w..]);
    } else {
      assert s[..w] == s;
    }
    hide Encode, WordLength, Search;
    CutsAt(Encode(s), |Encode(s[..w])|);
  }

  lemma TakesEncoded(rest: bool, cursor: string)
    ensures var (token, left) := TakeToken(rest, cursor);
            ScriptTake(rest, Encode(cursor)) == (Encode(token), Encode(left))
  {
    if rest {
      TrimEndEncoded(cursor);
    } else {
      CutEncoded(cursor);
      TrimStartEncoded(cursor[WordLength(cursor)..]);
    }
  }

  // ----- Numbers -----

  lemma DigitsEncoded(s: string)
    requires Ascii(s)
    ensures DigitUnits(Codes(s)) <==> Decimal.AllDigits(s)
  {
    forall i | 0 <= i < |s| ensures DigitUnit(Codes(s)[i]) <==> Decimal.IsDigit(s[i]) {
    }
    assert forall i :: 0 <= i < |s| ==> Codes(s)[i] in Codes(s);
  }

  lemma BodyIsPlain(s: string)
    requires Ascii(s)
    ensures IntBody(Codes(s)) <==> Decimal.Plain(s)
  {
    if s != "" {
      assert s == [s[0]] + s[1..] && Codes(s)[1..] == Codes(s[1..]);
      DigitsEncoded(s[1..]);
      assert Codes(s) == ['0' as int] <==> s == "0";
      assert Decimal.AllDigits(s) <==> Decimal.IsDigit(s[0]) && Decimal.AllDigits(s[1..]) by {
        assert forall i :: 0 < i < |s| ==> s[i] == s[1..][i - 1];
      }
    }
  }

  lemma IntIsAscii(u: units)
    requires MatchesInt(u)
    ensures forall x :: x in u ==> x < 0x80
  {
    hide IntBody;
    var i :| 0 <= i <= |u| && Minus(u[..i]) && IntBody(u[i..]);
    assert u[..i] + u[i..] == u;
    PartsAscii(u[i..]);
  }

  lemma NumIsAscii(u: units)
    requires MatchesNum(u)
    ensures forall x :: x in u ==> x < 0x80
  {
    hide IntBody, Fraction;
    var i, j :| 0 <= i <= j <= |u| && Minus(u[..i]) && IntBody(u[i..j]) && Fraction(u[j..]);
    assert u == u[..i] + u[i..j] + u[j..];
    PartsAscii(u[i..j]);
    PartsAscii(u[j..]);
  }

  lemma PartsAscii(u: units)
    requires IntBody(u) || Fraction(u)
    ensures forall x :: x in u ==> x < 0x80
  {
    if u != [] {
      assert u == [u[0]] + u[1..];
    }
  }

  lemma MinusOf(s: string, i: nat)
    requires Ascii(s) && i < |s| && Minus(Codes(s)[..i]) && s[i] != '-'
    ensures StripMinus(s) == s[i..]
  {
    if i > 0 {
      assert Codes(s)[..i][0] == s[0] as int;
    }
  }

  lemma StrippedAt(s: string) returns (i: nat)
    requires Ascii(s)
    ensures i <= |s| && StripMinus(s) == s[i..] && Minus(Codes(s)[..i])
    ensures i == if s != "" && s[0] == '-' then 1 else 0
  {
    i := if s != "" && s[0] == '-' then 1 else 0;
  }

  /** A plain text is below U+0080, and so is a number. */
  lemma NumberIsAscii(s: string)
    requires Decimal.Plain(StripMinus(s)) || IsNumber(s)
    ensures Ascii(s)
  {
    var u := StripMinus(s);
    assert s == u || s == "-" + u;
    if !Decimal.Plain(u) {
      SplitDotJoins(u);
      hide SplitDot;
      var (whole, fraction) := SplitDot(u);
      assert u == whole + if fraction.None? then "" else "." + fraction.value;
    }
  }

  /** The expression for integers matches exactly what the Rust conditions accept. */
  lemma IntMatches(s: string)
    ensures MatchesInt(Encode(s)) <==> Decimal.Plain(StripMinus(s))
  {
    hide IntBody, Decimal.Plain;
    if MatchesInt(Encode(s)) {
      IntIsAscii(Encode(s));
      AsciiUnits(s);
      EncodeAscii(s);
      var i :| 0 <= i <= |s| && Minus(Codes(s)[..i]) && IntBody(Codes(s)[i..]);
      assert Codes(s)[i..] == Codes(s[i..]);
      BodyIsPlain(s[i..]);
      PlainStart(s[i..]);
      MinusOf(s, i);
    }
    if Decimal.Plain(StripMinus(s)) {
      NumberIsAscii(s);
      EncodeAscii(s);
      var i := StrippedAt(s);
      assert Codes(s)[i..] == Codes(s[i..]);
      BodyIsPlain(s[i..]);
    }
  }

  lemma PlainStart(s: string)
    requires Decimal.Plain(s)
    ensures s != "" && Decimal.IsDigit(s[0]) && '.' !in s
  {
  }

  lemma FractionIs(s: string)
    requires Ascii(s)
    ensures Fraction(Codes(s)) <==> s == "" || (|s| > 1 && s[0] == '.' && Decimal.AllDigits(s[1..]))
  {
    if s != "" {
      assert Codes(s)[1..] == Codes(s[1..]);
      DigitsEncoded(s[1..]);
    }
  }

  /** And so does the one for numbers. */
  lemma NumMatches(s: string)
    ensures MatchesNum(Encode(s)) <==> IsNumber(s)
  {
    hide IntBody, Fraction, Decimal.Plain, SplitDot, IsNumber;
    if MatchesNum(Encode(s)) {
      NumIsAscii(Encode(s));
      AsciiUnits(s);
      EncodeAscii(s);
      var i, j :| 0 <= i <= j <= |s| && Minus(Codes(s)[..i]) && IntBody(Codes(s)[i..j]) && Fraction(Codes(s)[j..]);
      assert Codes(s)[i..j] == Codes(s[i..j]) && Codes(s)[j..] == Codes(s[j..]);
      NumberParts(s, i, j);
    }
    if IsNumber(s) {
      NumberIsAscii(s);
      EncodeAscii(s);
      var i, j := PartsOfNumber(s);
    }
  }

  lemma NumberParts(s: string, i: nat, j: nat)
    requires Ascii(s) && i <= j <= |s| && Minus(Codes(s)[..i]) && IntBody(Codes(s[i..j])) && Fraction(Codes(s[j..]))
    ensures IsNumber(s)
  {
    hide IntBody, Fraction, Decimal.Plain, SplitDot;
    var body, tail := s[i..j], s[j..];
    assert s[i..] == body + tail;
    BodyIsPlain(body);
    PlainStart(body);
    FractionIs(tail);
    assert s[i] == body[0];
    MinusOf(s, i);
    hide Codes, Minus, StripMinus;
    SplitDotAt(body, tail);
  }

  lemma PartsOfNumber(s: string) returns (i: nat, j: nat)
    requires Ascii(s) && IsNumber(s)
    ensures i <= j <= |s| && Minus(Codes(s)[..i]) && IntBody(Codes(s)[i..j]) && Fraction(Codes(s)[j..])
  {
    i := StrippedAt(s);
    var u := s[i..];
    SplitDotJoins(u);
    var (whole, fraction) := SplitDot(u);
    hide SplitDot, StripMinus, IntBody, Decimal.Plain, Minus;
    var tail := if fraction.None? then "" else "." + fraction.value;
    j := i + |whole|;
    SlicesOf(s, i, whole, tail);
    BodyIsPlain(whole);
    FractionIs(tail);
    assert fraction.Some? ==> tail[1..] == fraction.value;
  }

  lemma SlicesOf(s: string, i: nat, whole: string, tail: string)
    requires Ascii(s) && i <= |s| && s[i..] == whole + tail
    ensures Ascii(whole) && Ascii(tail) && i + |whole| <= |s|
    ensures Codes(s)[i..i + |whole|] == Codes(whole) && Codes(s)[i + |whole|..] == Codes(tail)
  {
    var j := i + |whole|;
    assert s[i..j] == s[i..][..|whole|] == whole && s[j..] == s[i..][|whole|..] == tail;
    assert Codes(s)[i..j] == Codes(s[i..j]) && Codes(s)[j..] == Codes(s[j..]);
  }

  lemma {:induction false} DigitsValueIs(s: string)
    requires Ascii(s) && Decimal.AllDigits(s)
    ensures DigitsValue(Codes(s)) == Decimal.Value(s)
  {
    if s != "" {
      assert Codes(s)[..|s| - 1] == Codes(s[..|s| - 1]);
      DigitsValueIs(s[..|s| - 1]);
    }
  }

  lemma BigValueIs(s: string)
    requires Decimal.Plain(StripMinus(s))
    ensures BigValue(Encode(s)) == SignedValue(s)
  {
    hide Encode, Decimal.Value, DigitsValue, Minus;
    NumberIsAscii(s);
    EncodeAscii(s);
    var i := StrippedAt(s);
    assert Codes(s)[i..] == Codes(s[i..]);
    DigitsValueIs(s[i..]);
  }

  lemma CanonicalEncoded(s: string)
    requires IsNumber(s)
    ensures ScriptCanonical(Encode(s)) == Encode(CanonicalNumber(s))
  {
    hide IsNumber, Encode;
    NumberIsAscii(s);
    EncodeAscii(s);
    if s != "" {
      EncodeAscii(s[1..]);
      assert Codes(s)[1..] == Codes(s[1..]);
      ZerosAndDots(s[1..]);
    }
  }

  lemma ZerosAndDots(s: string)
    requires Ascii(s)
    ensures (forall x :: x in Codes(s) ==> x == '0' as int || x == '.' as int)
            <==> forall c :: c in s ==> c == '0' || c == '.'
  {
    assert forall i :: 0 <= i < |s| ==> s[i] in s && Codes(s)[i] in Codes(s);
  }

  // ----- Texts -----

  lemma {:induction false} DeepestIs(depth: nat, max: nat, s: string)
    ensures Deepest(depth, max, CodePoints(Encode(s)))
         == ArithmeticLexer.ScanChars(ArithmeticParser.Nesting(depth, max), s).max
    decreases |s|
  {
    CodePointsOf(s);
    if s != "" {
      CodePointsOf(s[1..]);
      assert CodePoints(Encode(s))[1..] == CodePoints(Encode(s[1..]));
      var n := ArithmeticLexer.CharStep(ArithmeticParser.Nesting(depth, max), s[0]);
      DeepestIs(n.depth, n.max, s[1..]);
    }
  }

  lemma ForeignIs(s: string, allowed: string)
    ensures HasForeign(CodePoints(Encode(s)), CodePoints(Encode(allowed))) <==> FirstOutside(s, allowed).Some?
  {
    CodePointsOf(s);
    CodePointsOf(allowed);
    PointIn(s);
    PointIn(allowed);
    if HasForeign(CodePoints(Encode(s)), CodePoints(Encode(allowed))) {
      var p :| p in CodePoints(Encode(s)) && p !in CodePoints(Encode(allowed));
      var i :| 0 <= i < |s| && s[i] as int == p;
      assert s[i] in s && s[i] !in allowed;
    }
    if FirstOutside(s, allowed).Some? {
      var c :| c in s && c !in allowed;
      assert c as int in CodePoints(Encode(s));
    }
  }

  /** A character is in a text exactly when its code point is among the text's. */
  lemma PointIn(s: string)
    ensures forall c: char :: c in s <==> c as int in CodePoints(Encode(s))
  {
    CodePointsOf(s);
    forall c: char ensures c in s <==> c as int in CodePoints(Encode(s)) {
      if c in s {
        var i :| 0 <= i < |s| && s[i] == c;
        assert CodePoints(Encode(s))[i] == c as int;
      }
    }
  }

  // ----- Agreement on lines -----

  function KindOf(e: ParseError): ScriptError {
    match e
    case LineTooLong => ScriptError(LineLength, "")
    case Missing(arg) => ScriptError(MissingArg, arg)
    case Extra => ScriptError(ExtraText, "")
    case TooLong(arg, _) => ScriptError(TextLength, arg)
    case BadChar(arg, _) => ScriptError(CharNotAllowed, arg)
    case TooDeep(arg, _) => ScriptError(Nesting, arg)
    case BadInteger(arg) => ScriptError(NotInteger, arg)
    case BadNumber(arg) => ScriptError(NotNumber, arg)
    case BadBoolean(arg) => ScriptError(NotBoolean, arg)
    case BadEnum(arg, _) => ScriptError(NotInEnum, arg)
  }

  function ScriptArgOf(arg: CommandArg): ScriptArg {
    ScriptArg(arg.name, arg.kind, arg.required, arg.maxLength, Encode(arg.allowedChars), arg.maxNesting,
              seq(|arg.enumValues|, i requires 0 <= i < |arg.enumValues| => Encode(arg.enumValues[i])), arg.rest)
  }

  function ScriptArgs(args: seq<CommandArg>): (r: seq<ScriptArg>)
    ensures |r| == |args|
  {
    seq(|args|, i requires 0 <= i < |args| => ScriptArgOf(args[i]))
  }

  /** The script keeps each value as its kind and its canonical text. */
  function ScriptOf(v: ArgValue): ScriptValue {
    ScriptValue(
      match v
      case TextValue(_) => Text
      case IntegerValue(_) => Integer
      case NumberValue(_) => Number
      case BooleanValue(_) => Boolean
      case EnumValue(_) => Enumeration,
      Encode(TokenOf(v)))
  }

  function ScriptList(list: Parsed): ScriptParsed {
    seq(|list|, i requires 0 <= i < |list| => (list[i].0, ScriptOf(list[i].1)))
  }

  function ScriptResult(r: Result<ArgValue, ParseError>): Result<ScriptValue, ScriptError> {
    match r
    case Ok(v) => Ok(ScriptOf(v))
    case Err(e) => Err(KindOf(e))
  }

  function ScriptLine(r: Result<Parsed, ParseError>): Result<ScriptParsed, ScriptError> {
    match r
    case Ok(list) => Ok(ScriptList(list))
    case Err(e) => Err(KindOf(e))
  }

  /** Each kind gives the same canonical text, or the same kind of error. */
  lemma ValuesAgree(arg: CommandArg, token: string)
    requires arg.kind.Text? ==> arg.maxLength >= 0
    ensures ScriptParseValue(ScriptArgOf(arg), Encode(token)) == ScriptResult(ParseValue(arg, token))
  {
    hide Encode, CodePoints, ScriptText, ParseText, ScriptInteger, ParseInteger, ScriptNumber, ParseNumber, TokenOf;
    match arg.kind {
      case Text => TextsAgree(arg, token);
      case Integer => IntegersAgree(arg.name, token);
      case Number => NumbersAgree(arg.name, token);
      case Boolean => BooleansAgree(arg, token);
      case Enumeration => ChoicesAgree(arg, token);
      case Unspecified =>
    }
  }

  lemma PointCount(s: string)
    ensures |CodePoints(Encode(s))| == |s|
  {
    CodePointsOf(s);
  }

  lemma TextsAgree(arg: CommandArg, token: string)
    requires arg.maxLength >= 0
    ensures ScriptText(ScriptArgOf(arg), Encode(token)) == ScriptResult(ParseText(arg, token))
  {
    var chars, allowed := CodePoints(Encode(token)), Encode(arg.allowedChars);
    EncodeInjective(arg.allowedChars, "");
    assert allowed == [] <==> arg.allowedChars == "";
    PointCount(token);
    ForeignIs(token, arg.allowedChars);
    DeepestIs(0, 0, token);
    TextVerdict(arg, token, chars, allowed);
  }

  lemma TextVerdict(arg: CommandArg, token: string, chars: seq<int>, allowed: units)
    requires arg.maxLength >= 0 && |chars| == |token|
    requires chars == CodePoints(Encode(token)) && allowed == Encode(arg.allowedChars)
    requires allowed == [] <==> arg.allowedChars == ""
    requires HasForeign(chars, CodePoints(allowed)) <==> FirstOutside(token, arg.allowedChars).Some?
    requires Deepest(0, 0, chars) == Nested(token)
    ensures ScriptText(ScriptArgOf(arg), Encode(token)) == ScriptResult(ParseText(arg, token))
  {
    hide Encode, CodePoints, HasForeign, Deepest, FirstOutside, Nested;
  }

  lemma IntegersAgree(arg: string, token: string)
    ensures ScriptInteger(arg, Encode(token)) == ScriptResult(ParseInteger(arg, token))
  {
    hide Encode, CodePoints, MatchesInt, SignedValue, BigValue, StripMinus, Decimal.OfInt, Decimal.Plain;
    IntMatches(token);
    CodePointsOf(token);
    if Decimal.Plain(StripMinus(token)) {
      BigValueIs(token);
    }
  }

  lemma NumbersAgree(arg: string, token: string)
    ensures ScriptNumber(arg, Encode(token)) == ScriptResult(ParseNumber(arg, token))
  {
    hide Encode, CodePoints, MatchesNum, IsNumber, CanonicalNumber, ScriptCanonical;
    NumMatches(token);
    CodePointsOf(token);
    if IsNumber(token) {
      CanonicalEncoded(token);
    }
  }

  lemma BooleansAgree(arg: CommandArg, token: string)
    requires arg.kind.Boolean?
    ensures ScriptParseValue(ScriptArgOf(arg), Encode(token)) == ScriptResult(ParseValue(arg, token))
  {
    hide Encode;
    EncodeInjective(token, "true");
    EncodeInjective(token, "false");
  }

  lemma ChoicesAgree(arg: CommandArg, token: string)
    requires arg.kind.Enumeration?
    ensures ScriptParseValue(ScriptArgOf(arg), Encode(token)) == ScriptResult(ParseValue(arg, token))
  {
    hide Encode;
    ChoiceEncoded(arg, token);
  }

  lemma ChoiceEncoded(arg: CommandArg, token: string)
    ensures token in arg.enumValues <==> Encode(token) in ScriptArgOf(arg).enumValues
  {
    hide Encode;
    if token in arg.enumValues {
      var i :| 0 <= i < |arg.enumValues| && arg.enumValues[i] == token;
      assert ScriptArgOf(arg).enumValues[i] == Encode(token);
    }
    if Encode(token) in ScriptArgOf(arg).enumValues {
      var i :| 0 <= i < |arg.enumValues| && ScriptArgOf(arg).enumValues[i] == Encode(token);
      EncodeInjective(arg.enumValues[i], token);
    }
  }

  lemma PrependAgrees(name: string, v: ArgValue, r: Result<Parsed, ParseError>)
    ensures ScriptLine(Prepend([(name, v)], r)) == Prepend([(name, ScriptOf(v))], ScriptLine(r))
  {
    hide ScriptOf;
    if r.Ok? {
      assert ScriptList([(name, v)] + r.value) == [(name, ScriptOf(v))] + ScriptList(r.value);
    }
  }

  lemma {:induction false} CursorsAgree(args: seq<CommandArg>, cursor: string)
    requires forall a :: a in args && a.kind.Text? ==> a.maxLength >= 0
    ensures ScriptParseFrom(ScriptArgs(args), Encode(cursor)) == ScriptLine(ParseFrom(args, cursor))
    decreases |args|
  {
    EncodeInjective(cursor, "");
    assert Encode("") == [];
    hide ParseValue, ScriptParseValue, TakeToken, ScriptTake, ScriptOf, KindOf, Encode;
    if args == [] || cursor == "" {
      assert ScriptList([]) == [];
    } else {
      var (token, left) := TakeToken(args[0].rest, cursor);
      TakesEncoded(args[0].rest, cursor);
      ValuesAgree(args[0], token);
      CursorsAgree(args[1..], left);
      assert ScriptArgs(args)[1..] == ScriptArgs(args[1..]);
      if ParseValue(args[0], token).Ok? {
        PrependAgrees(args[0].name, ParseValue(args[0], token).value, ParseFrom(args[1..], left));
      }
    }
  }

  /** On the UTF-16 form of any line the script gives the UTF-16 form of the values the Rust parser gives, or
      the same kind of error about the same argument. */
  lemma LinesAgree(printable: Printable, d: CommandDescriptor, line: string)
    requires ValidArgs(printable, d.args)
    ensures ScriptParse(ScriptArgs(d.args), Encode(line)) == ScriptLine(Parse(d, line))
  {
    hide ParseFrom, ScriptParseFrom, TrimStart, TrimBlankStart, Encode, CodePoints, ScriptArgs;
    CodePointsOf(line);
    TrimStartEncoded(line);
    if |line| <= MAX_LINE_CHARS {
      CursorsAgree(d.args, TrimStart(line));
    }
  }

  // ----- A node's result -----

  datatype Field = TextField(text: string) | OtherField

  datatype Reply = ObjectReply(fields: map<string, Field>) | OtherReply

  datatype ResultFault = NotAnObject | WrongFields | NotText | NoResultDeclared | ResultTooLong | NotOfKind
    | UnsupportedKind

  function ResultText(kind: ArgType, text: string): Result<string, ResultFault> {
    match kind
    case Integer =>
      (match ParseInteger("result", text)
       case Ok(IntegerValue(i)) => Ok(Decimal.OfInt(i))
       case _ => Err(NotOfKind))
    case Number =>
      (match ParseNumber("result", text)
       case Ok(NumberValue(canonical)) => Ok(canonical)
       case _ => Err(NotOfKind))
    case Boolean => if text == "true" || text == "false" then Ok(text) else Err(NotOfKind)
    case _ => Err(UnsupportedKind)
  }

  function ValidateResult(d: CommandDescriptor, reply: Reply): Result<string, ResultFault> {
    if reply.OtherReply? then Err(NotAnObject)
    else if |reply.fields| != 1 then Err(WrongFields)
    else if "result" !in reply.fields || reply.fields["result"].OtherField? then Err(NotText)
    else if d.result.None? then Err(NoResultDeclared)
    else if |reply.fields["result"].text| > AsUsize(d.result.value.maxChars) then Err(ResultTooLong)
    else ResultText(d.result.value.kind, reply.fields["result"].text)
  }

  function ScriptResultText(kind: ArgType, text: units): Option<units> {
    match kind
    case Integer => (match ScriptInteger("result", text) case Ok(v) => Some(v.text) case Err(_) => None)
    case Number => (match ScriptNumber("result", text) case Ok(v) => Some(v.text) case Err(_) => None)
    case Boolean => if text == Encode("true") || text == Encode("false") then Some(text) else None
    case _ => None
  }

  /** `None` when it throws. */
  function ScriptValidateResult(d: CommandDescriptor, reply: Reply): Option<units> {
    if reply.OtherReply? || |reply.fields| != 1 then None
    else if "result" !in reply.fields || reply.fields["result"].OtherField? then None
    else
      var text := Encode(reply.fields["result"].text);
      if d.result.None? || |CodePoints(text)| > d.result.value.maxChars then None
      else ScriptResultText(d.result.value.kind, text)
  }

  function Shown(r: Result<string, ResultFault>): Option<units> {
    match r
    case Ok(text) => Some(Encode(text))
    case Err(_) => None
  }

  lemma ResultTextsAgree(kind: ArgType, text: string)
    ensures ScriptResultText(kind, Encode(text)) == Shown(ResultText(kind, text))
  {
    IntegersAgree("result", text);
    NumbersAgree("result", text);
    EncodeInjective(text, "true");
    EncodeInjective(text, "false");
    hide ScriptInteger, ScriptNumber, Encode, SignedValue, IsNumber, CanonicalNumber, StripMinus, Decimal.OfInt,
        Decimal.Plain;
  }

  /** Both implementations show the same text for a result, or neither shows any. */
  lemma ResultsAgree(d: CommandDescriptor, reply: Reply)
    requires ValidResult(d.result)
    ensures ScriptValidateResult(d, reply) == Shown(ValidateResult(d, reply))
  {
    hide ScriptResultText, ResultText, Encode, CodePoints;
    if reply.ObjectReply? && "result" in reply.fields && reply.fields["result"].TextField? {
      CodePointsOf(reply.fields["result"].text);
      ResultTextsAgree(d.result.value.kind, reply.fields["result"].text);
    }
  }

  // ----- Numeric values -----

  /** The number a decimal text stands for. */
  ghost function Amount(t: string): real
    requires IsNumber(t)
  {
    var (whole, fraction) := SplitDot(StripMinus(t));
    var a := Decimal.Value(whole) as real + (if fraction.None? then 0.0 else FractionValue(fraction.value));
    if t != "" && t[0] == '-' then -a else a
  }

  ghost function FractionValue(f: string): real
    requires Decimal.AllDigits(f)
  {
    Decimal.Value(f) as real / Decimal.Pow10(|f|) as real
  }

  lemma {:induction false} ZerosValue(s: string)
    requires forall i :: 0 <= i < |s| ==> s[i] == '0'
    ensures Decimal.AllDigits(s) && Decimal.Value(s) == 0
  {
    if s != "" {
      ZerosValue(s[..|s| - 1]);
    }
  }

  lemma CanonicalKeepsAmount(t: string)
    requires IsNumber(t)
    ensures IsNumber(CanonicalNumber(t)) && Amount(CanonicalNumber(t)) == Amount(t)
  {
    CanonicalNumberStays(t);
    var c := CanonicalNumber(t);
    if c != t {
      UnsignedZero(t, c);
      hide SplitDot, IsNumber, CanonicalNumber;
      assert c == StripMinus(c);
    }
  }

  /** What loses its sign is a zero. */
  lemma UnsignedZero(t: string, c: string)
    requires IsNumber(t) && IsNumber(c) && t != "" && t[0] == '-' && c == t[1..]
    requires forall x :: x in c ==> x == '0' || x == '.'
    ensures StripMinus(c) == c == StripMinus(t) && Amount(t) == 0.0 == Amount(c)
  {
    assert c != "" ==> c[0] in c;
    assert StripMinus(c) == c;
    SplitDotJoins(c);
    var (whole, fraction) := SplitDot(c);
    hide SplitDot;
    OnlyZeros(whole, c);
    if fraction.Some? {
      OnlyZeros(fraction.value, c);
    }
  }

  lemma OnlyZeros(s: string, c: string)
    requires Decimal.AllDigits(s) && (forall x :: x in s ==> x in c) && forall x :: x in c ==> x == '0' || x == '.'
    ensures Decimal.Value(s) == 0
  {
    forall i | 0 <= i < |s| ensures s[i] == '0' {
      assert Decimal.IsDigit(s[i]) && s[i] in s;
    }
    ZerosValue(s);
  }

  lemma IntegerText(text: string)
    requires Decimal.Plain(StripMinus(text))
    ensures Decimal.OfInt(SignedValue(text)) == if text == "-0" then "0" else text
  {
    var s := StripMinus(text);
    Decimal.OfNatOfValue(s);
    if text[0] == '-' {
      assert text == "-" + s;
      if s[0] != '0' {
        Decimal.PlainPositive(s);
      } else {
        assert s == "0";
      }
    }
  }

  /** A result that was accepted is accepted again unchanged, and stands for the same number. */
  lemma ResultIsFixed(d: CommandDescriptor, text: string, shown: string)
    requires ValidResult(d.result)
    requires ValidateResult(d, ObjectReply(map["result" := TextField(text)])) == Ok(shown)
    ensures ValidateResult(d, ObjectReply(map["result" := TextField(shown)])) == Ok(shown)
    ensures d.result.value.kind == Integer ==>
              Decimal.Plain(StripMinus(text)) && Decimal.Plain(StripMinus(shown))
                  && SignedValue(shown) == SignedValue(text)
    ensures d.result.value.kind == Number ==> IsNumber(text) && IsNumber(shown) && Amount(shown) == Amount(text)
  {
    match d.result.value.kind {
      case Integer =>
        IntegerText(text);
        var i := SignedValue(text);
        OfIntParses("result", i);
      case Number =>
        CanonicalNumberStays(text);
        CanonicalKeepsAmount(text);
      case _ =>
    }
  }
}
