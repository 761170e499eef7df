/**
 What a command line means: a line parses exactly when it is the declared arguments, in order, with
 blanks around and between them; and what comes out meets every declared limit.
 */
module CommandLines {
  import opened Wrappers
  import opened Bytes
  import opened Commands
  import opened Texts
  import opened CommandArgs
  import ArithmeticParser
  import ArithmeticLexer
  import Decimal

  // ----- Lines laid out from tokens -----

  function Lay(gaps: seq<string>, tokens: seq<string>): string
    requires |gaps| == |tokens| + 1
  {
    if tokens == [] then gaps[0] else gaps[0] + (tokens[0] + Lay(gaps[1..], tokens[1..]))
  }

  /** Blanks everywhere, and at least one between two tokens. */
  ghost predicate GoodGaps(gaps: seq<string>) {
    (forall i :: 0 <= i < |gaps| ==> Blanks(gaps[i])) && (forall i :: 0 < i < |gaps| - 1 ==> gaps[i] != "")
  }

  /** A token of one argument: not empty, and without blanks, except inside when it takes the rest. */
  predicate Shape(rest: bool, t: string) {
    t != "" && (if rest then !IsBlank(t[0]) && !IsBlank(t[|t| - 1]) else Solid(t))
  }

  ghost predicate Spelled(arg: CommandArg, token: string, entry: (string, ArgValue)) {
    entry.0 == arg.name && Shape(arg.rest, token) && ParseValue(arg, token) == Ok(entry.1)
  }

  /** `list` holds the first arguments, as spelled by `tokens`, and those left out are optional. */
  ghost predicate Spells(args: seq<CommandArg>, tokens: seq<string>, list: Parsed) {
    |tokens| == |list| <= |args|
    && (forall i :: 0 <= i < |list| ==> Spelled(args[i], tokens[i], list[i]))
    && (forall i :: |list| <= i < |args| ==> !args[i].required)
  }

  ghost predicate WellPlaced(args: seq<CommandArg>) {
    (forall i :: 0 <= i < |args| - 1 ==> !args[i].rest)
    && (forall i, j :: 0 <= i < j < |args| && args[j].required ==> args[i].required)
  }

  lemma ValidIsWellPlaced(printable: Printable, args: seq<CommandArg>)
    requires ValidArgs(printable, args)
    ensures WellPlaced(args)
  {
  }

  // ----- Trimming -----

  lemma {:induction false} TrimStartSkips(gap: string, s: string)
    requires Blanks(gap) && (s == "" || !IsBlank(s[0]))
    ensures TrimStart(gap + s) == s
  {
    if gap == "" {
      assert gap + s == s;
    } else {
      assert (gap + s)[1..] == gap[1..] + s && (gap + s)[0] == gap[0];
      TrimStartSkips(gap[1..], s);
    }
  }

  lemma {:induction false} TrimStartSplits(s: string) returns (gap: string)
    ensures Blanks(gap) && s == gap + TrimStart(s)
  {
    if s != "" && IsBlank(s[0]) {
      gap := TrimStartSplits(s[1..]);
      gap := [s[0]] + gap;
      assert s == [s[0]] + s[1..];
    } else {
      gap := "";
    }
  }

  lemma {:induction false} TrimEndSkips(s: string, gap: string)
    requires Blanks(gap) && s != "" && !IsBlank(s[|s| - 1])
    ensures TrimEnd(s + gap) == s
    decreases |gap|
  {
    if gap == "" {
      assert s + gap == s;
    } else {
      var t := s + gap;
      assert t[..|t| - 1] == s + gap[..|gap| - 1];
      TrimEndSkips(s, gap[..|gap| - 1]);
    }
  }

  lemma {:induction false} TrimEndSplits(s: string) returns (gap: string)
    ensures Blanks(gap) && s == TrimEnd(s) + gap
  {
    if s != "" && IsBlank(s[|s| - 1]) {
      gap := TrimEndSplits(s[..|s| - 1]);
      gap := gap + [s[|s| - 1]];
      assert s == s[..|s| - 1] + [s[|s| - 1]];
    } else {
      gap := "";
    }
  }

  lemma {:induction false} WordOfToken(t: string, s: string)
    requires Solid(t) && (s == "" || IsBlank(s[0]))
    ensures WordLength(t + s) == |t|
  {
    if t == "" {
      assert t + s == s;
    } else {
      assert (t + s)[1..] == t[1..] + s && (t + s)[0] == t[0];
      WordOfToken(t[1..], s);
    }
  }

  lemma {:induction false} WordIsSolid(s: string)
    ensures Solid(s[..WordLength(s)])
    ensures WordLength(s) < |s| ==> IsBlank(s[WordLength(s)])
  {
    if s != "" && !IsBlank(s[0]) {
      WordIsSolid(s[1..]);
      assert s[..WordLength(s)] == [s[0]] + s[1..][..WordLength(s[1..])];
    }
  }

  // ----- A laid-out line parses -----

  lemma LayStart(gaps: seq<string>, tokens: seq<string>)
    requires |gaps| == |tokens| + 1 && GoodGaps(gaps)
    requires forall i :: 0 <= i < |tokens| ==> tokens[i] != "" && !IsBlank(tokens[i][0])
    ensures TrimStart(Lay(gaps, tokens)) == if tokens == [] then "" else tokens[0] + Lay(gaps[1..], tokens[1..])
  {
    if tokens == [] {
      assert gaps[0] + "" == gaps[0];
      TrimStartSkips(gaps[0], "");
    } else {
      TrimStartSkips(gaps[0], tokens[0] + Lay(gaps[1..], tokens[1..]));
    }
  }

  /** After a token comes a blank, or nothing. */
  lemma AfterToken(gaps: seq<string>, tokens: seq<string>)
    requires |gaps| == |tokens| + 1 && tokens != [] && GoodGaps(gaps)
    ensures GoodGaps(gaps[1..])
    ensures var s := Lay(gaps[1..], tokens[1..]); s == "" || IsBlank(s[0])
  {
    assert gaps[1..][0] == gaps[1];
    assert forall i :: 0 <= i < |gaps| - 1 ==> gaps[1..][i] == gaps[i + 1];
  }

  /** Taking the first token off a laid-out cursor leaves the rest of the line. */
  lemma TakesToken(rest: bool, gaps: seq<string>, tokens: seq<string>)
    requires |gaps| == |tokens| + 1 && tokens != [] && GoodGaps(gaps)
    requires Shape(rest, tokens[0]) && (rest ==> |tokens| == 1)
    ensures var s := Lay(gaps[1..], tokens[1..]);
            TakeToken(rest, tokens[0] + s) == (tokens[0], if rest then "" else TrimStart(s))
  {
    AfterToken(gaps, tokens);
    var t, s := tokens[0], Lay(gaps[1..], tokens[1..]);
    if rest {
      TrimEndSkips(t, s);
    } else {
      WordOfToken(t, s);
      assert (t + s)[..|t|] == t && (t + s)[|t|..] == s;
    }
  }

  lemma SpellsTail(args: seq<CommandArg>, tokens: seq<string>, list: Parsed)
    requires Spells(args, tokens, list) && list != [] && WellPlaced(args)
    ensures Spells(args[1..], tokens[1..], list[1..]) && WellPlaced(args[1..])
    ensures Spelled(args[0], tokens[0], list[0]) && (args[0].rest ==> |args| == 1)
  {
    hide Spelled;
    forall i | 0 <= i < |list| - 1 ensures Spelled(args[1..][i], tokens[1..][i], list[1..][i]) {
      assert Spelled(args[i + 1], tokens[i + 1], list[i + 1]);
    }
  }

  lemma {:induction false} LayParses(args: seq<CommandArg>, gaps: seq<string>, tokens: seq<string>, list: Parsed)
    requires WellPlaced(args) && |gaps| == |tokens| + 1 && GoodGaps(gaps) && Spells(args, tokens, list)
    ensures ParseFrom(args, TrimStart(Lay(gaps, tokens))) == Ok(list)
    decreases |args|
  {
    hide ParseValue, Lay, TrimStart, TakeToken;
    LayStart(gaps, tokens);
    if tokens != [] {
      SpellsTail(args, tokens, list);
      TakesToken(args[0].rest, gaps, tokens);
      AfterToken(gaps, tokens);
      LayParses(args[1..], gaps[1..], tokens[1..], list[1..]);
      assert list == [list[0]] + list[1..];
      if args[0].rest {
        NothingLeft(args[1..], list[1..]);
      }
    }
  }

  lemma NothingLeft(args: seq<CommandArg>, list: Parsed)
    requires args == [] && list == []
    ensures ParseFrom(args, "") == Ok(list)
  {
  }

  // ----- A line that parses is laid out -----

  lemma TakenToken(rest: bool, s: string) returns (token: string, left: string)
    requires TrimStart(s) != ""
    ensures var c := TrimStart(s);
            && token == TakeToken(rest, c).0 && Shape(rest, token)
            && c == token + left && TrimStart(left) == TakeToken(rest, c).1
            && (left == "" || IsBlank(left[0]))
  {
    var c := TrimStart(s);
    token := TakeToken(rest, c).0;
    left := c[|token|..];
    if rest {
      var gap := TrimEndSplits(c);
      assert left == gap;
      TrimStartSkips(gap, "");
      assert gap + "" == gap;
      assert c[0] in c && (token == "" ==> c == gap);
    } else {
      WordIsSolid(c);
    }
  }

  lemma {:induction false} ParsedIsLaid(args: seq<CommandArg>, s: string, list: Parsed)
    returns (gaps: seq<string>, tokens: seq<string>)
    requires WellPlaced(args) && ParseFrom(args, TrimStart(s)) == Ok(list)
    ensures |gaps| == |tokens| + 1 && GoodGaps(gaps) && Spells(args, tokens, list) && s == Lay(gaps, tokens)
    ensures s != "" && IsBlank(s[0]) ==> gaps[0] != ""
    decreases |args|
  {
    var c := TrimStart(s);
    var gap := TrimStartSplits(s);
    if args == [] || c == "" {
      hide TrimStart, TakeToken, ParseValue;
      gaps, tokens := [gap], [];
      assert gap + "" == gap;
      assert list == [];
    } else {
      FirstParsed(args, c, list);
      var token, left := TakenToken(args[0].rest, s);
      hide ParseFrom, ParseValue, TakeToken, TrimStart, WellPlaced, Lay, Spells, GoodGaps, Shape;
      var more, others := ParsedIsLaid(args[1..], left, list[1..]);
      gaps, tokens := [gap] + more, [token] + others;
      GapsJoined(gap, more);
      SpellsJoined(args, token, others, list);
      LayJoined(gap, more, token, others);
    }
  }

  lemma FirstParsed(args: seq<CommandArg>, c: string, list: Parsed)
    requires WellPlaced(args) && args != [] && c != "" && ParseFrom(args, c) == Ok(list)
    ensures list != [] && WellPlaced(args[1..])
    ensures var (token, left) := TakeToken(args[0].rest, c);
            list[0].0 == args[0].name && ParseValue(args[0], token) == Ok(list[0].1)
            && ParseFrom(args[1..], left) == Ok(list[1..])
  {
    hide ParseValue, TakeToken;
  }

  lemma LayJoined(gap: string, more: seq<string>, token: string, others: seq<string>)
    requires |more| == |others| + 1
    ensures Lay([gap] + more, [token] + others) == gap + (token + Lay(more, others))
  {
    assert ([gap] + more)[1..] == more && ([token] + others)[1..] == others;
  }

  lemma GapsJoined(gap: string, more: seq<string>)
    requires more != [] && GoodGaps(more) && Blanks(gap) && (|more| > 1 ==> more[0] != "")
    ensures GoodGaps([gap] + more)
  {
    hide Blanks;
    var all := [gap] + more;
    forall i | 0 <= i < |all| ensures Blanks(all[i]) {
      assert i > 0 ==> all[i] == more[i - 1];
    }
    forall i | 0 < i < |all| - 1 ensures all[i] != "" {
      assert all[i] == more[i - 1];
    }
  }

  lemma SpellsJoined(args: seq<CommandArg>, token: string, others: seq<string>, list: Parsed)
    requires args != [] && list != [] && Spelled(args[0], token, list[0]) && Spells(args[1..], others, list[1..])
    ensures Spells(args, [token] + others, list)
  {
    hide Spelled;
    var tokens := [token] + others;
    forall i | 0 <= i < |list| ensures Spelled(args[i], tokens[i], list[i]) {
      if i > 0 {
        assert Spelled(args[1..][i - 1], others[i - 1], list[1..][i - 1]);
      }
    }
    forall i | |list| <= i < |args| ensures !args[i].required {
      assert args[1..][i - 1] == args[i];
    }
  }

  // ----- Main result on lines -----

  ghost predicate LaidOut(args: seq<CommandArg>, line: string, list: Parsed, gaps: seq<string>, tokens: seq<string>) {
    |gaps| == |tokens| + 1 && GoodGaps(gaps) && Spells(args, tokens, list) && line == Lay(gaps, tokens)
  }

  /** A line parses to `list` exactly when it is short enough and lays `list` out with blanks. */
  lemma ParseExactly(printable: Printable, d: CommandDescriptor, line: string, list: Parsed)
    requires ValidArgs(printable, d.args)
    ensures Parse(d, line) == Ok(list)
            <==> |line| <= MAX_LINE_CHARS && exists gaps, tokens :: LaidOut(d.args, line, list, gaps, tokens)
  {
    hide ParseFrom, ValidArgs, TrimStart, Spells, GoodGaps, Lay, WellPlaced;
    ValidIsWellPlaced(printable, d.args);
    if Parse(d, line) == Ok(list) {
      var gaps, tokens := ParsedIsLaid(d.args, line, list);
      assert LaidOut(d.args, line, list, gaps, tokens);
    }
    if gaps, tokens :| LaidOut(d.args, line, list, gaps, tokens) {
      LayParses(d.args, gaps, tokens, list);
    }
  }

  // ----- Limits -----

  /** A number in the one form results and arguments keep: no sign on zero. */
  predicate CanonicalDecimal(t: string) {
    |t| <= MAX_SCALAR_CHARS && IsNumber(t) && CanonicalNumber(t) == t
  }

  /** What a value of an argument may be. */
  ghost predicate Admissible(arg: CommandArg, v: ArgValue) {
    match arg.kind
    case Text =>
      v.TextValue? && Shape(arg.rest, v.text)
      && |v.text| <= arg.maxLength
      && (arg.allowedChars != "" ==> forall c :: c in v.text ==> c in arg.allowedChars)
      && (arg.maxNesting > 0 ==> Nested(v.text) <= arg.maxNesting)
    case Integer => v.IntegerValue? && FitsI64(v.whole)
    case Number => v.NumberValue? && CanonicalDecimal(v.digits)
    case Boolean => v.BooleanValue?
    case Enumeration => v.EnumValue? && v.choice in arg.enumValues
    case Unspecified => false
  }

  /** The declared arguments in order, the required ones among them, each within its limits. */
  ghost predicate AdmissibleList(args: seq<CommandArg>, list: Parsed) {
    |list| <= |args|
    && (forall i :: 0 <= i < |list| ==> list[i].0 == args[i].name && Admissible(args[i], list[i].1))
    && (forall i :: |list| <= i < |args| ==> !args[i].required)
  }

  /** How a value is written. */
  function TokenOf(v: ArgValue): string {
    match v
    case TextValue(t) => t
    case IntegerValue(i) => Decimal.OfInt(i)
    case NumberValue(t) => t
    case BooleanValue(b) => if b then "true" else "false"
    case EnumValue(c) => c
  }

  lemma CanonicalNumberStays(t: string)
    requires IsNumber(t)
    ensures |CanonicalNumber(t)| <= |t| && IsNumber(CanonicalNumber(t))
    ensures CanonicalNumber(CanonicalNumber(t)) == CanonicalNumber(t)
  {
    hide Decimal.Plain, SplitDot;
    var c := CanonicalNumber(t);
    if c != t {
      assert c == t[1..] == StripMinus(t);
      assert c != "" ==> c[0] in t[1..];
      assert StripMinus(c) == c;
    }
  }

  lemma NumberIsSolid(t: string)
    requires IsNumber(t)
    ensures t != "" && Solid(t)
  {
    var u := StripMinus(t);
    SplitDotJoins(u);
    hide SplitDot;
    var (whole, fraction) := SplitDot(u);
    assert t == u || t == "-" + u;
    assert u == whole + if fraction.None? then "" else "." + fraction.value;
    assert Solid(whole) && (fraction.Some? ==> Solid(fraction.value));
  }

  lemma OfIntParses(arg: string, i: int)
    requires FitsI64(i)
    ensures ParseInteger(arg, Decimal.OfInt(i)) == Ok(IntegerValue(i))
    ensures Decimal.OfInt(i) != "" && Solid(Decimal.OfInt(i))
  {
    hide Decimal.OfNat, Decimal.Value, Decimal.Pow10;
    var n := if i < 0 then -i else i;
    var s := Decimal.OfNat(n);
    Decimal.ValueOfNat(n);
    Decimal.NineteenDigits();
    Decimal.OfNatShort(n, 19);
    assert s[0] != '-' by {
      assert Decimal.IsDigit(s[0]);
    }
    assert StripMinus(Decimal.OfInt(i)) == s;
    assert Solid(s);
  }

  lemma ParsedIsAdmissible(arg: CommandArg, token: string, v: ArgValue)
    requires ParseValue(arg, token) == Ok(v) && Shape(arg.rest, token) && (arg.kind.Text? ==> arg.maxLength >= 0)
    ensures Admissible(arg, v)
  {
    if arg.kind.Number? {
      CanonicalNumberStays(token);
    }
    hide Nested, IsNumber, CanonicalNumber, SignedValue, Shape;
  }

  lemma TokenParses(printable: Printable, arg: CommandArg, last: bool, v: ArgValue)
    requires ValidArg(printable, arg, last) && !printable('\t') && Admissible(arg, v)
    ensures ParseValue(arg, TokenOf(v)) == Ok(v) && Shape(arg.rest, TokenOf(v))
  {
    hide Nested, IsNumber, CanonicalNumber, SignedValue, IsArgName, IsPlainText, CanonicalChars, Ascending;
    match arg.kind {
      case Integer => OfIntParses(arg.name, v.whole);
      case Number => NumberIsSolid(v.digits);
      case Enumeration => assert ValidEnumValue(printable, v.choice);
      case _ =>
    }
  }

  /** What parsing returns is a beginning of the declared arguments with every required one, within the limits. */
  lemma ParsedMeetsLimits(printable: Printable, d: CommandDescriptor, line: string, list: Parsed)
    requires ValidArgs(printable, d.args) && Parse(d, line) == Ok(list)
    ensures AdmissibleList(d.args, list)
  {
    hide ParseValue, ParseFrom, Shape, Admissible, WellPlaced;
    ValidIsWellPlaced(printable, d.args);
    var gaps, tokens := ParsedIsLaid(d.args, line, list);
    forall i | 0 <= i < |list| ensures Admissible(d.args[i], list[i].1) {
      assert Spelled(d.args[i], tokens[i], list[i]);
      ParsedIsAdmissible(d.args[i], tokens[i], list[i].1);
    }
  }

  /** Writing any admissible list with blanks, within the line limit, and parsing gives the list back. */
  lemma WrittenParses(printable: Printable, d: CommandDescriptor, list: Parsed, gaps: seq<string>)
    requires ValidArgs(printable, d.args) && !printable('\t') && AdmissibleList(d.args, list)
    requires |gaps| == |list| + 1 && GoodGaps(gaps)
    ensures var line := Lay(gaps, seq(|list|, i requires 0 <= i < |list| => TokenOf(list[i].1)));
            |line| <= MAX_LINE_CHARS ==> Parse(d, line) == Ok(list)
  {
    hide ParseValue, ParseFrom, Shape, Admissible, WellPlaced, ValidArg, GoodGaps, Lay, TrimStart;
    ValidIsWellPlaced(printable, d.args);
    var tokens := seq(|list|, i requires 0 <= i < |list| => TokenOf(list[i].1));
    forall i | 0 <= i < |list| ensures Spelled(d.args[i], tokens[i], list[i]) {
      TokenParses(printable, d.args[i], i == |d.args| - 1, list[i].1);
    }
    LayParses(d.args, gaps, tokens, list);
  }

  // ----- What the nesting limit means -----

  /** Opening minus closing parentheses. */
  function Balance(s: string): int {
    if s == "" then 0
    else Balance(s[..|s| - 1]) + Weight(s[|s| - 1])
  }

  function Scan(s: string): ArithmeticParser.Nesting {
    ArithmeticLexer.ScanChars(ArithmeticParser.Nesting(0, 0), s)
  }

  lemma {:induction false} ScanSnoc(n: ArithmeticParser.Nesting, s: string, c: char)
    ensures ArithmeticLexer.ScanChars(n, s + [c]) == ArithmeticLexer.CharStep(ArithmeticLexer.ScanChars(n, s), c)
    decreases |s|
  {
    if s == "" {
      assert s + [c] == [c] && [c][1..] == "";
    } else {
      assert (s + [c])[1..] == s[1..] + [c];
      ScanSnoc(ArithmeticLexer.CharStep(n, s[0]), s[1..], c);
    }
  }

  function Weight(c: char): int { if c == '(' then 1 else if c == ')' then -1 else 0 }

  lemma BalanceSnoc(s: string, c: char)
    ensures Balance(s + [c]) == Balance(s) + Weight(c)
  {
    assert (s + [c])[..|s|] == s;
  }

  lemma SuffixSnoc(s: string, init: string, c: char, i: nat)
    requires s == init + [c] && i <= |init|
    ensures Balance(s[i..]) == Balance(init[i..]) + Weight(c)
  {
    assert s[i..] == init[i..] + [c];
    BalanceSnoc(init[i..], c);
  }

  lemma NoBalance(s: string)
    requires s == ""
    ensures Balance(s) == 0
  {
  }

  /** The depth at the end is the largest balance of what follows any point. */
  lemma {:induction false} DepthIsBalance(s: string) returns (k: nat)
    ensures k <= |s| && Balance(s[k..]) == Scan(s).depth
    ensures forall i :: 0 <= i <= |s| ==> Balance(s[i..]) <= Scan(s).depth
  {
    NoBalance(s[|s|..]);
    if s == "" {
      k := 0;
    } else {
      var init, c := s[..|s| - 1], s[|s| - 1];
      assert s == init + [c];
      var j := DepthIsBalance(init);
      ScanSnoc(ArithmeticParser.Nesting(0, 0), init, c);
      hide Balance, ArithmeticLexer.ScanChars;
      forall i | 0 <= i <= |s| ensures Balance(s[i..]) <= Scan(s).depth {
        if i < |s| {
          SuffixSnoc(s, init, c, i);
        }
      }
      SuffixSnoc(s, init, c, j);
      k := if Balance(init[j..]) + Weight(c) == Scan(s).depth then j else |s|;
    }
  }

  /** No part of the text opens more parentheses than it closes by more than the limit. */
  ghost predicate PartsWithin(s: string, limit: nat) {
    forall i, j :: 0 <= i <= j <= |s| ==> Balance(s[i..j]) <= limit
  }

  lemma PartsSnoc(s: string, init: string, c: char, limit: nat)
    requires s == init + [c]
    ensures PartsWithin(s, limit)
            <==> PartsWithin(init, limit) && forall i :: 0 <= i <= |s| ==> Balance(s[i..]) <= limit
  {
    hide Balance;
    if PartsWithin(s, limit) {
      forall i, j | 0 <= i <= j <= |init| ensures Balance(init[i..j]) <= limit {
        assert init[i..j] == s[i..j];
      }
      forall i | 0 <= i <= |s| ensures Balance(s[i..]) <= limit {
        assert s[i..] == s[i..|s|];
      }
    }
    if PartsWithin(init, limit) && forall i :: 0 <= i <= |s| ==> Balance(s[i..]) <= limit {
      forall i, j | 0 <= i <= j <= |s| ensures Balance(s[i..j]) <= limit {
        assert s[i..j] == if j < |s| then init[i..j] else s[i..];
      }
    }
  }

  /** Text is within the nesting limit exactly when all its parts are. */
  lemma {:induction false} NestingMeans(s: string, limit: nat)
    ensures Nested(s) <= limit <==> PartsWithin(s, limit)
    decreases |s|
  {
    if s == "" {
      forall i, j | 0 <= i <= j <= |s| ensures Balance(s[i..j]) <= limit {
        NoBalance(s[i..j]);
      }
    } else {
      var init, c := s[..|s| - 1], s[|s| - 1];
      assert s == init + [c];
      NestingMeans(init, limit);
      hide Balance, PartsWithin, Nested;
      PartsSnoc(s, init, c, limit);
      var k := DepthIsBalance(s);
      NestedSnoc(s, init, c);
    }
  }

  lemma NestedSnoc(s: string, init: string, c: char)
    requires s == init + [c]
    ensures Nested(s) == if Scan(s).depth > Nested(init) then Scan(s).depth else Nested(init)
  {
    ScanSnoc(ArithmeticParser.Nesting(0, 0), init, c);
    ScanBounds(init);
  }

  lemma {:induction false} ScanBounds(s: string)
    ensures Scan(s).depth <= Scan(s).max
    decreases |s|
  {
    if s != "" {
      var init, c := s[..|s| - 1], s[|s| - 1];
      assert s == init + [c];
      ScanBounds(init);
      ScanSnoc(ArithmeticParser.Nesting(0, 0), init, c);
    }
  }
}
