/**
 * old/hextobin.py: every line of hex tokens becomes a line of the same
 * tokens rendered as (at least) eight binary digits. Python's
 * `int(token, 16)` and `'{0:08b}'.format(v)` are written out below.
 */
module HexToBin {
  import opened Wrappers
  import opened Text
  import opened Loops

  /** The ValueError int() raises on a token that is not a base-16 literal. */
  datatype ValueError = ValueError

  /** The token without an optional leading '+' or '-'. */
  function Unsigned(t: string): string
  {
    if t != [] && (t[0] == '+' || t[0] == '-') then t[1..] else t
  }

  /** The token had a '0x' or '0X' prefix after its sign. */
  predicate HasHexPrefix(u: string)
  {
    |u| >= 2 && u[0] == '0' && (u[1] == 'x' || u[1] == 'X')
  }

  /**
   * Hex digits in which every underscore stands between two digits: the
   * last character is a digit, and every other one is a digit or an
   * underscore followed by a digit.
   */
  predicate Grouped(b: string)
    decreases |b|
  {
    if b == [] then false
    else if |b| == 1 then IsDigitOf(b[0], 16)
    else (IsDigitOf(b[0], 16) || (b[0] == '_' && IsDigitOf(b[1], 16))) && Grouped(b[1..])
  }

  /** The digits part of a base-16 literal; one underscore may lead it only right after a '0x' prefix. */
  predicate ValidBody(b: string, prefixed: bool)
  {
    Grouped(b) && (b[0] == '_' ==> prefixed)
  }

  /** The body with its underscores removed. */
  function DropUnderscores(b: string): (r: string)
    requires Grouped(b)
    ensures AllDigitsOf(r, 16)
    decreases |b|
  {
    var rest := if |b| == 1 then [] else DropUnderscores(b[1..]);
    (if b[0] == '_' then [] else [b[0]]) + rest
  }

  /** The value of an unsigned literal, with or without its '0x' prefix. */
  function Magnitude(u: string): Result<nat, ValueError>
  {
    var prefixed := HasHexPrefix(u);
    var body := if prefixed then u[2..] else u;
    if !ValidBody(body, prefixed) then Err(ValueError)
    else Ok(RadixValue(DropUnderscores(body), 16))
  }

  /** int(t, 16). */
  function ParseHex(t: string): Result<int, ValueError>
  {
    match Magnitude(Unsigned(t))
    case Err(e) => Err(e)
    case Ok(m) =>
      var v: int := m;
      Ok(if t != [] && t[0] == '-' then -v else v)
  }

  /** '{0:08b}'.format(v): binary digits, zero-padded after the sign to eight characters in all. */
  function Binary8(v: int): string
  {
    if v < 0 then "-" + ZeroPad(Digits(-v, 2), 7) else ZeroPad(Digits(v, 2), 8)
  }

  /** One token of the list comprehension: '{0:08b}'.format(int(hv, 16)). */
  function Render(token: string): Result<string, ValueError>
  {
    match ParseHex(token)
    case Err(e) => Err(e)
    case Ok(v) => Ok(Binary8(v))
  }

  /** The list comprehension over a line's tokens. */
  function BinaryValues(tokens: seq<string>): Result<seq<string>, ValueError>
  {
    Collect(tokens, Render)
  }

  /** One output line: the binary values of the stripped, split line, joined by single spaces. */
  function BinaryLine(line: string): Result<string, ValueError>
  {
    match BinaryValues(SplitWs(Strip(line)))
    case Err(e) => Err(e)
    case Ok(values) => Ok(JoinSpace(values))
  }

  /** What hex_to_binary returns or raises. */
  function HexToBinarySpec(lines: seq<string>): Result<seq<string>, ValueError>
  {
    Collect(lines, BinaryLine)
  }

  /** hex_to_binary(hex_lines). */
  method HexToBinary(lines: seq<string>) returns (r: Result<seq<string>, ValueError>)
    ensures r == HexToBinarySpec(lines)
  {
    var binaryLines := [];
    var i := 0;
    while i < |lines|
      invariant 0 <= i <= |lines|
      invariant Collect(lines[..i], BinaryLine) == Ok(binaryLines)
    {
      assert lines[..i + 1][..i] == lines[..i];
      var line := BinaryLine(lines[i]);
      if line.Err? {
        CollectFails(lines, i, BinaryLine);
        ErrorStays(lines, i + 1, BinaryLine);
        return Err(line.error);
      }
      binaryLines := binaryLines + [line.value];
      i := i + 1;
    }
    assert lines[..i] == lines;
    r := Ok(binaryLines);
  }

  /** hex_to_binary gives one line per input line, in order, and raises exactly when some line does. */
  lemma LinePerLine(lines: seq<string>)
    ensures HexToBinarySpec(lines).Ok? <==> forall i :: 0 <= i < |lines| ==> BinaryLine(lines[i]).Ok?
    ensures HexToBinarySpec(lines).Ok? ==>
      && |HexToBinarySpec(lines).value| == |lines|
      && forall i :: 0 <= i < |lines| ==> BinaryLine(lines[i]) == Ok(HexToBinarySpec(lines).value[i])
  {
    OnePerElement(lines, BinaryLine);
  }

  /** Each token gives one value, in order, or the line raises. */
  lemma ValuePerToken(tokens: seq<string>)
    ensures BinaryValues(tokens).Ok? <==> forall k :: 0 <= k < |tokens| ==> ParseHex(tokens[k]).Ok?
    ensures BinaryValues(tokens).Ok? ==>
      && |BinaryValues(tokens).value| == |tokens|
      && forall k :: 0 <= k < |tokens| ==> BinaryValues(tokens).value[k] == Binary8(ParseHex(tokens[k]).value)
  {
    OnePerElement(tokens, Render);
  }

  /** A rendered value contains no whitespace and is not empty. */
  lemma Binary8IsWord(v: int)
    ensures IsWord(Binary8(v))
  {
    var m := if v < 0 then -v else v;
    var d := Digits(m, 2);
    var w := if v < 0 then 7 else 8;
    ZeroPadShape(d, w);
    var p := ZeroPad(d, w);
    forall i | 0 <= i < |p|
      ensures !IsPySpace(p[i])
    {
      if i >= |p| - |d| {
        assert p[i] == p[|p| - |d|..][i - (|p| - |d|)];
        assert IsDigitOf(d[i - (|p| - |d|)], 2);
      }
    }
  }

  /**
   * Splitting an output line again finds as many values as the input line
   * had tokens, namely the rendered values themselves.
   */
  lemma TokenCountKept(line: string)
    requires BinaryLine(line).Ok?
    ensures SplitWs(BinaryLine(line).value) == BinaryValues(SplitWs(Strip(line))).value
    ensures |SplitWs(BinaryLine(line).value)| == |SplitWs(Strip(line))|
  {
    var tokens := SplitWs(Strip(line));
    ValuePerToken(tokens);
    var values := BinaryValues(tokens).value;
    forall k | 0 <= k < |values|
      ensures IsWord(values[k])
    {
      Binary8IsWord(ParseHex(tokens[k]).value);
    }
    SplitJoinRoundTrip(values);
  }

  /** A blank line, or one of whitespace only, gives an empty output line. */
  lemma BlankLine(line: string)
    requires forall i :: 0 <= i < |line| ==> IsPySpace(line[i])
    ensures BinaryLine(line) == Ok("")
  {
    AllSpaceDropped(line);
    assert Strip(line) == [];
    assert SplitWs([]) == [];
  }

  lemma {:induction false} AllSpaceDropped(s: string)
    requires forall i :: 0 <= i < |s| ==> IsPySpace(s[i])
    ensures DropLeadingSpace(s) == []
    decreases |s|
  {
    if s != [] {
      AllSpaceDropped(s[1..]);
    }
  }

  /** The digits of n in base 2 number at most k when n is below 2^k. */
  lemma {:induction false} DigitsFit(n: nat, k: nat, bound: nat)
    requires bound == Pow2(k) && n < bound
    ensures |Digits(n, 2)| <= if k == 0 then 1 else k
  {
    if n >= 2 {
      assert Pow2(0) == 1 && Pow2(1) == 2;
      DigitsFit(n / 2, k - 1, Pow2(k - 1));
    }
  }

  function Pow2(k: nat): nat
  {
    if k == 0 then 1 else 2 * Pow2(k - 1)
  }

  /** Zero-padding does not change the value a digit string denotes. */
  lemma {:induction false} ZeroPadValue(s: string, width: nat, radix: nat)
    requires 2 <= radix <= 16 && AllDigitsOf(s, radix)
    ensures AllDigitsOf(ZeroPad(s, width), radix)
    ensures RadixValue(ZeroPad(s, width), radix) == RadixValue(s, radix)
    decreases width - |s|
  {
    if |s| < width {
      RadixValueLeadingZero(s, radix);
      ZeroPadValue("0" + s, width, radix);
    }
  }

  /**
   * A value that fits in a byte, as every two-digit token does, is
   * rendered as exactly eight binary digits that read back as the value.
   */
  lemma ByteIsEightBits(v: int)
    requires 0 <= v < 256
    ensures |Binary8(v)| == 8
    ensures AllDigitsOf(Binary8(v), 2) && RadixValue(Binary8(v), 2) == v
  {
    assert Pow2(8) == 256;
    DigitsFit(v, 8, 256);
    ZeroPadShape(Digits(v, 2), 8);
    ZeroPadValue(Digits(v, 2), 8, 2);
    RadixValueOfDigits(v, 2);
  }

  /**
   * A non-negative value of any size is rendered as at least eight binary
   * digits that read back as the value.
   */
  lemma NonNegativeIsBinary(v: int)
    requires v >= 0
    ensures |Binary8(v)| >= 8
    ensures AllDigitsOf(Binary8(v), 2) && RadixValue(Binary8(v), 2) == v
  {
    ZeroPadShape(Digits(v, 2), 8);
    ZeroPadValue(Digits(v, 2), 8, 2);
    RadixValueOfDigits(v, 2);
  }

  /** A negative value keeps its sign in front of the padded digits of its magnitude. */
  lemma NegativeKeepsSign(v: int)
    requires v < 0
    ensures Binary8(v)[0] == '-'
    ensures AllDigitsOf(Binary8(v)[1..], 2) && RadixValue(Binary8(v)[1..], 2) == -v
  {
    ZeroPadValue(Digits(-v, 2), 7, 2);
    RadixValueOfDigits(-v, 2);
    assert Binary8(v)[1..] == ZeroPad(Digits(-v, 2), 7);
  }

  /** Two hex digits, as in every line of the script's data, parse to their byte value. */
  lemma TwoDigitToken(hi: char, lo: char)
    requires IsDigitOf(hi, 16) && IsDigitOf(lo, 16)
    ensures ParseHex([hi, lo]) == Ok(HexValue(hi) * 16 + HexValue(lo))
  {
    var t := [hi, lo];
    assert hi != '+' && hi != '-' && lo != 'x' && lo != 'X';
    assert Unsigned(t) == t && !HasHexPrefix(t);
    assert hi != '_' && lo != '_';
    assert t[1..] == [lo] && Grouped([lo]);
    assert ValidBody(t, false);
    assert DropUnderscores([lo]) == [lo];
    assert DropUnderscores(t) == t;
    assert t[..1] == [hi] && [hi][..0] == [];
    assert RadixValue(t, 16) == RadixValue([hi], 16) * 16 + HexValue(lo);
  }

  /** A leading '-' negates the value; a leading '+' changes nothing. */
  lemma Sign(u: string)
    requires u == [] || (u[0] != '+' && u[0] != '-')
    ensures ParseHex("+" + u) == ParseHex(u)
    ensures ParseHex("-" + u) == match ParseHex(u) case Ok(v) => Ok(-v) case Err(e) => Err(e)
  {
    assert ("+" + u)[1..] == u && ("-" + u)[1..] == u;
    assert Unsigned("+" + u) == u && Unsigned("-" + u) == u && Unsigned(u) == u;
  }

  /** The '0x' or '0X' prefix may precede the digits and changes nothing. */
  lemma Prefix(b: string, x: char)
    requires x == 'x' || x == 'X'
    requires b != [] && IsDigitOf(b[0], 16) && !HasHexPrefix(b)
    ensures ParseHex(['0', x] + b) == ParseHex(b)
  {
    var t := ['0', x] + b;
    assert t[0] == '0' && t[1] == x && t[2..] == b;
    assert Unsigned(t) == t && HasHexPrefix(t);
    assert b[0] != '+' && b[0] != '-' && b[0] != '_';
    assert Unsigned(b) == b;
    assert ValidBody(b, true) == ValidBody(b, false);
    assert Magnitude(t) == Magnitude(b);
  }

  /** A grouped body followed by another grouped body, which may start with an underscore, is grouped. */
  lemma {:induction false} GroupedAppend(a: string, s: string)
    requires Grouped(a) && Grouped(s) && (IsDigitOf(s[0], 16) || s[0] == '_')
    ensures Grouped(a + s)
    decreases |a|
  {
    var t := a + s;
    assert t[0] == a[0];
    if |a| == 1 {
      assert t[1..] == s;
    } else {
      GroupedAppend(a[1..], s);
      TailOfAppend(a, s);
      assert t[1] == a[1];
    }
  }

  lemma TailOfAppend(a: string, s: string)
    requires a != []
    ensures (a + s)[1..] == a[1..] + s
  {
  }

  lemma AppendAssoc(a: string, b: string, c: string)
    ensures a + b + c == a + (b + c)
  {
  }

  /** Dropping the underscores of a concatenation drops those of each part. */
  lemma {:induction false} DropUnderscoresAppend(a: string, s: string)
    requires Grouped(a) && Grouped(s) && (IsDigitOf(s[0], 16) || s[0] == '_')
    ensures Grouped(a + s) && DropUnderscores(a + s) == DropUnderscores(a) + DropUnderscores(s)
    decreases |a|
  {
    GroupedAppend(a, s);
    DropFirst(a + s);
    if |a| == 1 {
      assert (a + s)[1..] == s;
    } else {
      DropUnderscoresAppend(a[1..], s);
      TailOfAppend(a, s);
      DropFirst(a);
      AppendAssoc(Head(a), DropUnderscores(a[1..]), DropUnderscores(s));
    }
  }

  /** The first character of a body, or nothing when it is an underscore. */
  function Head(b: string): string
    requires b != []
  {
    if b[0] == '_' then [] else [b[0]]
  }

  /** Dropping underscores, one character at a time. */
  lemma DropFirst(b: string)
    requires Grouped(b)
    ensures DropUnderscores(b) == Head(b) + (if |b| == 1 then [] else DropUnderscores(b[1..]))
  {
  }

  /**
   * Two runs of digits (each possibly grouped by underscores) joined by one
   * underscore have the value of the two runs written together, as
   * int(..., 16) skips an underscore between digits.
   */
  lemma UnderscoreBetweenDigits(a: string, b: string)
    requires Grouped(a) && Grouped(b) && IsDigitOf(a[0], 16) && IsDigitOf(b[0], 16)
    ensures ParseHex(a + "_" + b) == ParseHex(a + b)
    ensures ParseHex(a + b) == Ok(RadixValue(DropUnderscores(a) + DropUnderscores(b), 16))
  {
    var u := "_" + b;
    assert u[1..] == b;
    assert Grouped(u) && DropUnderscores(u) == DropUnderscores(b);
    DropUnderscoresAppend(a, u);
    DropUnderscoresAppend(a, b);
    AppendAssoc(a, "_", b);
    SecondOfAppend(a, u);
    SecondOfAppend(a, b);
    ParseHexUnprefixed(a + u);
    ParseHexUnprefixed(a + b);
  }

  lemma SecondOfAppend(a: string, s: string)
    requires a != [] && s != []
    ensures (a + s)[0] == a[0] && (a + s)[1] == if |a| == 1 then s[0] else a[1]
  {
  }

  /** A grouped body that starts with a digit is read as it stands: no sign, no prefix. */
  lemma ParseHexUnprefixed(t: string)
    requires Grouped(t) && IsDigitOf(t[0], 16)
    requires |t| >= 2 ==> IsDigitOf(t[1], 16) || t[1] == '_'
    ensures ParseHex(t) == Ok(RadixValue(DropUnderscores(t), 16))
  {
    assert Unsigned(t) == t && !HasHexPrefix(t);
  }

  /** The last character of a grouped body is a digit. */
  lemma {:induction false} GroupedEndsInDigit(b: string)
    ensures Grouped(b) ==> IsDigitOf(b[|b| - 1], 16)
    decreases |b|
  {
    if |b| > 1 {
      GroupedEndsInDigit(b[1..]);
    }
  }

  /** In a grouped body an underscore is always followed by a digit. */
  lemma {:induction false} GroupedUnderscoreThenDigit(b: string, i: nat)
    ensures Grouped(b) && i + 1 < |b| && b[i] == '_' ==> IsDigitOf(b[i + 1], 16)
    decreases |b|
  {
    if i > 0 && |b| > 1 {
      GroupedUnderscoreThenDigit(b[1..], i - 1);
    }
  }

  /** The body int(t, 16) reads starts after k characters, none of them an underscore. */
  lemma BodyStart(t: string) returns (k: nat)
    ensures k <= |t| && forall i :: 0 <= i < k ==> t[i] != '_'
    ensures Magnitude(Unsigned(t)).Ok? ==> Grouped(t[k..])
  {
    var u := Unsigned(t);
    k := |t| - |u|;
    assert u == t[k..];
    MagnitudeReadsBody(u);
    if HasHexPrefix(u) {
      assert u[2..] == t[k + 2..];
      k := k + 2;
    }
  }

  /** int(t, 16) succeeds only when the body after the sign and the prefix is grouped. */
  lemma MagnitudeReadsBody(u: string)
    ensures Magnitude(u).Ok? ==> Grouped(if HasHexPrefix(u) then u[2..] else u)
  {
  }

  /** An underscore may not lead the token, trail it, or follow another underscore. */
  lemma MisplacedUnderscores(a: string, b: string)
    ensures ParseHex("_" + a).Err?
    ensures ParseHex(a + "_").Err?
    ensures ParseHex(a + "__" + b).Err?
  {
    var lead := "_" + a;
    assert Unsigned(lead) == lead && !HasHexPrefix(lead) && !ValidBody(lead, false);

    var trail := a + "_";
    var k := BodyStart(trail);
    assert trail[|a|] == '_';
    GroupedEndsInDigit(trail[k..]);
    assert trail[k..][|trail[k..]| - 1] == '_';

    var twice := a + "__" + b;
    var m := BodyStart(twice);
    assert twice[|a|] == '_' && twice[|a| + 1] == '_';
    assert m <= |a|;
    GroupedUnderscoreThenDigit(twice[m..], |a| - m);
    assert twice[m..][|a| - m] == '_' && twice[m..][|a| - m + 1] == '_';
  }
}
