/**
 * Character and string helpers shared by the JavaScript and Python parts of
 * the model: whitespace classes, strip/split/join as Python defines them,
 * ASCII lower-casing and decimal rendering of integers.
 */
module Text {

  /** Python's str.isspace for one character (the code points Python treats as whitespace). */
  predicate IsPySpace(c: char)
  {
    || ('\t' <= c <= '\r')                     // \t \n \x0b \x0c \r
    || ('\U{1c}' <= c <= '\U{1f}') || c == ' '
    || c == '\U{85}' || c == '\U{a0}' || c == '\U{1680}'
    || ('\U{2000}' <= c <= '\U{200a}')
    || c == '\U{2028}' || c == '\U{2029}' || c == '\U{202f}' || c == '\U{205f}' || c == '\U{3000}'
  }

  /** Python's str.strip() with no argument. */
  function Strip(s: string): (r: string)
    ensures |r| <= |s|
    ensures r != [] ==> !IsPySpace(r[0]) && !IsPySpace(r[|r| - 1])
  {
    DropTrailingSpace(DropLeadingSpace(s))
  }

  function DropLeadingSpace(s: string): (r: string)
    ensures |r| <= |s|
    ensures r != [] ==> !IsPySpace(r[0]) && r[|r| - 1] == s[|s| - 1]
  {
    if s != [] && IsPySpace(s[0]) then DropLeadingSpace(s[1..]) else s
  }

  function DropTrailingSpace(s: string): (r: string)
    ensures |r| <= |s| && r == s[..|r|]
    ensures r != [] ==> !IsPySpace(r[|r| - 1])
  {
    if s != [] && IsPySpace(s[|s| - 1]) then DropTrailingSpace(s[..|s| - 1]) else s
  }

  /**
   * r is s with its first `i` characters and some last characters removed,
   * every removed character satisfying `outer`.
   */
  ghost predicate Trimmed(s: string, r: string, i: nat, outer: char -> bool)
  {
    && i + |r| <= |s| && r == s[i..i + |r|]
    && (forall k :: 0 <= k < i ==> outer(s[k]))
    && (forall k :: i + |r| <= k < |s| ==> outer(s[k]))
  }

  lemma {:induction false} DropLeadingSpaceDrops(s: string)
    ensures var r := DropLeadingSpace(s);
      r == s[|s| - |r|..] && forall k :: 0 <= k < |s| - |r| ==> IsPySpace(s[k])
    decreases |s|
  {
    if s != [] && IsPySpace(s[0]) {
      DropLeadingSpaceDrops(s[1..]);
    }
  }

  lemma {:induction false} DropTrailingSpaceDrops(s: string)
    ensures var r := DropTrailingSpace(s);
      forall k :: |r| <= k < |s| ==> IsPySpace(s[k])
    decreases |s|
  {
    if s != [] && IsPySpace(s[|s| - 1]) {
      DropTrailingSpaceDrops(s[..|s| - 1]);
    }
  }

  /**
   * strip() removes whitespace from both ends and nothing else: the result
   * is a slice of s, everything outside the slice is whitespace, and the
   * slice neither starts nor ends with whitespace.
   */
  lemma StripTrims(s: string)
    ensures exists i: nat :: Trimmed(s, Strip(s), i, IsPySpace)
    ensures Strip(s) != [] ==> !IsPySpace(Strip(s)[0]) && !IsPySpace(Strip(s)[|Strip(s)| - 1])
  {
    var a := DropLeadingSpace(s);
    DropLeadingSpaceDrops(s);
    DropTrailingSpaceDrops(a);
    TrimBothEnds(s, a, Strip(s));
  }

  /** Dropping a whitespace prefix of s to get a, then a whitespace suffix of a to get r, trims s to r. */
  lemma TrimBothEnds(s: string, a: string, r: string)
    requires |a| <= |s| && a == s[|s| - |a|..] && forall k :: 0 <= k < |s| - |a| ==> IsPySpace(s[k])
    requires |r| <= |a| && r == a[..|r|] && forall k :: |r| <= k < |a| ==> IsPySpace(a[k])
    ensures Trimmed(s, r, |s| - |a|, IsPySpace)
  {
    var i := |s| - |a|;
    assert r == s[i..i + |r|];
    forall k | i + |r| <= k < |s|
      ensures IsPySpace(s[k])
    {
      assert s[k] == a[k - i];
    }
  }

  /** A token as str.split() produces it: non-empty and free of whitespace. */
  predicate IsWord(t: string)
  {
    t != [] && forall i :: 0 <= i < |t| ==> !IsPySpace(t[i])
  }

  /** Length of the run of non-whitespace characters that starts s. */
  function WordLength(s: string): (n: nat)
    ensures n <= |s|
    ensures forall i :: 0 <= i < n ==> !IsPySpace(s[i])
    ensures n < |s| ==> IsPySpace(s[n])
  {
    if s == [] || IsPySpace(s[0]) then 0 else 1 + WordLength(s[1..])
  }

  /** Python's str.split() with no argument: runs of whitespace separate the tokens. */
  function SplitWs(s: string): (r: seq<string>)
    ensures forall k :: 0 <= k < |r| ==> IsWord(r[k])
    decreases |s|
  {
    if s == [] then []
    else if IsPySpace(s[0]) then SplitWs(s[1..])
    else
      var n := WordLength(s);
      [s[..n]] + SplitWs(s[n..])
  }

  /** Every character of g is whitespace. */
  predicate AllSpace(g: string)
  {
    forall i :: 0 <= i < |g| ==> IsPySpace(g[i])
  }

  /** gaps[0] + ts[0] + gaps[1] + ... + ts[|ts| - 1] + gaps[|ts|]. */
  function Interleave(gaps: seq<string>, ts: seq<string>): string
    requires |gaps| == |ts| + 1
    decreases |ts|
  {
    if ts == [] then gaps[0] else gaps[0] + ts[0] + Interleave(gaps[1..], ts[1..])
  }

  /** s is the tokens ts with whitespace runs `gaps` around them, those between two tokens non-empty. */
  ghost predicate Separates(gaps: seq<string>, ts: seq<string>, s: string)
  {
    && |gaps| == |ts| + 1
    && (forall k :: 0 <= k < |gaps| ==> AllSpace(gaps[k]))
    && (forall k :: 0 < k < |ts| ==> gaps[k] != [])
    && Interleave(gaps, ts) == s
  }

  /** One more character in front of the first gap is one more character in front of the whole. */
  lemma InterleaveLonger(c: char, gaps: seq<string>, ts: seq<string>)
    requires |gaps| == |ts| + 1
    ensures Interleave(gaps[0 := [c] + gaps[0]], ts) == [c] + Interleave(gaps, ts)
  {
    var g := gaps[0 := [c] + gaps[0]];
    if ts != [] {
      var x := Interleave(gaps[1..], ts[1..]);
      assert g[1..] == gaps[1..];
      calc {
        Interleave(g, ts);
        ([c] + gaps[0]) + ts[0] + x;
        [c] + (gaps[0] + ts[0] + x);
        [c] + Interleave(gaps, ts);
      }
    }
  }

  /**
   * str.split() cuts s exactly at its whitespace runs: s is its tokens, in
   * order, with whitespace around them and at least one whitespace
   * character between two tokens; each token is a non-empty run free of
   * whitespace, so the tokens are the maximal non-whitespace runs of s.
   */
  lemma {:induction false} SplitWsSeparates(s: string)
    ensures exists gaps :: Separates(gaps, SplitWs(s), s)
    decreases |s|
  {
    var ts := SplitWs(s);
    if s == [] {
      assert Separates([""], ts, s);
    } else if IsPySpace(s[0]) {
      SplitWsSeparates(s[1..]);
      var gaps :| Separates(gaps, ts, s[1..]);
      SpaceBeforeSeparated(s[0], gaps, ts, s[1..]);
      assert [s[0]] + s[1..] == s;
    } else {
      var n := WordLength(s);
      var rest := s[n..];
      var ws := SplitWs(rest);
      assert ts == [s[..n]] + ws;
      SplitWsSeparates(rest);
      var gaps :| Separates(gaps, ws, rest);
      WordBeforeSeparated(s[..n], gaps, ws, rest);
      assert s[..n] + rest == s;
    }
  }

  /** A whitespace character in front joins the first gap. */
  lemma SpaceBeforeSeparated(c: char, gaps: seq<string>, ts: seq<string>, rest: string)
    requires IsPySpace(c) && Separates(gaps, ts, rest)
    ensures Separates(gaps[0 := [c] + gaps[0]], ts, [c] + rest)
  {
    var g := gaps[0 := [c] + gaps[0]];
    InterleaveLonger(c, gaps, ts);
    forall k | 0 <= k < |g|
      ensures AllSpace(g[k])
    {
      if k > 0 {
        assert g[k] == gaps[k];
      }
    }
  }

  /** A word in front, followed by whitespace or nothing, becomes the first token. */
  lemma WordBeforeSeparated(w: string, gaps: seq<string>, ts: seq<string>, rest: string)
    requires IsWord(w) && Separates(gaps, ts, rest)
    requires forall k :: 0 <= k < |ts| ==> IsWord(ts[k])
    requires rest != [] ==> IsPySpace(rest[0])
    ensures Separates([""] + gaps, [w] + ts, w + rest)
  {
    var g := [""] + gaps;
    assert g[1..] == gaps && ([w] + ts)[1..] == ts;
    if ts != [] {
      var x := Interleave(gaps[1..], ts[1..]);
      assert rest == gaps[0] + ts[0] + x;
      assert IsWord(ts[0]);
      assert rest[0] == (gaps[0] + ts[0])[0];
      assert gaps[0] != [];
    }
    assert Interleave(g, [w] + ts) == w + rest;
  }

  /** Python's ' '.join(ts). */
  function JoinSpace(ts: seq<string>): (r: string)
  {
    if ts == [] then ""
    else if |ts| == 1 then ts[0]
    else ts[0] + " " + JoinSpace(ts[1..])
  }

  lemma {:induction false} SplitWordThenRest(t: string, rest: string)
    requires IsWord(t)
    ensures SplitWs(t + " " + rest) == [t] + SplitWs(rest)
  {
    var s := t + " " + rest;
    WordLengthOfWord(t, " " + rest);
    assert s[..|t|] == t;
    assert s[|t|..] == " " + rest;
    assert (" " + rest)[1..] == rest;
  }

  lemma {:induction false} WordLengthOfWord(t: string, rest: string)
    requires IsWord(t)
    requires rest != [] && IsPySpace(rest[0])
    ensures WordLength(t + rest) == |t|
    decreases |t|
  {
    if |t| > 1 {
      assert (t + rest)[1..] == t[1..] + rest;
      WordLengthOfWord(t[1..], rest);
    } else {
      assert (t + rest)[1..] == rest;
    }
  }

  /** Splitting a space-joined list of words gives the words back. */
  lemma {:induction false} SplitJoinRoundTrip(ts: seq<string>)
    requires forall k :: 0 <= k < |ts| ==> IsWord(ts[k])
    ensures SplitWs(JoinSpace(ts)) == ts
  {
    if ts == [] {
    } else if |ts| == 1 {
      WordIsOneToken(ts[0]);
    } else {
      SplitWordThenRest(ts[0], JoinSpace(ts[1..]));
      SplitJoinRoundTrip(ts[1..]);
      assert ts == [ts[0]] + ts[1..];
    }
  }

  lemma WordIsOneToken(t: string)
    requires IsWord(t)
    ensures SplitWs(t) == [t]
  {
    WordLengthOfWholeWord(t);
    assert !IsPySpace(t[0]);
    assert t[..|t|] == t && t[|t|..] == [];
    assert SplitWs(t) == [t[..|t|]] + SplitWs(t[|t|..]);
  }

  lemma {:induction false} WordLengthOfWholeWord(t: string)
    requires forall i :: 0 <= i < |t| ==> !IsPySpace(t[i])
    ensures WordLength(t) == |t|
  {
    if t != [] {
      WordLengthOfWholeWord(t[1..]);
    }
  }

  function ToLowerChar(c: char): char
  {
    if 'A' <= c <= 'Z' then (c as int + 32) as char else c
  }

  /** String.prototype.toLowerCase restricted to ASCII letters. */
  function ToLowerAscii(s: string): (r: string)
    ensures |r| == |s|
    ensures forall i :: 0 <= i < |s| ==> r[i] == ToLowerChar(s[i])
  {
    seq(|s|, i requires 0 <= i < |s| => ToLowerChar(s[i]))
  }

  /** The value of a digit character in any radix up to 16, either case. */
  function HexValue(c: char): (v: int)
    ensures -1 <= v < 16
  {
    if '0' <= c <= '9' then c as int - '0' as int
    else if 'a' <= c <= 'f' then c as int - 'a' as int + 10
    else if 'A' <= c <= 'F' then c as int - 'A' as int + 10
    else -1
  }

  /** c is a digit of the given radix. */
  predicate IsDigitOf(c: char, radix: nat)
  {
    0 <= HexValue(c) < radix
  }

  predicate AllDigitsOf(s: string, radix: nat)
  {
    forall i :: 0 <= i < |s| ==> IsDigitOf(s[i], radix)
  }

  /** The lower-case digit character for d. */
  /** A digit as Python's and JavaScript's formatting write it: 0-9 or a lower-case a-f. */
  predicate IsLowerHexDigit(c: char)
  {
    '0' <= c <= '9' || 'a' <= c <= 'f'
  }

  function DigitChar(d: nat): (c: char)
    requires d < 16
    ensures HexValue(c) == d && IsLowerHexDigit(c)
  {
    if d < 10 then ('0' as int + d) as char else ('a' as int + d - 10) as char
  }

  /** The digits of n in the radix, most significant first, with no leading zero. */
  function Digits(n: nat, radix: nat): (r: string)
    requires 2 <= radix <= 16
    ensures r != [] && AllDigitsOf(r, radix)
  {
    if n < radix then [DigitChar(n)]
    else
      DivShrinks(n, radix);
      var p := Digits(n / radix, radix);
      var c := DigitChar(n % radix);
      assert IsDigitOf(c, radix);
      assert forall i :: 0 <= i < |p| ==> (p + [c])[i] == p[i];
      p + [c]
  }

  lemma DivShrinks(n: nat, radix: nat)
    requires 2 <= radix <= n
    ensures 1 <= n / radix < n && n % radix < radix
  {
  }

  /** The integer an all-digits string denotes in the radix. */
  function RadixValue(s: string, radix: nat): nat
    requires AllDigitsOf(s, radix)
  {
    if s == [] then 0
    else
      assert IsDigitOf(s[|s| - 1], radix);
      RadixValue(s[..|s| - 1], radix) * radix + HexValue(s[|s| - 1])
  }

  /** Reading back the digits of n gives n. */
  lemma {:induction false} RadixValueOfDigits(n: nat, radix: nat)
    requires 2 <= radix <= 16
    ensures RadixValue(Digits(n, radix), radix) == n
  {
    if n >= radix {
      var q, d := n / radix, n % radix;
      DivMod(n, radix);
      RadixValueOfDigits(q, radix);
      AppendDigit(Digits(q, radix), q, d, n, radix);
    }
  }

  /** Appending digit d to the digits of q gives the digits of q * radix + d. */
  lemma AppendDigit(p: string, q: nat, d: nat, n: nat, radix: nat)
    requires 2 <= radix <= 16 && d < radix && n == q * radix + d
    requires AllDigitsOf(p, radix) && RadixValue(p, radix) == q
    ensures AllDigitsOf(p + [DigitChar(d)], radix)
    ensures RadixValue(p + [DigitChar(d)], radix) == n
  {
    RadixValueSnoc(p, DigitChar(d), radix);
  }

  lemma RadixValueSnoc(p: string, c: char, radix: nat)
    requires AllDigitsOf(p, radix) && IsDigitOf(c, radix)
    ensures AllDigitsOf(p + [c], radix)
    ensures RadixValue(p + [c], radix) == RadixValue(p, radix) * radix + HexValue(c)
  {
    assert (p + [c])[..|p|] == p;
  }

  lemma DivMod(n: nat, radix: nat)
    requires 2 <= radix
    ensures n == (n / radix) * radix + n % radix && 0 <= n % radix < radix
  {
  }

  /** Leading zeros do not change the value a digit string denotes. */
  lemma {:induction false} RadixValueLeadingZero(s: string, radix: nat)
    requires 2 <= radix <= 16 && AllDigitsOf(s, radix)
    ensures AllDigitsOf("0" + s, radix) && RadixValue("0" + s, radix) == RadixValue(s, radix)
  {
    if s != [] {
      assert ("0" + s)[..|s|] == "0" + s[..|s| - 1];
      RadixValueLeadingZero(s[..|s| - 1], radix);
    } else {
      assert RadixValue("0", radix) == RadixValue("", radix) * radix + 0;
    }
  }

  /** How JavaScript and Python render an integer in decimal. */
  function DecimalString(n: int): (r: string)
    ensures r != []
  {
    if n < 0 then "-" + Digits(-n, 10) else Digits(n, 10)
  }

  /** s left-padded with '0' to at least `width` characters. */
  function ZeroPad(s: string, width: nat): string
    decreases width - |s|
  {
    if |s| < width then ZeroPad("0" + s, width) else s
  }

  /** Padding reaches the width (or keeps a longer string), keeps the string as a suffix and adds only '0's. */
  lemma {:induction false} ZeroPadShape(s: string, width: nat)
    ensures var r := ZeroPad(s, width);
      && |r| == (if |s| < width then width else |s|)
      && r[|r| - |s|..] == s
      && forall i :: 0 <= i < |r| - |s| ==> r[i] == '0'
    decreases width - |s|
  {
    if |s| < width {
      ZeroPadShape("0" + s, width);
      var r := ZeroPad(s, width);
      var n := |r| - |s|;
      assert r[n - 1..] == "0" + s;
      assert r[n..] == r[n - 1..][1..] == s;
      assert r[n - 1] == '0';
    }
  }
}
