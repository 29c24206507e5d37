/**
 * Python's strict UTF-8 decoder (`bytes.decode('utf-8')`): the well-formed
 * byte sequences of table 3-7 of the Unicode Standard, chapter 3, and
 * nothing else; any other input raises UnicodeDecodeError, which is `None`
 * here.
 */
module Utf8 {
  import opened Wrappers
  import opened Bytes

  /** A continuation byte, 10xxxxxx. */
  predicate IsContinuation(b: Byte) { 0x80 <= b <= 0xBF }

  /** How many bytes a sequence led by `b` takes, or 0 when `b` cannot lead one. */
  function SequenceLength(b: Byte): nat
  {
    if b < 0x80 then 1
    else if 0xC2 <= b <= 0xDF then 2
    else if 0xE0 <= b <= 0xEF then 3
    else if 0xF0 <= b <= 0xF4 then 4
    else 0
  }

  /** The range the second byte of a sequence led by `b` must fall in (no overlong forms, no surrogates, nothing past U+10FFFF). */
  predicate SecondByteFits(lead: Byte, b: Byte)
  {
    if lead == 0xE0 then 0xA0 <= b <= 0xBF
    else if lead == 0xED then 0x80 <= b <= 0x9F
    else if lead == 0xF0 then 0x90 <= b <= 0xBF
    else if lead == 0xF4 then 0x80 <= b <= 0x8F
    else IsContinuation(b)
  }

  /** A single well-formed sequence. */
  predicate WellFormed(bs: seq<Byte>)
  {
    && |bs| >= 1 && SequenceLength(bs[0]) == |bs|
    && (|bs| >= 2 ==> SecondByteFits(bs[0], bs[1]))
    && (forall i :: 2 <= i < |bs| ==> IsContinuation(bs[i]))
  }

  /** The code point a well-formed sequence encodes. */
  function CodePoint(bs: seq<Byte>): (cp: int)
    requires WellFormed(bs)
    ensures 0 <= cp < 0xD800 || 0xE000 <= cp < 0x11_0000
  {
    var b0: int := bs[0];
    if |bs| == 1 then b0
    else
      var b1: int := bs[1] - 0x80;
      if |bs| == 2 then (b0 - 0xC0) * 64 + b1
      else
        var b2: int := bs[2] - 0x80;
        if |bs| == 3 then (b0 - 0xE0) * 4096 + b1 * 64 + b2
        else (b0 - 0xF0) * 262144 + b1 * 4096 + b2 * 64 + (bs[3] as int - 0x80)
  }

  /** bytes.decode('utf-8'). */
  function Decode(bs: seq<Byte>): (r: Option<string>)
    ensures r.Some? ==> |r.value| <= |bs|
    decreases |bs|
  {
    if bs == [] then Some("")
    else
      var n := SequenceLength(bs[0]);
      if n == 0 || |bs| < n || !WellFormed(bs[..n]) then None
      else
        match Decode(bs[n..])
        case None => None
        case Some(rest) => Some([CodePoint(bs[..n]) as char] + rest)
  }

  /** str.encode('utf-8') of one character. */
  function EncodeChar(c: char): (r: seq<Byte>)
    ensures WellFormed(r)
  {
    var cp := c as int;
    if cp < 0x80 then [cp]
    else if cp < 0x800 then
      assert 2 <= cp / 64 < 32;
      [0xC0 + cp / 64, 0x80 + cp % 64]
    else if cp < 0x1_0000 then
      var hi := cp / 4096;
      assert hi == 0 ==> 32 <= cp / 64 < 64;
      assert hi == 0xD ==> 0xD000 <= cp < 0xD800 && 0x340 <= cp / 64 < 0x360;
      [0xE0 + hi, 0x80 + cp / 64 % 64, 0x80 + cp % 64]
    else
      var hi := cp / 262144;
      assert hi == 0 ==> 16 <= cp / 4096 < 64;
      assert hi == 4 ==> 0x100 <= cp / 4096 < 0x110;
      [0xF0 + hi, 0x80 + cp / 4096 % 64, 0x80 + cp / 64 % 64, 0x80 + cp % 64]
  }

  /** str.encode('utf-8'). */
  function Encode(s: string): seq<Byte>
  {
    if s == [] then [] else EncodeChar(s[0]) + Encode(s[1..])
  }

  /** A character's encoding decodes to that character. */
  lemma CodePointOfEncodeChar(c: char)
    ensures CodePoint(EncodeChar(c)) == c as int
  {
    var cp := c as int;
    var e := EncodeChar(c);
    if cp < 0x80 {
      assert e == [cp as Byte];
    } else if cp < 0x800 {
      assert e == [(0xC0 + cp / 64) as Byte, (0x80 + cp % 64) as Byte];
    } else if cp < 0x1_0000 {
      ThreeByteValue(cp);
      assert e == [(0xE0 + cp / 4096) as Byte, (0x80 + cp / 64 % 64) as Byte, (0x80 + cp % 64) as Byte];
    } else {
      FourByteValue(cp);
      assert e == [(0xF0 + cp / 262144) as Byte, (0x80 + cp / 4096 % 64) as Byte, (0x80 + cp / 64 % 64) as Byte, (0x80 + cp % 64) as Byte];
    }
  }

  lemma ThreeByteValue(cp: int)
    requires 0 <= cp
    ensures cp == cp / 4096 * 4096 + cp / 64 % 64 * 64 + cp % 64
  {
    assert cp / 64 / 64 == cp / 4096;
  }

  lemma FourByteValue(cp: int)
    requires 0 <= cp
    ensures cp == cp / 262144 * 262144 + cp / 4096 % 64 * 4096 + cp / 64 % 64 * 64 + cp % 64
  {
    ThreeByteValue(cp);
    assert cp / 4096 / 64 == cp / 262144;
  }

  /** Decoding what str.encode('utf-8') produced gives the text back. */
  lemma {:induction false} DecodeEncode(s: string)
    ensures Decode(Encode(s)) == Some(s)
    decreases |s|
  {
    if s != [] {
      var e := EncodeChar(s[0]);
      var bs := Encode(s);
      assert bs[..|e|] == e && bs[|e|..] == Encode(s[1..]);
      CodePointOfEncodeChar(s[0]);
      DecodeEncode(s[1..]);
      assert s == [s[0]] + s[1..];
    }
  }

  predicate AllWellFormed(parts: seq<seq<Byte>>)
  {
    forall k :: 0 <= k < |parts| ==> WellFormed(parts[k])
  }

  /** The characters the well-formed sequences encode, in order. */
  function Chars(parts: seq<seq<Byte>>): (r: string)
    requires AllWellFormed(parts)
    ensures |r| == |parts|
  {
    if parts == [] then "" else [CodePoint(parts[0]) as char] + Chars(parts[1..])
  }

  /** A concatenation of well-formed sequences decodes to their characters. */
  lemma {:induction false} DecodeOfParts(parts: seq<seq<Byte>>)
    requires AllWellFormed(parts)
    ensures Decode(Concat(parts)) == Some(Chars(parts))
  {
    if parts != [] {
      var bs := Concat(parts);
      var p := parts[0];
      assert bs == p + Concat(parts[1..]);
      assert bs[0] == p[0];
      assert bs[..|p|] == p && bs[|p|..] == Concat(parts[1..]);
      DecodeOfParts(parts[1..]);
    }
  }

  lemma ConsPart(p: seq<Byte>, parts: seq<seq<Byte>>)
    requires WellFormed(p) && AllWellFormed(parts)
    ensures AllWellFormed([p] + parts) && Concat([p] + parts) == p + Concat(parts)
  {
    assert ([p] + parts)[1..] == parts;
  }

  /** Whatever decodes is a concatenation of well-formed sequences. */
  lemma {:induction false} DecodedHasParts(bs: seq<Byte>)
    requires Decode(bs).Some?
    ensures exists parts: seq<seq<Byte>> :: AllWellFormed(parts) && Concat(parts) == bs
    decreases |bs|
  {
    if bs == [] {
      assert AllWellFormed([]) && Concat<Byte>([]) == bs;
    } else {
      var n := DecodeFirst(bs);
      DecodedHasParts(bs[n..]);
      PartsCons(bs[..n], bs[n..]);
      assert bs[..n] + bs[n..] == bs;
    }
  }

  /** A well-formed sequence in front of a concatenation of well-formed sequences is one more. */
  lemma PartsCons(p: seq<Byte>, rest: seq<Byte>)
    requires WellFormed(p) && exists parts: seq<seq<Byte>> :: AllWellFormed(parts) && Concat(parts) == rest
    ensures exists parts: seq<seq<Byte>> :: AllWellFormed(parts) && Concat(parts) == p + rest
  {
    var parts: seq<seq<Byte>> :| AllWellFormed(parts) && Concat(parts) == rest;
    ConsPart(p, parts);
    assert AllWellFormed([p] + parts) && Concat([p] + parts) == p + rest;
  }

  /** Bytes that decode start with a well-formed sequence, and the rest decodes too. */
  lemma DecodeFirst(bs: seq<Byte>) returns (n: nat)
    requires bs != [] && Decode(bs).Some?
    ensures n == SequenceLength(bs[0]) && 1 <= n <= |bs| && WellFormed(bs[..n]) && Decode(bs[n..]).Some?
  {
    n := SequenceLength(bs[0]);
  }

  /**
   * The strict decoder accepts exactly the concatenations of well-formed
   * sequences, and returns one character per sequence, in order.
   */
  lemma DecodeAccepts(bs: seq<Byte>)
    ensures Decode(bs).Some? <==> exists parts: seq<seq<Byte>> :: AllWellFormed(parts) && Concat(parts) == bs
    ensures forall parts: seq<seq<Byte>> :: AllWellFormed(parts) && Concat(parts) == bs ==> Decode(bs) == Some(Chars(parts))
  {
    forall parts: seq<seq<Byte>> | AllWellFormed(parts) && Concat(parts) == bs
      ensures Decode(bs) == Some(Chars(parts))
    {
      DecodeOfParts(parts);
    }
    if Decode(bs).Some? {
      DecodedHasParts(bs);
    }
  }

  /** Bytes below 0x80 decode one for one into the ASCII characters. */
  lemma {:induction false} DecodeAscii(bs: seq<Byte>)
    requires forall i :: 0 <= i < |bs| ==> bs[i] < 0x80
    ensures Decode(bs).Some?
    ensures |Decode(bs).value| == |bs|
    ensures forall i :: 0 <= i < |bs| ==> Decode(bs).value[i] as int == bs[i]
    decreases |bs|
  {
    if bs != [] {
      DecodeAscii(bs[1..]);
    }
  }
}
