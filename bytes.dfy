/**
 * Python `bytes` as sequences of integers in [0, 256): hex decoding as
 * binascii.unhexlify and bytes.fromhex do it, hex encoding as bytes.hex()
 * does it, int.from_bytes and Python's clamping slice.
 */
module Bytes {
  import opened Wrappers
  import opened Text

  type Byte = x: int | 0 <= x < 256

  predicate IsHexDigit(c: char) { IsDigitOf(c, 16) }

  function HexPair(hi: char, lo: char): Byte
    requires IsHexDigit(hi) && IsHexDigit(lo)
  {
    HexValue(hi) * 16 + HexValue(lo)
  }

  /** binascii.unhexlify: the text must be hex digits only, and of even length. */
  function Unhexlify(s: string): (r: Option<seq<Byte>>)
    ensures r.Some? <==> |s| % 2 == 0 && forall i :: 0 <= i < |s| ==> IsHexDigit(s[i])
    ensures r.Some? ==> 2 * |r.value| == |s|
  {
    if s == [] then Some([])
    else if |s| == 1 || !IsHexDigit(s[0]) || !IsHexDigit(s[1]) then None
    else
      match Unhexlify(s[2..])
      case None => None
      case Some(rest) => Some([HexPair(s[0], s[1])] + rest)
  }

  /** The whitespace bytes.fromhex skips: space, \t, \n, \x0b, \x0c and \r. */
  predicate IsAsciiSpace(c: char) { c == ' ' || '\t' <= c <= '\r' }

  /**
   * bytes.fromhex: pairs of hex digits, with ASCII whitespace allowed
   * before any pair but not inside one.
   */
  function FromHex(s: string): (r: Option<seq<Byte>>)
    ensures r.Some? ==> 2 * |r.value| <= |s|
  {
    if s == [] then Some([])
    else if IsAsciiSpace(s[0]) then FromHex(s[1..])
    else if |s| == 1 || !IsHexDigit(s[0]) || !IsHexDigit(s[1]) then None
    else
      match FromHex(s[2..])
      case None => None
      case Some(rest) => Some([HexPair(s[0], s[1])] + rest)
  }

  /** The pieces concatenated in order. */
  function Concat<T>(parts: seq<seq<T>>): seq<T>
  {
    if parts == [] then [] else parts[0] + Concat(parts[1..])
  }

  /** A piece of the text bytes.fromhex accepts: one ASCII whitespace character, or two hex digits. */
  predicate HexChunk(c: string)
  {
    || (|c| == 1 && IsAsciiSpace(c[0]))
    || (|c| == 2 && IsHexDigit(c[0]) && IsHexDigit(c[1]))
  }

  predicate AllHexChunks(cs: seq<string>)
  {
    forall k :: 0 <= k < |cs| ==> HexChunk(cs[k])
  }

  /** The bytes the two-digit chunks denote, in order; the whitespace chunks denote none. */
  function ChunkBytes(cs: seq<string>): seq<Byte>
    requires AllHexChunks(cs)
  {
    if cs == [] then []
    else (if |cs[0]| == 2 then [HexPair(cs[0][0], cs[0][1])] else []) + ChunkBytes(cs[1..])
  }

  /** Any text made of whitespace and hex pairs is accepted, and decodes to the pairs' bytes in order. */
  lemma {:induction false} FromHexOfChunks(cs: seq<string>)
    requires AllHexChunks(cs)
    ensures FromHex(Concat(cs)) == Some(ChunkBytes(cs))
  {
    if cs != [] {
      var s := Concat(cs);
      var c := cs[0];
      assert s == c + Concat(cs[1..]);
      FromHexOfChunks(cs[1..]);
      if |c| == 1 {
        assert s[0] == c[0] && s[1..] == Concat(cs[1..]);
        assert ChunkBytes(cs) == ChunkBytes(cs[1..]);
      } else {
        assert s[0] == c[0] && s[1] == c[1] && !IsAsciiSpace(c[0]);
        assert s[2..] == Concat(cs[1..]);
        assert ChunkBytes(cs) == [HexPair(c[0], c[1])] + ChunkBytes(cs[1..]);
      }
    }
  }

  /** Whatever bytes.fromhex accepts is made of whitespace and hex pairs. */
  lemma {:induction false} FromHexHasChunks(s: string)
    requires FromHex(s).Some?
    ensures exists cs :: AllHexChunks(cs) && Concat(cs) == s
    decreases |s|
  {
    if s == [] {
      assert AllHexChunks([]) && Concat<char>([]) == s;
    } else {
      var n := if IsAsciiSpace(s[0]) then 1 else 2;
      FromHexHasChunks(s[n..]);
      var cs :| AllHexChunks(cs) && Concat(cs) == s[n..];
      var cs' := [s[..n]] + cs;
      assert cs'[1..] == cs;
      assert s[..n] + s[n..] == s;
      assert AllHexChunks(cs');
    }
  }

  /**
   * bytes.fromhex accepts exactly the texts made of single ASCII whitespace
   * characters and pairs of hex digits, and returns the pairs' bytes in order.
   */
  lemma FromHexAccepts(s: string)
    ensures FromHex(s).Some? <==> exists cs :: AllHexChunks(cs) && Concat(cs) == s
    ensures forall cs :: AllHexChunks(cs) && Concat(cs) == s ==> FromHex(s) == Some(ChunkBytes(cs))
  {
    forall cs | AllHexChunks(cs) && Concat(cs) == s
      ensures FromHex(s) == Some(ChunkBytes(cs))
    {
      FromHexOfChunks(cs);
    }
    if FromHex(s).Some? {
      FromHexHasChunks(s);
    }
  }

  /** bytes.hex(): two lower-case hex digits per byte. */
  function Hex(bs: seq<Byte>): (r: string)
    ensures |r| == 2 * |bs|
    ensures forall i :: 0 <= i < |r| ==> IsHexDigit(r[i]) && IsLowerHexDigit(r[i])
  {
    if bs == [] then "" else [DigitChar(bs[0] / 16), DigitChar(bs[0] % 16)] + Hex(bs[1..])
  }

  /** Decoding what bytes.hex() wrote gives the bytes back. */
  lemma {:induction false} UnhexlifyHex(bs: seq<Byte>)
    ensures Unhexlify(Hex(bs)) == Some(bs)
  {
    if bs != [] {
      var h := Hex(bs);
      assert h[2..] == Hex(bs[1..]);
      UnhexlifyHex(bs[1..]);
      assert bs == [bs[0]] + bs[1..];
    }
  }

  /** bytes.fromhex accepts what bytes.hex() wrote, with the same result. */
  lemma {:induction false} FromHexOfHex(bs: seq<Byte>)
    ensures FromHex(Hex(bs)) == Some(bs)
  {
    if bs != [] {
      var h := Hex(bs);
      assert h[2..] == Hex(bs[1..]);
      FromHexOfHex(bs[1..]);
      assert bs == [bs[0]] + bs[1..];
    }
  }

  function Pow256(n: nat): (p: nat)
    ensures p >= 1
  {
    if n == 0 then 1 else 256 * Pow256(n - 1)
  }

  /** int.from_bytes(bs, 'big'). */
  function BigEndian(bs: seq<Byte>): (v: nat)
  {
    if bs == [] then 0 else BigEndian(bs[..|bs| - 1]) * 256 + bs[|bs| - 1]
  }

  /** int.from_bytes(bs, 'little'). */
  function LittleEndian(bs: seq<Byte>): (v: nat)
  {
    if bs == [] then 0 else bs[0] + 256 * LittleEndian(bs[1..])
  }

  /** int.from_bytes(bs, 'big', signed=True): two's complement over |bs| bytes. */
  function SignedBigEndian(bs: seq<Byte>): int
  {
    if bs != [] && bs[0] >= 0x80 then BigEndian(bs) - Pow256(|bs|) else BigEndian(bs)
  }

  /** An unsigned big-endian value fits in the bytes it was read from. */
  lemma {:induction false} BigEndianBound(bs: seq<Byte>)
    ensures BigEndian(bs) < Pow256(|bs|)
  {
    if bs != [] {
      BigEndianBound(bs[..|bs| - 1]);
    }
  }

  function Reverse<T>(s: seq<T>): (r: seq<T>)
    ensures |r| == |s|
    ensures forall i :: 0 <= i < |s| ==> r[i] == s[|s| - 1 - i]
  {
    if s == [] then [] else Reverse(s[1..]) + [s[0]]
  }

  /** Python's s[i:j] for non-negative bounds: both ends are clamped to the length. */
  function Slice<T>(s: seq<T>, i: nat, j: nat): (r: seq<T>)
    ensures |r| == if j <= i || |s| <= i then 0 else (if j <= |s| then j else |s|) - i
  {
    var hi := if j <= |s| then j else |s|;
    if hi <= i then [] else s[i..hi]
  }

  /** Python's s[-n:]: the last n elements, or all of s when it is shorter. */
  function LastN<T>(s: seq<T>, n: nat): (r: seq<T>)
    ensures |r| == if |s| < n then |s| else n
    ensures r == s[|s| - |r|..]
  {
    if |s| <= n then s else s[|s| - n..]
  }
}
