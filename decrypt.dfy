/**
 * old/decrypt.py: decoding of Minew advertising frames, one hex line at a
 * time. The file is given as its sequence of lines; AES-ECB decryption,
 * a foreign library, is the parameter `aes` (key, 16-byte block) to
 * 16-byte block, so only its length-preserving shape is modelled.
 */
module Decrypt {
  import opened Wrappers
  import opened Text
  import opened Bytes
  import opened Loops
  import Utf8

  /** parse_signed_88: a big-endian two's-complement integer in units of 1/256. */
  function ParseSigned88(bs: seq<Byte>): real
  {
    SignedBigEndian(bs) as real / 256.0
  }

  /** The two bytes that hold `v` as a big-endian 16-bit two's-complement integer. */
  function Encode16(v: int): (bs: seq<Byte>)
    requires -32768 <= v <= 32767
    ensures |bs| == 2
  {
    var u := if v < 0 then v + 65536 else v;
    [u / 256, u % 256]
  }

  /**
   * Two bytes read as 8.8 fixed point give a raw value in [-32768, 32767],
   * so a value in [-128, 128); and every raw value in that range is read
   * back from its own encoding.
   */
  lemma Signed88Contract(bs: seq<Byte>, v: int)
    requires |bs| == 2 && -32768 <= v <= 32767
    ensures -32768 <= SignedBigEndian(bs) <= 32767
    ensures -128.0 <= ParseSigned88(bs) < 128.0
    ensures SignedBigEndian(Encode16(v)) == v
    ensures ParseSigned88(Encode16(v)) == v as real / 256.0
  {
    TwoBytes(bs);
    TwoBytes(Encode16(v));
  }

  /** Two bytes read big-endian. */
  lemma TwoBytes(bs: seq<Byte>)
    requires |bs| == 2
    ensures BigEndian(bs) == bs[0] as int * 256 + bs[1] as int
  {
    assert bs[..1][..0] == [];
    assert BigEndian(bs[..1]) == bs[0];
  }

  /** An AES block. */
  type Block = b: seq<Byte> | |b| == 16 witness [0, 0, 0, 0, 0, 0, 0, 0, 0, 0, 0, 0, 0, 0, 0, 0]

  /** The key lengths AES.new accepts; any other raises ValueError. */
  predicate ValidAesKey(key: seq<Byte>) { |key| == 16 || |key| == 24 || |key| == 32 }

  /** `buf[2] & 0x80`: the encryption flag. */
  predicate Encrypted(b: Byte) { (b as bv8) & 0x80 != 0 }

  /** `buf[:3] + cipher.decrypt(buf[3:19]) + buf[19:]`. */
  function DecryptPayload(buf: seq<Byte>, key: seq<Byte>, aes: (seq<Byte>, Block) -> Block): (r: seq<Byte>)
    requires |buf| >= 19
  {
    buf[..3] + aes(key, buf[3..19]) + buf[19..]
  }

  /** Decryption replaces bytes 3 to 18 by their decryption and keeps the frame's length and every other byte. */
  lemma DecryptPayloadContract(buf: seq<Byte>, key: seq<Byte>, aes: (seq<Byte>, Block) -> Block)
    requires |buf| >= 19
    ensures var r := DecryptPayload(buf, key, aes);
      && |r| == |buf|
      && r[..3] == buf[..3] && r[19..] == buf[19..]
      && r[3..19] == aes(key, buf[3..19])
  {
    var r := DecryptPayload(buf, key, aes);
    assert r[..3] == buf[..3];
    assert r[3..19] == aes(key, buf[3..19]);
    assert r[19..] == buf[19..];
  }

  /** `bs[::-1].hex() + '/2'`. */
  function DeviceId(bs: seq<Byte>): string
  {
    Hex(Reverse(bs)) + "/2"
  }

  /** str.strip('\x00'). */
  function StripNul(s: string): (r: string)
    ensures |r| <= |s|
    ensures r != [] ==> r[0] != '\0' && r[|r| - 1] != '\0'
    decreases |s|
  {
    if s != [] && s[0] == '\0' then StripNul(s[1..])
    else if s != [] && s[|s| - 1] == '\0' then StripNul(s[..|s| - 1])
    else s
  }

  predicate IsNul(c: char) { c == '\0' }

  /** strip('\x00') removes NUL characters from both ends and nothing else. */
  lemma {:induction false} StripNulTrims(s: string)
    ensures exists i: nat :: Trimmed(s, StripNul(s), i, IsNul)
    decreases |s|
  {
    var r := StripNul(s);
    if s != [] && s[0] == '\0' {
      StripNulTrims(s[1..]);
      var i: nat :| Trimmed(s[1..], r, i, IsNul);
      assert s[1..][i..i + |r|] == s[i + 1..i + 1 + |r|];
      assert Trimmed(s, r, i + 1, IsNul);
    } else if s != [] && s[|s| - 1] == '\0' {
      StripNulTrims(s[..|s| - 1]);
      var i: nat :| Trimmed(s[..|s| - 1], r, i, IsNul);
      assert s[..|s| - 1][i..i + |r|] == s[i..i + |r|];
      assert Trimmed(s, r, i, IsNul);
    } else {
      assert Trimmed(s, s, 0, IsNul);
    }
  }

  /** The readings of the three frame kinds. */
  datatype Reading =
    | S3(battery: Byte, temperature: real, humidity: real, deviceId: string)
    | ConnectEncrypted(temperature: real, batteryVoltage: real, deviceId: string)
    | ConnectTemperatureHumidity(temperature: real, humidity: real, name: string, deviceId: string)

  /** What the try block ends with: a reading, no result, or an exception it catches. */
  datatype FrameOutcome = Found(reading: Reading) | NoResult | Caught

  /** The frame dispatch of parse_samples on a non-empty buffer. */
  function DecodeFrame(buf: seq<Byte>, key: Option<seq<Byte>>, aes: (seq<Byte>, Block) -> Block): FrameOutcome
    requires buf != []
  {
    if buf[0] == 0xa3 then
      if |buf| < 2 then Caught  // IndexError on buf[1]
      else if buf[1] == 3 && |buf| >= 16 then
        Found(S3(buf[2], ParseSigned88(buf[3..5]), ParseSigned88(buf[5..7]), DeviceId(Slice(buf, 12, 18))))
      else NoResult
    else if buf[0] == 0xca then
      if |buf| < 2 then Caught  // IndexError on buf[1]
      else if buf[1] == 0x1b && |buf| >= 24 then
        var decrypting := key.Some? && key.value != [] && Encrypted(buf[2]);
        if decrypting && !ValidAesKey(key.value) then Caught  // ValueError from AES.new
        else
          var b := if decrypting then DecryptPayload(buf, key.value, aes) else buf;
          Found(ConnectEncrypted(ParseSigned88(b[14..16]), BigEndian(b[12..14]) as real / 1000.0, DeviceId(b[6..12])))
      else if buf[1] == 0x05 && |buf| >= 24 then
        match Utf8.Decode(buf[9..17])
        case None => Caught  // UnicodeDecodeError
        case Some(name) =>
          Found(ConnectTemperatureHumidity(ParseSigned88(buf[5..7]), ParseSigned88(buf[7..9]), StripNul(name), DeviceId(buf[6..12])))
      else NoResult
    else NoResult
  }

  /**
   * The S3 temperature/humidity frame: version 3 and at least 16 bytes give
   * battery, temperature and humidity from bytes 2 to 6; the device id is
   * bytes 12 to 17 reversed, shorter when the frame ends before byte 18.
   */
  lemma S3Frame(buf: seq<Byte>, key: Option<seq<Byte>>, aes: (seq<Byte>, Block) -> Block)
    requires |buf| >= 16 && buf[0] == 0xa3 && buf[1] == 3
    ensures var out := DecodeFrame(buf, key, aes);
      && out.Found? && out.reading.S3?
      && out.reading.battery == buf[2]
      && out.reading.temperature == ParseSigned88(buf[3..5])
      && out.reading.humidity == ParseSigned88(buf[5..7])
      && out.reading.deviceId == DeviceId(Slice(buf, 12, 18))
      && |out.reading.deviceId| == 2 * (if |buf| < 18 then |buf| - 12 else 6) + 2
  {
  }

  /**
   * The Connect encrypted frame: with no key, or with the flag clear, the
   * fields come from the frame as received; with a key and the flag set,
   * bytes 3 to 18 are decrypted first, so the temperature is read from the
   * decrypted block while the device id, bytes 6 to 11, comes from it too.
   */
  lemma ConnectEncryptedFrame(buf: seq<Byte>, key: Option<seq<Byte>>, aes: (seq<Byte>, Block) -> Block)
    requires |buf| >= 24 && buf[0] == 0xca && buf[1] == 0x1b
    ensures var out := DecodeFrame(buf, key, aes);
      && (key.None? || key.value == [] || !Encrypted(buf[2]) ==>
            out == Found(ConnectEncrypted(ParseSigned88(buf[14..16]), BigEndian(buf[12..14]) as real / 1000.0, DeviceId(buf[6..12]))))
      && (key.Some? && key.value != [] && Encrypted(buf[2]) && !ValidAesKey(key.value) ==> out == Caught)
      && (key.Some? && Encrypted(buf[2]) && ValidAesKey(key.value) ==>
            var d := aes(key.value, buf[3..19]);
            out == Found(ConnectEncrypted(ParseSigned88(d[11..13]), BigEndian(d[9..11]) as real / 1000.0, DeviceId(d[3..9]))))
  {
    if key.Some? && Encrypted(buf[2]) && ValidAesKey(key.value) {
      var b := DecryptPayload(buf, key.value, aes);
      var d := aes(key.value, buf[3..19]);
      DecryptPayloadContract(buf, key.value, aes);
      assert b[14..16] == d[11..13];
      assert b[12..14] == d[9..11];
      assert b[6..12] == d[3..9];
    }
  }

  /**
   * The Connect temperature/humidity frame: the name is bytes 9 to 16
   * decoded as UTF-8 with NULs stripped from both ends; bytes that are not
   * UTF-8 make the line be skipped.
   */
  lemma ConnectTemperatureHumidityFrame(buf: seq<Byte>, key: Option<seq<Byte>>, aes: (seq<Byte>, Block) -> Block)
    requires |buf| >= 24 && buf[0] == 0xca && buf[1] == 0x05
    ensures var out := DecodeFrame(buf, key, aes);
      && (Utf8.Decode(buf[9..17]).None? <==> out == Caught)
      && (Utf8.Decode(buf[9..17]).Some? ==>
            out == Found(ConnectTemperatureHumidity(ParseSigned88(buf[5..7]), ParseSigned88(buf[7..9]),
                                                    StripNul(Utf8.Decode(buf[9..17]).value), DeviceId(buf[6..12]))))
  {
  }

  /** Any other frame type, any other version, or a frame too short for its kind yields nothing. */
  lemma OtherFramesYieldNothing(buf: seq<Byte>, key: Option<seq<Byte>>, aes: (seq<Byte>, Block) -> Block)
    requires buf != []
    ensures buf[0] != 0xa3 && buf[0] != 0xca ==> DecodeFrame(buf, key, aes) == NoResult
    ensures buf[0] == 0xa3 && |buf| >= 2 && (buf[1] != 3 || |buf| < 16) ==> DecodeFrame(buf, key, aes) == NoResult
    ensures buf[0] == 0xca && |buf| >= 2 && ((buf[1] != 0x1b && buf[1] != 0x05) || |buf| < 24) ==> DecodeFrame(buf, key, aes) == NoResult
    ensures (buf[0] == 0xa3 || buf[0] == 0xca) && |buf| < 2 ==> DecodeFrame(buf, key, aes) == Caught
  {
  }

  /** The website every result links to. */
  const MinewUri: string := "https://sniffypedia.org/Organization/Shenzhen_Minew_Technologies_Co_Ltd/"

  /** A result of parse_samples: the reading and the fields `update` adds. */
  datatype Decoded = Decoded(reading: Reading, rawHex: string, frameType: string, uri: string)

  /** f"{frame_type:#04x}". */
  function FrameTypeText(b: Byte): (r: string)
    ensures |r| == 4 && r[..2] == "0x"
    ensures Unhexlify(r[2..]) == Some([b])
    ensures IsLowerHexDigit(r[2]) && IsLowerHexDigit(r[3])
  {
    UnhexlifyHex([b]);
    assert ("0x" + Hex([b]))[2..] == Hex([b]);
    "0x" + Hex([b])
  }

  /** Why parse_samples raises: the key or a line is not hex. */
  datatype SamplesError = KeyNotHex | LineNotHex

  /** `binascii.unhexlify(aes_key_hex) if aes_key_hex else None`. */
  function DecodeKey(keyHex: Option<string>): Result<Option<seq<Byte>>, SamplesError>
  {
    if keyHex.None? || keyHex.value == "" then Ok(None)
    else
      match Unhexlify(keyHex.value)
      case None => Err(KeyNotHex)
      case Some(k) => Ok(Some(k))
  }

  /** One line of the file: the result it appends, if any; a line that is not hex raises. */
  function DecodeLine(line: string, key: Option<seq<Byte>>, aes: (seq<Byte>, Block) -> Block)
    : Result<Option<Decoded>, SamplesError>
  {
    var text := Strip(line);
    match Unhexlify(text)
    case None => Err(LineNotHex)
    case Some(buf) =>
      if buf == [] then Ok(None)
      else
        match DecodeFrame(buf, key, aes)
        case Found(r) => Ok(Some(Decoded(r, LastN(text, 20), FrameTypeText(buf[0]), MinewUri)))
        case _ => Ok(None)
  }

  /**
   * The loop of parse_samples over lines, each decoded by `decode`: the
   * lines' results are collected in line order, lines that give no result
   * are skipped, and the first line that raises ends the whole call.
   */
  function CollectPresent(lines: seq<string>, decode: string -> Result<Option<Decoded>, SamplesError>)
    : Result<seq<Decoded>, SamplesError>
  {
    match Collect(lines, decode)
    case Err(e) => Err(e)
    case Ok(rs) => Ok(Present(rs))
  }

  /** The results of the lines of a file, with the key and cipher given. */
  function DecodeLines(lines: seq<string>, key: Option<seq<Byte>>, aes: (seq<Byte>, Block) -> Block)
    : Result<seq<Decoded>, SamplesError>
  {
    CollectPresent(lines, line => DecodeLine(line, key, aes))
  }

  /** parse_samples(file_path, aes_key_hex) on the file's lines. */
  function ParseSamplesSpec(lines: seq<string>, keyHex: Option<string>, aes: (seq<Byte>, Block) -> Block)
    : Result<seq<Decoded>, SamplesError>
  {
    match DecodeKey(keyHex)
    case Err(e) => Err(e)
    case Ok(key) => DecodeLines(lines, key, aes)
  }

  /** A blank line (empty after stripping) appends nothing. */
  lemma BlankLineSkipped(line: string, key: Option<seq<Byte>>, aes: (seq<Byte>, Block) -> Block)
    requires Strip(line) == ""
    ensures DecodeLine(line, key, aes) == Ok(None)
  {
  }

  /** A result's raw_hex is the last 20 characters of its stripped line, and its frame type names the line's first byte. */
  lemma DecodedFields(line: string, key: Option<seq<Byte>>, aes: (seq<Byte>, Block) -> Block)
    requires DecodeLine(line, key, aes).Ok? && DecodeLine(line, key, aes).value.Some?
    ensures var d := DecodeLine(line, key, aes).value.value;
      && d.rawHex == LastN(Strip(line), 20)
      && |d.rawHex| == (if |Strip(line)| < 20 then |Strip(line)| else 20)
      && Unhexlify(Strip(line)).Some?
      && d.frameType == FrameTypeText(Unhexlify(Strip(line)).value[0])
      && d.uri == MinewUri
  {
  }

  /**
   * Lines are decoded independently and their results keep line order:
   * the results of two runs of lines are those of the first run followed
   * by those of the second, and a line that raises anywhere makes the
   * whole call raise.
   */
  lemma CollectAppend(a: seq<string>, b: seq<string>, decode: string -> Result<Option<Decoded>, SamplesError>)
    ensures CollectPresent(a, decode).Ok? && CollectPresent(b, decode).Ok? ==>
      CollectPresent(a + b, decode) == Ok(CollectPresent(a, decode).value + CollectPresent(b, decode).value)
    ensures CollectPresent(a, decode).Err? || CollectPresent(b, decode).Err? ==> CollectPresent(a + b, decode).Err?
  {
    Loops.CollectAppend(a, b, decode);
    if Collect(a, decode).Ok? && Collect(b, decode).Ok? {
      PresentAppend(Collect(a, decode).value, Collect(b, decode).value);
    }
  }

  /** A line that is not hex, wherever it is, makes parse_samples raise. */
  lemma BadLineFailsAll(a: seq<string>, line: string, b: seq<string>, key: Option<seq<Byte>>, aes: (seq<Byte>, Block) -> Block)
    requires Unhexlify(Strip(line)).None?
    ensures DecodeLines(a + [line] + b, key, aes).Err?
  {
    var decode := l => DecodeLine(l, key, aes);
    assert [line][..0] == [];
    assert decode(line) == Err(LineNotHex);
    CollectFails([line], 0, decode);
    assert [line][..1] == [line];
    CollectAppend(a, [line], decode);
    CollectAppend(a + [line], b, decode);
  }

  /** parse_samples: the results of the lines of the file, in order. */
  method ParseSamples(lines: seq<string>, keyHex: Option<string>, aes: (seq<Byte>, Block) -> Block)
    returns (r: Result<seq<Decoded>, SamplesError>)
    ensures r == ParseSamplesSpec(lines, keyHex, aes)
  {
    var key := DecodeKey(keyHex);
    if key.Err? {
      return Err(key.error);
    }
    ghost var decode := l => DecodeLine(l, key.value, aes);
    ghost var all: seq<Option<Decoded>> := [];
    var results: seq<Decoded> := [];
    var i := 0;
    while i < |lines|
      invariant 0 <= i <= |lines|
      invariant Collect(lines[..i], decode) == Ok(all) && results == Present(all)
    {
      var line := Strip(lines[i]);
      var buf := Unhexlify(line);
      if buf.None? {
        CollectFails(lines, i, decode);
        ErrorStays(lines, i + 1, decode);
        return Err(LineNotHex);
      }
      var result: Option<Decoded> := None;
      if buf.value != [] {
        var frame := DecodeFrame(buf.value, key.value, aes);
        if frame.Found? {
          result := Some(Decoded(frame.reading, LastN(line, 20), FrameTypeText(buf.value[0]), MinewUri));
        }
      }
      assert decode(lines[i]) == Ok(result);
      ghost var next := all + [result];
      CollectNext(lines, i, decode, all);
      PresentNext(all, result);
      if result.Some? {
        results := results + [result.value];
      }
      assert Collect(lines[..i + 1], decode) == Ok(next) && results == Present(next);
      all := next;
      i := i + 1;
    }
    assert lines[..i] == lines;
    r := Ok(results);
  }
}
