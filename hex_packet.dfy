/**
 * old/hex.py: decoding of one BLE advertising packet given as hex. The
 * packet is a header (flags, MAC address, one reserved byte) followed by
 * advertising data: a run of AD structures, each a length byte, a type
 * byte and length−1 bytes of data (Bluetooth Core Specification, Vol 3,
 * Part C, Section 11). The Manufacturer Specific Data structure, type 0xFF
 * (Core Specification Supplement, Part A, Section 1.4), starts with the
 * company identifier, little-endian. AES decryption under the script's
 * fixed key is the parameter `aes`.
 */
module HexPacket {
  import opened Wrappers
  import opened Bytes

  /** Flags (1 byte), MAC address (6 bytes) and a reserved byte precede the advertising data. */
  const HeaderLength: nat := 8

  /** The AD type of Manufacturer Specific Data. */
  const ManufacturerSpecific: Byte := 0xFF

  /** Minew's company identifier. */
  const MinewCompanyId: nat := 0x0639

  /** The encrypted payload that follows the company identifier. */
  const PayloadLength: nat := 24

  /** MAC_ADDRESS, attached to every decoded reading. */
  const MacAddress: string := "ac:23:3f:ae:30:40"

  /** An AES block. */
  type Block = b: seq<Byte> | |b| == 16 witness [0, 0, 0, 0, 0, 0, 0, 0, 0, 0, 0, 0, 0, 0, 0, 0]

  /**
   * The AD walk from `pos`: it stops at a zero length or at a structure
   * that runs past the end, and yields the data of the first structure of
   * type 0xFF.
   */
  function Walk(adv: seq<Byte>, pos: nat): Option<seq<Byte>>
    decreases |adv| - pos
  {
    if pos >= |adv| then None
    else
      var length := adv[pos];
      if length == 0 || pos + length + 1 > |adv| then None
      else if adv[pos + 1] == ManufacturerSpecific then Some(adv[pos + 2..pos + 1 + length])
      else Walk(adv, pos + 1 + length)
  }

  /** One AD structure: its type and its data. */
  datatype AdStructure = AdStructure(adType: Byte, data: seq<Byte>)

  /** A structure whose length byte, data length plus one, fits in a byte. */
  predicate Encodable(s: AdStructure) { |s.data| < 255 }

  /** One structure as it is sent: its length byte, its type and its data. */
  function Framed(s: AdStructure): (r: seq<Byte>)
    requires Encodable(s)
    ensures |r| == |s.data| + 2 && r[0] == |s.data| + 1 && r[1] == s.adType && r[2..] == s.data
  {
    var length: Byte := |s.data| + 1;
    [length, s.adType] + s.data
  }

  /** The advertising data that carries the structures in order. */
  function EncodeAd(ss: seq<AdStructure>): seq<Byte>
    requires forall i :: 0 <= i < |ss| ==> Encodable(ss[i])
  {
    if ss == [] then []
    else
      assert Encodable(ss[0]);
      Framed(ss[0]) + EncodeAd(ss[1..])
  }

  /** The data of the first Manufacturer Specific Data structure. */
  function FirstManufacturerData(ss: seq<AdStructure>): Option<seq<Byte>>
  {
    if ss == [] then None
    else if ss[0].adType == ManufacturerSpecific then Some(ss[0].data)
    else FirstManufacturerData(ss[1..])
  }

  /**
   * Walking well-formed advertising data finds exactly the data of the
   * first Manufacturer Specific Data structure, whatever bytes precede the
   * walk's starting point.
   */
  lemma {:induction false} WalkEncoded(pre: seq<Byte>, ss: seq<AdStructure>)
    requires forall i :: 0 <= i < |ss| ==> Encodable(ss[i])
    ensures Walk(pre + EncodeAd(ss), |pre|) == FirstManufacturerData(ss)
    decreases |ss|
  {
    if ss != [] {
      var s := ss[0];
      assert Encodable(s);
      var rest := EncodeAd(ss[1..]);
      assert EncodeAd(ss) == Framed(s) + rest;
      assert pre + EncodeAd(ss) == (pre + Framed(s)) + rest;
      WalkOneStructure(pre, s, rest);
      if s.adType != ManufacturerSpecific {
        WalkEncoded(pre + Framed(s), ss[1..]);
      }
    }
  }

  /** The walk reads one structure and either yields its data or moves past it. */
  lemma WalkOneStructure(pre: seq<Byte>, s: AdStructure, rest: seq<Byte>)
    requires Encodable(s)
    ensures var adv := (pre + Framed(s)) + rest;
      Walk(adv, |pre|) ==
        if s.adType == ManufacturerSpecific then Some(s.data) else Walk(adv, |pre + Framed(s)|)
  {
    var f := Framed(s);
    var adv := (pre + f) + rest;
    InsideAt(pre, f, rest);
    WalkAt(adv, |pre|);
  }

  /** Where a piece sits inside the data, its bytes are the piece's. */
  lemma InsideAt(pre: seq<Byte>, f: seq<Byte>, rest: seq<Byte>)
    requires |f| >= 2
    ensures var adv := (pre + f) + rest;
      && |adv| == |pre| + |f| + |rest|
      && adv[|pre|] == f[0] && adv[|pre| + 1] == f[1]
      && adv[|pre| + 2..|pre| + |f|] == f[2..]
  {
    var adv := (pre + f) + rest;
    assert adv[|pre| + 2..|pre| + |f|] == f[2..];
  }

  /** One step of the walk over a structure that fits. */
  lemma WalkAt(adv: seq<Byte>, pos: nat)
    requires pos + 1 < |adv| && adv[pos] != 0 && pos + adv[pos] as int + 1 <= |adv|
    ensures Walk(adv, pos) ==
      if adv[pos + 1] == ManufacturerSpecific then Some(adv[pos + 2..pos + 1 + adv[pos] as int])
      else Walk(adv, pos + 1 + adv[pos] as int)
  {
  }

  /** The two formats struct.unpack is asked for: h (signed) and H (unsigned) 16-bit fields, with an optional byte order. */
  function Unpack(fmt: string, bs: seq<Byte>): (r: Option<seq<int>>)
    ensures r.Some? ==> |bs| == 2 * |r.value|
  {
    var little := !(fmt != [] && fmt[0] == '>');
    var codes := if fmt != [] && (fmt[0] == '<' || fmt[0] == '>') then fmt[1..] else fmt;
    if !(forall i :: 0 <= i < |codes| ==> codes[i] == 'h' || codes[i] == 'H') then None
    else if |bs| != 2 * |codes| then None  // struct.error: unpack requires a buffer of calcsize bytes
    else
      Some(seq(|codes|, i requires 0 <= i < |codes| =>
        var pair := bs[2 * i..2 * i + 2];
        var raw := if little then LittleEndian(pair) else BigEndian(pair);
        if codes[i] == 'h' && raw >= 0x8000 then raw - 0x1_0000 else raw))
  }

  /** One entry of `attempts`. */
  datatype Attempt = Attempt(offsets: (nat, nat), format: string, scale: int)

  /** The three layouts parse_sensor_data tries, in order. */
  const Attempts: seq<Attempt> := [
    Attempt((5, 7), ">hH", 100),
    Attempt((0, 2), "<hH", 100),
    Attempt((0, 2), ">hH", 10)
  ]

  /** The dictionary parse_sensor_data returns. */
  datatype SensorData = SensorData(temperature: real, humidity: real, battery: Option<Byte>, format: Attempt)

  /** One attempt: None where the Python raises and the loop goes on. */
  function TryAttempt(a: Attempt, d: seq<Byte>): Option<SensorData>
  {
    if a.format == [] || a.scale == 0 then None
    else
      var (tStart, hStart) := a.offsets;
      match Unpack(a.format, Slice(d, tStart, tStart + 2))
      case None => None
      case Some(t) =>
        match Unpack([a.format[|a.format| - 1]], Slice(d, hStart, hStart + 2))
        case None => None
        case Some(h) =>
          if t == [] || h == [] then None
          else
            var battery := if hStart + 2 < |d| then Some(d[hStart + 2]) else None;
            Some(SensorData(t[0] as real / a.scale as real, h[0] as real / a.scale as real, battery, a))
  }

  /** The first attempt that does not raise, if any. */
  function FirstSuccess(attempts: seq<Attempt>, d: seq<Byte>): Option<SensorData>
  {
    if attempts == [] then None
    else
      match TryAttempt(attempts[0], d)
      case Some(r) => Some(r)
      case None => FirstSuccess(attempts[1..], d)
  }

  /** parse_sensor_data(decrypted). */
  function ParseSensorData(d: seq<Byte>): Option<SensorData>
  {
    FirstSuccess(Attempts, d)
  }

  /**
   * Every attempt unpacks two 16-bit fields (four bytes) from a slice of at
   * most two bytes, so every attempt raises and parse_sensor_data returns
   * None for every input.
   */
  lemma ParseSensorDataAlwaysNone(d: seq<Byte>)
    ensures ParseSensorData(d) == None
  {
    forall a | a in Attempts
      ensures TryAttempt(a, d) == None
    {
      var (tStart, _) := a.offsets;
      UnpackNeedsFourBytes(a.format, Slice(d, tStart, tStart + 2));
    }
    assert Attempts[1..][1..][1..] == [];
    assert FirstSuccess(Attempts[1..][1..][1..], d) == None;
    assert FirstSuccess(Attempts[1..][1..], d) == None;
    assert FirstSuccess(Attempts[1..], d) == None;
  }

  /** A format of two 16-bit fields cannot be unpacked from fewer than four bytes. */
  lemma UnpackNeedsFourBytes(fmt: string, bs: seq<Byte>)
    requires fmt == ">hH" || fmt == "<hH"
    requires |bs| <= 2
    ensures Unpack(fmt, bs) == None
  {
    assert fmt[1..] == "hH";
  }

  /** Why process_packet returns None before decryption. */
  datatype Rejection = NotHex | TooShort | NoManufacturerData | OtherCompany | WrongPayloadLength

  /** The steps of process_packet up to the encrypted payload. */
  function EncryptedPayload(packetHex: string): (r: Result<seq<Byte>, Rejection>)
    ensures r.Ok? ==> |r.value| == PayloadLength
  {
    match FromHex(packetHex)
    case None => Err(NotHex)
    case Some(data) =>
      if |data| < HeaderLength then Err(TooShort)
      else
        match Walk(data[HeaderLength..], 0)
        case None => Err(NoManufacturerData)
        case Some(md) =>
          if md == [] then Err(NoManufacturerData)
          else if LittleEndian(Slice(md, 0, 2)) != MinewCompanyId then Err(OtherCompany)
          else if |md| < 2 || |md[2..]| != PayloadLength then Err(WrongPayloadLength)
          else Ok(md[2..])
  }

  /** The reading process_packet returns: parse_sensor_data's dictionary with the MAC added. */
  datatype PacketReading = PacketReading(data: SensorData, mac: string)

  /** process_packet(packet_hex). */
  function ProcessPacketSpec(packetHex: string, aes: Block -> Block): Option<PacketReading>
  {
    match EncryptedPayload(packetHex)
    case Err(_) => None
    case Ok(payload) =>
      match ParseSensorData(aes(payload[..16]))
      case None => None
      case Some(s) => Some(PacketReading(s, MacAddress))
  }

  /** process_packet never returns a reading: parse_sensor_data always returns None. */
  lemma ProcessPacketAlwaysNone(packetHex: string, aes: Block -> Block)
    ensures ProcessPacketSpec(packetHex, aes) == None
  {
    match EncryptedPayload(packetHex)
    case Err(_) =>
    case Ok(payload) => ParseSensorDataAlwaysNone(aes(payload[..16]));
  }

  /**
   * A well-formed Minew packet reaches decryption: after an 8-byte header,
   * advertising data whose first Manufacturer Specific Data structure
   * holds Minew's company id, little-endian, and 24 bytes yields exactly
   * those 24 bytes.
   */
  lemma MinewPacketReachesDecryption(header: seq<Byte>, ss: seq<AdStructure>, payload: seq<Byte>)
    requires |header| == HeaderLength && |payload| == PayloadLength
    requires forall i :: 0 <= i < |ss| ==> Encodable(ss[i])
    requires FirstManufacturerData(ss) == Some([0x39, 0x06] + payload)
    ensures EncryptedPayload(Hex(header + EncodeAd(ss))) == Ok(payload)
  {
    var data := header + EncodeAd(ss);
    FromHexOfHex(data);
    assert data[HeaderLength..] == [] + EncodeAd(ss);
    WalkEncoded([], ss);
    MinewData(payload);
  }

  /** Minew's company id, little-endian, then the payload: the checks pass and the payload is what follows. */
  lemma MinewData(payload: seq<Byte>)
    ensures var md := [0x39, 0x06] + payload;
      && LittleEndian(Slice(md, 0, 2)) == MinewCompanyId && |md| >= 2 && md[2..] == payload
  {
    var md := [0x39, 0x06] + payload;
    assert Slice(md, 0, 2) == [0x39, 0x06];
    assert LittleEndian([0x06]) == 6;
  }

  /** Text that is not hex, and data shorter than the header, are rejected before the walk. */
  lemma EarlyRejections(packetHex: string)
    ensures FromHex(packetHex).None? ==> EncryptedPayload(packetHex) == Err(NotHex)
    ensures FromHex(packetHex).Some? && |FromHex(packetHex).value| < HeaderLength ==> EncryptedPayload(packetHex) == Err(TooShort)
  {
  }

  /** process_packet: the AD walk as the loop the script runs, then the checks. */
  method ProcessPacket(packetHex: string, aes: Block -> Block) returns (r: Option<PacketReading>)
    ensures r == ProcessPacketSpec(packetHex, aes)
  {
    var data := FromHex(packetHex);
    if data.None? || |data.value| < HeaderLength {
      return None;
    }
    var adv := data.value[HeaderLength..];
    var pos := 0;
    var manufacturerData: Option<seq<Byte>> := None;
    while pos < |adv|
      invariant Walk(adv, pos) == Walk(adv, 0)
      decreases |adv| - pos
    {
      var length := adv[pos];
      if length == 0 || pos + length + 1 > |adv| {
        break;
      }
      var adType := adv[pos + 1];
      if adType == ManufacturerSpecific {
        manufacturerData := Some(adv[pos + 2..pos + 1 + length]);
        break;
      }
      pos := pos + 1 + length;
    }
    assert manufacturerData == Walk(adv, 0);
    if manufacturerData.None? || manufacturerData.value == [] {
      return None;
    }
    var md := manufacturerData.value;
    if LittleEndian(Slice(md, 0, 2)) != MinewCompanyId {
      return None;
    }
    var encrypted := if |md| >= 2 then md[2..] else [];
    if |encrypted| != PayloadLength {
      return None;
    }
    var decrypted := aes(encrypted[..16]);
    var sensorData := ParseSensorData(decrypted);
    if sensorData.Some? {
      return Some(PacketReading(sensorData.value, MacAddress));
    }
    return None;
  }
}
