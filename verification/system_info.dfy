/** SystemInfoPayload.java: the answer to the system-info command. A fixed
    39-byte block (ids, energy counters, inverter counts, channel) is
    followed by two length-prefixed strings, the firmware version and the
    time zone, each behind a three-digit decimal length. */
module SystemInfo {
  import opened Results
  import opened JavaPrims
  import opened BinaryTools

  /** Bytes of the fixed block, up to the version length field. */
  const FIXED_SIZE: nat := 39

  const NOT_YET_IMPLEMENTED: string := "not yet implemented"

  /** The decoded payload. Energies stay raw: lifetime energy is in 0.1 kWh
      steps and today's energy in 0.01 kWh steps (see the scaled views). */
  datatype Info = Info(
    ecuId: string,
    ecuModel: string,
    lifeTimeEnergyRaw: int,
    lastSystemPower: int,
    currentDayEnergyRaw: int,
    lastTimeConnectedEMA: string,
    noOfInverters: int,
    invertersOnline: int,
    ecuChannel: string,
    version: string,
    timeZone: string,
    ethernetMAC: string,
    wirelessMAC: string)

  /** The field values a payload holds before createFromBytes fills it in. */
  const INITIAL: Info := Info("unknown", "unknown", 0, 0, 0, "nver", 0, 0, "unknown", "unknown", "unknown",
                              "not implemented", "not implemented")

  /** kWh: the raw reading counts tenths of a kWh (exact, without float rounding). */
  function LifeTimeEnergy(x: Info): (kwh: real)
    ensures kwh * 10.0 == x.lifeTimeEnergyRaw as real
    ensures 0 <= x.lifeTimeEnergyRaw ==> 0.0 <= kwh
  {
    x.lifeTimeEnergyRaw as real / 10.0
  }

  /** kWh: the raw reading counts hundredths of a kWh (exact, without float rounding). */
  function CurrentDayEnergy(x: Info): (kwh: real)
    ensures kwh * 100.0 == x.currentDayEnergyRaw as real
    ensures 0 <= x.currentDayEnergyRaw ==> 0.0 <= kwh
  {
    x.currentDayEnergyRaw as real / 100.0
  }

  /** The fixed block. Each copy fails only when it starts past the end; a
      copy that runs past the end is zero-padded. Bytes 26..33 are copied and
      dropped, so the time the ECU last reached the EMA service stays "nver". */
  function DecodeFixed(b: seq<uint8>): (r: Result<Info>)
    ensures r.Ok? <==> 37 <= |b|
    ensures r.Ok? && FIXED_SIZE <= |b| ==>
      && r.value.ecuId == AsciiDecode(b[..12])
      && r.value.ecuModel == AsciiDecode(b[12..14])
      && r.value.lifeTimeEnergyRaw == ToInt32(UnsignedBE(b[14..18]))
      && r.value.lastSystemPower == ToInt32(UnsignedBE(b[18..22]))
      && r.value.currentDayEnergyRaw == ToInt32(UnsignedBE(b[22..26]))
      && r.value.noOfInverters == UnsignedBE(b[33..35])
      && r.value.invertersOnline == UnsignedBE(b[35..37])
      && r.value.ecuChannel == AsciiDecode(b[37..39])
    ensures r.Ok? ==> r.value.lastTimeConnectedEMA == "nver"
  {
    var id := AsciiDecode(CopyOfRange(b, 0, 12).value);
    var model :- CopyOfRange(b, 12, 14);
    var lifeTime :- CopyOfRange(b, 14, 18);
    var power :- CopyOfRange(b, 18, 22);
    var today :- CopyOfRange(b, 22, 26);
    var _ :- CopyOfRange(b, 26, 33);
    var inverters :- CopyOfRange(b, 33, 35);
    var online :- CopyOfRange(b, 35, 37);
    var channel :- CopyOfRange(b, 37, 39);
    Ok(INITIAL.(ecuId := id, ecuModel := AsciiDecode(model),
                lifeTimeEnergyRaw := FourBytesToInt(lifeTime),
                lastSystemPower := FourBytesToInt(power),
                currentDayEnergyRaw := FourBytesToInt(today),
                noOfInverters := TwoBytesToInt(inverters),
                invertersOnline := TwoBytesToInt(online),
                ecuChannel := AsciiDecode(channel)))
  }

  /** A string behind a three-character decimal length at byte `at`, and
      the position after it. A negative length makes the string's copy an
      illegal range; a length field that runs past the end reads NULs and
      does not parse; the string itself is zero-padded when cut short. */
  function ReadLengthPrefixed(b: seq<uint8>, at: int): (r: Result<(string, int)>)
    ensures r.Ok? ==> 0 <= at && at + 3 <= |b|
    ensures r.Ok? ==> r.value.1 == at + 3 + |r.value.0|
  {
    var lengthBytes :- CopyOfRange(b, at, at + 3);
    var length :- ParseInt(AsciiDecode(lengthBytes));
    var text :- CopyOfRange(b, at + 3, at + 3 + length);
    Ok((AsciiDecode(text), at + 3 + length))
  }

  /** A field that reads: its three length bytes parse to the text's
      length, and the text is the (zero-padded) copy after them. */
  lemma ReadLengthPrefixedFields(b: seq<uint8>, at: int)
    requires ReadLengthPrefixed(b, at).Ok?
    ensures var (text, next) := ReadLengthPrefixed(b, at).value;
      && 0 <= at && at + 3 <= |b|
      && ParseInt(AsciiDecode(b[at..at + 3])) == Ok(|text|)
      && text == AsciiDecode(CopyOfRange(b, at + 3, next).value)
  {
    CopyOfRangeWithin(b, at, at + 3);
  }

  /** The version (length field at byte 39) and then the time zone. */
  function DecodeVersionAndZone(b: seq<uint8>): (r: Result<(string, string)>)
    ensures r.Ok? ==> 42 <= |b|
    ensures r.Ok? ==>
      var n := |r.value.0|;
      && ParseInt(AsciiDecode(b[39..42])) == Ok(n) && 45 + n <= |b|
      && r.value.0 == AsciiDecode(b[42..42 + n])
      && ParseInt(AsciiDecode(b[42 + n..45 + n])) == Ok(|r.value.1|)
      && r.value.1 == AsciiDecode(CopyOfRange(b, 45 + n, 45 + n + |r.value.1|).value)
  {
    var (version, pos) :- ReadLengthPrefixed(b, FIXED_SIZE);
    var (zone, _) :- ReadLengthPrefixed(b, pos);
    ReadLengthPrefixedFields(b, FIXED_SIZE);
    ReadLengthPrefixedFields(b, pos);
    CopyOfRangeWithin(b, FIXED_SIZE + 3, pos);
    Ok((version, zone))
  }

  /** SystemInfoPayload.createFromBytes. */
  function Decode(b: seq<uint8>): (r: Result<Info>)
    ensures r.Ok? ==> 42 <= |b|
    ensures r.Ok? ==> r.value.ethernetMAC == NOT_YET_IMPLEMENTED && r.value.wirelessMAC == NOT_YET_IMPLEMENTED
    ensures r.Ok? ==> r.value.lastTimeConnectedEMA == "nver"
    ensures r.Ok? ==>
      && r.value.ecuId == AsciiDecode(b[..12])
      && r.value.ecuModel == AsciiDecode(b[12..14])
      && r.value.lifeTimeEnergyRaw == ToInt32(UnsignedBE(b[14..18]))
      && r.value.lastSystemPower == ToInt32(UnsignedBE(b[18..22]))
      && r.value.currentDayEnergyRaw == ToInt32(UnsignedBE(b[22..26]))
      && r.value.noOfInverters == UnsignedBE(b[33..35])
      && r.value.invertersOnline == UnsignedBE(b[35..37])
      && r.value.ecuChannel == AsciiDecode(b[37..39])
    ensures r.Ok? ==>
      var n := |r.value.version|;
      && ParseInt(AsciiDecode(b[39..42])) == Ok(n) && 45 + n <= |b|
      && r.value.version == AsciiDecode(b[42..42 + n])
      && ParseInt(AsciiDecode(b[42 + n..45 + n])) == Ok(|r.value.timeZone|)
      && r.value.timeZone == AsciiDecode(CopyOfRange(b, 45 + n, 45 + n + |r.value.timeZone|).value)
  {
    var fixed :- DecodeFixed(b);
    var (version, zone) :- DecodeVersionAndZone(b);
    Ok(fixed.(version := version, timeZone := zone,
              ethernetMAC := NOT_YET_IMPLEMENTED, wirelessMAC := NOT_YET_IMPLEMENTED))
  }

  /** The inputs that decode: the version length field lies inside the
      buffer and holds a non-negative int, the time-zone length field after
      the version lies inside too and holds a non-negative int. */
  predicate Layout(b: seq<uint8>) {
    && 42 <= |b|
    && var versionLength := ParseInt(AsciiDecode(b[39..42]));
    && versionLength.Ok? && 0 <= versionLength.value && 45 + versionLength.value <= |b|
    && var zoneLength := ParseInt(AsciiDecode(b[42 + versionLength.value..45 + versionLength.value]));
    && zoneLength.Ok? && 0 <= zoneLength.value
  }

  /** A three-character length field cut by the end of the buffer reads at
      least one NUL and is rejected by parseInt. */
  lemma CutLengthFieldFails(b: seq<uint8>, from: int)
    requires 0 <= from <= |b| < from + 3
    ensures ParseInt(AsciiDecode(CopyOfRange(b, from, from + 3).value)).Fail?
  {
    var s := AsciiDecode(CopyOfRange(b, from, from + 3).value);
    assert s[2] == 0 as char;
    assert s[1..][1] == s[2];
  }

  lemma {:induction false} DecodeSucceedsIff(b: seq<uint8>)
    ensures Decode(b).Ok? <==> Layout(b)
  {
    DecodeOkOfStages(b);
    StagesOkIff(b);
  }

  /** Decode succeeds exactly when both of its stages do. */
  lemma DecodeOkOfStages(b: seq<uint8>)
    ensures Decode(b).Ok? <==> DecodeFixed(b).Ok? && DecodeVersionAndZone(b).Ok?
  {
  }

  lemma StagesOkIff(b: seq<uint8>)
    ensures DecodeFixed(b).Ok? && DecodeVersionAndZone(b).Ok? <==> Layout(b)
  {
    VersionAndZoneOk(b);
    ReadLengthPrefixedOk(b, FIXED_SIZE);
    var version := ReadLengthPrefixed(b, FIXED_SIZE);
    if version.Ok? {
      ReadLengthPrefixedFields(b, FIXED_SIZE);
      ReadLengthPrefixedOk(b, version.value.1);
    }
  }

  /** The second stage succeeds exactly when both fields read. */
  lemma VersionAndZoneOk(b: seq<uint8>)
    ensures DecodeVersionAndZone(b).Ok? <==>
      ReadLengthPrefixed(b, FIXED_SIZE).Ok? && ReadLengthPrefixed(b, ReadLengthPrefixed(b, FIXED_SIZE).value.1).Ok?
  {
  }

  /** A field at a position in the buffer reads exactly when its three
      length bytes are inside and hold a non-negative int. */
  lemma ReadLengthPrefixedOk(b: seq<uint8>, at: int)
    requires 0 <= at
    ensures ReadLengthPrefixed(b, at).Ok? <==>
      at + 3 <= |b| && ParseInt(AsciiDecode(b[at..at + 3])).Ok? && 0 <= ParseInt(AsciiDecode(b[at..at + 3])).value
  {
    if at <= |b| < at + 3 {
      CutLengthFieldFails(b, at);
    } else if at + 3 <= |b| {
      CopyOfRangeWithin(b, at, at + 3);
    }
  }

  // ---------------------------------------------------------------- encoding

  /** A payload an ECU can send and the decoder reproduces. */
  predicate ValidInfo(x: Info) {
    && |x.ecuId| == 12 && IsAscii(x.ecuId)
    && |x.ecuModel| == 2 && IsAscii(x.ecuModel)
    && INT_MIN <= x.lifeTimeEnergyRaw <= INT_MAX
    && INT_MIN <= x.lastSystemPower <= INT_MAX
    && INT_MIN <= x.currentDayEnergyRaw <= INT_MAX
    && x.lastTimeConnectedEMA == "nver"
    && 0 <= x.noOfInverters <= 0xFFFF
    && 0 <= x.invertersOnline <= 0xFFFF
    && |x.ecuChannel| == 2 && IsAscii(x.ecuChannel)
    && |x.version| < 1000 && IsAscii(x.version)
    && |x.timeZone| < 1000 && IsAscii(x.timeZone)
    && x.ethernetMAC == NOT_YET_IMPLEMENTED && x.wirelessMAC == NOT_YET_IMPLEMENTED
  }

  /** The fixed block; the seven EMA bytes are sent as zeros. */
  function EncodeFixed(x: Info): (b: seq<uint8>)
    requires ValidInfo(x)
    ensures |b| == FIXED_SIZE
  {
    AsciiEncode(x.ecuId) + AsciiEncode(x.ecuModel)
    + Int32BE(x.lifeTimeEnergyRaw) + Int32BE(x.lastSystemPower) + Int32BE(x.currentDayEnergyRaw)
    + Zeros(7) + Uint16BE(x.noOfInverters) + Uint16BE(x.invertersOnline) + AsciiEncode(x.ecuChannel)
  }

  /** A string behind its three-digit length. */
  function LengthPrefixed(s: string): (b: seq<uint8>)
    requires |s| < 1000 && IsAscii(s)
    ensures |b| == 3 + |s|
    ensures ParseInt(AsciiDecode(b[..3])) == Ok(|s|)
    ensures AsciiDecode(b[3..]) == s
  {
    assert Pow10(3) == 1000;
    ParseZeroPad(|s|, 3);
    var len := ZeroPad(|s|, 3);
    assert IsAscii(len);
    var b := AsciiEncode(len) + AsciiEncode(s);
    assert b[..3] == AsciiEncode(len) && b[3..] == AsciiEncode(s);
    b
  }

  /** The bytes an ECU sends for a payload. */
  function Encode(x: Info): (b: seq<uint8>)
    requires ValidInfo(x)
  {
    EncodeFixed(x) + LengthPrefixed(x.version) + LengthPrefixed(x.timeZone)
  }

  lemma EncodedFixedFields(x: Info)
    requires ValidInfo(x)
    ensures var e := EncodeFixed(x);
      && e[..12] == AsciiEncode(x.ecuId)
      && e[12..14] == AsciiEncode(x.ecuModel)
      && e[14..18] == Int32BE(x.lifeTimeEnergyRaw)
      && e[18..22] == Int32BE(x.lastSystemPower)
      && e[22..26] == Int32BE(x.currentDayEnergyRaw)
      && e[33..35] == Uint16BE(x.noOfInverters)
      && e[35..37] == Uint16BE(x.invertersOnline)
      && e[37..39] == AsciiEncode(x.ecuChannel)
  {
  }

  /** The fixed fields of `x`, as a decoded fixed block holds them. */
  function FixedOf(x: Info): Info {
    INITIAL.(ecuId := x.ecuId, ecuModel := x.ecuModel,
             lifeTimeEnergyRaw := x.lifeTimeEnergyRaw, lastSystemPower := x.lastSystemPower,
             currentDayEnergyRaw := x.currentDayEnergyRaw,
             noOfInverters := x.noOfInverters, invertersOnline := x.invertersOnline,
             ecuChannel := x.ecuChannel)
  }

  /** The fixed block decodes to its fields whatever follows it. */
  lemma DecodeFixedAt(x: Info, t: seq<uint8>)
    requires ValidInfo(x)
    ensures DecodeFixed(EncodeFixed(x) + t) == Ok(FixedOf(x))
  {
    FixedCopies(x, t);
    DecodeFixedOf(EncodeFixed(x) + t, x);
  }

  /** Each copy the decoder takes of an encoded fixed block is the encoded field. */
  lemma FixedCopies(x: Info, t: seq<uint8>)
    requires ValidInfo(x)
    ensures var b := EncodeFixed(x) + t;
      && CopyOfRange(b, 0, 12) == Ok(AsciiEncode(x.ecuId))
      && CopyOfRange(b, 12, 14) == Ok(AsciiEncode(x.ecuModel))
      && CopyOfRange(b, 14, 18) == Ok(Int32BE(x.lifeTimeEnergyRaw))
      && CopyOfRange(b, 18, 22) == Ok(Int32BE(x.lastSystemPower))
      && CopyOfRange(b, 22, 26) == Ok(Int32BE(x.currentDayEnergyRaw))
      && CopyOfRange(b, 33, 35) == Ok(Uint16BE(x.noOfInverters))
      && CopyOfRange(b, 35, 37) == Ok(Uint16BE(x.invertersOnline))
      && CopyOfRange(b, 37, 39) == Ok(AsciiEncode(x.ecuChannel))
  {
    var e := EncodeFixed(x);
    EncodedFixedFields(x);
    assert e + t == [] + e + t;
    assert e[0..12] == e[..12];
    CopyOfRangeMiddle([], e, t, 0, 12);
    CopyOfRangeMiddle([], e, t, 12, 14);
    CopyOfRangeMiddle([], e, t, 14, 18);
    CopyOfRangeMiddle([], e, t, 18, 22);
    CopyOfRangeMiddle([], e, t, 22, 26);
    CopyOfRangeMiddle([], e, t, 33, 35);
    CopyOfRangeMiddle([], e, t, 35, 37);
    CopyOfRangeMiddle([], e, t, 37, 39);
  }

  /** Fixed-block fields read from a buffer give the fixed part of `x`. */
  lemma DecodeFixedOf(b: seq<uint8>, x: Info)
    requires ValidInfo(x) && FIXED_SIZE <= |b|
    requires CopyOfRange(b, 0, 12) == Ok(AsciiEncode(x.ecuId))
    requires CopyOfRange(b, 12, 14) == Ok(AsciiEncode(x.ecuModel))
    requires CopyOfRange(b, 14, 18) == Ok(Int32BE(x.lifeTimeEnergyRaw))
    requires CopyOfRange(b, 18, 22) == Ok(Int32BE(x.lastSystemPower))
    requires CopyOfRange(b, 22, 26) == Ok(Int32BE(x.currentDayEnergyRaw))
    requires CopyOfRange(b, 33, 35) == Ok(Uint16BE(x.noOfInverters))
    requires CopyOfRange(b, 35, 37) == Ok(Uint16BE(x.invertersOnline))
    requires CopyOfRange(b, 37, 39) == Ok(AsciiEncode(x.ecuChannel))
    ensures DecodeFixed(b) == Ok(FixedOf(x))
  {
    Int32BEValue(x.lifeTimeEnergyRaw);
    Int32BEValue(x.lastSystemPower);
    Int32BEValue(x.currentDayEnergyRaw);
    TwoBytesRoundTrip(x.noOfInverters, Uint16BE(x.noOfInverters));
    TwoBytesRoundTrip(x.invertersOnline, Uint16BE(x.invertersOnline));
  }

  /** A length field and a text of that length, read from wherever they are. */
  lemma ReadLengthPrefixedOf(b: seq<uint8>, at: nat, len: seq<uint8>, text: seq<uint8>)
    requires CopyOfRange(b, at, at + 3) == Ok(len)
    requires ParseInt(AsciiDecode(len)) == Ok(|text|)
    requires CopyOfRange(b, at + 3, at + 3 + |text|) == Ok(text)
    ensures ReadLengthPrefixed(b, at) == Ok((AsciiDecode(text), at + 3 + |text|))
  {
  }

  /** A length-prefixed string reads back wherever it sits. */
  lemma ReadLengthPrefixedAt(p: seq<uint8>, s: string, t: seq<uint8>)
    requires |s| < 1000 && IsAscii(s)
    ensures ReadLengthPrefixed(p + LengthPrefixed(s) + t, |p|) == Ok((s, |p| + 3 + |s|))
  {
    ReadEncodedFieldAt(p, LengthPrefixed(s), s, t);
  }

  lemma ReadEncodedFieldAt(p: seq<uint8>, e: seq<uint8>, s: string, t: seq<uint8>)
    requires |e| == 3 + |s| && ParseInt(AsciiDecode(e[..3])) == Ok(|s|) && AsciiDecode(e[3..]) == s
    ensures ReadLengthPrefixed(p + e + t, |p|) == Ok((s, |p| + 3 + |s|))
  {
    var len, text := e[..3], e[3..];
    assert e == len + text;
    ReadFieldAt(p, len, text, t);
  }

  /** A length field followed by its text reads back as that text. */
  lemma ReadFieldAt(p: seq<uint8>, len: seq<uint8>, text: seq<uint8>, t: seq<uint8>)
    requires |len| == 3 && ParseInt(AsciiDecode(len)) == Ok(|text|)
    ensures ReadLengthPrefixed(p + (len + text) + t, |p|) == Ok((AsciiDecode(text), |p| + 3 + |text|))
  {
    var e := len + text;
    assert e[..3] == len && e[3..] == text;
    FieldAndText(p, e, t);
    ReadLengthPrefixedOf(p + e + t, |p|, len, text);
  }

  lemma FieldAndText(p: seq<uint8>, e: seq<uint8>, t: seq<uint8>)
    requires 3 <= |e|
    ensures CopyOfRange(p + e + t, |p|, |p| + 3) == Ok(e[..3])
    ensures CopyOfRange(p + e + t, |p| + 3, |p| + 3 + |e[3..]|) == Ok(e[3..])
  {
    CopyOfRangeMiddle(p, e, t, 0, 3);
    CopyOfRangeMiddle(p, e, t, 3, |e|);
    assert e[0..3] == e[..3] && e[3..|e|] == e[3..];
  }

  /** The two length-prefixed strings decode back, whatever follows them. */
  lemma DecodeVersionAndZoneAt(p: seq<uint8>, v: string, z: string, t: seq<uint8>)
    requires |p| == FIXED_SIZE
    requires |v| < 1000 && IsAscii(v) && |z| < 1000 && IsAscii(z)
    ensures DecodeVersionAndZone(p + LengthPrefixed(v) + LengthPrefixed(z) + t) == Ok((v, z))
  {
    var lv, lz := LengthPrefixed(v), LengthPrefixed(z);
    var b := p + lv + lz + t;
    assert b == p + lv + (lz + t);
    ReadLengthPrefixedAt(p, v, lz + t);
    ReadLengthPrefixedAt(p + lv, z, t);
  }

  /** The system-info round trip. Bytes after the time zone (where the
      ECU's MAC addresses would follow) are ignored. */
  lemma DecodeEncode(x: Info, t: seq<uint8>)
    requires ValidInfo(x)
    ensures Decode(Encode(x) + t) == Ok(x)
  {
    var b := Encode(x) + t;
    var f, lv, lz := EncodeFixed(x), LengthPrefixed(x.version), LengthPrefixed(x.timeZone);
    EncodeSplit(f, lv, lz, t);
    DecodeFixedAt(x, lv + lz + t);
    DecodeVersionAndZoneAt(f, x.version, x.timeZone, t);
    DecodeOfStages(b, DecodeFixed(b).value, x.version, x.timeZone);
    StagesRebuildInfo(x);
  }

  lemma EncodeSplit(f: seq<uint8>, lv: seq<uint8>, lz: seq<uint8>, t: seq<uint8>)
    ensures f + lv + lz + t == f + (lv + lz + t)
  {
  }

  /** The fixed fields, then the two texts and the two placeholders, make up a valid value again. */
  lemma StagesRebuildInfo(x: Info)
    requires ValidInfo(x)
    ensures FixedOf(x).(version := x.version, timeZone := x.timeZone,
                ethernetMAC := NOT_YET_IMPLEMENTED, wirelessMAC := NOT_YET_IMPLEMENTED) == x
  {
  }

  /** Decode is the fixed block with the two length-prefixed texts filled in. */
  lemma DecodeOfStages(b: seq<uint8>, fixed: Info, version: string, zone: string)
    requires DecodeFixed(b) == Ok(fixed) && DecodeVersionAndZone(b) == Ok((version, zone))
    ensures Decode(b) == Ok(fixed.(version := version, timeZone := zone,
                                   ethernetMAC := NOT_YET_IMPLEMENTED, wirelessMAC := NOT_YET_IMPLEMENTED))
  {
  }

  // ---------------------------------------------------------------- properties

  /** Two buffers of one length that agree on `[from, to)` give the same copy. */
  lemma CopyOfRangeAgree(a: seq<uint8>, a2: seq<uint8>, from: int, to: int)
    requires |a| == |a2|
    requires forall i :: 0 <= from <= i < to && i < |a| ==> a[i] == a2[i]
    ensures CopyOfRange(a, from, to) == CopyOfRange(a2, from, to)
  {
    var r, r2 := CopyOfRange(a, from, to), CopyOfRange(a2, from, to);
    if r.Ok? {
      assert r.value == r2.value;
    }
  }

  /** A length-prefixed read depends only on the bytes from its start on. */
  lemma ReadLengthPrefixedAgree(b: seq<uint8>, b2: seq<uint8>, at: int)
    requires |b| == |b2| && 0 <= at
    requires forall i :: at <= i < |b| ==> b[i] == b2[i]
    ensures ReadLengthPrefixed(b, at) == ReadLengthPrefixed(b2, at)
  {
    CopyOfRangeAgree(b, b2, at, at + 3);
    var lengthBytes := CopyOfRange(b, at, at + 3);
    if lengthBytes.Ok? {
      var length := ParseInt(AsciiDecode(lengthBytes.value));
      if length.Ok? {
        CopyOfRangeAgree(b, b2, at + 3, at + 3 + length.value);
      }
    }
  }

  /** The seven bytes at 26..33 are read and thrown away: nothing decoded
      depends on them. */
  lemma EmaBytesIgnored(p: seq<uint8>, m: seq<uint8>, m2: seq<uint8>, t: seq<uint8>)
    requires |p| == 26 && |m| == 7 && |m2| == 7
    ensures Decode(p + m + t) == Decode(p + m2 + t)
  {
    var b, b2 := p + m + t, p + m2 + t;
    assert forall i :: 0 <= i < 26 ==> b[i] == b2[i];
    assert forall i :: 33 <= i < |b| ==> b[i] == b2[i];
    CopyOfRangeAgree(b, b2, 0, 12);
    CopyOfRangeAgree(b, b2, 12, 14);
    CopyOfRangeAgree(b, b2, 14, 18);
    CopyOfRangeAgree(b, b2, 18, 22);
    CopyOfRangeAgree(b, b2, 22, 26);
    CopyOfRangeAgree(b, b2, 33, 35);
    CopyOfRangeAgree(b, b2, 35, 37);
    CopyOfRangeAgree(b, b2, 37, 39);
    assert DecodeFixed(b) == DecodeFixed(b2);
    ReadLengthPrefixedAgree(b, b2, FIXED_SIZE);
    var first := ReadLengthPrefixed(b, FIXED_SIZE);
    if first.Ok? {
      ReadLengthPrefixedAgree(b, b2, first.value.1);
    }
    assert DecodeVersionAndZone(b) == DecodeVersionAndZone(b2);
  }

  // ---------------------------------------------------------------- fixture

  /** The captured system-info response. */
  const EXAMPLE: Info := Info("216300090693", "01", 1150, 836, 343, "nver", 2, 2, "10",
                              "ECU_B_1.2.26E", "Etc/GMT-8", NOT_YET_IMPLEMENTED, NOT_YET_IMPLEMENTED)

  /** It is a payload an ECU can send, it decodes to itself, and its energies
      scale to the reported 115.0 kWh lifetime and 3.43 kWh today. */
  lemma Example()
    ensures ValidInfo(EXAMPLE) && Decode(Encode(EXAMPLE) + []) == Ok(EXAMPLE)
    ensures LifeTimeEnergy(EXAMPLE) == 115.0 && CurrentDayEnergy(EXAMPLE) == 3.43
  {
    assert ValidInfo(EXAMPLE);
    DecodeEncode(EXAMPLE, []);
  }
}
