/** RealtimeDataPayload.java and InverterRealtimeData.java: the realtime
    payload header (model, inverter count, BCD timestamp) and the
    per-inverter records that follow it. */
module Realtime {
  import opened Results
  import opened JavaPrims
  import opened BinaryTools
  import opened Constants

  /** A record is 13 bytes; a DS3 record carries 8 more. */
  const BASE_RECORD_SIZE: nat := 13
  const DS3_RECORD_SIZE: nat := 21

  /** The bytes a record of model `t` takes on the wire. */
  function RecordSize(t: InverterType): nat {
    if t == DS3 then DS3_RECORD_SIZE else BASE_RECORD_SIZE
  }

  /** One inverter's readings. Frequency and temperature stay raw; the
      scaled values are `Frequency` and `Temperature`. */
  datatype InverterRealtime = InverterRealtime(
    inverterId: string,
    state: InverterState,
    inverterType: InverterType,
    frequencyRaw: int,
    temperatureRaw: int,
    power1: int,
    acVoltage1: int,
    power2: int,
    acVoltage2: int)

  /** Hertz: the raw reading counts tenths of a hertz (exact, without float rounding). */
  function Frequency(x: InverterRealtime): (hz: real)
    ensures hz * 10.0 == x.frequencyRaw as real
    ensures 0 <= x.frequencyRaw ==> 0.0 <= hz
  {
    x.frequencyRaw as real / 10.0
  }

  /** Degrees Celsius from the raw Fahrenheit reading (exact, without float
      rounding): converting back to Fahrenheit gives the reading, and the
      freezing point maps to 0. */
  function Temperature(x: InverterRealtime): (celsius: real)
    ensures celsius * 9.0 / 5.0 + 32.0 == x.temperatureRaw as real
    ensures celsius < 0.0 <==> x.temperatureRaw < 32
  {
    (x.temperatureRaw - 32) as real * 5.0 / 9.0
  }

  datatype RealtimePayload = RealtimePayload(
    ecuModel: string,
    noOfInverters: int,
    realTimeDate: LocalDateTime,
    inverters: seq<InverterRealtime>)

  predicate StartsWith(s: string, prefix: string) {
    |prefix| <= |s| && s[..|prefix|] == prefix
  }

  /** Type code 1 covers two models; the id's first two digits tell them apart. */
  function ResolveType(t: InverterType, id: string): (r: InverterType)
    ensures r != YC600orDS3
    ensures t != YC600orDS3 ==> r == t
    ensures t == YC600orDS3 ==> (r == Y600 <==> StartsWith(id, "40"))
    ensures t == YC600orDS3 ==> (r == DS3 <==> StartsWith(id, "70"))
    ensures t == YC600orDS3 ==> (r == unknown <==> !StartsWith(id, "40") && !StartsWith(id, "70"))
  {
    if t != YC600orDS3 then t
    else if StartsWith(id, "40") then Y600
    else if StartsWith(id, "70") then DS3
    else unknown
  }

  /** The id, state and model of the record at byte `pos`. The state byte
      is read by direct index, so a record cut before it fails; a type field
      that runs past the end is padded with NULs and fails to parse. */
  function RecordHead(b: seq<uint8>, pos: nat): (r: Result<(string, InverterState, InverterType)>)
    ensures pos + 6 >= |b| ==> r.Fail?
    ensures r.Ok? ==> pos + 9 <= |b|
    ensures r.Ok? ==> r.value.1 == InverterStateFromInt(SignedByte(b[pos + 6]))
    ensures r.Ok? ==> r.value.2 != YC600orDS3
    ensures r.Ok? ==> r.value.0 == Bcd2Str(b[pos..pos + 6]).value
    ensures pos + 6 < |b| ==> (r.Ok? <==> ParseInt(AsciiDecode(CopyOfRange(b, pos + 7, pos + 9).value)).Ok?)
    ensures r.Ok? ==> ParseInt(AsciiDecode(b[pos + 7..pos + 9])).Ok?
    ensures r.Ok? ==> r.value.2 == ResolveType(InverterTypeFromInt(ParseInt(AsciiDecode(b[pos + 7..pos + 9])).value), r.value.0)
  {
    var idBytes :- CopyOfRange(b, pos, pos + 6);
    var id := Bcd2Str(idBytes).value;
    if pos + 6 >= |b| then Fail(IndexOutOfBounds(pos + 6))
    else
      var state := InverterStateFromInt(SignedByte(b[pos + 6]));
      var typeText := AsciiDecode(CopyOfRange(b, pos + 7, pos + 9).value);
      var code :- ParseInt(typeText);
      assert pos + 9 <= |b|;
      Ok((id, state, ResolveType(InverterTypeFromInt(code), id)))
  }

  /** The four DS3-only readings at byte `at`: power 1, voltage 1, power 2,
      voltage 2. Each copy reads past the end as zeros once it starts inside. */
  function Ds3Readings(b: seq<uint8>, at: nat): (r: Result<(int, int, int, int)>)
    ensures r.Ok? <==> at + 6 <= |b|
    ensures r.Ok? ==> (0 <= r.value.0 <= 0xFFFF && 0 <= r.value.1 <= 0xFFFF
                       && 0 <= r.value.2 <= 0xFFFF && 0 <= r.value.3 <= 0xFFFF)
    ensures r.Ok? ==> && r.value.0 == TwoBytesToInt(CopyOfRange(b, at, at + 2).value)
                      && r.value.1 == TwoBytesToInt(CopyOfRange(b, at + 2, at + 4).value)
                      && r.value.2 == TwoBytesToInt(CopyOfRange(b, at + 4, at + 6).value)
                      && r.value.3 == TwoBytesToInt(CopyOfRange(b, at + 6, at + 8).value)
  {
    var p1 :- CopyOfRange(b, at, at + 2);
    var v1 :- CopyOfRange(b, at + 2, at + 4);
    var p2 :- CopyOfRange(b, at + 4, at + 6);
    var v2 :- CopyOfRange(b, at + 6, at + 8);
    Ok((TwoBytesToInt(p1), TwoBytesToInt(v1), TwoBytesToInt(p2), TwoBytesToInt(v2)))
  }

  /** The record at byte `pos` and the position after it: the head, then
      frequency and temperature, then for a DS3 the four extra readings. */
  function DecodeRecord(b: seq<uint8>, pos: nat): (r: Result<(InverterRealtime, nat)>)
    ensures pos + 6 >= |b| ==> r.Fail?
    ensures r.Ok? ==> pos + 11 <= |b|
    ensures r.Ok? ==> r.value.0.state == InverterStateFromInt(SignedByte(b[pos + 6]))
    ensures r.Ok? ==> r.value.1 == pos + RecordSize(r.value.0.inverterType)
    ensures r.Ok? ==> WellFormed(r.value.0)
    ensures r.Ok? ==> RecordHead(b, pos) == Ok((r.value.0.inverterId, r.value.0.state, r.value.0.inverterType))
    ensures r.Ok? ==> r.value.0.inverterId == Bcd2Str(b[pos..pos + 6]).value
    ensures r.Ok? ==> ParseInt(AsciiDecode(b[pos + 7..pos + 9])).Ok?
    ensures r.Ok? ==> var code := ParseInt(AsciiDecode(b[pos + 7..pos + 9])).value;
              r.value.0.inverterType == ResolveType(InverterTypeFromInt(code), r.value.0.inverterId)
    ensures r.Ok? ==> r.value.0.frequencyRaw == UnsignedBE(b[pos + 9..pos + 11])
    ensures r.Ok? ==> r.value.0.temperatureRaw == TwoBytesToInt(CopyOfRange(b, pos + 11, pos + 13).value)
    ensures r.Ok? && r.value.0.inverterType == DS3 ==>
              Ds3Readings(b, pos + 13) == Ok((r.value.0.power1, r.value.0.acVoltage1, r.value.0.power2, r.value.0.acVoltage2))
    ensures RecordHead(b, pos).Fail? ==> r == Fail(RecordHead(b, pos).error)
    ensures RecordHead(b, pos).Ok? && RecordHead(b, pos).value.2 == DS3 && |b| < pos + 19 ==> r.Fail?
  {
    var (id, state, inverterType) :- RecordHead(b, pos);
    var frequency := TwoBytesToInt(CopyOfRange(b, pos + 9, pos + 11).value);
    var temperatureBytes :- CopyOfRange(b, pos + 11, pos + 13);
    var temperature := TwoBytesToInt(temperatureBytes);
    if inverterType == DS3 then
      var (p1, v1, p2, v2) :- Ds3Readings(b, pos + 13);
      Ok((InverterRealtime(id, state, inverterType, frequency, temperature, p1, v1, p2, v2), pos + DS3_RECORD_SIZE))
    else
      Ok((InverterRealtime(id, state, inverterType, frequency, temperature, 0, 0, 0, 0), pos + BASE_RECORD_SIZE))
  }

  /** Every numeric reading of a record fits the 16-bit field it came from. */
  predicate InRange(x: InverterRealtime) {
    && 0 <= x.frequencyRaw <= 0xFFFF && 0 <= x.temperatureRaw <= 0xFFFF
    && 0 <= x.power1 <= 0xFFFF && 0 <= x.acVoltage1 <= 0xFFFF
    && 0 <= x.power2 <= 0xFFFF && 0 <= x.acVoltage2 <= 0xFFFF
  }

  /** Records with no DS3 readings keep their power and voltage fields at zero. */
  predicate Resolved(x: InverterRealtime) {
    && x.inverterType != YC600orDS3
    && (x.inverterType != DS3 ==> x.power1 == 0 && x.acVoltage1 == 0 && x.power2 == 0 && x.acVoltage2 == 0)
  }

  /** What every decoded record satisfies: a resolved model and 16-bit readings. */
  predicate WellFormed(x: InverterRealtime) {
    Resolved(x) && InRange(x)
  }

  /** InverterRealtimeData.createFromBytes: `n` records from `pos` on, in
      wire order; the first failing record fails the list. */
  function DecodeInverters(b: seq<uint8>, pos: nat, n: nat): (r: Result<seq<InverterRealtime>>)
    ensures r.Ok? ==> |r.value| == n
    ensures r.Ok? ==> forall i :: 0 <= i < n ==> WellFormed(r.value[i])
    decreases n
  {
    if n == 0 then Ok([])
    else
      var first :- DecodeRecord(b, pos);
      var rest :- DecodeInverters(b, first.1, n - 1);
      Ok([first.0] + rest)
  }

  /** The eleven header bytes: ECU model, inverter count, BCD timestamp. */
  function DecodeHeader(b: seq<uint8>): (r: Result<(string, int, LocalDateTime)>)
    ensures r.Ok? ==> 4 <= |b|
    ensures r.Ok? ==> r.value.0 == AsciiDecode(b[..2])
    ensures r.Ok? ==> r.value.1 == UnsignedBE(b[2..4]) && 0 <= r.value.1 <= 0xFFFF
    ensures r.Ok? ==> ValidDateTime(r.value.2)
    ensures r.Ok? ==> BcdToDateTime(CopyOfRange(b, 4, 11).value) == Ok(r.value.2)
    ensures 4 <= |b| && BcdToDateTime(CopyOfRange(b, 4, 11).value).Fail? ==> r.Fail?
  {
    var model := AsciiDecode(CopyOfRange(b, 0, 2).value);
    var countBytes :- CopyOfRange(b, 2, 4);
    var count := TwoBytesToInt(countBytes);
    var timeBytes :- CopyOfRange(b, 4, 11);
    var time :- BcdToDateTime(timeBytes);
    Ok((model, count, time))
  }

  /** RealtimeDataPayload.createFromBytes: the header, then the records
      from byte 11 on; a failing header or record fails the payload. */
  function Decode(b: seq<uint8>): (r: Result<RealtimePayload>)
    ensures r.Ok? ==> 11 <= |b|
    ensures r.Ok? ==> r.value.ecuModel == AsciiDecode(b[..2])
    ensures r.Ok? ==> r.value.noOfInverters == UnsignedBE(b[2..4]) && 0 <= r.value.noOfInverters <= 0xFFFF
    ensures r.Ok? ==> |r.value.inverters| == r.value.noOfInverters
    ensures r.Ok? ==> ValidDateTime(r.value.realTimeDate)
    ensures r.Ok? ==> BcdToDateTime(b[4..11]) == Ok(r.value.realTimeDate)
    ensures r.Ok? ==> DecodeInverters(b[11..], 0, |r.value.inverters|) == Ok(r.value.inverters)
    ensures r.Ok? ==> forall i :: 0 <= i < |r.value.inverters| ==> WellFormed(r.value.inverters[i])
    ensures DecodeHeader(b).Fail? ==> r == Fail(DecodeHeader(b).error)
    ensures DecodeHeader(b).Ok? && |b| < 11 ==> r == Fail(CopyOfRange(b, 11, |b|).error)
    ensures DecodeHeader(b).Ok? && 11 <= |b| && DecodeInverters(b[11..], 0, DecodeHeader(b).value.1).Fail? ==>
              r == Fail(DecodeInverters(b[11..], 0, DecodeHeader(b).value.1).error)
  {
    var (model, count, time) :- DecodeHeader(b);
    var inverterBytes :- CopyOfRange(b, 11, |b|);
    assert inverterBytes == b[11..] by { CopyOfRangeWithin(b, 11, |b|); }
    var inverters :- DecodeInverters(inverterBytes, 0, count);
    Ok(RealtimePayload(model, count, time, inverters))
  }

  // ---------------------------------------------------------------- encoding

  /** A record an ECU can send and the decoder reproduces. */
  predicate ValidRecord(x: InverterRealtime) {
    ValidInverterId(x.inverterId) && WellFormed(x)
  }

  /** The state as the unsigned byte on the wire (-1 is 0xFF). */
  function StateByte(s: InverterState): (b: uint8)
    ensures InverterStateFromInt(SignedByte(b)) == s
  {
    (IntFromInverterState(s) + 256) % 256
  }

  function TypeField(t: InverterType): (s: string)
    ensures |s| == 2 && AllDigits(s)
    ensures ParseInt(s) == Ok(IntFromInverterType(t))
  {
    var code := IntFromInverterType(t);
    assert Pow10(2) == 100;
    ParseZeroPad(code, 2);
    ZeroPad(code, 2)
  }

  lemma DigitsAreAscii(s: string)
    requires AllDigits(s)
    ensures IsAscii(s)
  {
  }

  function EncodeRecord(x: InverterRealtime): (b: seq<uint8>)
    requires ValidRecord(x)
    ensures |b| == RecordSize(x.inverterType)
  {
    DigitsAreAscii(TypeField(x.inverterType));
    var head := BcdEncode(x.inverterId) + [StateByte(x.state)] + AsciiEncode(TypeField(x.inverterType))
                + Uint16BE(x.frequencyRaw) + Uint16BE(x.temperatureRaw);
    if x.inverterType == DS3 then
      head + Uint16BE(x.power1) + Uint16BE(x.acVoltage1) + Uint16BE(x.power2) + Uint16BE(x.acVoltage2)
    else head
  }

  /** Every record of the list is one an ECU can send. */
  predicate AllValid(xs: seq<InverterRealtime>) {
    |xs| == 0 || (ValidRecord(xs[0]) && AllValid(xs[1..]))
  }

  function EncodeInverters(xs: seq<InverterRealtime>): seq<uint8>
    requires AllValid(xs)
  {
    if |xs| == 0 then [] else EncodeRecord(xs[0]) + EncodeInverters(xs[1..])
  }

  /** The fields of an encoded record, at their offsets. */
  lemma EncodedRecordFields(x: InverterRealtime)
    requires ValidRecord(x)
    ensures var e := EncodeRecord(x);
      && e[0..6] == BcdEncode(x.inverterId)
      && e[6] == StateByte(x.state)
      && AsciiDecode(e[7..9]) == TypeField(x.inverterType)
      && e[9..11] == Uint16BE(x.frequencyRaw)
      && e[11..13] == Uint16BE(x.temperatureRaw)
      && (x.inverterType == DS3 ==>
            && e[13..15] == Uint16BE(x.power1) && e[15..17] == Uint16BE(x.acVoltage1)
            && e[17..19] == Uint16BE(x.power2) && e[19..21] == Uint16BE(x.acVoltage2))
  {
    DigitsAreAscii(TypeField(x.inverterType));
    var e := EncodeRecord(x);
    var id, tf := BcdEncode(x.inverterId), AsciiEncode(TypeField(x.inverterType));
    var f, t := Uint16BE(x.frequencyRaw), Uint16BE(x.temperatureRaw);
    var head := id + [StateByte(x.state)] + tf + f + t;
    assert e[..13] == head;
    assert head[0..6] == id;
    assert head[7..9] == tf;
    assert head[9..11] == f;
    assert head[11..13] == t;
    if x.inverterType == DS3 {
      var p1, v1 := Uint16BE(x.power1), Uint16BE(x.acVoltage1);
      var p2, v2 := Uint16BE(x.power2), Uint16BE(x.acVoltage2);
      assert e == head + p1 + v1 + p2 + v2;
      assert e[13..15] == p1;
      assert e[15..17] == v1;
      assert e[17..19] == p2;
      assert e[19..21] == v2;
    }
  }

  /** The head fields, read from wherever they are, give the record's head. */
  lemma RecordHeadOf(b: seq<uint8>, pos: nat, x: InverterRealtime)
    requires ValidRecord(x)
    requires CopyOfRange(b, pos, pos + 6) == Ok(BcdEncode(x.inverterId))
    requires pos + 6 < |b| && b[pos + 6] == StateByte(x.state)
    requires CopyOfRange(b, pos + 7, pos + 9).Ok?
    requires AsciiDecode(CopyOfRange(b, pos + 7, pos + 9).value) == TypeField(x.inverterType)
    ensures RecordHead(b, pos) == Ok((x.inverterId, x.state, x.inverterType))
  {
    Bcd2StrRoundTrip(x.inverterId);
    assert InverterTypeFromInt(IntFromInverterType(x.inverterType)) == x.inverterType;
  }

  lemma RecordHeadAt(p: seq<uint8>, x: InverterRealtime, t: seq<uint8>)
    requires ValidRecord(x)
    ensures RecordHead(p + EncodeRecord(x) + t, |p|) == Ok((x.inverterId, x.state, x.inverterType))
  {
    var e := EncodeRecord(x);
    EncodedRecordFields(x);
    CopyOfRangeMiddle(p, e, t, 0, 6);
    assert (p + e + t)[|p| + 6] == e[6];
    CopyOfRangeMiddle(p, e, t, 7, 9);
    RecordHeadOf(p + e + t, |p|, x);
  }

  lemma Ds3ReadingsAt(p: seq<uint8>, x: InverterRealtime, t: seq<uint8>)
    requires ValidRecord(x) && x.inverterType == DS3
    ensures Ds3Readings(p + EncodeRecord(x) + t, |p| + 13) == Ok((x.power1, x.acVoltage1, x.power2, x.acVoltage2))
  {
    var e := EncodeRecord(x);
    EncodedRecordFields(x);
    CopyOfRangeMiddle(p, e, t, 13, 15);
    CopyOfRangeMiddle(p, e, t, 15, 17);
    CopyOfRangeMiddle(p, e, t, 17, 19);
    CopyOfRangeMiddle(p, e, t, 19, 21);
    TwoBytesRoundTrip(x.power1, e[13..15]);
    TwoBytesRoundTrip(x.acVoltage1, e[15..17]);
    TwoBytesRoundTrip(x.power2, e[17..19]);
    TwoBytesRoundTrip(x.acVoltage2, e[19..21]);
  }

  /** The type field "01" parses to code 1. */
  lemma ParseCodeOne()
    ensures ParseInt("01") == Ok(1)
  {
    assert "01"[..1] == "0" && "0"[..0] == "";
    assert DigitsValue("01") == 1;
  }

  /** A head whose type field reads "01" takes its model from the id. */
  lemma WireCodeOneHead(id: string, state: uint8, tail: seq<uint8>)
    requires ValidInverterId(id)
    ensures var b := BcdEncode(id) + [state, '0' as uint8, '1' as uint8] + tail;
      RecordHead(b, 0) == Ok((id, InverterStateFromInt(SignedByte(state)), ResolveType(YC600orDS3, id)))
  {
    var b := BcdEncode(id) + [state, '0' as uint8, '1' as uint8] + tail;
    InverterIdRoundTrip(id);
    assert b[0..6] == BcdEncode(id);
    CopyOfRangeWithin(b, 0, 6);
    assert b[7..9] == ['0' as uint8, '1' as uint8];
    CopyOfRangeWithin(b, 7, 9);
    assert AsciiDecode(b[7..9]) == "01";
    ParseCodeOne();
  }

  /** A record whose type field reads "01" is as long as the model its id
      selects: 21 bytes for a DS3, 13 otherwise. */
  lemma WireCodeOneRecord(id: string, state: uint8, tail: seq<uint8>)
    requires ValidInverterId(id) && |tail| >= 12
    ensures var b := BcdEncode(id) + [state, '0' as uint8, '1' as uint8] + tail;
      DecodeRecord(b, 0).Ok? && DecodeRecord(b, 0).value.1 == RecordSize(ResolveType(YC600orDS3, id))
  {
    WireCodeOneHead(id, state, tail);
  }

  /** Type code "01" on the wire: an id starting "70" makes a 21-byte DS3
      record, one starting "40" a 13-byte Y600 record, any other an unknown
      13-byte record. */
  lemma WireCodeOneRecords(id: string, state: uint8, tail: seq<uint8>)
    requires ValidInverterId(id) && |tail| >= 12
    ensures var b := BcdEncode(id) + [state, '0' as uint8, '1' as uint8] + tail;
      var head := RecordHead(b, 0);
      && head.Ok? && head.value.0 == id && head.value.1 == InverterStateFromInt(SignedByte(state))
      && (StartsWith(id, "70") ==> head.value.2 == DS3 && DecodeRecord(b, 0).Ok? && DecodeRecord(b, 0).value.1 == DS3_RECORD_SIZE)
      && (StartsWith(id, "40") ==> head.value.2 == Y600 && DecodeRecord(b, 0).Ok? && DecodeRecord(b, 0).value.1 == BASE_RECORD_SIZE)
      && (!StartsWith(id, "70") && !StartsWith(id, "40") ==> head.value.2 == unknown && DecodeRecord(b, 0).Ok?)
  {
    WireCodeOneHead(id, state, tail);
    WireCodeOneRecord(id, state, tail);
  }

  /** The captured DS3, "707000017197", sent with type code "01". */
  lemma WireCodeOneDs3(state: uint8, tail: seq<uint8>)
    requires |tail| >= 12
    ensures var b := BcdEncode("707000017197") + [state, '0' as uint8, '1' as uint8] + tail;
      RecordHead(b, 0) == Ok(("707000017197", InverterStateFromInt(SignedByte(state)), DS3))
  {
    assert ValidInverterId("707000017197") && StartsWith("707000017197", "70");
    WireCodeOneRecords("707000017197", state, tail);
  }

  /** A record's fields, read from wherever they are, give the record. */
  lemma DecodeRecordOf(b: seq<uint8>, pos: nat, x: InverterRealtime)
    requires ValidRecord(x)
    requires RecordHead(b, pos) == Ok((x.inverterId, x.state, x.inverterType))
    requires CopyOfRange(b, pos + 9, pos + 11) == Ok(Uint16BE(x.frequencyRaw))
    requires CopyOfRange(b, pos + 11, pos + 13) == Ok(Uint16BE(x.temperatureRaw))
    requires x.inverterType == DS3 ==> Ds3Readings(b, pos + 13) == Ok((x.power1, x.acVoltage1, x.power2, x.acVoltage2))
    ensures DecodeRecord(b, pos) == Ok((x, pos + RecordSize(x.inverterType)))
  {
    TwoBytesRoundTrip(x.frequencyRaw, Uint16BE(x.frequencyRaw));
    TwoBytesRoundTrip(x.temperatureRaw, Uint16BE(x.temperatureRaw));
  }

  /** An encoded record decodes to itself wherever it sits in the buffer. */
  lemma DecodeRecordAt(p: seq<uint8>, x: InverterRealtime, t: seq<uint8>)
    requires ValidRecord(x)
    ensures DecodeRecord(p + EncodeRecord(x) + t, |p|) == Ok((x, |p| + |EncodeRecord(x)|))
  {
    RecordHeadAt(p, x, t);
    RecordReadingsAt(p, x, t);
    DecodeRecordOf(p + EncodeRecord(x) + t, |p|, x);
  }

  /** The readings of an encoded record, read where it sits in the buffer. */
  lemma RecordReadingsAt(p: seq<uint8>, x: InverterRealtime, t: seq<uint8>)
    requires ValidRecord(x)
    ensures var b := p + EncodeRecord(x) + t;
      && CopyOfRange(b, |p| + 9, |p| + 11) == Ok(Uint16BE(x.frequencyRaw))
      && CopyOfRange(b, |p| + 11, |p| + 13) == Ok(Uint16BE(x.temperatureRaw))
      && (x.inverterType == DS3 ==> Ds3Readings(b, |p| + 13) == Ok((x.power1, x.acVoltage1, x.power2, x.acVoltage2)))
  {
    var e := EncodeRecord(x);
    EncodedRecordFields(x);
    CopyOfRangeMiddle(p, e, t, 9, 11);
    CopyOfRangeMiddle(p, e, t, 11, 13);
    if x.inverterType == DS3 {
      Ds3ReadingsAt(p, x, t);
    }
  }

  /** A first record and the rest decoded after it make the list. */
  lemma DecodeInvertersCons(b: seq<uint8>, pos: nat, xs: seq<InverterRealtime>, next: nat)
    requires 0 < |xs|
    requires DecodeRecord(b, pos) == Ok((xs[0], next))
    requires DecodeInverters(b, next, |xs| - 1) == Ok(xs[1..])
    ensures DecodeInverters(b, pos, |xs|) == Ok(xs)
  {
    assert [xs[0]] + xs[1..] == xs;
  }

  lemma EncodeInvertersCons(xs: seq<InverterRealtime>)
    requires 0 < |xs| && AllValid(xs)
    ensures EncodeInverters(xs) == EncodeRecord(xs[0]) + EncodeInverters(xs[1..])
  {
  }

  /** `s` sits in `b` at byte `pos`. */
  predicate PlacedAt(b: seq<uint8>, pos: nat, s: seq<uint8>) {
    pos + |s| <= |b| && b[pos..pos + |s|] == s
  }

  lemma PlacedSplit(b: seq<uint8>, pos: nat, e: seq<uint8>, rest: seq<uint8>)
    requires PlacedAt(b, pos, e + rest)
    ensures PlacedAt(b, pos, e) && PlacedAt(b, pos + |e|, rest)
  {
    assert b[pos..pos + |e|] == (e + rest)[..|e|];
    assert b[pos + |e|..pos + |e| + |rest|] == (e + rest)[|e|..];
  }

  lemma PlacedParts(b: seq<uint8>, pos: nat, s: seq<uint8>)
    requires PlacedAt(b, pos, s)
    ensures b == b[..pos] + s + b[pos + |s|..]
  {
  }

  /** A record placed anywhere in a buffer decodes to itself. */
  lemma DecodeRecordPlaced(b: seq<uint8>, pos: nat, x: InverterRealtime)
    requires ValidRecord(x) && PlacedAt(b, pos, EncodeRecord(x))
    ensures DecodeRecord(b, pos) == Ok((x, pos + |EncodeRecord(x)|))
  {
    var e := EncodeRecord(x);
    PlacedParts(b, pos, e);
    DecodeRecordAt(b[..pos], x, b[pos + |e|..]);
  }

  /** An encoded list placed in a buffer: its first record decodes to
      itself, and the rest of the list is placed right after it. */
  lemma FirstRecordPlaced(b: seq<uint8>, pos: nat, xs: seq<InverterRealtime>)
    requires 0 < |xs| && AllValid(xs) && PlacedAt(b, pos, EncodeInverters(xs))
    ensures DecodeRecord(b, pos) == Ok((xs[0], pos + RecordSize(xs[0].inverterType)))
    ensures AllValid(xs[1..]) && PlacedAt(b, pos + RecordSize(xs[0].inverterType), EncodeInverters(xs[1..]))
  {
    var e := EncodeRecord(xs[0]);
    EncodeInvertersCons(xs);
    PlacedSplit(b, pos, e, EncodeInverters(xs[1..]));
    DecodeRecordPlaced(b, pos, xs[0]);
  }

  /** The record list round trip: exactly the encoded records, in wire order,
      wherever the list sits in the buffer. */
  lemma {:induction false} DecodeInvertersPlaced(b: seq<uint8>, pos: nat, xs: seq<InverterRealtime>)
    requires AllValid(xs) && PlacedAt(b, pos, EncodeInverters(xs))
    ensures DecodeInverters(b, pos, |xs|) == Ok(xs)
    decreases |xs|
  {
    if |xs| > 0 {
      var next := pos + RecordSize(xs[0].inverterType);
      FirstRecordPlaced(b, pos, xs);
      DecodeInvertersPlaced(b, next, xs[1..]);
      DecodeInvertersCons(b, pos, xs, next);
    } else {
      DecodeInvertersNil(b, pos, xs);
    }
  }

  lemma DecodeInvertersNil(b: seq<uint8>, pos: nat, xs: seq<InverterRealtime>)
    requires |xs| == 0
    ensures DecodeInverters(b, pos, |xs|) == Ok(xs)
  {
  }

  predicate ValidPayload(r: RealtimePayload) {
    && |r.ecuModel| == 2 && IsAscii(r.ecuModel)
    && r.noOfInverters == |r.inverters| <= 0xFFFF
    && ValidDateTime(r.realTimeDate) && r.realTimeDate.year >= 1000 && r.realTimeDate.nano == 0
    && AllValid(r.inverters)
  }

  /** The 11 header bytes: model, inverter count, BCD timestamp. */
  function EncodeHeader(r: RealtimePayload): (b: seq<uint8>)
    requires ValidPayload(r)
    ensures |b| == 11
  {
    BcdTimestampRoundTrip(r.realTimeDate);
    AsciiEncode(r.ecuModel) + Uint16BE(r.noOfInverters) + BcdEncode(Format14(r.realTimeDate))
  }

  /** The payload an ECU sends: the header, then the records. */
  function Encode(r: RealtimePayload): (b: seq<uint8>)
    requires ValidPayload(r)
  {
    EncodeHeader(r) + EncodeInverters(r.inverters)
  }

  lemma DecodeHeaderAt(r: RealtimePayload, recs: seq<uint8>)
    requires ValidPayload(r)
    ensures DecodeHeader(EncodeHeader(r) + recs) == Ok((r.ecuModel, r.noOfInverters, r.realTimeDate))
  {
    var h := EncodeHeader(r);
    var b := h + recs;
    EncodedHeaderFields(r);
    assert b[0..2] == h[0..2] && b[2..4] == h[2..4] && b[4..11] == h[4..11];
    BcdTimestampRoundTrip(r.realTimeDate);
    TwoBytesRoundTrip(r.noOfInverters, h[2..4]);
    DecodeHeaderOf(b, r.realTimeDate);
  }

  lemma EncodedHeaderFields(r: RealtimePayload)
    requires ValidPayload(r)
    ensures var h := EncodeHeader(r);
      && h[0..2] == AsciiEncode(r.ecuModel)
      && h[2..4] == Uint16BE(r.noOfInverters)
      && h[4..11] == BcdEncode(Format14(r.realTimeDate))
  {
    var m, c, ts := AsciiEncode(r.ecuModel), Uint16BE(r.noOfInverters), BcdEncode(Format14(r.realTimeDate));
    assert EncodeHeader(r) == m + c + ts;
  }

  /** Header fields in place give the header: the model and count as read,
      and the timestamp the BCD bytes name. */
  lemma DecodeHeaderOf(b: seq<uint8>, time: LocalDateTime)
    requires 11 <= |b| && BcdToDateTime(b[4..11]) == Ok(time)
    ensures DecodeHeader(b) == Ok((AsciiDecode(b[0..2]), TwoBytesToInt(b[2..4]), time))
  {
    CopyOfRangeWithin(b, 0, 2);
    CopyOfRangeWithin(b, 2, 4);
    CopyOfRangeWithin(b, 4, 11);
  }

  lemma RecordsAfterHeader(h: seq<uint8>, recs: seq<uint8>)
    requires |h| == 11
    ensures CopyOfRange(h + recs, 11, |h + recs|) == Ok(recs)
  {
    assert (h + recs)[11..|h + recs|] == recs;
  }

  /** The header, the records after it and their decoding give the payload. */
  lemma DecodeOfParts(b: seq<uint8>, r: RealtimePayload, recs: seq<uint8>)
    requires DecodeHeader(b) == Ok((r.ecuModel, r.noOfInverters, r.realTimeDate))
    requires CopyOfRange(b, 11, |b|) == Ok(recs)
    requires r.noOfInverters == |r.inverters|
    requires DecodeInverters(recs, 0, |r.inverters|) == Ok(r.inverters)
    ensures Decode(b) == Ok(r)
  {
  }

  /** The encoded records alone decode to themselves. */
  lemma DecodeInvertersOfEncoding(xs: seq<InverterRealtime>)
    requires AllValid(xs)
    ensures DecodeInverters(EncodeInverters(xs), 0, |xs|) == Ok(xs)
  {
    var b := EncodeInverters(xs);
    assert b[0..|b|] == b;
    DecodeInvertersPlaced(b, 0, xs);
  }

  /** The payload round trip: model, count, time and every record. */
  lemma DecodeEncode(r: RealtimePayload)
    requires ValidPayload(r)
    ensures Decode(Encode(r)) == Ok(r)
  {
    var recs := EncodeInverters(r.inverters);
    DecodeHeaderAt(r, recs);
    RecordsAfterHeader(EncodeHeader(r), recs);
    DecodeInvertersOfEncoding(r.inverters);
    DecodeOfParts(Encode(r), r, recs);
  }

  /** The first captured realtime response: two DS3 inverters at 2023-07-31 17:44:22. */
  const EXAMPLE_1: RealtimePayload := RealtimePayload("01", 2, LocalDateTime(2023, 7, 31, 17, 44, 22, 0), [
    InverterRealtime("707000017197", Online, DS3, 499, 139, 73, 237, 58, 237),
    InverterRealtime("702000337185", Online, DS3, 499, 136, 51, 238, 0, 238)])

  /** The third: the second inverter offline, every reading zero. */
  const EXAMPLE_3: RealtimePayload := RealtimePayload("01", 2, LocalDateTime(2023, 8, 6, 16, 0, 51, 0), [
    InverterRealtime("707000017197", Online, DS3, 499, 124, 42, 235, 41, 235),
    InverterRealtime("702000337185", Offline, DS3, 0, 100, 0, 0, 0, 0)])

  /** The first capture is a payload an ECU can send, decodes to itself, and
      scales to the readings reported for it: 49.9 Hz, 59.44 and 57.77
      degrees to two decimals. */
  lemma Example1()
    ensures ValidPayload(EXAMPLE_1) && Decode(Encode(EXAMPLE_1)) == Ok(EXAMPLE_1)
    ensures Frequency(EXAMPLE_1.inverters[0]) == 49.9
    ensures 59.44 <= Temperature(EXAMPLE_1.inverters[0]) < 59.45
    ensures 57.77 <= Temperature(EXAMPLE_1.inverters[1]) < 57.78
  {
    Example1Valid();
    DecodeEncode(EXAMPLE_1);
  }

  lemma Example1Valid()
    ensures ValidPayload(EXAMPLE_1)
  {
    assert ValidInverterId("707000017197") && ValidInverterId("702000337185");
  }

  /** The third capture likewise; its offline inverter reports 0 Hz, and the
      temperatures are 51.11 and 37.77 degrees to two decimals. */
  lemma Example3()
    ensures ValidPayload(EXAMPLE_3) && Decode(Encode(EXAMPLE_3)) == Ok(EXAMPLE_3)
    ensures Frequency(EXAMPLE_3.inverters[1]) == 0.0
    ensures 51.11 <= Temperature(EXAMPLE_3.inverters[0]) < 51.12
    ensures 37.77 <= Temperature(EXAMPLE_3.inverters[1]) < 37.78
  {
    Example3Valid();
    DecodeEncode(EXAMPLE_3);
  }

  lemma Example3Valid()
    ensures ValidPayload(EXAMPLE_3)
  {
    assert ValidInverterId("707000017197") && ValidInverterId("702000337185");
  }
}
