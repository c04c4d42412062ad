/** InverterSignalPayload.java: a run of 7-byte records, a 6-byte BCD
    inverter id followed by one signal-strength byte. */
module InverterSignal {
  import opened Results
  import opened JavaPrims
  import opened BinaryTools

  const RECORD_SIZE: nat := 7

  /** One entry of the list: the id and the raw signal reading (0..255). */
  datatype SignalEntry = SignalEntry(inverterId: string, rawSignal: int)

  /** The reported percentage, raw / 255 * 100 (exact, without float rounding). */
  function SignalPercent(raw: int): (p: real)
    requires 0 <= raw <= 255
    ensures 0.0 <= p <= 100.0
    ensures p == 0.0 <==> raw == 0
    ensures p == 100.0 <==> raw == 255
  {
    raw as real / 255.0 * 100.0
  }

  /** The records from byte `pos` on. A record cut short after its id still
      yields an entry (signal 0, from zero padding); one cut inside its id
      fails when the signal byte is copied from past the end. */
  function DecodeFrom(b: seq<uint8>, pos: nat): (r: Result<seq<SignalEntry>>)
    ensures pos >= |b| ==> r == Ok([])
    ensures pos < |b| ==> (r.Ok? <==> (|b| - pos) % RECORD_SIZE == 0 || (|b| - pos) % RECORD_SIZE == 6)
    ensures r.Ok? && pos <= |b| ==> |r.value| == (|b| - pos + 6) / RECORD_SIZE
    ensures r.Ok? ==> forall i :: 0 <= i < |r.value| ==> 0 <= r.value[i].rawSignal <= 255
    ensures r.Ok? ==> forall i :: 0 <= i < |r.value| ==> AllDigits(r.value[i].inverterId)
    decreases |b| - pos
  {
    if pos >= |b| then Ok([])
    else
      // a copy starting inside the payload cannot fail, nor can bcd2Str of six bytes
      var idBytes := CopyOfRange(b, pos, pos + 6).value;
      var id := Bcd2Str(idBytes).value;
      var signalBytes :- CopyOfRange(b, pos + 6, pos + 7);
      UnsignedBEBound(signalBytes);
      RecordCountStep(|b| - pos);
      var rest :- DecodeFrom(b, pos + 7);
      Ok([SignalEntry(id, TwoBytesToInt(signalBytes))] + rest)
  }

  /** How the remaining length decides the outcome of one more record. */
  lemma RecordCountStep(n: nat)
    requires 0 < n
    ensures n < 6 ==> n % RECORD_SIZE != 0 && n % RECORD_SIZE != 6
    ensures n == 6 ==> (n + 6) / RECORD_SIZE == 1 && n % RECORD_SIZE == 6
    ensures n >= RECORD_SIZE ==> n % RECORD_SIZE == (n - RECORD_SIZE) % RECORD_SIZE
                                 && (n + 6) / RECORD_SIZE == (n - RECORD_SIZE + 6) / RECORD_SIZE + 1
  {
  }

  /** InverterSignalPayload.createFromBytes. */
  function Decode(b: seq<uint8>): (r: Result<seq<SignalEntry>>)
    ensures r.Ok? <==> |b| % RECORD_SIZE == 0 || |b| % RECORD_SIZE == 6
    ensures r.Ok? ==> |r.value| == (|b| + 6) / RECORD_SIZE
  {
    DecodeFrom(b, 0)
  }

  /** The record at byte `at` holds entry `e`: the bcd2Str text of its six
      id bytes and the unsigned value of the byte after them, read as zero
      when the record ends after its id. */
  predicate RecordHolds(b: seq<uint8>, at: nat, e: SignalEntry) {
    && at + 6 <= |b|
    && e.inverterId == Bcd2Str(CopyOfRange(b, at, at + 6).value).value
    && e.rawSignal == TwoBytesToInt(CopyOfRange(b, at + 6, at + 7).value)
  }

  /** Entry `i` of a list decoded from `pos` is the record at `pos + 7 * i`. */
  predicate EntryAt(b: seq<uint8>, pos: nat, i: nat, e: SignalEntry) {
    RecordHolds(b, pos + RECORD_SIZE * i, e)
  }

  /** Every decoded entry comes from its own record, in wire order. */
  lemma {:induction false} DecodeFromEntries(b: seq<uint8>, pos: nat)
    requires DecodeFrom(b, pos).Ok?
    ensures var es := DecodeFrom(b, pos).value;
      forall i :: 0 <= i < |es| ==> EntryAt(b, pos, i, es[i])
    decreases |b| - pos
  {
    if pos < |b| {
      var es := DecodeFrom(b, pos).value;
      DecodeFromFirst(b, pos);
      DecodeFromEntries(b, pos + RECORD_SIZE);
      var rest := DecodeFrom(b, pos + RECORD_SIZE).value;
      assert EntryAt(b, pos, 0, es[0]) by { assert pos + RECORD_SIZE * 0 == pos; }
      forall i | 0 < i < |es|
        ensures EntryAt(b, pos, i, es[i])
      {
        EntryShift(b, pos, i, rest[i - 1]);
      }
    }
  }

  /** A non-empty decode is its first record followed by the decode after it. */
  lemma DecodeFromFirst(b: seq<uint8>, pos: nat)
    requires pos < |b| && DecodeFrom(b, pos).Ok?
    ensures DecodeFrom(b, pos + RECORD_SIZE).Ok?
    ensures var es := DecodeFrom(b, pos).value;
      && |es| > 0 && es == [es[0]] + DecodeFrom(b, pos + RECORD_SIZE).value
      && RecordHolds(b, pos, es[0])
  {
  }

  /** Record `i - 1` after `pos + 7` is record `i` after `pos`. */
  lemma EntryShift(b: seq<uint8>, pos: nat, i: nat, e: SignalEntry)
    requires 0 < i && EntryAt(b, pos + RECORD_SIZE, i - 1, e)
    ensures EntryAt(b, pos, i, e)
  {
    assert pos + RECORD_SIZE + RECORD_SIZE * (i - 1) == pos + RECORD_SIZE * i;
  }

  /** The payload's entries: entry `i` is the record at byte `7 * i`, and a
      payload ending in a 6-byte record gives that last entry signal 0. */
  lemma DecodeEntries(b: seq<uint8>)
    requires Decode(b).Ok?
    ensures var es := Decode(b).value;
      forall i :: 0 <= i < |es| ==> EntryAt(b, 0, i, es[i])
    ensures |b| % RECORD_SIZE == 6 ==> Decode(b).value[|Decode(b).value| - 1].rawSignal == 0
  {
    var es := Decode(b).value;
    DecodeFromEntries(b, 0);
    if |b| % RECORD_SIZE == 6 {
      var i := |es| - 1;
      LastRecordStart(|b|);
      CutRecordSignal(b, RECORD_SIZE * i, es[i]);
    }
  }

  /** With `n` a multiple of 7 plus 6, the last of the `(n + 6) / 7` records starts 6 bytes before `n`. */
  lemma LastRecordStart(n: nat)
    requires n % RECORD_SIZE == 6
    ensures (n + 6) / RECORD_SIZE >= 1 && RECORD_SIZE * ((n + 6) / RECORD_SIZE - 1) + 6 == n
  {
  }

  /** A record that ends right after its id reads signal 0. */
  lemma CutRecordSignal(b: seq<uint8>, at: nat, e: SignalEntry)
    requires at + 6 == |b| && RecordHolds(b, at, e)
    ensures e.rawSignal == 0
  {
    assert CopyOfRange(b, at + 6, at + 7).value == [0];
  }

  // ---------------------------------------------------------------- encoding

  predicate ValidEntry(e: SignalEntry) {
    ValidInverterId(e.inverterId) && 0 <= e.rawSignal <= 255
  }

  function EncodeEntry(e: SignalEntry): (b: seq<uint8>)
    requires ValidEntry(e)
    ensures |b| == RECORD_SIZE
  {
    BcdEncode(e.inverterId) + [e.rawSignal]
  }

  /** The bytes an ECU sends for a list of entries. */
  function Encode(es: seq<SignalEntry>): (b: seq<uint8>)
    requires forall i :: 0 <= i < |es| ==> ValidEntry(es[i])
    ensures |b| == RECORD_SIZE * |es|
  {
    if |es| == 0 then [] else EncodeEntry(es[0]) + Encode(es[1..])
  }

  /** One encoded record, wherever it sits, decodes to its entry. */
  lemma DecodeEntryAt(p: seq<uint8>, e: SignalEntry, t: seq<uint8>)
    requires ValidEntry(e)
    ensures var b := p + EncodeEntry(e) + t;
      && CopyOfRange(b, |p|, |p| + 6) == Ok(BcdEncode(e.inverterId))
      && Bcd2Str(BcdEncode(e.inverterId)) == Ok(e.inverterId)
      && CopyOfRange(b, |p| + 6, |p| + 7) == Ok([e.rawSignal])
      && TwoBytesToInt([e.rawSignal]) == e.rawSignal
  {
    var b := p + EncodeEntry(e) + t;
    var id := BcdEncode(e.inverterId);
    assert b[|p|..|p| + 6] == id;
    assert b[|p| + 6..|p| + 7] == [e.rawSignal];
    Bcd2StrRoundTrip(e.inverterId);
    assert UnsignedBE([e.rawSignal]) == UnsignedBE([e.rawSignal][..0]) * 256 + e.rawSignal;
  }

  /** A record holding `e`, followed by records decoding to `rest`, decodes to `[e] + rest`. */
  lemma DecodeFromCons(b: seq<uint8>, pos: nat, e: SignalEntry, rest: seq<SignalEntry>)
    requires pos < |b|
    requires CopyOfRange(b, pos, pos + 6).Ok? && Bcd2Str(CopyOfRange(b, pos, pos + 6).value) == Ok(e.inverterId)
    requires CopyOfRange(b, pos + 6, pos + 7).Ok? && TwoBytesToInt(CopyOfRange(b, pos + 6, pos + 7).value) == e.rawSignal
    requires DecodeFrom(b, pos + 7) == Ok(rest)
    ensures DecodeFrom(b, pos) == Ok([e] + rest)
  {
  }

  /** An encoded list is its first record followed by the rest. */
  lemma EncodeSplit(p: seq<uint8>, es: seq<SignalEntry>)
    requires forall i :: 0 <= i < |es| ==> ValidEntry(es[i])
    requires |es| > 0
    ensures p + Encode(es) == p + EncodeEntry(es[0]) + Encode(es[1..])
    ensures |p + EncodeEntry(es[0])| == |p| + RECORD_SIZE
  {
  }

  /** Decoding inverts encoding, wherever the encoded list starts. */
  lemma {:induction false} DecodeFromEncode(p: seq<uint8>, es: seq<SignalEntry>)
    requires forall i :: 0 <= i < |es| ==> ValidEntry(es[i])
    ensures DecodeFrom(p + Encode(es), |p|) == Ok(es)
    decreases |es|
  {
    if |es| > 0 {
      var e, p2, rest := es[0], p + EncodeEntry(es[0]), Encode(es[1..]);
      EncodeSplit(p, es);
      DecodeEntryAt(p, e, rest);
      DecodeFromEncode(p2, es[1..]);
      DecodeFromCons(p2 + rest, |p|, e, es[1..]);
      assert es == [e] + es[1..];
    } else {
      assert p + Encode(es) == p;
    }
  }

  /** The signal list round trip: every entry, in wire order. */
  lemma DecodeEncode(es: seq<SignalEntry>)
    requires forall i :: 0 <= i < |es| ==> ValidEntry(es[i])
    ensures Decode(Encode(es)) == Ok(es)
  {
    DecodeFromEncode([], es);
    assert [] + Encode(es) == Encode(es);
  }

  /** The signal byte is read unsigned: the stored byte itself, whatever its top bit. */
  lemma SignalIsUnsignedByte(b: seq<uint8>, pos: nat)
    requires pos + 7 <= |b|
    requires DecodeFrom(b, pos).Ok?
    ensures DecodeFrom(b, pos).value[0].rawSignal == b[pos + 6]
  {
    var s := b[pos + 6..pos + 7];
    assert UnsignedBE(s) == UnsignedBE(s[..0]) * 256 + s[0];
  }

  /** The two records of the captured signal response. */
  const FIXTURE_ENTRIES: seq<SignalEntry> := [SignalEntry("702000337185", 0), SignalEntry("707000017197", 211)]

  predicate FixtureValidAll() {
    forall i :: 0 <= i < |FIXTURE_ENTRIES| ==> ValidEntry(FIXTURE_ENTRIES[i])
  }

  lemma FixtureValid()
    ensures FixtureValidAll()
  {
    assert ValidInverterId("707000017197") && ValidInverterId("702000337185");
  }

  /** The captured signal response: "702000337185" at 0, then
      "707000017197" at 211 (82.745...%), in 14 bytes. */
  lemma Fixture()
    ensures FixtureValidAll() && |Encode(FIXTURE_ENTRIES)| == 14
    ensures Decode(Encode(FIXTURE_ENTRIES)) == Ok(FIXTURE_ENTRIES)
    ensures SignalPercent(211) == 21100.0 / 255.0 && SignalPercent(0) == 0.0
  {
    FixtureValid();
    DecodeEncode(FIXTURE_ENTRIES);
  }
}
