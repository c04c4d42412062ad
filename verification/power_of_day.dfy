/** PowerOfDayPayload.java: a run of 4-byte records, a 2-byte BCD time of
    day followed by a 2-byte power reading.

    Each time is handed to bcdToDateTime as two bytes, i.e. at most eight
    digits, and bcdToDateTime yields a value only for 14- and 16-digit text.
    So every record fails and only an empty payload decodes (to no entries).
    The record walk is written over the timestamp reader so that its layout
    can be stated apart from that defect. */
module PowerOfDay {
  import opened Results
  import opened JavaPrims
  import opened BinaryTools

  const RECORD_SIZE: nat := 4

  datatype PowerEntry = PowerEntry(time: LocalDateTime, power: int)

  /** The records from byte `pos` on, in wire order, with `readTime` turning
      each record's two time bytes into a date-time. */
  function DecodeWith(b: seq<uint8>, pos: nat, readTime: seq<uint8> -> Result<LocalDateTime>)
    : (r: Result<seq<PowerEntry>>)
    ensures r.Ok? && pos <= |b| ==> |r.value| == (|b| - pos + 3) / RECORD_SIZE
    ensures r.Ok? ==> forall i :: 0 <= i < |r.value| ==> 0 <= r.value[i].power <= 0xFFFF
    ensures pos < |b| && r.Ok? ==> readTime(CopyOfRange(b, pos, pos + 2).value) == Ok(r.value[0].time)
    decreases |b| - pos
  {
    if pos >= |b| then Ok([])
    else
      var timeBytes := CopyOfRange(b, pos, pos + 2).value;
      var time :- readTime(timeBytes);
      var powerBytes :- CopyOfRange(b, pos + 2, pos + 4);
      var rest :- DecodeWith(b, pos + 4, readTime);
      Ok([PowerEntry(time, TwoBytesToInt(powerBytes))] + rest)
  }

  /** Entry `i` is the record at `pos + 4 * i`: its time is what the reader
      makes of the record's first two bytes and its power is the next two
      read as an unsigned number. */
  predicate EntryAt(b: seq<uint8>, pos: nat, readTime: seq<uint8> -> Result<LocalDateTime>, i: nat, e: PowerEntry) {
    && pos + RECORD_SIZE * i < |b|
    && readTime(CopyOfRange(b, pos + RECORD_SIZE * i, pos + RECORD_SIZE * i + 2).value) == Ok(e.time)
    && CopyOfRange(b, pos + RECORD_SIZE * i + 2, pos + RECORD_SIZE * i + 4).Ok?
    && e.power == TwoBytesToInt(CopyOfRange(b, pos + RECORD_SIZE * i + 2, pos + RECORD_SIZE * i + 4).value)
  }

  /** Every decoded entry, not just the first, comes from its own record. */
  lemma {:induction false} DecodeWithEntries(b: seq<uint8>, pos: nat, readTime: seq<uint8> -> Result<LocalDateTime>)
    requires DecodeWith(b, pos, readTime).Ok?
    ensures var es := DecodeWith(b, pos, readTime).value;
      forall i :: 0 <= i < |es| ==> EntryAt(b, pos, readTime, i, es[i])
    decreases |b| - pos
  {
    if pos < |b| {
      var es := DecodeWith(b, pos, readTime).value;
      DecodeWithEntries(b, pos + RECORD_SIZE, readTime);
      var rest := DecodeWith(b, pos + RECORD_SIZE, readTime).value;
      assert es == [es[0]] + rest;
      forall i | 0 < i < |es|
        ensures EntryAt(b, pos, readTime, i, es[i])
      {
        EntryShift(b, pos, readTime, i, rest[i - 1]);
      }
    }
  }

  /** Record `i - 1` after `pos + 4` is record `i` after `pos`. */
  lemma EntryShift(b: seq<uint8>, pos: nat, readTime: seq<uint8> -> Result<LocalDateTime>, i: nat, e: PowerEntry)
    requires 0 < i && EntryAt(b, pos + RECORD_SIZE, readTime, i - 1, e)
    ensures EntryAt(b, pos, readTime, i, e)
  {
    assert pos + RECORD_SIZE + RECORD_SIZE * (i - 1) == pos + RECORD_SIZE * i;
  }

  /** PowerOfDayPayload.createFromBytes. */
  function Decode(b: seq<uint8>): (r: Result<seq<PowerEntry>>)
    ensures r.Ok? ==> |r.value| == (|b| + 3) / RECORD_SIZE
  {
    DecodeWith(b, 0, BcdToDateTime)
  }

  /** As written, the decoder accepts exactly the empty payload: the first
      record's two-byte timestamp is always rejected. */
  lemma DecodeOnlyEmpty(b: seq<uint8>)
    ensures Decode(b).Ok? <==> |b| == 0
    ensures |b| == 0 ==> Decode(b) == Ok([])
  {
    if |b| > 0 {
      assert |CopyOfRange(b, 0, 2).value| == 2;
    }
  }

  /** The record layout apart from the timestamp defect: with a reader that
      accepts every time, a payload decodes unless it ends one byte into a
      record, where the power field would be copied from past the end; a
      record cut inside its power field reads the missing bytes as zeros. */
  lemma {:induction false} LayoutWithTotalReader(b: seq<uint8>, pos: nat, t: LocalDateTime)
    requires pos <= |b|
    ensures var r := DecodeWith(b, pos, _ => Ok(t));
      r.Ok? <==> (|b| - pos) % RECORD_SIZE != 1
    decreases |b| - pos
  {
    if pos < |b| && pos + 2 <= |b| {
      if pos + 4 <= |b| {
        LayoutWithTotalReader(b, pos + 4, t);
      }
    }
  }
}
