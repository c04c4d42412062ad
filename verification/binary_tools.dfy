/** BinaryTools.java: fixed-width big-endian integers with saturation,
    BCD bytes to digit text, and BCD timestamps. */
module BinaryTools {
  import opened Results
  import opened JavaPrims

  // ================================================================ integers

  function Pow256(n: nat): (p: nat)
    ensures p >= 1
  {
    if n == 0 then 1 else 256 * Pow256(n - 1)
  }

  /** Reference reading of a byte string: one unsigned big-endian number. */
  function UnsignedBE(b: seq<uint8>): nat {
    if |b| == 0 then 0 else UnsignedBE(b[..|b| - 1]) * 256 + b[|b| - 1]
  }

  lemma {:induction false} UnsignedBEBound(b: seq<uint8>)
    ensures UnsignedBE(b) < Pow256(|b|)
  {
    if |b| > 0 {
      UnsignedBEBound(b[..|b| - 1]);
    }
  }

  lemma {:induction false} UnsignedBEAppend(a: seq<uint8>, b: seq<uint8>)
    ensures UnsignedBE(a + b) == UnsignedBE(a) * Pow256(|b|) + UnsignedBE(b)
  {
    if |b| == 0 {
      assert a + b == a;
    } else {
      var b' := b[..|b| - 1];
      assert (a + b)[..|a + b| - 1] == a + b';
      assert (a + b)[|a + b| - 1] == b[|b| - 1];
      UnsignedBEAppend(a, b');
      ShiftByte(UnsignedBE(a), Pow256(|b'|), UnsignedBE(b'), b[|b| - 1] as int);
    }
  }

  lemma ShiftByte(x: int, p: int, y: int, c: int)
    ensures (x * p + y) * 256 + c == x * (p * 256) + (y * 256 + c)
  {
  }

  lemma {:induction false} UnsignedBEZeros(n: nat)
    ensures UnsignedBE(Zeros(n)) == 0
  {
    if n > 0 {
      assert Zeros(n)[..n - 1] == Zeros(n - 1);
      UnsignedBEZeros(n - 1);
    }
  }

  lemma UnsignedBE2(b: seq<uint8>)
    requires |b| == 2
    ensures UnsignedBE(b) == b[0] as int * 0x100 + b[1] as int
  {
    assert b[..1][..0] == [];
    assert UnsignedBE(b[..1]) == b[0];
  }

  lemma UnsignedBE4(b: seq<uint8>)
    requires |b| == 4
    ensures UnsignedBE(b) == b[0] as int * 0x100_0000 + b[1] as int * 0x1_0000 + b[2] as int * 0x100 + b[3] as int
  {
    assert b[..3][..2] == b[..2];
    assert b[..2][..1] == b[..1];
    assert b[..1][..0] == [];
    assert UnsignedBE(b[..1]) == b[0];
    assert UnsignedBE(b[..2]) == b[0] as int * 0x100 + b[1] as int;
    assert UnsignedBE(b[..3]) == b[0] as int * 0x1_0000 + b[1] as int * 0x100 + b[2] as int;
  }

  /** byteArrayToInt: four bytes are a two's-complement int (the top byte
      keeps its sign through the shift), two bytes an unsigned 16-bit value,
      and any other length gives 0. */
  function ByteArrayToInt(b: seq<uint8>): (v: int)
    ensures |b| == 4 ==> v == ToInt32(UnsignedBE(b))
    ensures |b| == 2 ==> v == UnsignedBE(b)
    ensures |b| != 2 && |b| != 4 ==> v == 0
  {
    if |b| == 4 then
      UnsignedBE4(b);
      SignedByte(b[0]) * 0x100_0000 + b[1] as int * 0x1_0000 + b[2] as int * 0x100 + b[3] as int
    else if |b| == 2 then
      UnsignedBE2(b);
      b[0] as int * 0x100 + b[1] as int
    else 0
  }

  /** TwoBytesToInt: one byte is the low byte of a zero high byte, and more
      than two bytes saturate to 0xFFFF instead of failing. */
  function TwoBytesToInt(bytes: seq<uint8>): (v: int)
    ensures 0 <= v <= 0xFFFF
    ensures |bytes| <= 2 ==> v == UnsignedBE(bytes)
    ensures |bytes| > 2 ==> v == 0xFFFF
  {
    var b := if |bytes| == 1 then [0] + bytes else bytes;
    if |b| > 2 then 0xFFFF
    else
      UnsignedBEAppend([0], bytes);
      UnsignedBEBound(b);
      ByteArrayToInt(b)
  }

  /** FourBytesToInt: shorter input is left-padded with zero bytes, four
      bytes are read as a signed int, and more than four saturate to
      Integer.MAX_VALUE instead of failing. */
  function FourBytesToInt(bytes: seq<uint8>): (v: int)
    ensures INT_MIN <= v <= INT_MAX
    ensures |bytes| < 4 ==> 0 <= v < Pow256(|bytes|) && v == UnsignedBE(bytes)
    ensures |bytes| == 4 ==> v == ToInt32(UnsignedBE(bytes))
    ensures |bytes| > 4 ==> v == INT_MAX
  {
    var b := if |bytes| < 4 then Zeros(4 - |bytes|) + bytes else bytes;
    if |b| > 4 then INT_MAX
    else
      UnsignedBEAppend(Zeros(4 - |bytes|), bytes);
      UnsignedBEZeros(4 - |bytes|);
      UnsignedBEBound(bytes);
      assert Pow256(3) == 0x100_0000;
      Pow256Monotone(if |bytes| < 4 then |bytes| else 3, 3);
      ByteArrayToInt(b)
  }

  lemma {:induction false} Pow256Monotone(a: nat, b: nat)
    requires a <= b
    ensures Pow256(a) <= Pow256(b)
  {
    if a < b {
      Pow256Monotone(a, b - 1);
    }
  }

  /** Two bytes that TwoBytesToInt reads back as `n`. */
  function Uint16BE(n: int): (b: seq<uint8>)
    requires 0 <= n <= 0xFFFF
    ensures |b| == 2
  {
    [n / 0x100, n % 0x100]
  }

  /** Four bytes, two's complement, that FourBytesToInt reads back as `v`. */
  function Int32BE(v: int): (b: seq<uint8>)
    requires INT_MIN <= v <= INT_MAX
    ensures |b| == 4
  {
    var u := if v < 0 then v + 0x1_0000_0000 else v;
    var r1 := u % 0x100_0000;
    var r2 := r1 % 0x1_0000;
    [u / 0x100_0000, r1 / 0x1_0000, r2 / 0x100, r2 % 0x100]
  }

  /** TwoBytesToInt is a bijection between two-byte strings and [0, 0xFFFF]. */
  lemma TwoBytesRoundTrip(n: int, b: seq<uint8>)
    requires 0 <= n <= 0xFFFF && |b| == 2
    ensures TwoBytesToInt(Uint16BE(n)) == n
    ensures Uint16BE(TwoBytesToInt(b)) == b
  {
    UnsignedBE2(Uint16BE(n));
    UnsignedBE2(b);
    var m := b[0] as int * 0x100 + b[1] as int;
    assert m / 0x100 == b[0] && m % 0x100 == b[1];
  }

  lemma Int32BEValue(v: int)
    requires INT_MIN <= v <= INT_MAX
    ensures ToInt32(UnsignedBE(Int32BE(v))) == v
  {
    var b := Int32BE(v);
    UnsignedBE4(b);
    var u := if v < 0 then v + 0x1_0000_0000 else v;
    var r1 := u % 0x100_0000;
    var r2 := r1 % 0x1_0000;
    assert r2 == (r2 / 0x100) * 0x100 + r2 % 0x100;
    assert r1 == (r1 / 0x1_0000) * 0x1_0000 + r2;
    assert u == (u / 0x100_0000) * 0x100_0000 + r1;
    assert UnsignedBE(b) == u;
  }

  lemma Int32BEOfBytes(b: seq<uint8>)
    requires |b| == 4
    ensures Int32BE(ToInt32(UnsignedBE(b))) == b
  {
    UnsignedBE4(b);
    UnsignedBEBound(b);
    var u := UnsignedBE(b);
    var r2 := b[2] as int * 0x100 + b[3] as int;
    var r1 := b[1] as int * 0x1_0000 + r2;
    assert u == b[0] as int * 0x100_0000 + r1;
    assert u / 0x100_0000 == b[0] && u % 0x100_0000 == r1;
    assert r1 / 0x1_0000 == b[1] && r1 % 0x1_0000 == r2;
    assert r2 / 0x100 == b[2] && r2 % 0x100 == b[3];
    assert (if ToInt32(u) < 0 then ToInt32(u) + 0x1_0000_0000 else ToInt32(u)) == u;
  }

  /** FourBytesToInt is a bijection between four-byte strings and Java ints. */
  lemma FourBytesRoundTrip(v: int, b: seq<uint8>)
    requires INT_MIN <= v <= INT_MAX && |b| == 4
    ensures FourBytesToInt(Int32BE(v)) == v
    ensures Int32BE(FourBytesToInt(b)) == b
  {
    Int32BEValue(v);
    Int32BEOfBytes(b);
  }

  // ================================================================ BCD

  /** How StringBuffer.append renders one nibble: its decimal text, so the
      non-decimal nibbles 10..15 take two characters. */
  function NibbleText(n: int): (s: string)
    requires 0 <= n < 16
    ensures AllDigits(s)
    ensures |s| == if n < 10 then 1 else 2
  {
    if n < 10 then [DigitChar(n)] else ['1', DigitChar(n - 10)]
  }

  /** The digit text bcd2Str builds before it looks at the first character:
      high nibble, then low nibble, of every byte. */
  function BcdText(b: seq<uint8>): (s: string)
    ensures AllDigits(s)
    ensures 2 * |b| <= |s| <= 4 * |b|
  {
    if |b| == 0 then "" else NibbleText(b[0] / 16) + NibbleText(b[0] % 16) + BcdText(b[1..])
  }

  /** bcd2Str: the digit text with one leading '0' removed, if there is one.
      An empty input fails at `substring(0, 1)`. */
  function Bcd2Str(b: seq<uint8>): (r: Result<string>)
    ensures r.Fail? <==> |b| == 0
    ensures r.Ok? ==> AllDigits(r.value)
    ensures r.Ok? ==> BcdText(b) == r.value || BcdText(b) == "0" + r.value
    ensures r.Ok? ==> (|r.value| < |BcdText(b)| <==> BcdText(b)[0] == '0')
  {
    var t := BcdText(b);
    if |t| == 0 then Fail(IndexOutOfBounds(0))
    else if t[0] == '0' then Ok(t[1..])
    else Ok(t)
  }

  /** Every nibble is a decimal digit: the bytes are proper BCD. */
  predicate IsBcd(b: seq<uint8>) {
    forall i :: 0 <= i < |b| ==> b[i] / 16 < 10 && b[i] % 16 < 10
  }

  function DigitOf(c: char): (d: int)
    requires IsDigit(c)
    ensures 0 <= d < 10
  {
    c as int - '0' as int
  }

  /** Packs an even number of decimal digits two per byte, high nibble first. */
  function BcdEncode(d: string): (b: seq<uint8>)
    requires AllDigits(d) && |d| % 2 == 0
    ensures |b| == |d| / 2
    ensures IsBcd(b)
  {
    if |d| == 0 then [] else [DigitOf(d[0]) * 16 + DigitOf(d[1])] + BcdEncode(d[2..])
  }

  lemma {:induction false} BcdTextOfEncode(d: string)
    requires AllDigits(d) && |d| % 2 == 0
    ensures BcdText(BcdEncode(d)) == d
  {
    if |d| > 0 {
      var b := BcdEncode(d);
      assert b[0] == DigitOf(d[0]) * 16 + DigitOf(d[1]);
      assert b[1..] == BcdEncode(d[2..]);
      PackedByteText(d[0], d[1]);
      BcdTextOfEncode(d[2..]);
      assert BcdText(b) == [d[0], d[1]] + d[2..];
      assert d == [d[0], d[1]] + d[2..];
    }
  }

  /** Two packed digits print back as themselves. */
  lemma PackedByteText(hi: char, lo: char)
    requires IsDigit(hi) && IsDigit(lo)
    ensures var v := DigitOf(hi) * 16 + DigitOf(lo);
      NibbleText(v / 16) + NibbleText(v % 16) == [hi, lo]
  {
  }

  lemma {:induction false} BcdEncodeOfText(b: seq<uint8>)
    requires IsBcd(b)
    ensures |BcdText(b)| == 2 * |b|
    ensures BcdEncode(BcdText(b)) == b
  {
    if |b| > 0 {
      assert IsBcd(b[1..]);
      BcdEncodeOfText(b[1..]);
      var t := BcdText(b);
      assert t[2..] == BcdText(b[1..]);
    }
  }

  /** The BCD round trip as bcd2Str performs it: packing digits and reading
      them back returns the digits, less exactly one leading '0' if present. */
  lemma Bcd2StrRoundTrip(d: string)
    requires AllDigits(d) && |d| % 2 == 0 && |d| > 0
    ensures Bcd2Str(BcdEncode(d)) == Ok(if d[0] == '0' then d[1..] else d)
  {
    BcdTextOfEncode(d);
  }

  /** An inverter id that survives the BCD round trip: twelve digits, the
      first not '0' (bcd2Str would drop it). */
  predicate ValidInverterId(id: string) {
    |id| == 12 && AllDigits(id) && id[0] != '0'
  }

  /** A valid id packs into six bytes that read back as the same id. */
  lemma InverterIdRoundTrip(id: string)
    requires ValidInverterId(id)
    ensures |BcdEncode(id)| == 6 && Bcd2Str(BcdEncode(id)) == Ok(id)
  {
    Bcd2StrRoundTrip(id);
  }

  // ================================================================ timestamps

  /** The parts of a java.time.LocalDateTime the protocol fills in. */
  datatype LocalDateTime = LocalDateTime(year: int, month: int, day: int,
                                         hour: int, minute: int, second: int, nano: int)

  /** The formatter patterns bcdToDateTime chooses between. */
  datatype DateTimePattern =
    | HourMinute   // "HH:mm"
    | Date8        // "yyyyMMdd"
    | DateTime14   // "yyyyMMddHHmmss"
    | DateTime16   // "yyyyMMddHHmmssSS", the default

  /** The pattern depends on nothing but the length of the digit text. */
  function PatternForLength(n: nat): (p: DateTimePattern)
    ensures p == HourMinute <==> n == 4
    ensures p == Date8 <==> n == 8
    ensures p == DateTime14 <==> n == 14
    ensures p == DateTime16 <==> n != 4 && n != 8 && n != 14
  {
    var p := DateTime16;
    var p := if n == 4 then HourMinute else p;
    var p := if n == 8 then Date8 else p;
    if n == 14 then DateTime14 else p
  }

  predicate IsLeapYear(y: int) {
    y % 4 == 0 && (y % 100 != 0 || y % 400 == 0)
  }

  function MonthLength(y: int, m: int): (n: int)
    requires 1 <= m <= 12
    ensures 28 <= n <= 31
  {
    if m == 2 then (if IsLeapYear(y) then 29 else 28)
    else if m == 4 || m == 6 || m == 9 || m == 11 then 30
    else 31
  }

  /** A date-time that LocalDateTime can hold and a 14- or 16-digit text can name. */
  predicate ValidDateTime(t: LocalDateTime) {
    && 1 <= t.year <= 9999
    && 1 <= t.month <= 12
    && 1 <= t.day <= MonthLength(t.year, t.month)
    && 0 <= t.hour <= 23
    && 0 <= t.minute <= 59
    && 0 <= t.second <= 59
    && 0 <= t.nano < 1_000_000_000
  }

  /** The field checks of the default (smart) resolver: the year of era is at
      least 1, the day of month is 1..31 and then clamped to the month's
      length, the time fields are in range. */
  function Resolve(text: string, y: int, mo: int, d: int, h: int, mi: int, s: int, centis: int)
    : (r: Result<LocalDateTime>)
    requires 0 <= y <= 9999 && 0 <= centis < 100
    ensures r.Ok? ==> ValidDateTime(r.value)
    ensures r.Ok? <==> 1 <= y && 1 <= mo <= 12 && 1 <= d <= 31 && 0 <= h <= 23 && 0 <= mi <= 59 && 0 <= s <= 59
    ensures r.Ok? && d <= MonthLength(y, mo) ==> r.value == LocalDateTime(y, mo, d, h, mi, s, centis * 10_000_000)
  {
    if y < 1 || mo < 1 || mo > 12 || d < 1 || d > 31 || h < 0 || h > 23 || mi < 0 || mi > 59 || s < 0 || s > 59 then
      Fail(DateTimeParse(text))
    else
      var ml := MonthLength(y, mo);
      Ok(LocalDateTime(y, mo, if d <= ml then d else ml, h, mi, s, centis * 10_000_000))
  }

  /** Fixed-width fields of "yyyyMMddHHmmss", the first 14 characters of `s`. */
  function ParseFields(s: string, centis: int): (r: Result<LocalDateTime>)
    requires |s| >= 14 && AllDigits(s) && 0 <= centis < 100
    ensures r.Ok? ==> ValidDateTime(r.value)
  {
    DigitsValueBound(s[0..4]);
    Resolve(s, DigitsValue(s[0..4]), DigitsValue(s[4..6]), DigitsValue(s[6..8]),
            DigitsValue(s[8..10]), DigitsValue(s[10..12]), DigitsValue(s[12..14]), centis)
  }

  /** LocalDateTime.parse(s, pattern). "HH:mm" needs a colon that digit text
      never has and leaves no date, and "yyyyMMdd" leaves no time, so neither
      yields a LocalDateTime. */
  function ParseWithPattern(s: string, p: DateTimePattern): (r: Result<LocalDateTime>)
    ensures r.Ok? ==> (p == DateTime14 && |s| == 14) || (p == DateTime16 && |s| == 16)
    ensures r.Ok? ==> ValidDateTime(r.value)
  {
    match p
    case HourMinute => Fail(DateTimeParse(s))
    case Date8 => Fail(DateTimeParse(s))
    case DateTime14 =>
      if |s| == 14 && AllDigits(s) then ParseFields(s, 0) else Fail(DateTimeParse(s))
    case DateTime16 =>
      if |s| == 16 && AllDigits(s) then
        DigitsValueBound(s[14..16]);
        ParseFields(s, DigitsValue(s[14..16]))
      else Fail(DateTimeParse(s))
  }

  /** bcdToDateTime: the BCD digit text parsed with the pattern its length
      selects. Only the 14- and 16-digit layouts can succeed, and those need
      at least four bytes. */
  function BcdToDateTime(b: seq<uint8>): (r: Result<LocalDateTime>)
    ensures r.Ok? ==> ValidDateTime(r.value)
    ensures r.Ok? ==> |b| >= 4
    ensures r.Ok? ==> |Bcd2Str(b).value| == 14 || |Bcd2Str(b).value| == 16
  {
    var s :- Bcd2Str(b);
    ParseWithPattern(s, PatternForLength(|s|))
  }

  /** "yyyyMMddHHmmss" text of a date-time. */
  function Format14(t: LocalDateTime): (s: string)
    requires ValidDateTime(t)
    ensures |s| == 14 && AllDigits(s)
  {
    ZeroPad(t.year, 4) + ZeroPad(t.month, 2) + ZeroPad(t.day, 2)
    + ZeroPad(t.hour, 2) + ZeroPad(t.minute, 2) + ZeroPad(t.second, 2)
  }

  lemma {:induction false} DigitsValueLeadingZero(s: string)
    requires AllDigits(s) && |s| > 0 && s[0] == '0'
    ensures DigitsValue(s) < Pow10(|s| - 1)
  {
    assert s == [s[0]] + s[1..];
    DigitsValueAppend([s[0]], s[1..]);
    DigitsValueBound(s[1..]);
  }

  lemma Format14Fields(t: LocalDateTime)
    requires ValidDateTime(t)
    ensures var s := Format14(t);
      && s[0..4] == ZeroPad(t.year, 4) && s[4..6] == ZeroPad(t.month, 2)
      && s[6..8] == ZeroPad(t.day, 2) && s[8..10] == ZeroPad(t.hour, 2)
      && s[10..12] == ZeroPad(t.minute, 2) && s[12..14] == ZeroPad(t.second, 2)
  {
    var y, mo, d := ZeroPad(t.year, 4), ZeroPad(t.month, 2), ZeroPad(t.day, 2);
    var h, mi, se := ZeroPad(t.hour, 2), ZeroPad(t.minute, 2), ZeroPad(t.second, 2);
    var s := Format14(t);
    assert s == y + mo + d + h + mi + se;
    assert s[0..4] == y;
    assert s[4..6] == mo;
    assert s[6..8] == d;
    assert s[8..10] == h;
    assert s[10..12] == mi;
    assert s[12..14] == se;
  }

  lemma Format14Parses(t: LocalDateTime)
    requires ValidDateTime(t) && t.nano == 0
    ensures ParseWithPattern(Format14(t), DateTime14) == Ok(t)
  {
    Format14Fields(t);
  }

  /** Timestamps written as seven BCD bytes (years 1000..9999, whole seconds)
      are read back exactly by bcdToDateTime. */
  lemma BcdTimestampRoundTrip(t: LocalDateTime)
    requires ValidDateTime(t) && t.year >= 1000 && t.nano == 0
    ensures |BcdEncode(Format14(t))| == 7
    ensures BcdToDateTime(BcdEncode(Format14(t))) == Ok(t)
  {
    var s := Format14(t);
    Format14LeadingDigit(t);
    Bcd2StrRoundTrip(s);
    Format14Parses(t);
    BcdToDateTimeOf(BcdEncode(s), s);
  }

  /** A four-digit year puts no '0' in front of the text. */
  lemma Format14LeadingDigit(t: LocalDateTime)
    requires ValidDateTime(t) && t.year >= 1000
    ensures Format14(t)[0] != '0'
  {
    var s := Format14(t);
    Format14Fields(t);
    if s[0] == '0' {
      DigitsValueLeadingZero(s[0..4]);
      assert false;
    }
  }

  lemma BcdToDateTimeOf(b: seq<uint8>, s: string)
    requires Bcd2Str(b) == Ok(s) && |s| == 14
    ensures BcdToDateTime(b) == ParseWithPattern(s, DateTime14)
  {
  }

  // ================================================================ examples

  /** Integer readings of the unit-test inputs, written out as the bytes
      `BigInteger.toByteArray` gives for them: a leading 0x00 appears
      whenever the top bit of the value is set. */
  lemma IntegerExamples()
    ensures FourBytesToInt([0, 0, 3, 68]) == 836 && FourBytesToInt([0, 0, 1, 70]) == 326
    ensures FourBytesToInt([0, 0, 0, 0]) == 0
    ensures FourBytesToInt([0x7F, 0xFF, 0xFF, 0xFF]) == INT_MAX
    ensures FourBytesToInt([0x00, 0xFF, 0xFF, 0xFF, 0xFF]) == INT_MAX
    ensures TwoBytesToInt([0x01]) == 1 && TwoBytesToInt([0x00, 0xFF]) == 255
    ensures TwoBytesToInt([0x01, 0xFF]) == 511 && TwoBytesToInt([0x7F, 0xFF]) == 32767
    ensures TwoBytesToInt([0x00, 0xFF, 0xFF]) == 0xFFFF
    ensures TwoBytesToInt([]) == 0
  {
    UnsignedBE4([0, 0, 3, 68]);
    UnsignedBE4([0, 0, 1, 70]);
    UnsignedBE4([0, 0, 0, 0]);
    UnsignedBE4([0x7F, 0xFF, 0xFF, 0xFF]);
    UnsignedBE2([0x00, 0xFF]);
    UnsignedBE2([0x01, 0xFF]);
    UnsignedBE2([0x7F, 0xFF]);
    assert [0x01 as uint8][..0] == [];
  }

  /** The captured 14-digit timestamp, 2023-07-27 16:39:22, written as BCD
      and read back. */
  lemma TimestampExample()
    ensures var t := LocalDateTime(2023, 7, 27, 16, 39, 22, 0);
      && |BcdEncode(Format14(t))| == 7
      && BcdToDateTime(BcdEncode(Format14(t))) == Ok(t)
  {
    BcdTimestampRoundTrip(LocalDateTime(2023, 7, 27, 16, 39, 22, 0));
  }
}
