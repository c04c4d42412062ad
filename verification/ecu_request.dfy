/** ECURequest.java: the request a client sends, and its ASCII frame
    `APS<group><length><code><id>END<extension>\n`. */
module EcuRequest {
  import opened Results
  import opened JavaPrims
  import opened Constants

  /** A request. The Java constructor is private and only ever called with
      the group 11 and the command-code constants, hence the `nat` fields. */
  datatype Request = Request(codeGroup: nat, commandCode: nat, ecuId: string, extension: string)

  /** A java.time.LocalDate. */
  datatype LocalDate = LocalDate(year: int, month: int, day: int)

  predicate ValidDate(d: LocalDate) {
    1 <= d.month <= 12 && 1 <= d.day <= 31
  }

  function SystemInfoRequest(): Request {
    Request(COMMAND_GROUP_11, COMMAND_CODE_GET_SYSTEM_INFO, "", "")
  }

  function RealtimeDataRequest(ecuId: string): Request {
    Request(COMMAND_GROUP_11, COMMAND_CODE_GET_REALTIME_DATA, ecuId, "")
  }

  function PowerOfDayRequest(ecuId: string, today: LocalDate): Request
    requires ValidDate(today)
  {
    Request(COMMAND_GROUP_11, COMMAND_CODE_GET_POWER_OF_DAY, ecuId, FormatDate(today) + "END")
  }

  function EnergyOfPeriodRequest(ecuId: string, period: string): Request {
    Request(COMMAND_GROUP_11, COMMAND_CODE_GET_ENERGY_OF_WEEK_MONTH_YEAR, ecuId, period + "END")
  }

  function InverterSignalRequest(ecuId: string): Request {
    Request(COMMAND_GROUP_11, COMMAND_CODE_GET_INVERTER_SIGNAL, ecuId, "")
  }

  /** `DateTimeFormatter.ofPattern("yyyyMMdd").format(d)`: the year of era
      padded to four digits, with a '+' once it needs more than four. */
  function FormatDate(d: LocalDate): (s: string)
    requires ValidDate(d)
    ensures 1 <= d.year <= 9999 ==> |s| == 8 && AllDigits(s)
  {
    var yoe: nat := if d.year >= 1 then d.year else 1 - d.year;
    var year := if yoe > 9999 then "+" + Decimal(yoe) else ZeroPad(yoe, 4);
    year + ZeroPad(d.month, 2) + ZeroPad(d.day, 2)
  }

  // ---------------------------------------------------------------- placeholder substitution

  const PLACEHOLDER: string := "XXXX"

  /** "XXXX" starts at position `i` of `s`. */
  predicate PlaceholderAt(s: string, i: int)
    requires 0 <= i <= |s| - 4
  {
    s[i..i + 4] == PLACEHOLDER
  }

  /** No "XXXX" starts anywhere in `s`. */
  predicate NoPlaceholder(s: string) {
    forall i :: 0 <= i <= |s| - 4 ==> !PlaceholderAt(s, i)
  }

  /** `s.replace("XXXX", rep)`: every occurrence, scanned left to right
      without overlap. A four-character replacement keeps the length. */
  function Replace(s: string, rep: string): (r: string)
    ensures |rep| == 4 ==> |r| == |s|
    decreases |s|
  {
    if |s| < 4 then s
    else if s[..4] == PLACEHOLDER then rep + Replace(s[4..], rep)
    else [s[0]] + Replace(s[1..], rep)
  }

  /** Text without the placeholder comes back unchanged. */
  lemma {:induction false} ReplaceNoPlaceholder(s: string, rep: string)
    requires NoPlaceholder(s)
    ensures Replace(s, rep) == s
    decreases |s|
  {
    if |s| >= 4 {
      assert !PlaceholderAt(s, 0);
      assert NoPlaceholder(s[1..]) by {
        forall i | 0 <= i <= |s[1..]| - 4
          ensures !PlaceholderAt(s[1..], i)
        {
          assert s[1..][i..i + 4] == s[i + 1..i + 5];
          assert !PlaceholderAt(s, i + 1);
        }
      }
      ReplaceNoPlaceholder(s[1..], rep);
      assert s == [s[0]] + s[1..];
    }
  }

  /** Replacing in text that starts with the placeholder. */
  lemma ReplaceLeading(s: string, rep: string)
    requires |s| >= 4 && s[..4] == PLACEHOLDER
    ensures Replace(s, rep) == rep + Replace(s[4..], rep)
  {
  }

  /** Replacement distributes over a concatenation when no occurrence can
      straddle the seam, i.e. unless `a` ends and `b` starts with 'X'. */
  lemma {:induction false} ReplaceAppend(a: string, b: string, rep: string)
    requires |a| == 0 || |b| == 0 || a[|a| - 1] != 'X' || b[0] != 'X'
    ensures Replace(a + b, rep) == Replace(a, rep) + Replace(b, rep)
    decreases |a|, 1
  {
    if |a| == 0 {
      assert a + b == b;
    } else if |a + b| < 4 {
      assert Replace(a, rep) == a && Replace(b, rep) == b;
    } else if |a| < 4 || a[..4] != PLACEHOLDER {
      ReplaceAppendSkip(a, b, rep);
    } else {
      ReplaceAppendLeading(a, b, rep);
    }
  }

  /** The step of ReplaceAppend where the first character is copied. */
  lemma {:induction false} ReplaceAppendSkip(a: string, b: string, rep: string)
    requires |a| > 0 && |a + b| >= 4 && (|a| < 4 || a[..4] != PLACEHOLDER)
    requires |b| == 0 || a[|a| - 1] != 'X' || b[0] != 'X'
    ensures Replace(a + b, rep) == Replace(a, rep) + Replace(b, rep)
    decreases |a|, 0
  {
    SkipAppend(a, b, rep);
    SkipFirst(a, rep);
    ReplaceAppend(a[1..], b, rep);
    assert [a[0]] + (Replace(a[1..], rep) + Replace(b, rep)) == ([a[0]] + Replace(a[1..], rep)) + Replace(b, rep);
  }

  /** No placeholder opens `a + b`, so its first character is copied. */
  lemma SkipAppend(a: string, b: string, rep: string)
    requires |a| > 0 && |a + b| >= 4 && (|a| < 4 || a[..4] != PLACEHOLDER)
    requires |b| == 0 || a[|a| - 1] != 'X' || b[0] != 'X'
    ensures Replace(a + b, rep) == [a[0]] + Replace(a[1..] + b, rep)
  {
    var ab := a + b;
    assert ab[..4] != PLACEHOLDER by {
      if |a| < 4 {
        assert ab[|a| - 1] != 'X' || ab[|a|] != 'X';
        assert ab[..4][|a| - 1] == ab[|a| - 1] && ab[..4][|a|] == ab[|a|];
      } else {
        assert a[..4] == ab[..4];
      }
    }
    assert ab[1..] == a[1..] + b;
  }

  /** No placeholder opens `a`, so its first character is copied. */
  lemma SkipFirst(a: string, rep: string)
    requires |a| > 0 && (|a| < 4 || a[..4] != PLACEHOLDER)
    ensures Replace(a, rep) == [a[0]] + Replace(a[1..], rep)
  {
    if |a| < 4 {
      assert a == [a[0]] + a[1..];
    }
  }

  /** The step of ReplaceAppend where a placeholder opens `a`. */
  lemma {:induction false} ReplaceAppendLeading(a: string, b: string, rep: string)
    requires |a| >= 4 && a[..4] == PLACEHOLDER
    requires |b| == 0 || a[|a| - 1] != 'X' || b[0] != 'X'
    ensures Replace(a + b, rep) == Replace(a, rep) + Replace(b, rep)
    decreases |a|, 0
  {
    var ab := a + b;
    assert a[..4] == ab[..4];
    assert ab[4..] == a[4..] + b;
    ReplaceAppend(a[4..], b, rep);
  }

  lemma NoPlaceholderWithoutX(s: string)
    requires forall i :: 0 <= i < |s| ==> s[i] != 'X'
    ensures NoPlaceholder(s)
  {
    forall i | 0 <= i <= |s| - 4
      ensures !PlaceholderAt(s, i)
    {
      assert s[i..i + 4][0] == s[i];
    }
  }

  // ---------------------------------------------------------------- framing

  /** The frame as first rendered, with "XXXX" where the length goes. */
  function Template(r: Request): (t: string)
    ensures |t| == 3 + |Decimal(r.codeGroup)| + 4 + |ZeroPad(r.commandCode, 4)| + |r.ecuId| + 3 + |r.extension| + 1
  {
    Head(r) + (PLACEHOLDER + (ZeroPad(r.commandCode, 4) + (r.ecuId + ("END" + (r.extension + "\n")))))
  }

  /** "APS" and the group, the part before the length field. */
  function Head(r: Request): string {
    "APS" + Decimal(r.codeGroup)
  }

  /** The length text: the template's `String.length()` (UTF-16 code units)
      less the newline, zero-padded to four digits and wider when it must be. */
  function LengthField(r: Request): (lf: string)
    ensures AllDigits(lf) && IsAscii(lf)
    ensures DigitsValue(lf) == Utf16Length(Template(r)) - 1
    ensures |lf| == 4 <==> Utf16Length(Template(r)) <= 10000
  {
    var n := Utf16Length(Template(r)) - 1;
    DecimalLength(n, 4);
    assert Pow10(4) == 10000;
    ZeroPad(n, 4)
  }

  /** toString(): the template with every "XXXX" replaced by the length field.
      While that field has four digits the frame keeps the template's length
      in characters and in UTF-16 units. */
  function ToString(r: Request): (s: string)
    ensures Utf16Length(Template(r)) <= 10000 ==>
              |s| == |Template(r)| && Utf16Length(s) == Utf16Length(Template(r))
  {
    ReplaceKeepsUtf16Length(Template(r), LengthField(r));
    Replace(Template(r), LengthField(r))
  }

  /** GetBytes(): the frame in UTF-8; an ASCII frame is one byte per character. */
  function GetBytes(r: Request): (b: seq<uint8>)
    ensures |b| >= |ToString(r)|
    ensures IsAscii(ToString(r)) ==> |b| == |ToString(r)| && AsciiDecode(b) == ToString(r)
  {
    var s := ToString(r);
    if IsAscii(s) then Utf8OfAscii(s); Utf8Encode(s) else Utf8Encode(s)
  }

  /** A four-character BMP replacement keeps the UTF-16 length. */
  lemma {:induction false} ReplaceKeepsUtf16Length(s: string, rep: string)
    ensures |rep| == 4 && IsBmp(rep) ==> Utf16Length(Replace(s, rep)) == Utf16Length(s)
    decreases |s|
  {
    if |rep| == 4 && IsBmp(rep) && |s| >= 4 {
      Utf16LengthOfBmp(rep);
      if s[..4] == PLACEHOLDER {
        Utf16LengthOfBmp(s[..4]);
        ReplaceKeepsUtf16Length(s[4..], rep);
        Utf16LengthAppend(rep, Replace(s[4..], rep));
        assert s == s[..4] + s[4..];
        Utf16LengthAppend(s[..4], s[4..]);
      } else {
        ReplaceKeepsUtf16Length(s[1..], rep);
        Utf16LengthAppend([s[0]], Replace(s[1..], rep));
        assert s == [s[0]] + s[1..];
        Utf16LengthAppend([s[0]], s[1..]);
      }
    }
  }

  /** The template's UTF-16 length: one unit per character, plus one more for
      each character of the id or the extension above U+FFFF. */
  lemma TemplateUtf16Length(r: Request)
    ensures Utf16Length(Template(r))
         == |Template(r)| + (Utf16Length(r.ecuId) - |r.ecuId|) + (Utf16Length(r.extension) - |r.extension|)
    ensures IsBmp(r.ecuId) && IsBmp(r.extension) ==> Utf16Length(Template(r)) == |Template(r)|
  {
    Utf16LengthOfBmp(r.ecuId);
    Utf16LengthOfBmp(r.extension);
    var h, c := Head(r), ZeroPad(r.commandCode, 4);
    assert IsBmp(h) && IsBmp(PLACEHOLDER) && IsBmp(c) && IsBmp("END") && IsBmp("\n");
    Utf16LengthOfBmp(h);
    Utf16LengthOfBmp(PLACEHOLDER);
    Utf16LengthOfBmp(c);
    Utf16LengthOfBmp("END");
    Utf16LengthOfBmp("\n");
    var t1 := r.extension + "\n";
    Utf16LengthAppend(r.extension, "\n");
    var t2 := "END" + t1;
    Utf16LengthAppend("END", t1);
    var t3 := r.ecuId + t2;
    Utf16LengthAppend(r.ecuId, t2);
    var t4 := c + t3;
    Utf16LengthAppend(c, t3);
    var t5 := PLACEHOLDER + t4;
    Utf16LengthAppend(PLACEHOLDER, t4);
    Utf16LengthAppend(h, t5);
  }

  /** No character of `s` is an 'X'. */
  predicate NoX(s: string) {
    forall i :: 0 <= i < |s| ==> s[i] != 'X'
  }

  /** Replacement passes over an X-free prefix or suffix untouched. */
  lemma ReplaceAroundNoX(a: string, b: string, rep: string)
    ensures NoX(a) ==> Replace(a + b, rep) == a + Replace(b, rep)
    ensures NoX(b) ==> Replace(a + b, rep) == Replace(a, rep) + b
  {
    if NoX(a) {
      NoPlaceholderWithoutX(a);
      ReplaceNoPlaceholder(a, rep);
      ReplaceAppend(a, b, rep);
    }
    if NoX(b) {
      NoPlaceholderWithoutX(b);
      ReplaceNoPlaceholder(b, rep);
      ReplaceAppend(a, b, rep);
    }
  }

  /** Substitution in a frame-shaped text whose head and code fields hold no 'X'. */
  lemma {:induction false} ReplaceInFrame(a: string, c: string, id: string, ext: string, lf: string)
    requires NoX(a) && NoX(c) && |c| > 0
    ensures Replace(a + (PLACEHOLDER + (c + (id + ("END" + (ext + "\n"))))), lf)
         == a + (lf + (c + (Replace(id, lf) + ("END" + (Replace(ext, lf) + "\n")))))
  {
    assert NoX("END") && NoX("\n");
    var t1 := ext + "\n";
    ReplaceAroundNoX(ext, "\n", lf);
    var t2 := "END" + t1;
    ReplaceAroundNoX("END", t1, lf);
    var t3 := id + t2;
    ReplaceAppend(id, t2, lf);
    var t4 := c + t3;
    ReplaceAroundNoX(c, t3, lf);
    var t5 := PLACEHOLDER + t4;
    assert t5[..4] == PLACEHOLDER && t5[4..] == t4;
    ReplaceLeading(t5, lf);
    ReplaceAroundNoX(a, t5, lf);
  }

  /** The frame field by field: the length field lands in the placeholder's
      place, and an "XXXX" inside the id or the extension is rewritten too. */
  lemma FrameLayout(r: Request)
    ensures ToString(r) == Head(r) + (LengthField(r) + (ZeroPad(r.commandCode, 4)
                           + (Replace(r.ecuId, LengthField(r)) + ("END" + (Replace(r.extension, LengthField(r)) + "\n")))))
  {
    var a, c := Head(r), ZeroPad(r.commandCode, 4);
    assert NoX(a) && NoX(c);
    ReplaceInFrame(a, c, r.ecuId, r.extension, LengthField(r));
  }

  /** The length invariant the ECU checks: for every request of group 11
      whose frame stays under 10001 characters, the four characters after
      "APS11" parse to the frame's length minus the trailing newline. */
  lemma FrameLengthField(r: Request)
    requires r.codeGroup == COMMAND_GROUP_11 && r.commandCode < 10000
    requires Utf16Length(Template(r)) <= 10000
    ensures |ToString(r)| == |Template(r)| && Utf16Length(ToString(r)) == Utf16Length(Template(r))
    ensures ToString(r)[..3] == ECU_PATTERN_START && ToString(r)[3..5] == "11"
    ensures ParseInt(ToString(r)[5..9]) == Ok(Utf16Length(ToString(r)) - 1)
  {
    var s, t, lf := ToString(r), Template(r), LengthField(r);
    LengthFieldParses(r);
    FrameHeader(r);
    SameField(s, lf, Utf16Length(t) - 1);
  }

  lemma SameField(s: string, lf: string, n: int)
    requires |s| >= 9 && s[5..9] == lf && ParseInt(lf) == Ok(n)
    ensures ParseInt(s[5..9]) == Ok(n)
  {
  }

  /** Where the length field lands: right after "APS11". */
  lemma FrameHeader(r: Request)
    requires r.codeGroup == COMMAND_GROUP_11
    requires |LengthField(r)| == 4
    ensures |ToString(r)| >= 9
    ensures ToString(r)[..3] == ECU_PATTERN_START && ToString(r)[3..5] == "11"
    ensures ToString(r)[5..9] == LengthField(r)
  {
    var lf, s := LengthField(r), ToString(r);
    assert Head(r) == "APS11" by {
      assert Decimal(11) == "11";
    }
    FrameLayout(r);
    var rest := ZeroPad(r.commandCode, 4) + (Replace(r.ecuId, lf) + ("END" + (Replace(r.extension, lf) + "\n")));
    assert s == "APS11" + (lf + rest);
    HeaderSlices(lf, rest);
  }

  /** A length that fits four digits reads back from the field. */
  lemma LengthFieldParses(r: Request)
    requires Utf16Length(Template(r)) <= 10000
    ensures |LengthField(r)| == 4 && ParseInt(LengthField(r)) == Ok(Utf16Length(Template(r)) - 1)
  {
    var n := Utf16Length(Template(r)) - 1;
    assert LengthField(r) == ZeroPad(n, 4);
    ParseZeroPad(n, 4);
  }

  lemma HeaderSlices(lf: string, rest: string)
    requires |lf| == 4
    ensures var s := "APS11" + (lf + rest); s[..3] == "APS" && s[3..5] == "11" && s[5..9] == lf
  {
  }

  /** Ids and extensions without "XXXX" reach the frame verbatim. */
  lemma FrameKeepsIdAndExtension(r: Request)
    requires NoPlaceholder(r.ecuId) && NoPlaceholder(r.extension)
    ensures ToString(r) == Head(r) + (LengthField(r) + (ZeroPad(r.commandCode, 4)
                           + (r.ecuId + ("END" + (r.extension + "\n")))))
  {
    FrameLayout(r);
    ReplaceNoPlaceholder(r.ecuId, LengthField(r));
    ReplaceNoPlaceholder(r.extension, LengthField(r));
  }

  /** An id that is itself "XXXX" does not survive: `replace` does not stop
      at the placeholder, so the length field appears in the id's place too. */
  lemma PlaceholderIdIsRewritten(r: Request)
    requires r.ecuId == PLACEHOLDER && NoPlaceholder(r.extension)
    ensures ToString(r) == Head(r) + (LengthField(r) + (ZeroPad(r.commandCode, 4)
                           + (LengthField(r) + ("END" + (r.extension + "\n")))))
    ensures ToString(r) != Template(r)
  {
    FrameLayout(r);
    PlaceholderAlone(LengthField(r));
    ReplaceNoPlaceholder(r.extension, LengthField(r));
    var h := Head(r);
    assert ToString(r)[|h|] != 'X' by {
      assert ToString(r)[|h|] == LengthField(r)[0];
    }
    assert Template(r)[|h|] == 'X';
  }

  lemma PlaceholderAlone(rep: string)
    ensures Replace(PLACEHOLDER, rep) == rep
  {
    assert PLACEHOLDER[4..] == "";
  }

  lemma GroupText()
    ensures Decimal(COMMAND_GROUP_11) == "11"
  {
  }

  /** A request with no id and no extension: head, length, code, "END", newline. */
  lemma BareFrame(r: Request)
    requires r.ecuId == "" && r.extension == ""
    ensures ToString(r) == Head(r) + (LengthField(r) + (ZeroPad(r.commandCode, 4) + ("END" + "\n")))
  {
    FrameLayout(r);
    ReplaceNoPlaceholder("", LengthField(r));
  }

  /** The system-info request on the wire: "APS11", length 16, code 1, no
      id, "END", no extension, newline. */
  lemma SystemInfoFrame()
    ensures ToString(SystemInfoRequest()) == "APS11" + ("0016" + ("0001" + ("END" + "\n")))
  {
    BareFrame(SystemInfoRequest());
    FieldsOfSystemInfo();
  }

  lemma FieldsOfSystemInfo()
    ensures Head(SystemInfoRequest()) == "APS11"
    ensures LengthField(SystemInfoRequest()) == "0016"
    ensures ZeroPad(1, 4) == "0001"
  {
    GroupText();
    SystemInfoTemplateLength();
    assert Decimal(16) == "16";
    assert Repeat('0', 2) == "00";
    assert Repeat('0', 3) == "000";
  }

  lemma SystemInfoTemplateLength()
    ensures Utf16Length(Template(SystemInfoRequest())) == 17
  {
    TemplateUtf16Length(SystemInfoRequest());
    assert |Template(SystemInfoRequest())| == 17;
  }

  /** An id above U+FFFF is two UTF-16 units, and the length field counts
      both: a one-character id gives an 18-character frame that declares 18. */
  lemma SupplementaryIdCountsTwice()
    ensures |ToString(RealtimeDataRequest("\U{1F600}"))| == 18
    ensures LengthField(RealtimeDataRequest("\U{1F600}")) == "0018"
  {
    SupplementaryTemplate();
    var r := RealtimeDataRequest("\U{1F600}");
    assert LengthField(r) == ZeroPad(18, 4);
    PadEighteen();
  }

  lemma PadEighteen()
    ensures ZeroPad(18, 4) == "0018"
  {
    assert Decimal(18) == "18";
    assert Repeat('0', 2) == "00";
  }

  lemma SupplementaryTemplate()
    ensures var t := Template(RealtimeDataRequest("\U{1F600}")); |t| == 18 && Utf16Length(t) == 19
  {
    var r := RealtimeDataRequest("\U{1F600}");
    assert Utf16Length(r.ecuId) == 2;
    TemplateUtf16Length(r);
  }

  /** Every factory builds a group-11 request with its command's code; only
      power-of-day and energy-of-period carry an extension, and it ends in "END". */
  lemma Factories(id: string, today: LocalDate, period: string)
    requires ValidDate(today)
    ensures var r := SystemInfoRequest();
      r.codeGroup == 11 && CommandOfCode(r.commandCode) == Some(SystemInfo) && r.ecuId == "" && r.extension == ""
    ensures var r := RealtimeDataRequest(id);
      r.codeGroup == 11 && CommandOfCode(r.commandCode) == Some(RealtimeData) && r.ecuId == id && r.extension == ""
    ensures var r := InverterSignalRequest(id);
      r.codeGroup == 11 && CommandOfCode(r.commandCode) == Some(InverterSignal) && r.ecuId == id && r.extension == ""
    ensures var r := PowerOfDayRequest(id, today);
      r.codeGroup == 11 && CommandOfCode(r.commandCode) == Some(PowerOfDay) && r.ecuId == id
      && r.extension == FormatDate(today) + "END"
    ensures var r := EnergyOfPeriodRequest(id, period);
      r.codeGroup == 11 && CommandOfCode(r.commandCode) == Some(EnergyOfPeriod) && r.ecuId == id
      && r.extension == period + "END"
  {
  }

  /** The power-of-day extension names the date: its first eight characters
      read back as year, month and day. */
  lemma PowerOfDayExtensionRoundTrip(id: string, today: LocalDate)
    requires ValidDate(today) && 1 <= today.year <= 9999
    ensures var e := PowerOfDayRequest(id, today).extension;
      && |e| == 11 && e[8..] == "END"
      && ParseInt(e[0..4]) == Ok(today.year)
      && ParseInt(e[4..6]) == Ok(today.month)
      && ParseInt(e[6..8]) == Ok(today.day)
  {
    var y, m, d := ZeroPad(today.year, 4), ZeroPad(today.month, 2), ZeroPad(today.day, 2);
    DecimalLength(today.year, 4);
    ParseZeroPad(today.year, 4);
    ParseZeroPad(today.month, 2);
    ParseZeroPad(today.day, 2);
    assert PowerOfDayRequest(id, today).extension == y + m + d + "END";
    DateFieldSlices(y, m, d);
  }

  lemma DateFieldSlices(y: string, m: string, d: string)
    requires |y| == 4 && |m| == 2 && |d| == 2
    ensures var e := y + m + d + "END";
      |e| == 11 && e[0..4] == y && e[4..6] == m && e[6..8] == d && e[8..] == "END"
  {
  }

  /** Requests with ASCII ids and extensions go out one byte per character. */
  lemma AsciiRequestBytes(r: Request)
    requires IsAscii(r.ecuId) && IsAscii(r.extension)
    ensures |GetBytes(r)| == |ToString(r)|
    ensures AsciiDecode(GetBytes(r)) == ToString(r)
  {
    var t := Template(r);
    assert IsAscii(t) by {
      assert IsAscii(Decimal(r.codeGroup));
      assert IsAscii(ZeroPad(r.commandCode, 4));
    }
    ReplaceKeepsAscii(t, LengthField(r));
    Utf8OfAscii(ToString(r));
  }

  lemma {:induction false} ReplaceKeepsAscii(s: string, rep: string)
    requires IsAscii(s) && IsAscii(rep)
    ensures IsAscii(Replace(s, rep))
    decreases |s|
  {
    if |s| >= 4 {
      if s[..4] == PLACEHOLDER {
        ReplaceKeepsAscii(s[4..], rep);
      } else {
        ReplaceKeepsAscii(s[1..], rep);
      }
    }
  }
}
