/** ECUResponse.java: the checks a response frame must pass, in the order
    CreateFromBytes makes them, and the hand-off of the payload to the
    decoder its command code names.

    A frame is "APS", a two-digit command group, a four-digit length (the
    frame's size less the final newline), a four-digit command code, for
    every command but system info a two-digit match status, the payload,
    and "END\n". */
module EcuResponse {
  import opened Results
  import opened JavaPrims
  import C = Constants
  import SystemInfo
  import Realtime
  import PowerOfDay
  import InverterSignal

  /** Bytes before the match status: signature, group, length, code. */
  const HEADER_SIZE: nat := 13

  /** The decoded payload, one case per command that carries one. */
  datatype Payload =
    | SystemInfoPayload(info: SystemInfo.Info)
    | RealtimeDataPayload(realtime: Realtime.RealtimePayload)
    | PowerOfDayPayload(powers: seq<PowerOfDay.PowerEntry>)
    | InverterSignalPayload(signals: seq<InverterSignal.SignalEntry>)

  datatype Response = Response(commandGroup: int, commandCode: int, matchStatus: int, dataLength: int, payload: Payload)

  /** The command codes whose payload is decoded. */
  predicate HasPayload(code: int) {
    code == C.COMMAND_CODE_GET_SYSTEM_INFO || code == C.COMMAND_CODE_GET_REALTIME_DATA
    || code == C.COMMAND_CODE_GET_POWER_OF_DAY || code == C.COMMAND_CODE_GET_INVERTER_SIGNAL
  }

  /** The payload case that belongs to a command code. */
  predicate PayloadFits(code: int, p: Payload) {
    && (p.SystemInfoPayload? <==> code == C.COMMAND_CODE_GET_SYSTEM_INFO)
    && (p.RealtimeDataPayload? <==> code == C.COMMAND_CODE_GET_REALTIME_DATA)
    && (p.PowerOfDayPayload? <==> code == C.COMMAND_CODE_GET_POWER_OF_DAY)
    && (p.InverterSignalPayload? <==> code == C.COMMAND_CODE_GET_INVERTER_SIGNAL)
  }

  /** The 13 header bytes as text. The Java code copies and decodes each
      field separately; US-ASCII decoding works byte by byte, so each field
      is the matching slice of this text. */
  function Header(b: seq<uint8>): (h: string)
    requires HEADER_SIZE <= |b|
    ensures |h| == HEADER_SIZE
  {
    AsciiDecode(b[..HEADER_SIZE])
  }

  /** The command code field, characters 9..13 of the header. */
  function CodeText(b: seq<uint8>): string
    requires HEADER_SIZE <= |b|
  {
    Header(b)[9..13]
  }

  /** The group field names group 11 or group 12. */
  predicate SupportedGroup(g: string) {
    g == "11" || g == "12"
  }

  /** A full header that starts with "APS" and names a supported group. */
  predicate HeadAccepted(b: seq<uint8>) {
    HEADER_SIZE <= |b| && Header(b)[..3] == C.ECU_PATTERN_START && SupportedGroup(Header(b)[3..5])
  }

  /** The frame checks: enough bytes, the start signature, a supported
      group, a parsable length that the buffer covers, and the end signature
      where that length puts it. Yields the group and the derived length
      (the declared length plus the newline). Each check that fails names
      its own error. */
  function CheckFrame(b: seq<uint8>): (r: Result<(int, int)>)
    ensures |b| < HEADER_SIZE ==> r == Fail(TooLittleData)
    ensures HEADER_SIZE <= |b| && Header(b)[..3] != C.ECU_PATTERN_START ==> r == Fail(MissingStartSignature)
    ensures HEADER_SIZE <= |b| && Header(b)[..3] == C.ECU_PATTERN_START && !SupportedGroup(Header(b)[3..5]) ==>
              r == Fail(UnsupportedCommandGroup(Header(b)[3..5]))
    ensures HeadAccepted(b) && ParseInt(Header(b)[5..9]).Fail? ==> r == Fail(NumberFormat(Header(b)[5..9]))
    ensures HeadAccepted(b) && ParseInt(Header(b)[5..9]).Ok? ==>
              var d := ParseInt(Header(b)[5..9]).value + 1;
              && (|b| < d ==> r == Fail(SizeMismatch(|b|, d)))
              && (d <= |b| && d < 4 ==> r == Fail(IndexOutOfBounds(d - 4)))
              && (4 <= d <= |b| && AsciiDecode(b[d - 4..d]) != C.ECU_PATTERN_END ==> r == Fail(MissingEndSignature))
    ensures r.Ok? ==> HEADER_SIZE <= |b| && 4 <= r.value.1 <= |b|
    ensures r.Ok? ==> Header(b)[..3] == C.ECU_PATTERN_START
    ensures r.Ok? ==> || (r.value.0 == 11 && Header(b)[3..5] == "11")
                      || (r.value.0 == 12 && Header(b)[3..5] == "12")
    ensures r.Ok? ==> ParseInt(Header(b)[5..9]) == Ok(r.value.1 - 1)
    ensures r.Ok? ==> AsciiDecode(b[r.value.1 - 4..r.value.1]) == C.ECU_PATTERN_END
  {
    if |b| < HEADER_SIZE then Fail(TooLittleData)
    else
      var head := Header(b);
      if head[..3] != C.ECU_PATTERN_START then Fail(MissingStartSignature)
      else
        var group := head[3..5];
        if !SupportedGroup(group) then Fail(UnsupportedCommandGroup(group))
        else
          var declared :- ParseInt(head[5..9]);
          var dataLength := declared + 1;
          if |b| < dataLength then Fail(SizeMismatch(|b|, dataLength))
          else
            var endBytes :- CopyOfRange(b, dataLength - 4, dataLength);
            if AsciiDecode(endBytes) != C.ECU_PATTERN_END then Fail(MissingEndSignature)
            else Ok((if group == "11" then 11 else 12, dataLength))
  }

  /** getMatchStatus: the two characters after the header as an int. */
  function MatchStatus(b: seq<uint8>): (r: Result<int>)
    requires HEADER_SIZE <= |b|
    ensures r.Ok? ==> HEADER_SIZE + 2 <= |b| && r == ParseInt(AsciiDecode(b[13..15]))
  {
    var text := AsciiDecode(CopyOfRange(b, 13, 15).value);
    if |b| < HEADER_SIZE + 2 then
      // a cut status field holds a NUL, which parseInt rejects
      assert text[1] == 0 as char && text[1..][0] == text[1];
      ParseInt(text)
    else
      assert text == AsciiDecode(b[13..15]);
      ParseInt(text)
  }

  /** The payload decoder the command code names. */
  function DecodePayload(code: int, p: seq<uint8>): (r: Result<Payload>)
    requires HasPayload(code)
    ensures r.Ok? ==> PayloadFits(code, r.value)
  {
    if code == C.COMMAND_CODE_GET_SYSTEM_INFO then
      var x :- SystemInfo.Decode(p); Ok(SystemInfoPayload(x))
    else if code == C.COMMAND_CODE_GET_REALTIME_DATA then
      var x :- Realtime.Decode(p); Ok(RealtimeDataPayload(x))
    else if code == C.COMMAND_CODE_GET_POWER_OF_DAY then
      var x :- PowerOfDay.Decode(p); Ok(PowerOfDayPayload(x))
    else
      var x :- InverterSignal.Decode(p); Ok(InverterSignalPayload(x))
  }

  /** CreateFromBytes on a non-null array. `Ok(None)` is the `null` it
      returns when a realtime, power-of-day or signal response carries a
      match status other than OK. */
  function Decode(b: seq<uint8>): (r: Result<Option<Response>>)
    ensures |b| < HEADER_SIZE ==> r == Fail(TooLittleData)
    ensures CheckFrame(b).Fail? ==> r == Fail(CheckFrame(b).error)
    ensures CheckFrame(b).Ok? && ParseInt(CodeText(b)).Fail? ==> r == Fail(NumberFormat(CodeText(b)))
    ensures CheckFrame(b).Ok? && ParseInt(CodeText(b)) == Ok(C.COMMAND_CODE_GET_ENERGY_OF_WEEK_MONTH_YEAR) ==>
              r == Fail(NotImplemented)
    ensures CheckFrame(b).Ok? && ParseInt(CodeText(b)).Ok? && !HasPayload(ParseInt(CodeText(b)).value)
            && ParseInt(CodeText(b)).value != C.COMMAND_CODE_GET_ENERGY_OF_WEEK_MONTH_YEAR ==>
              r == Fail(InvalidCommandCode(CodeText(b)))
    ensures r.Ok? ==> CheckFrame(b).Ok?
    ensures r.Ok? ==> ParseInt(CodeText(b)).Ok? && HasPayload(ParseInt(CodeText(b)).value)
    ensures r.Ok? && r.value.Some? ==>
      var x := r.value.value;
      && CheckFrame(b) == Ok((x.commandGroup, x.dataLength))
      && ParseInt(CodeText(b)) == Ok(x.commandCode)
      && x.matchStatus == C.ECU_RESPONSE_OK
      && 17 <= x.dataLength <= |b|
      && PayloadFits(x.commandCode, x.payload)
    ensures r.Ok? && r.value.None? ==>
      && ParseInt(CodeText(b)) != Ok(C.COMMAND_CODE_GET_SYSTEM_INFO)
      && HEADER_SIZE + 2 <= |b|
      && ParseInt(AsciiDecode(b[13..15])).Ok?
      && ParseInt(AsciiDecode(b[13..15])).value != C.ECU_RESPONSE_OK
  {
    var (group, dataLength) :- CheckFrame(b);
    Dispatch(b, group, dataLength)
  }

  /** Where the payload starts: after the header, and after the status
      field too for every code but system info. */
  function PayloadStart(code: int): int {
    if code == C.COMMAND_CODE_GET_SYSTEM_INFO then HEADER_SIZE else HEADER_SIZE + 2
  }

  /** The steps after the frame checks: parse the code, then read the
      status and the payload as that code prescribes. A code that does not
      parse, the unimplemented energy code, any other code without a
      decoder and a status that does not parse each fail with their own
      error; a status other than OK gives no response at all. */
  function Dispatch(b: seq<uint8>, group: int, dataLength: int): (r: Result<Option<Response>>)
    requires HEADER_SIZE <= |b|
    ensures ParseInt(CodeText(b)).Fail? ==> r == Fail(NumberFormat(CodeText(b)))
    ensures ParseInt(CodeText(b)) == Ok(C.COMMAND_CODE_GET_ENERGY_OF_WEEK_MONTH_YEAR) ==> r == Fail(NotImplemented)
    ensures ParseInt(CodeText(b)).Ok? && !HasPayload(ParseInt(CodeText(b)).value)
            && ParseInt(CodeText(b)).value != C.COMMAND_CODE_GET_ENERGY_OF_WEEK_MONTH_YEAR ==>
              r == Fail(InvalidCommandCode(CodeText(b)))
    ensures ParseInt(CodeText(b)).Ok? && HasPayload(ParseInt(CodeText(b)).value)
            && ParseInt(CodeText(b)).value != C.COMMAND_CODE_GET_SYSTEM_INFO ==>
              && (MatchStatus(b).Fail? ==> r == Fail(MatchStatus(b).error))
              && (MatchStatus(b).Ok? && MatchStatus(b).value != C.ECU_RESPONSE_OK ==> r == Ok(None))
    ensures r.Ok? && r.value.Some? ==>
              var x := r.value.value;
              && x.commandGroup == group && x.dataLength == dataLength && x.matchStatus == C.ECU_RESPONSE_OK
              && ParseInt(CodeText(b)) == Ok(x.commandCode) && HasPayload(x.commandCode)
              && CopyOfRange(b, PayloadStart(x.commandCode), dataLength - 4).Ok?
              && DecodePayload(x.commandCode, CopyOfRange(b, PayloadStart(x.commandCode), dataLength - 4).value)
                 == Ok(x.payload)
  {
    var codeText := CodeText(b);
    var code :- ParseInt(codeText);
    if code == C.COMMAND_CODE_GET_SYSTEM_INFO then
      var p :- CopyOfRange(b, HEADER_SIZE, dataLength - 4);
      var x :- DecodePayload(code, p);
      Ok(Some(Response(group, code, C.ECU_RESPONSE_OK, dataLength, x)))
    else if code == C.COMMAND_CODE_GET_REALTIME_DATA || code == C.COMMAND_CODE_GET_POWER_OF_DAY
         || code == C.COMMAND_CODE_GET_INVERTER_SIGNAL then
      var status :- MatchStatus(b);
      if status != C.ECU_RESPONSE_OK then Ok(None)
      else
        var p :- CopyOfRange(b, HEADER_SIZE + 2, dataLength - 4);
        var x :- DecodePayload(code, p);
        Ok(Some(Response(group, code, status, dataLength, x)))
    else if code == C.COMMAND_CODE_GET_ENERGY_OF_WEEK_MONTH_YEAR then Fail(NotImplemented)
    else Fail(InvalidCommandCode(codeText))
  }

  /** ECUResponse.CreateFromBytes: a null array is rejected before anything else. */
  function CreateFromBytes(bytes: Option<seq<uint8>>): (r: Result<Option<Response>>)
    ensures bytes.None? ==> r == Fail(NoData)
    ensures bytes.Some? && |bytes.value| < HEADER_SIZE ==> r == Fail(TooLittleData)
  {
    match bytes
    case None => Fail(NoData)
    case Some(b) => Decode(b)
  }

  // ---------------------------------------------------------------- frame properties

  /** A frame of 13 or 14 bytes that passes the frame checks has its end
      signature inside the command code (every earlier header character is
      a letter of "APS", a group digit or part of the length), so the code
      does not parse. */
  lemma ShortFrameHasNoCode(b: seq<uint8>)
    requires CheckFrame(b).Ok? && |b| < HEADER_SIZE + 2
    ensures ParseInt(CodeText(b)).Fail?
  {
    var d := CheckFrame(b).value.1;
    var head := Header(b);
    var len := head[5..9];
    assert head[0] == head[..3][0] && head[1] == head[..3][1] && head[2] == head[..3][2];
    assert head[3] == head[3..5][0] && head[4] == head[3..5][1];
    assert head[5] == len[0] && head[6] == len[1..][0] && head[7] == len[1..][1] && head[8] == len[1..][2];
    var e := AsciiDecode(b[d - 4..d]);
    assert e[0] == 'E' && e[0] == AsciiChar(b[d - 4]);
    assert head[d - 4] == 'E';
    assert d - 4 >= 9;
    var code := CodeText(b);
    assert code[d - 13] == 'E';
    if d == 14 {
      assert code[1..][0] == 'E';
    }
  }

  /** Two buffers that agree on every field read after the frame checks
      are dispatched alike. */
  lemma DispatchAgree(b1: seq<uint8>, b2: seq<uint8>, group: int, d: int)
    requires HEADER_SIZE <= |b1| && HEADER_SIZE <= |b2|
    requires CodeText(b1) == CodeText(b2) && MatchStatus(b1) == MatchStatus(b2)
    requires CopyOfRange(b1, HEADER_SIZE, d - 4) == CopyOfRange(b2, HEADER_SIZE, d - 4)
    requires CopyOfRange(b1, HEADER_SIZE + 2, d - 4) == CopyOfRange(b2, HEADER_SIZE + 2, d - 4)
    ensures Dispatch(b1, group, d) == Dispatch(b2, group, d)
  {
  }

  /** Only the first DataLength bytes count: whatever follows a frame that
      passes the frame checks is ignored. */
  lemma TrailingBytesIgnored(b: seq<uint8>, t: seq<uint8>)
    requires CheckFrame(b).Ok?
    ensures Decode(b + t) == Decode(b)
  {
    var (group, d) := CheckFrame(b).value;
    FrameChecksExtend(b, t);
    DispatchExtend(b, t, group, d);
    DecodeIsDispatch(b, group, d);
    DecodeIsDispatch(b + t, group, d);
  }

  /** Past a passing frame check, decoding is the dispatch on its result. */
  lemma DecodeIsDispatch(b: seq<uint8>, group: int, d: int)
    requires CheckFrame(b) == Ok((group, d))
    ensures HEADER_SIZE <= |b| && Decode(b) == Dispatch(b, group, d)
  {
  }

  /** Bytes after a checked frame do not change its dispatch. */
  lemma DispatchExtend(b: seq<uint8>, t: seq<uint8>, group: int, d: int)
    requires CheckFrame(b) == Ok((group, d))
    requires CodeText(b + t) == CodeText(b)
    ensures HEADER_SIZE <= |b| && Dispatch(b + t, group, d) == Dispatch(b, group, d)
  {
    if |b| < HEADER_SIZE + 2 {
      ShortFrameHasNoCode(b);
      DispatchOfBadCode(b, group, d);
      DispatchOfBadCode(b + t, group, d);
    } else {
      DispatchExtendLong(b, t, group, d);
    }
  }

  lemma DispatchOfBadCode(b: seq<uint8>, group: int, d: int)
    requires HEADER_SIZE <= |b| && ParseInt(CodeText(b)).Fail?
    ensures Dispatch(b, group, d) == Fail(NumberFormat(CodeText(b)))
  {
  }

  lemma DispatchExtendLong(b: seq<uint8>, t: seq<uint8>, group: int, d: int)
    requires CheckFrame(b) == Ok((group, d)) && HEADER_SIZE + 2 <= |b|
    requires CodeText(b + t) == CodeText(b)
    ensures Dispatch(b + t, group, d) == Dispatch(b, group, d)
  {
    CopyOfRangeExtend(b, t, 13, 15);
    if HEADER_SIZE <= d - 4 {
      CopyOfRangeExtend(b, t, HEADER_SIZE, d - 4);
    }
    if HEADER_SIZE + 2 <= d - 4 {
      CopyOfRangeExtend(b, t, HEADER_SIZE + 2, d - 4);
    }
    DispatchAgree(b, b + t, group, d);
  }

  lemma FrameChecksExtend(b: seq<uint8>, t: seq<uint8>)
    requires CheckFrame(b).Ok?
    ensures CheckFrame(b + t) == CheckFrame(b) && CodeText(b + t) == CodeText(b)
  {
    var d := CheckFrame(b).value.1;
    assert (b + t)[..HEADER_SIZE] == b[..HEADER_SIZE];
    assert (b + t)[d - 4..d] == b[d - 4..d];
  }

  /** A buffer cut short of the declared length fails with both lengths. */
  lemma TruncatedFrame(b: seq<uint8>, k: nat)
    requires CheckFrame(b).Ok?
    requires HEADER_SIZE <= k < CheckFrame(b).value.1
    ensures Decode(b[..k]) == Fail(SizeMismatch(k, CheckFrame(b).value.1))
  {
    assert b[..k][..HEADER_SIZE] == b[..HEADER_SIZE];
  }

  // ---------------------------------------------------------------- encoding

  function GroupDigits(group: int): string {
    if group == 11 then "11" else "12"
  }

  lemma HeadShape(g: string, l: string, c: string)
    requires |g| == 2 && |l| == 4 && |c| == 4
    requires AllDigits(g) && AllDigits(l) && AllDigits(c)
    ensures var s := C.ECU_PATTERN_START + g + l + c;
      && |s| == HEADER_SIZE && IsAscii(s)
      && s[..3] == C.ECU_PATTERN_START && s[3..5] == g && s[5..9] == l && s[9..13] == c
  {
    var s := C.ECU_PATTERN_START + g + l + c;
    assert s[..3] == C.ECU_PATTERN_START && s[3..5] == g && s[5..9] == l && s[9..13] == c;
    assert forall i :: 3 <= i < 13 ==> IsDigit(s[i]) by {
      assert forall i :: 3 <= i < 5 ==> s[i] == g[i - 3];
      assert forall i :: 5 <= i < 9 ==> s[i] == l[i - 5];
      assert forall i :: 9 <= i < 13 ==> s[i] == c[i - 9];
    }
  }

  /** The header text of a frame `total` bytes long. */
  function HeadText(group: int, code: int, total: int): (s: string)
    requires group == 11 || group == 12
    requires 0 <= code < 10000 && 1 <= total <= 10000
    ensures |s| == HEADER_SIZE && IsAscii(s)
  {
    assert Pow10(4) == 10000;
    var g, l, c := GroupDigits(group), ZeroPad(total - 1, 4), ZeroPad(code, 4);
    HeadShape(g, l, c);
    C.ECU_PATTERN_START + g + l + c
  }

  /** The header fields read back: signature, group, length and code. */
  lemma HeadTextFields(group: int, code: int, total: int)
    requires group == 11 || group == 12
    requires 0 <= code < 10000 && 1 <= total <= 10000
    ensures var s := HeadText(group, code, total);
      && s[..3] == C.ECU_PATTERN_START && s[3..5] == GroupDigits(group)
      && ParseInt(s[5..9]) == Ok(total - 1) && ParseInt(s[9..13]) == Ok(code)
  {
    assert Pow10(4) == 10000;
    ParseZeroPad(total - 1, 4);
    ParseZeroPad(code, 4);
    HeadShape(GroupDigits(group), ZeroPad(total - 1, 4), ZeroPad(code, 4));
  }

  /** The status field a command other than system info carries. */
  function StatusField(code: int, status: int): (b: seq<uint8>)
    requires 0 <= status < 100
    ensures |b| == if code == C.COMMAND_CODE_GET_SYSTEM_INFO then 0 else 2
  {
    if code == C.COMMAND_CODE_GET_SYSTEM_INFO then []
    else
      assert Pow10(2) == 100;
      var s := ZeroPad(status, 2);
      assert IsAscii(s) by {
        assert forall i :: 0 <= i < |s| ==> IsDigit(s[i]);
      }
      AsciiEncode(s)
  }

  /** The status field reads back as the status. */
  lemma StatusFieldValue(code: int, status: int)
    requires 0 <= status < 100 && code != C.COMMAND_CODE_GET_SYSTEM_INFO
    ensures ParseInt(AsciiDecode(StatusField(code, status))) == Ok(status)
  {
    assert Pow10(2) == 100;
    ParseZeroPad(status, 2);
  }

  /** The bytes an ECU sends: header, status field, payload, end signature. */
  function ResponseBytes(group: int, code: int, status: int, payload: seq<uint8>): (b: seq<uint8>)
    requires group == 11 || group == 12
    requires 0 <= code < 10000 && 0 <= status < 100
    requires HEADER_SIZE + 2 + |payload| + 4 <= 10000
    ensures |b| == HEADER_SIZE + |StatusField(code, status)| + |payload| + 4
  {
    var body := StatusField(code, status) + payload;
    var total := HEADER_SIZE + |body| + 4;
    AsciiEncode(HeadText(group, code, total)) + body + AsciiEncode(C.ECU_PATTERN_END)
  }

  /** The three parts of an encoded frame, with the header naming its length. */
  lemma ResponseBytesParts(group: int, code: int, status: int, payload: seq<uint8>)
    requires group == 11 || group == 12
    requires 0 <= code < 10000 && 0 <= status < 100
    requires HEADER_SIZE + 2 + |payload| + 4 <= 10000
    ensures var f := ResponseBytes(group, code, status, payload);
      f == AsciiEncode(HeadText(group, code, |f|)) + (StatusField(code, status) + payload) + AsciiEncode(C.ECU_PATTERN_END)
  {
  }

  /** The converse of the frame checks' guarantees: a buffer with the start
      signature, a supported group, a length it covers and the end signature
      at that length passes them. */
  lemma CheckFrameAccepts(b: seq<uint8>, group: int, d: int)
    requires HEADER_SIZE <= |b| && (group == 11 || group == 12)
    requires Header(b)[..3] == C.ECU_PATTERN_START && Header(b)[3..5] == GroupDigits(group)
    requires ParseInt(Header(b)[5..9]) == Ok(d - 1) && 4 <= d <= |b|
    requires AsciiDecode(b[d - 4..d]) == C.ECU_PATTERN_END
    ensures CheckFrame(b) == Ok((group, d))
  {
  }

  /** Header and end signature of a frame, wherever its body ends. */
  lemma FrameAt(h: string, body: seq<uint8>, t: seq<uint8>)
    requires |h| == HEADER_SIZE && IsAscii(h)
    ensures var b := AsciiEncode(h) + body + AsciiEncode(C.ECU_PATTERN_END) + t;
      var d := HEADER_SIZE + |body| + 4;
      && d <= |b| && Header(b) == h && AsciiDecode(b[d - 4..d]) == C.ECU_PATTERN_END
  {
    var hb, eb := AsciiEncode(h), AsciiEncode(C.ECU_PATTERN_END);
    var b := hb + body + eb + t;
    assert b[..HEADER_SIZE] == hb;
    assert b[HEADER_SIZE + |body|..HEADER_SIZE + |body| + 4] == eb;
  }

  /** An encoded frame passes the frame checks, whatever follows it. */
  lemma CheckResponseBytes(group: int, code: int, status: int, payload: seq<uint8>, t: seq<uint8>)
    requires group == 11 || group == 12
    requires 0 <= code < 10000 && 0 <= status < 100
    requires HEADER_SIZE + 2 + |payload| + 4 <= 10000
    ensures var f := ResponseBytes(group, code, status, payload);
      && CheckFrame(f + t) == Ok((group, |f|))
      && ParseInt(CodeText(f + t)) == Ok(code)
  {
    var f := ResponseBytes(group, code, status, payload);
    var body := StatusField(code, status) + payload;
    var h := HeadText(group, code, |f|);
    ResponseBytesParts(group, code, status, payload);
    FrameAt(h, body, t);
    HeadTextFields(group, code, |f|);
    CheckFrameAccepts(f + t, group, |f|);
  }

  /** A status field that lies inside the buffer is what getMatchStatus parses. */
  lemma MatchStatusOf(b: seq<uint8>, s: seq<uint8>)
    requires HEADER_SIZE <= |b| && CopyOfRange(b, HEADER_SIZE, HEADER_SIZE + 2) == Ok(s) && HEADER_SIZE + 2 <= |b|
    ensures MatchStatus(b) == ParseInt(AsciiDecode(s))
  {
  }

  /** Status field and payload behind a 13-byte header, seen by copyOfRange. */
  lemma BodyAt(hb: seq<uint8>, sf: seq<uint8>, payload: seq<uint8>, eb: seq<uint8>, t: seq<uint8>)
    requires |hb| == HEADER_SIZE
    ensures var b := hb + (sf + payload) + eb + t;
      && CopyOfRange(b, HEADER_SIZE + |sf|, HEADER_SIZE + |sf| + |payload|) == Ok(payload)
      && (|sf| == 2 ==> CopyOfRange(b, HEADER_SIZE, HEADER_SIZE + 2) == Ok(sf))
  {
    var rest := eb + t;
    assert hb + (sf + payload) + eb + t == hb + (sf + payload) + rest;
    CopyOfRangeMiddle(hb, sf + payload, rest, |sf|, |sf| + |payload|);
    assert (sf + payload)[|sf|..|sf| + |payload|] == payload;
    if |sf| == 2 {
      CopyOfRangeMiddle(hb, sf + payload, rest, 0, 2);
      assert (sf + payload)[0..2] == sf;
    }
  }

  /** Where the payload of an encoded frame is found. */
  lemma ResponseBytesPayload(group: int, code: int, status: int, payload: seq<uint8>, t: seq<uint8>)
    requires group == 11 || group == 12
    requires 0 <= code < 10000 && 0 <= status < 100
    requires HEADER_SIZE + 2 + |payload| + 4 <= 10000
    ensures var f := ResponseBytes(group, code, status, payload);
      CopyOfRange(f + t, HEADER_SIZE + |StatusField(code, status)|, |f| - 4) == Ok(payload)
  {
    var f := ResponseBytes(group, code, status, payload);
    var sf := StatusField(code, status);
    ResponseBytesParts(group, code, status, payload);
    BodyAt(AsciiEncode(HeadText(group, code, |f|)), sf, payload, AsciiEncode(C.ECU_PATTERN_END), t);
  }

  /** The status field of an encoded frame reads back as its status. */
  lemma ResponseBytesStatus(group: int, code: int, status: int, payload: seq<uint8>, t: seq<uint8>)
    requires group == 11 || group == 12
    requires 0 <= code < 10000 && 0 <= status < 100 && code != C.COMMAND_CODE_GET_SYSTEM_INFO
    requires HEADER_SIZE + 2 + |payload| + 4 <= 10000
    ensures MatchStatus(ResponseBytes(group, code, status, payload) + t) == Ok(status)
  {
    var f := ResponseBytes(group, code, status, payload);
    var sf := StatusField(code, status);
    ResponseBytesParts(group, code, status, payload);
    BodyAt(AsciiEncode(HeadText(group, code, |f|)), sf, payload, AsciiEncode(C.ECU_PATTERN_END), t);
    StatusFieldValue(code, status);
    MatchStatusOf(f + t, sf);
  }

  /** Decoding a frame from its checked parts: the frame checks, the code,
      the status field and the payload range. */
  lemma DecodeOfParts(b: seq<uint8>, group: int, d: int, code: int, status: int, payload: seq<uint8>)
    requires CheckFrame(b) == Ok((group, d)) && ParseInt(CodeText(b)) == Ok(code) && HasPayload(code)
    requires code != C.COMMAND_CODE_GET_SYSTEM_INFO ==> MatchStatus(b) == Ok(status)
    requires CopyOfRange(b, if code == C.COMMAND_CODE_GET_SYSTEM_INFO then HEADER_SIZE else HEADER_SIZE + 2, d - 4) == Ok(payload)
    ensures Decode(b) == if code != C.COMMAND_CODE_GET_SYSTEM_INFO && status != C.ECU_RESPONSE_OK then Ok(None)
                         else match DecodePayload(code, payload)
                              case Ok(x) => Ok(Some(Response(group, code, C.ECU_RESPONSE_OK, d, x)))
                              case Fail(e) => Fail(e)
  {
    assert Decode(b) == Dispatch(b, group, d);
  }

  /** The response round trip: an encoded frame decodes to its group, code
      and the payload decoder's verdict on its payload, except that a
      non-OK status gives `null` without the payload being looked at. */
  lemma DecodeResponseBytes(group: int, code: int, status: int, payload: seq<uint8>, t: seq<uint8>)
    requires group == 11 || group == 12
    requires HasPayload(code) && 0 <= status < 100
    requires HEADER_SIZE + 2 + |payload| + 4 <= 10000
    ensures var f := ResponseBytes(group, code, status, payload);
      Decode(f + t) == if code != C.COMMAND_CODE_GET_SYSTEM_INFO && status != C.ECU_RESPONSE_OK then Ok(None)
                       else match DecodePayload(code, payload)
                            case Ok(x) => Ok(Some(Response(group, code, C.ECU_RESPONSE_OK, |f|, x)))
                            case Fail(e) => Fail(e)
  {
    var f := ResponseBytes(group, code, status, payload);
    CheckResponseBytes(group, code, status, payload, t);
    ResponseBytesPayload(group, code, status, payload, t);
    if code != C.COMMAND_CODE_GET_SYSTEM_INFO {
      ResponseBytesStatus(group, code, status, payload, t);
    }
    DecodeOfParts(f + t, group, |f|, code, status, payload);
  }

  /** A system-info frame carrying an encoded payload decodes to that payload. */
  lemma SystemInfoResponse(x: SystemInfo.Info)
    requires SystemInfo.ValidInfo(x)
    ensures var f := ResponseBytes(11, 1, 0, SystemInfo.Encode(x));
      Decode(f) == Ok(Some(Response(11, 1, 0, |f|, SystemInfoPayload(x))))
  {
    var p := SystemInfo.Encode(x);
    SystemInfo.DecodeEncode(x, []);
    assert p + [] == p;
    DecodeResponseBytes(11, 1, 0, p, []);
    assert ResponseBytes(11, 1, 0, p) + [] == ResponseBytes(11, 1, 0, p);
  }

  /** A realtime frame with status OK carrying an encoded payload decodes to it. */
  lemma RealtimeResponse(r: Realtime.RealtimePayload)
    requires Realtime.ValidPayload(r)
    requires HEADER_SIZE + 2 + |Realtime.Encode(r)| + 4 <= 10000
    ensures var f := ResponseBytes(11, 2, 0, Realtime.Encode(r));
      Decode(f) == Ok(Some(Response(11, 2, 0, |f|, RealtimeDataPayload(r))))
  {
    var p := Realtime.Encode(r);
    Realtime.DecodeEncode(r);
    DecodeResponseBytes(11, 2, 0, p, []);
    assert ResponseBytes(11, 2, 0, p) + [] == ResponseBytes(11, 2, 0, p);
  }

  /** A signal frame with status OK carrying encoded entries decodes to them. */
  lemma InverterSignalResponse(es: seq<InverterSignal.SignalEntry>)
    requires forall i :: 0 <= i < |es| ==> InverterSignal.ValidEntry(es[i])
    requires HEADER_SIZE + 2 + |InverterSignal.Encode(es)| + 4 <= 10000
    ensures var f := ResponseBytes(11, 30, 0, InverterSignal.Encode(es));
      Decode(f) == Ok(Some(Response(11, 30, 0, |f|, InverterSignalPayload(es))))
  {
    var p := InverterSignal.Encode(es);
    InverterSignal.DecodeEncode(es);
    DecodeResponseBytes(11, 30, 0, p, []);
    assert ResponseBytes(11, 30, 0, p) + [] == ResponseBytes(11, 30, 0, p);
  }

  /** A power-of-day frame with status OK decodes only when its payload is
      empty, because every record's two-byte time is rejected. */
  lemma PowerOfDayResponse(p: seq<uint8>)
    requires HEADER_SIZE + 2 + |p| + 4 <= 10000
    ensures var f := ResponseBytes(11, 3, 0, p);
      Decode(f).Ok? <==> |p| == 0
    ensures |p| == 0 ==> Decode(ResponseBytes(11, 3, 0, p)) == Ok(Some(Response(11, 3, 0, 19, PowerOfDayPayload([]))))
  {
    PowerOfDay.DecodeOnlyEmpty(p);
    DecodeResponseBytes(11, 3, 0, p, []);
    assert ResponseBytes(11, 3, 0, p) + [] == ResponseBytes(11, 3, 0, p);
  }
}
