/** ECUConnector.java: the pieces of the socket exchange that carry logic.
    The socket, the clock and `Thread.sleep` are left out: the bytes the
    ECU sends are a parameter (`stream`, ending where `read` returns -1),
    the clock readings are parameters, and the sleep is returned as the
    number of milliseconds asked for. */
module EcuConnector {
  import opened Results
  import opened JavaPrims
  import C = Constants
  import EcuRequest
  import EcuResponse

  /** `ECU_PATTERN_END.getBytes(UTF_8)`, the end-of-message mark "END\n". */
  const END_MARK: seq<uint8> := [0x45, 0x4E, 0x44, 0x0A]

  lemma EndMarkIsPatternEnd()
    ensures Utf8Encode(C.ECU_PATTERN_END) == END_MARK
    ensures AsciiDecode(END_MARK) == C.ECU_PATTERN_END
  {
    Utf8OfAscii(C.ECU_PATTERN_END);
  }

  // ---------------------------------------------------------------- end-of-message scan

  /** One step of the scan: the counter `iEndFlagPos` advances when the byte
      is the next byte of the mark and drops to 0 otherwise, without
      looking at that byte again. */
  function Step(k: nat, x: uint8): (k': nat)
    requires k < |END_MARK|
    ensures k' == k + 1 || k' == 0
    ensures k' == k + 1 <==> x == END_MARK[k]
  {
    if x == END_MARK[k] then k + 1 else 0
  }

  /** The counter after the bytes `s`, staying at 4 once the mark is seen. */
  function Counter(s: seq<uint8>): (k: nat)
    ensures k <= |END_MARK|
  {
    if |s| == 0 then 0
    else
      var k := Counter(s[..|s| - 1]);
      if k == |END_MARK| then k else Step(k, s[|s| - 1])
  }

  /** The scan of `stream` stops after its first `n` bytes: there the mark
      has just been seen or the stream has ended, and not before. */
  predicate StopsAt(stream: seq<uint8>, n: nat) {
    && n <= |stream|
    && (Counter(stream[..n]) == |END_MARK| || n == |stream|)
    && forall j :: 0 <= j < n ==> Counter(stream[..j]) < |END_MARK|
  }

  /** A counter below 4 counts the bytes of the mark that end `s`. */
  lemma {:induction false} CounterIsMatchedSuffix(s: seq<uint8>)
    requires Counter(s) < |END_MARK|
    ensures Counter(s) <= |s| && s[|s| - Counter(s)..] == END_MARK[..Counter(s)]
    decreases |s|
  {
    if |s| > 0 {
      var p := s[..|s| - 1];
      if Counter(p) < |END_MARK| {
        CounterIsMatchedSuffix(p);
        var k := Counter(p);
        if Counter(s) == k + 1 {
          assert s[|s| - (k + 1)..] == p[|p| - k..] + [s[|s| - 1]];
        }
      }
    }
  }

  /** Where the scan first reaches 4, the bytes read end with the mark. */
  lemma FirstDetectionEndsWithMark(s: seq<uint8>)
    requires |s| > 0 && Counter(s) == |END_MARK| && Counter(s[..|s| - 1]) < |END_MARK|
    ensures |s| >= |END_MARK| && s[|s| - |END_MARK|..] == END_MARK
  {
    var p := s[..|s| - 1];
    CounterIsMatchedSuffix(p);
    assert s[|s| - 4..] == p[|p| - 3..] + [s[|s| - 1]];
  }

  /** The read loop of sendRequest: one byte at a time, until the counter
      reaches 4 or the stream ends. What was read is returned whether or
      not the mark was seen. */
  method ReadUntilEnd(stream: seq<uint8>) returns (buffer: seq<uint8>)
    ensures StopsAt(stream, |buffer|) && buffer == stream[..|buffer|]
    ensures Counter(buffer) == |END_MARK| ==> |buffer| >= |END_MARK| && buffer[|buffer| - |END_MARK|..] == END_MARK
  {
    var k: nat := 0;
    var i := 0;
    buffer := [];
    while k < |END_MARK| && i < |stream|
      invariant 0 <= i <= |stream| && buffer == stream[..i]
      invariant k == Counter(buffer)
      invariant forall j :: 0 <= j < i ==> Counter(stream[..j]) < |END_MARK|
      decreases |stream| - i
    {
      var x := stream[i];
      CounterSnoc(buffer, x);
      buffer := buffer + [x];
      assert buffer == stream[..i + 1];
      if x == END_MARK[k] {
        k := k + 1;
      } else {
        k := 0;
      }
      i := i + 1;
    }
    if k == |END_MARK| {
      assert buffer[..|buffer| - 1] == stream[..i - 1];
      FirstDetectionEndsWithMark(buffer);
    }
  }

  /** The scan stops at one place only: no later point is a stopping point. */
  lemma NoLaterStop(stream: seq<uint8>, n: nat, m: nat)
    requires StopsAt(stream, n) && n < m
    ensures !StopsAt(stream, m)
  {
    if m <= |stream| {
      assert Counter(stream[..n]) == |END_MARK|;
    }
  }

  /** Feeding one more byte. */
  lemma CounterSnoc(s: seq<uint8>, x: uint8)
    ensures Counter(s + [x]) == if Counter(s) == |END_MARK| then |END_MARK| else Step(Counter(s), x)
  {
    assert (s + [x])[..|s + [x]| - 1] == s;
  }

  /** The mark is seen right after bytes that leave the counter at 0, and
      missed right after bytes that leave it at 1, 2 or 3 (an "E", "EN" or
      "END" that was not followed by the rest of the mark), because a
      mismatching byte is not compared again with the mark's first byte. */
  lemma MarkAfter(p: seq<uint8>)
    requires Counter(p) < |END_MARK|
    ensures Counter(p + END_MARK) == |END_MARK| <==> Counter(p) == 0
    ensures Counter(p) != 0 ==> Counter(p + END_MARK) == 0
  {
    var e, n, d, l := END_MARK[0], END_MARK[1], END_MARK[2], END_MARK[3];
    assert p + END_MARK == p + [e] + [n] + [d] + [l];
    CounterSnoc(p, e);
    CounterSnoc(p + [e], n);
    CounterSnoc(p + [e] + [n], d);
    CounterSnoc(p + [e] + [n] + [d], l);
  }

  /** "EEND\n" ends with the mark but is not detected: after the first 'E'
      the second one resets the counter to 0. */
  lemma DoubledEMissed()
    ensures AsciiDecode([0x45] + END_MARK) == "EEND\n"
    ensures Counter([0x45] + END_MARK) == 0
  {
    CounterSnoc([], 0x45);
    assert [] + [0x45 as uint8] == [0x45];
    MarkAfter([0x45]);
  }

  /** A frame whose bytes before the end mark never complete the mark and
      leave the counter at 0 is read exactly up to its end mark, whatever
      the ECU sends after it. */
  lemma {:induction false} CleanFrameStopsAtItsEnd(p: seq<uint8>, t: seq<uint8>)
    requires forall j :: 0 <= j <= |p| ==> Counter(p[..j]) < |END_MARK|
    requires Counter(p) == 0
    ensures StopsAt(p + END_MARK + t, |p| + |END_MARK|)
  {
    var s := p + END_MARK + t;
    var n := |p| + |END_MARK|;
    assert s[..n] == p + END_MARK;
    MarkAfter(p);
    assert p[..|p|] == p;
    forall j | 0 <= j < n
      ensures Counter(s[..j]) < |END_MARK|
    {
      if j <= |p| {
        assert s[..j] == p[..j];
      } else {
        var m := END_MARK[..j - |p|];
        assert s[..j] == p + m;
        PartialMark(p, j - |p|);
      }
    }
  }

  /** Part of the mark after a counter of 0 moves the counter to its length. */
  lemma {:induction false} PartialMark(p: seq<uint8>, i: nat)
    requires Counter(p) == 0 && i < |END_MARK|
    ensures Counter(p + END_MARK[..i]) == i
  {
    if i == 0 {
      assert p + END_MARK[..0] == p;
    } else {
      PartialMark(p, i - 1);
      assert p + END_MARK[..i] == (p + END_MARK[..i - 1]) + [END_MARK[i - 1]];
      CounterSnoc(p + END_MARK[..i - 1], END_MARK[i - 1]);
    }
  }

  // ---------------------------------------------------------------- relaxation delay

  const NANOS_PER_SECOND: int := 1_000_000_000

  /** The fixed pause, in milliseconds, sendRequest asks for. */
  const DELAY_MILLIS: nat := 3000

  /** `Duration.between(last, now).toSeconds() < 3`. Times are nanoseconds
      on the local timeline; `None` stands for LocalDateTime.MIN, the value
      before the first exchange, from which any reachable `now` is far more
      than 3 seconds away. `toSeconds` rounds toward negative infinity, as
      Dafny's division by a positive number does, so the pause is due
      exactly when less than three seconds (to the nanosecond) have passed
      since the last exchange, or the clock went back. */
  predicate ShouldDelay(last: Option<int>, now: int): (due: bool)
    ensures due <==> last.Some? && now - last.value < 3 * NANOS_PER_SECOND
  {
    if last.None? then false
    else
      WholeSecondsBelowThree(now - last.value);
      (now - last.value) / NANOS_PER_SECOND < 3
  }

  /** Rounding down to whole seconds loses nothing when comparing with 3. */
  lemma WholeSecondsBelowThree(d: int)
    ensures d / NANOS_PER_SECOND < 3 <==> d < 3 * NANOS_PER_SECOND
  {
    var q := d / NANOS_PER_SECOND;
    assert d == q * NANOS_PER_SECOND + d % NANOS_PER_SECOND;
    if q < 3 {
      assert q <= 2;
      assert q * NANOS_PER_SECOND <= 2 * NANOS_PER_SECOND;
    } else {
      assert q * NANOS_PER_SECOND >= 3 * NANOS_PER_SECOND;
    }
  }

  // ---------------------------------------------------------------- exchanges

  /** The connector's state: where the ECU is and when the last exchange ended. */
  datatype Connector = Connector(host: string, port: int, lastRequest: Option<int>)

  function NewConnector(host: string, port: int): (c: Connector)
    ensures c.host == host && c.port == port
    ensures forall now :: !ShouldDelay(c.lastRequest, now)
  {
    Connector(host, port, None)
  }

  /** What one exchange did. */
  datatype Exchange = Exchange(
    delayMillis: nat,        // the sleep before connecting
    sent: seq<uint8>,        // the request bytes written to the socket
    received: seq<uint8>)    // the bytes read back

  /** sendRequest: decide on the pause at `now`, send the request, read the
      reply from `stream`, and record `done` as the time of the exchange. */
  method SendRequest(c: Connector, request: EcuRequest.Request, now: int, stream: seq<uint8>, done: int)
    returns (c': Connector, x: Exchange)
    ensures x.delayMillis == if ShouldDelay(c.lastRequest, now) then DELAY_MILLIS else 0
    ensures x.sent == EcuRequest.GetBytes(request)
    ensures StopsAt(stream, |x.received|) && x.received == stream[..|x.received|]
    ensures c'.host == c.host && c'.port == c.port && c'.lastRequest == Some(done)
    ensures forall later :: ShouldDelay(c'.lastRequest, later) <==> later - done < 3 * NANOS_PER_SECOND
  {
    var delay := if ShouldDelay(c.lastRequest, now) then DELAY_MILLIS else 0;
    var received := ReadUntilEnd(stream);
    c' := c.(lastRequest := Some(done));
    x := Exchange(delay, EcuRequest.GetBytes(request), received);
  }

  /** The shared tail of the fetch methods: nothing read gives `null`,
      anything else is handed to ECUResponse.CreateFromBytes. A reply under
      13 bytes is too short, and a response comes back only from a frame
      that passed the frame checks with status OK. */
  function ResponseOf(received: seq<uint8>): (r: Result<Option<EcuResponse.Response>>)
    ensures |received| == 0 ==> r == Ok(None)
    ensures 0 < |received| < EcuResponse.HEADER_SIZE ==> r == Fail(TooLittleData)
    ensures r.Ok? && r.value.Some? ==>
              var x := r.value.value;
              && EcuResponse.CheckFrame(received) == Ok((x.commandGroup, x.dataLength))
              && x.matchStatus == C.ECU_RESPONSE_OK && x.dataLength <= |received|
              && EcuResponse.PayloadFits(x.commandCode, x.payload)
    ensures |received| > 0 ==> r == EcuResponse.Decode(received)
  {
    if |received| > 0 then EcuResponse.CreateFromBytes(Some(received)) else Ok(None)
  }

  /** A fetch: the request, the exchange, and the decoded reply. The
      connector keeps its address and records the end of the exchange, so
      the next fetch pauses exactly when it starts within 3 seconds of it. */
  method Fetch(c: Connector, request: EcuRequest.Request, now: int, stream: seq<uint8>, done: int)
    returns (c': Connector, x: Exchange, r: Result<Option<EcuResponse.Response>>)
    ensures x.sent == EcuRequest.GetBytes(request)
    ensures StopsAt(stream, |x.received|) && x.received == stream[..|x.received|]
    ensures x.delayMillis == if ShouldDelay(c.lastRequest, now) then DELAY_MILLIS else 0
    ensures c'.host == c.host && c'.port == c.port && c'.lastRequest == Some(done)
    ensures forall later :: ShouldDelay(c'.lastRequest, later) <==> later - done < 3 * NANOS_PER_SECOND
    ensures |x.received| == 0 <==> |stream| == 0
    ensures |stream| == 0 ==> r == Ok(None)
    ensures |stream| > 0 ==> r == EcuResponse.Decode(x.received)
  {
    c', x := SendRequest(c, request, now, stream, done);
    r := ResponseOf(x.received);
  }

  /** fetchRealTimeData. */
  method FetchRealTimeData(c: Connector, ecuId: string, now: int, stream: seq<uint8>, done: int)
    returns (c': Connector, x: Exchange, r: Result<Option<EcuResponse.Response>>)
    ensures x.sent == EcuRequest.GetBytes(EcuRequest.RealtimeDataRequest(ecuId))
    ensures StopsAt(stream, |x.received|) && x.received == stream[..|x.received|]
    ensures x.delayMillis == if ShouldDelay(c.lastRequest, now) then DELAY_MILLIS else 0
    ensures c'.host == c.host && c'.port == c.port && c'.lastRequest == Some(done)
    ensures forall later :: ShouldDelay(c'.lastRequest, later) <==> later - done < 3 * NANOS_PER_SECOND
    ensures |stream| == 0 ==> r == Ok(None)
    ensures |stream| > 0 ==> r == EcuResponse.Decode(x.received)
  {
    c', x, r := Fetch(c, EcuRequest.RealtimeDataRequest(ecuId), now, stream, done);
  }

  /** fetchSystemInfo. */
  method FetchSystemInfo(c: Connector, now: int, stream: seq<uint8>, done: int)
    returns (c': Connector, x: Exchange, r: Result<Option<EcuResponse.Response>>)
    ensures x.sent == EcuRequest.GetBytes(EcuRequest.SystemInfoRequest())
    ensures StopsAt(stream, |x.received|) && x.received == stream[..|x.received|]
    ensures x.delayMillis == if ShouldDelay(c.lastRequest, now) then DELAY_MILLIS else 0
    ensures c'.host == c.host && c'.port == c.port && c'.lastRequest == Some(done)
    ensures forall later :: ShouldDelay(c'.lastRequest, later) <==> later - done < 3 * NANOS_PER_SECOND
    ensures |stream| == 0 ==> r == Ok(None)
    ensures |stream| > 0 ==> r == EcuResponse.Decode(x.received)
  {
    c', x, r := Fetch(c, EcuRequest.SystemInfoRequest(), now, stream, done);
  }

  /** fetchInverterSignals. */
  method FetchInverterSignals(c: Connector, ecuId: string, now: int, stream: seq<uint8>, done: int)
    returns (c': Connector, x: Exchange, r: Result<Option<EcuResponse.Response>>)
    ensures x.sent == EcuRequest.GetBytes(EcuRequest.InverterSignalRequest(ecuId))
    ensures StopsAt(stream, |x.received|) && x.received == stream[..|x.received|]
    ensures x.delayMillis == if ShouldDelay(c.lastRequest, now) then DELAY_MILLIS else 0
    ensures c'.host == c.host && c'.port == c.port && c'.lastRequest == Some(done)
    ensures forall later :: ShouldDelay(c'.lastRequest, later) <==> later - done < 3 * NANOS_PER_SECOND
    ensures |stream| == 0 ==> r == Ok(None)
    ensures |stream| > 0 ==> r == EcuResponse.Decode(x.received)
  {
    c', x, r := Fetch(c, EcuRequest.InverterSignalRequest(ecuId), now, stream, done);
  }
}
