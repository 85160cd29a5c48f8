/**
 * The RockBLOCK serial connection: its parsed fields, the reader's per-line
 * step, the wait primitive and the scripted AT exchanges.
 *
 * The serial port is replaced by two sequences: the raw tokens the scanner
 * will still produce (`incoming`), and the log of byte strings handed to the
 * writer (`written`). Running out of incoming tokens before a wait is
 * satisfied stands for the five-minute timeout. The reader goroutine parses a
 * line before it blocks on the unbuffered channel to hand it over, so in the
 * program it can run one line ahead of the waiter. The model fixes one
 * interleaving: the reader's step for a token runs at the moment the waiter
 * takes that token, so the fields a caller reads after a wait are those
 * parsed from the tokens taken so far.
 *
 * `Link` is the whole connection state as a value; the functions on it
 * (WaitF, InitF, SendTextF, ...) specify the methods of `Connection`.
 */
module RockBLOCKSerial {
  import opened Results
  import opened GoStrings
  import opened GoTime
  import opened RockBLOCKFrames

  /** Why an exchange failed. */
  datatype LinkError =
    | Timeout                             // a wait ran out of input
    | SendFailed(report: SBDIResponse)    // the session report's MO status was not the expected one
    | NoMessagesWaiting                   // DownloadMessage with MT status other than 1

  datatype Link = Link(
    incoming: seq<string>,
    written: seq<seq<Byte>>,
    processed: seq<string>,
    status: Status)

  const InitialStatus: Status := Status(ZeroSBDI, 0, ZeroTime)

  /** The state after a wait, and whether a line satisfied the comparator. */
  datatype Waited = Waited(link: Link, matched: bool)

  /** The state after an exchange, its value and its error. */
  datatype Outcome<T> = Outcome(link: Link, value: T, err: Option<LinkError>)

  // ---------------------------------------------------------------------------
  // Commands.

  const AT: seq<Byte> := Ascii("AT\r")
  const FlowControlOff: seq<Byte> := Ascii("AT&K0\r")
  const ClearBuffers: seq<Byte> := Ascii("AT+SBDD0\r")
  const StartSession: seq<Byte> := Ascii("AT+SBDI\r")
  const SignalQualityRequest: seq<Byte> := Ascii("AT+CSQ\r")
  const SystemTimeRequest: seq<Byte> := Ascii("AT-MSSTM\r")

  /** "AT+SBDWT=" followed by the text and a carriage return. */
  function TextCommand(msg: seq<Byte>): seq<Byte> {
    Ascii("AT+SBDWT=") + msg + [CR]
  }

  /** fmt.Sprintf("%d", n) as bytes: decimal digits that read back as n. */
  function DecimalBytes(n: nat): (b: seq<Byte>)
    ensures b != [] && forall i :: 0 <= i < |b| ==> '0' as int <= b[i] <= '9' as int
    ensures DigitsValue(Text(b), 10) == Some(n)
  {
    var s := FormatNat(n, 10);
    DecimalDigitsAreAscii(s);
    FormatNatValue(n, 10);
    assert Text(Ascii(s)) == s;
    Ascii(s)
  }

  lemma DecimalDigitsAreAscii(s: string)
    requires forall i :: 0 <= i < |s| ==> DigitValue(s[i]) < 10
    ensures forall i :: 0 <= i < |s| ==> '0' <= s[i] <= '9'
  {
  }

  /** "AT+SBDWB=<length>\r". */
  function BinaryCommand(len: nat): seq<Byte> {
    Ascii("AT+SBDWB=") + DecimalBytes(len) + [CR]
  }

  // ---------------------------------------------------------------------------
  // serialWait as a function of the state.

  /** Whether the raw token reaches the waiter as a line satisfying c. */
  predicate MatchesRaw(c: Comparator, raw: string) {
    Forward(raw).Some? && Matches(c, Forward(raw).value)
  }

  /** The line the reader forwards for one token, as zero or one lines. */
  function ForwardedOne(raw: string): seq<string> {
    match Forward(raw) case None => [] case Some(m) => [m]
  }

  /** The waiter takes the next token: the reader parses it, and the line it
      forwards, if any, is appended to the processed buffer. */
  function Next(l: Link): (n: Link)
    requires l.incoming != []
    ensures n.written == l.written && |n.incoming| == |l.incoming| - 1
  {
    var raw := l.incoming[0];
    Link(l.incoming[1..], l.written, l.processed + ForwardedOne(raw), Deliver(l.status, raw))
  }

  /** Take tokens in order until one yields a line satisfying c, or report a
      timeout when the tokens run out. */
  function WaitF(l: Link, c: Comparator): (w: Waited)
    ensures w.link.written == l.written
    ensures |w.link.incoming| <= |l.incoming|
    ensures !w.matched ==> w.link.incoming == []
    ensures w.matched ==> w.link.processed != [] && Matches(c, w.link.processed[|w.link.processed| - 1])
    decreases |l.incoming|
  {
    if l.incoming == [] then Waited(l, false)
    else if MatchesRaw(c, l.incoming[0]) then Waited(Next(l), true)
    else WaitF(Next(l), c)
  }

  /** The lines the reader forwards for a run of tokens. */
  function Forwarded(raws: seq<string>): seq<string> {
    if raws == [] then [] else ForwardedOne(raws[0]) + Forwarded(raws[1..])
  }

  /** The parsed fields after the reader's step on each token in turn. */
  function Feed(st: Status, raws: seq<string>): Status
    decreases |raws|
  {
    if raws == [] then st else Feed(Deliver(st, raws[0]), raws[1..])
  }

  /** The position of the first token whose line satisfies c. */
  function FirstMatch(raws: seq<string>, c: Comparator): (r: Option<nat>)
    ensures r.None? <==> forall j :: 0 <= j < |raws| ==> !MatchesRaw(c, raws[j])
    ensures r.Some? ==> r.value < |raws| && MatchesRaw(c, raws[r.value])
    ensures r.Some? ==> forall j :: 0 <= j < r.value ==> !MatchesRaw(c, raws[j])
  {
    if raws == [] then None
    else if MatchesRaw(c, raws[0]) then Some(0)
    else
      match FirstMatch(raws[1..], c)
      case None => None
      case Some(k) => Some(k + 1)
  }

  /** The state a wait leaves after consuming the first n tokens. */
  function Consumed(l: Link, n: nat): Link
    requires n <= |l.incoming|
  {
    Link(l.incoming[n..], l.written,
         l.processed + Forwarded(l.incoming[..n]), Feed(l.status, l.incoming[..n]))
  }

  /** serialWait consumes the tokens up to and including the first one whose
      line satisfies the comparator and nothing after it; every forwarded line
      is recorded and every frame among them parsed. Without such a token it
      consumes everything and times out. */
  lemma {:induction false} WaitConsumesThroughFirstMatch(l: Link, c: Comparator)
    ensures match FirstMatch(l.incoming, c)
      case Some(k) => WaitF(l, c) == Waited(Consumed(l, k + 1), true)
      case None => WaitF(l, c) == Waited(Consumed(l, |l.incoming|), false)
    decreases |l.incoming|
  {
    if l.incoming == [] {
      assert l.incoming[..0] == [];
      assert l.processed + [] == l.processed;
    } else if MatchesRaw(c, l.incoming[0]) {
      ConsumedStep(l, 0);
      ConsumedNone(Next(l));
    } else {
      WaitConsumesThroughFirstMatch(Next(l), c);
      match FirstMatch(l.incoming[1..], c)
      case Some(k) => ConsumedStep(l, k + 1);
      case None => ConsumedStep(l, |l.incoming| - 1);
    }
  }

  lemma ConsumedNone(l: Link)
    ensures Consumed(l, 0) == l
  {
    assert l.incoming[..0] == [] && l.incoming[0..] == l.incoming;
    assert l.processed + [] == l.processed;
  }

  /** Consuming one more token at the front of the input. */
  lemma ConsumedStep(l: Link, n: nat)
    requires l.incoming != [] && n <= |l.incoming| - 1
    ensures Consumed(Next(l), n) == Consumed(l, n + 1)
  {
    var raws := l.incoming;
    var pre := raws[..n + 1];
    assert pre[0] == raws[0] && pre[1..] == raws[1..][..n];
    assert raws[1..][n..] == raws[n + 1..];
    assert Forwarded(pre) == ForwardedOne(raws[0]) + Forwarded(raws[1..][..n]);
    assert Feed(l.status, pre) == Feed(Deliver(l.status, raws[0]), raws[1..][..n]);
  }

  /** A wait succeeds exactly when some pending token yields a matching line. */
  lemma WaitMatchedIff(l: Link, c: Comparator)
    ensures WaitF(l, c).matched <==> exists j :: 0 <= j < |l.incoming| && MatchesRaw(c, l.incoming[j])
  {
    WaitConsumesThroughFirstMatch(l, c);
  }

  // ---------------------------------------------------------------------------
  // Several waits in a row.

  /** The state after the first n tokens were consumed and the commands ws
      written, starting from l. */
  function Resumed(l: Link, n: nat, ws: seq<seq<Byte>>): Link
    requires n <= |l.incoming|
  {
    Consumed(l, n).(written := l.written + ws)
  }

  lemma ResumedStart(l: Link)
    ensures Resumed(l, 0, []) == l
  {
    ConsumedNone(l);
    assert l.written + [] == l.written;
  }

  lemma WriteResumed(l: Link, n: nat, ws: seq<seq<Byte>>, cmd: seq<Byte>)
    requires n <= |l.incoming|
    ensures Write(Resumed(l, n, ws), cmd) == Resumed(l, n, ws + [cmd])
  {
    assert l.written + ws + [cmd] == l.written + (ws + [cmd]);
  }

  lemma {:induction false} ForwardedAppend(x: seq<string>, y: seq<string>)
    ensures Forwarded(x + y) == Forwarded(x) + Forwarded(y)
  {
    if x != [] {
      assert (x + y)[1..] == x[1..] + y;
      ForwardedAppend(x[1..], y);
    } else {
      assert x + y == y;
    }
  }

  lemma {:induction false} FeedAppend(st: Status, x: seq<string>, y: seq<string>)
    ensures Feed(st, x + y) == Feed(Feed(st, x), y)
    decreases |x|
  {
    if x != [] {
      assert (x + y)[1..] == x[1..] + y;
      FeedAppend(Deliver(st, x[0]), x[1..], y);
    } else {
      assert x + y == y;
    }
  }

  /** Consuming n tokens and then j more is consuming n + j. */
  lemma ConsumedTwice(l: Link, n: nat, j: nat, m: nat, ws: seq<seq<Byte>>)
    requires m == n + j <= |l.incoming|
    ensures Consumed(Resumed(l, n, ws), j) == Resumed(l, m, ws)
  {
    var raws := l.incoming;
    assert raws[..n] + raws[n..][..j] == raws[..m];
    assert raws[n..][j..] == raws[m..];
    ForwardedAppend(raws[..n], raws[n..][..j]);
    FeedAppend(l.status, raws[..n], raws[n..][..j]);
  }

  /** A wait that starts after n consumed tokens and finds a later token
      whose line satisfies c ends right after that token. */
  lemma WaitResumedMatched(l: Link, n: nat, ws: seq<seq<Byte>>, c: Comparator, k: nat, m: nat)
    requires n <= |l.incoming| && FirstMatch(l.incoming[n..], c) == Some(k) && m == n + k + 1
    ensures m <= |l.incoming|
    ensures WaitF(Resumed(l, n, ws), c) == Waited(Resumed(l, m, ws), true)
  {
    var r := Resumed(l, n, ws);
    assert r.incoming == l.incoming[n..];
    WaitConsumesThroughFirstMatch(r, c);
    ConsumedTwice(l, n, k + 1, m, ws);
  }

  /** A wait that starts after n consumed tokens and finds no such token
      consumes everything. */
  lemma WaitResumedUnmatched(l: Link, n: nat, ws: seq<seq<Byte>>, c: Comparator)
    requires n <= |l.incoming| && FirstMatch(l.incoming[n..], c) == None
    ensures WaitF(Resumed(l, n, ws), c) == Waited(Resumed(l, |l.incoming|, ws), false)
  {
    var r := Resumed(l, n, ws);
    assert r.incoming == l.incoming[n..];
    WaitConsumesThroughFirstMatch(r, c);
    ConsumedTwice(l, n, |l.incoming| - n, |l.incoming|, ws);
  }

  /** Whether a wait for c that starts after the first n tokens finds a
      token whose line satisfies c. */
  predicate Found(raws: seq<string>, n: nat, c: Comparator)
    requires n <= |raws|
  {
    FirstMatch(raws[n..], c).Some?
  }

  /** How many tokens have been taken when that wait ends: through the first
      later token whose line satisfies c, or all of them. */
  function StopOf(raws: seq<string>, n: nat, c: Comparator): (m: nat)
    requires n <= |raws|
    ensures n < m <= |raws| || (!Found(raws, n, c) && m == |raws|)
  {
    match FirstMatch(raws[n..], c)
    case Some(k) => n + k + 1
    case None => |raws|
  }

  /** A wait that starts after n consumed tokens ends where StopOf says. */
  lemma WaitFrom(l: Link, n: nat, ws: seq<seq<Byte>>, c: Comparator)
    requires n <= |l.incoming|
    ensures WaitF(Resumed(l, n, ws), c) == Waited(Resumed(l, StopOf(l.incoming, n, c), ws), Found(l.incoming, n, c))
  {
    var m := StopOf(l.incoming, n, c);
    match FirstMatch(l.incoming[n..], c)
    case Some(k) => WaitResumedMatched(l, n, ws, c, k, m);
    case None => WaitResumedUnmatched(l, n, ws, c);
  }

  /** The report stored right after a token is the one that token's line
      holds, when it holds one. */
  lemma ReportOfMatchedLine(st: Status, raws: seq<string>, q: nat)
    requires 0 < q <= |raws| && SBDIFrame(LineOf(raws[q - 1])).Ok?
    ensures Feed(st, raws[..q]).sbdi == SBDIFrame(LineOf(raws[q - 1])).value
  {
    var p := q - 1;
    assert raws[..q] == raws[..p] + [raws[p]];
    FeedAppend(st, raws[..p], [raws[p]]);
    assert Feed(Feed(st, raws[..p]), [raws[p]]) == Deliver(Feed(st, raws[..p]), raws[p]);
  }

  /** The signal quality stored right after a token is the one that token's
      line holds, when it holds one. */
  lemma SignalQualityOfMatchedLine(st: Status, raws: seq<string>, q: nat)
    requires 0 < q <= |raws| && CSQFrame(LineOf(raws[q - 1])).Ok?
    ensures Feed(st, raws[..q]).signalQuality == CSQFrame(LineOf(raws[q - 1])).value
  {
    var p := q - 1;
    assert raws[..q] == raws[..p] + [raws[p]];
    FeedAppend(st, raws[..p], [raws[p]]);
    assert Feed(Feed(st, raws[..p]), [raws[p]]) == Deliver(Feed(st, raws[..p]), raws[p]);
  }

  // ---------------------------------------------------------------------------
  // The scripted exchanges as functions of the state.

  /** serialWrite: hand the bytes to the writer. */
  function Write(l: Link, cmd: seq<Byte>): Link {
    l.(written := l.written + [cmd])
  }

  /** Init: "AT\r" answered by OK, then "AT&K0\r" answered by OK. Each
      command is written only once the previous one is answered. */
  function InitF(l: Link): (o: Outcome<()>)
    ensures o.err.None? ==> o.link.written == l.written + [AT, FlowControlOff]
    ensures o.err.Some? ==>
      && o.err == Some(Timeout) && o.link.incoming == []
      && (o.link.written == l.written + [AT] || o.link.written == l.written + [AT, FlowControlOff])
  {
    var w1 := WaitF(Write(l, AT), Equal("OK"));
    if !w1.matched then Outcome(w1.link, (), Some(Timeout))
    else
      var w2 := WaitF(Write(w1.link, FlowControlOff), Equal("OK"));
      Outcome(w2.link, (), if w2.matched then None else Some(Timeout))
  }

  /** clearBuffer: "AT+SBDD0\r" answered by OK. */
  function ClearBufferF(l: Link): (o: Outcome<()>)
    ensures o.link.written == l.written + [ClearBuffers]
    ensures o.err.Some? ==> o.err == Some(Timeout) && o.link.incoming == []
  {
    var w := WaitF(Write(l, ClearBuffers), Equal("OK"));
    Outcome(w.link, (), if w.matched then None else Some(Timeout))
  }

  /** SendText: clear the buffers (ignoring the outcome), write the text
      answered by OK, start a session answered by a +SBDI: report and then OK;
      success needs MO status 2, and a rejected session reports the report. */
  function SendTextF(l: Link, msg: seq<Byte>): (o: Outcome<()>)
    ensures o.err.None? ==>
      && o.link.status.sbdi.moStatus == 2
      && o.link.written == l.written + [ClearBuffers, TextCommand(msg), StartSession]
    ensures o.err.Some? ==>
      || (o.err.value == Timeout && o.link.incoming == [])
      || (&& o.err.value == SendFailed(o.link.status.sbdi) && o.link.status.sbdi.moStatus != 2
          && o.link.written == l.written + [ClearBuffers, TextCommand(msg), StartSession])
  {
    var l0 := ClearBufferF(l).link;
    var w1 := WaitF(Write(l0, TextCommand(msg)), Equal("OK"));
    if !w1.matched then Outcome(w1.link, (), Some(Timeout))
    else
      var w2 := WaitF(Write(w1.link, StartSession), Prefix("+SBDI:"));
      if !w2.matched then Outcome(w2.link, (), Some(Timeout))
      else
        var w3 := WaitF(w2.link, Equal("OK"));
        if !w3.matched then Outcome(w3.link, (), Some(Timeout))
        else
          var report := w3.link.status.sbdi;
          Outcome(w3.link, (), if report.moStatus != 2 then Some(SendFailed(report)) else None)
  }

  /** SendBinary: announce the length and wait for READY, write the message
      and its two checksum bytes and wait for "0", start a session and wait for
      a +SBDI: report; success needs MO status 1. */
  function SendBinaryF(l: Link, msg: seq<Byte>): (o: Outcome<()>)
    ensures o.err.None? ==>
      && o.link.status.sbdi.moStatus == 1
      && o.link.written == l.written + [BinaryCommand(|msg|), msg + Checksum(msg), StartSession]
    ensures o.err.Some? ==>
      || (o.err.value == Timeout && o.link.incoming == [])
      || (&& o.err.value == SendFailed(o.link.status.sbdi) && o.link.status.sbdi.moStatus != 1
          && o.link.written == l.written + [BinaryCommand(|msg|), msg + Checksum(msg), StartSession])
  {
    var w1 := WaitF(Write(l, BinaryCommand(|msg|)), Equal("READY"));
    if !w1.matched then Outcome(w1.link, (), Some(Timeout))
    else
      var w2 := WaitF(Write(w1.link, msg + Checksum(msg)), Equal("0"));
      if !w2.matched then Outcome(w2.link, (), Some(Timeout))
      else
        var w3 := WaitF(Write(w2.link, StartSession), Prefix("+SBDI:"));
        if !w3.matched then Outcome(w3.link, (), Some(Timeout))
        else
          var report := w3.link.status.sbdi;
          Outcome(w3.link, (), if report.moStatus != 1 then Some(SendFailed(report)) else None)
  }

  /** GetSignalQuality: "AT+CSQ\r" answered by a +CSQ: line; the result is
      the signal-quality field after it, or -1 with a timeout. */
  function GetSignalQualityF(l: Link): (o: Outcome<int>)
    ensures o.link.written == l.written + [SignalQualityRequest]
    ensures o.err.None? ==> o.value == o.link.status.signalQuality
    ensures o.err.Some? ==> o.err == Some(Timeout) && o.value == -1 && o.link.incoming == []
  {
    var w := WaitF(Write(l, SignalQualityRequest), Prefix("+CSQ:"));
    if !w.matched then Outcome(w.link, -1, Some(Timeout))
    else Outcome(w.link, w.link.status.signalQuality, None)
  }

  /** GetTime: "AT-MSSTM\r" answered by a -MSSTM: line, then an OK whose
      absence is ignored; the result is the device-time field after both, or
      the clock reading now with a timeout. */
  function GetTimeF(l: Link, now: Instant): (o: Outcome<Instant>)
    ensures o.link.written == l.written + [SystemTimeRequest]
    ensures o.err.None? ==> o.value == o.link.status.systemTime
    ensures o.err.Some? ==> o.err == Some(Timeout) && o.value == now && o.link.incoming == []
  {
    var w1 := WaitF(Write(l, SystemTimeRequest), Prefix("-MSSTM:"));
    if !w1.matched then Outcome(w1.link, now, Some(Timeout))
    else
      var w2 := WaitF(w1.link, Equal("OK"));
      Outcome(w2.link, w2.link.status.systemTime, None)
  }

  /** DownloadMessage: fails unless the last report has MT status 1; it
      writes nothing, since the download itself is not implemented. */
  function DownloadMessageF(l: Link): (e: Option<LinkError>)
    ensures e == None || e == Some(NoMessagesWaiting)
    ensures e == None <==> l.status.sbdi.mtStatus == 1
  {
    if l.status.sbdi.mtStatus != 1 then Some(NoMessagesWaiting) else None
  }

  // ---------------------------------------------------------------------------
  // The exchanges for every sequence of modem replies.

  /** Init for every modem: "AT&K0" is written once the first OK has come,
      and Init succeeds once a second OK comes after it. When a reply never
      comes, the commands up to that wait have been written and all input
      is consumed; otherwise Init ends right after the second OK. */
  lemma InitReplyOrder(l: Link)
    ensures var (raws, c) := (l.incoming, Equal("OK"));
      var p1 := StopOf(raws, 0, c);
      var p2 := StopOf(raws, p1, c);
      InitF(l) ==
        if !Found(raws, 0, c) then Outcome(Resumed(l, p1, [AT]), (), Some(Timeout))
        else if !Found(raws, p1, c) then Outcome(Resumed(l, p2, [AT, FlowControlOff]), (), Some(Timeout))
        else Outcome(Resumed(l, p2, [AT, FlowControlOff]), (), None)
  {
    var (raws, c) := (l.incoming, Equal("OK"));
    ResumedStart(l);
    WriteResumed(l, 0, [], AT);
    assert [] + [AT] == [AT];
    WaitFrom(l, 0, [AT], c);
    var p1 := StopOf(raws, 0, c);
    WriteResumed(l, p1, [AT], FlowControlOff);
    assert [AT] + [FlowControlOff] == [AT, FlowControlOff];
    WaitFrom(l, p1, [AT, FlowControlOff], c);
  }

  /** GetSignalQuality for every modem: "AT+CSQ" is written and the call ends
      at the first +CSQ: line, returning the signal quality parsed from the
      lines taken so far; without such a line it consumes all input and
      returns -1 with a timeout. */
  lemma GetSignalQualityReplyOrder(l: Link)
    ensures var (raws, c) := (l.incoming, Prefix("+CSQ:"));
      var p := StopOf(raws, 0, c);
      GetSignalQualityF(l) ==
        if !Found(raws, 0, c) then Outcome(Resumed(l, p, [SignalQualityRequest]), -1, Some(Timeout))
        else Outcome(Resumed(l, p, [SignalQualityRequest]), Feed(l.status, raws[..p]).signalQuality, None)
  {
    var (raws, c) := (l.incoming, Prefix("+CSQ:"));
    ResumedStart(l);
    WriteResumed(l, 0, [], SignalQualityRequest);
    assert [] + [SignalQualityRequest] == [SignalQualityRequest];
    WaitFrom(l, 0, [SignalQualityRequest], c);
  }

  /** When the +CSQ: line the call ends at is well-formed, GetSignalQuality
      returns the number on that line. */
  lemma GetSignalQualityValue(l: Link, p: nat)
    requires p == StopOf(l.incoming, 0, Prefix("+CSQ:")) && Found(l.incoming, 0, Prefix("+CSQ:"))
    requires CSQFrame(LineOf(l.incoming[p - 1])).Ok?
    ensures GetSignalQualityF(l) == Outcome(Resumed(l, p, [SignalQualityRequest]), CSQFrame(LineOf(l.incoming[p - 1])).value, None)
  {
    GetSignalQualityReplyOrder(l);
    SignalQualityOfMatchedLine(l.status, l.incoming, p);
  }

  /** GetTime for every modem: "AT-MSSTM" is written and the call waits for
      the first -MSSTM: line; without one it consumes all input and returns
      the clock reading with a timeout. Otherwise it then waits for OK and,
      whether or not an OK comes, returns the device time parsed from the
      lines taken so far. */
  lemma GetTimeReplyOrder(l: Link, now: Instant)
    ensures var (raws, c1, c2) := (l.incoming, Prefix("-MSSTM:"), Equal("OK"));
      var p1 := StopOf(raws, 0, c1);
      var p2 := StopOf(raws, p1, c2);
      GetTimeF(l, now) ==
        if !Found(raws, 0, c1) then Outcome(Resumed(l, p1, [SystemTimeRequest]), now, Some(Timeout))
        else Outcome(Resumed(l, p2, [SystemTimeRequest]), Feed(l.status, raws[..p2]).systemTime, None)
  {
    var (raws, c1, c2) := (l.incoming, Prefix("-MSSTM:"), Equal("OK"));
    ResumedStart(l);
    WriteResumed(l, 0, [], SystemTimeRequest);
    assert [] + [SystemTimeRequest] == [SystemTimeRequest];
    WaitFrom(l, 0, [SystemTimeRequest], c1);
    var p1 := StopOf(raws, 0, c1);
    WaitFrom(l, p1, [SystemTimeRequest], c2);
  }

  /** SendBinary for every modem: the message is written once READY has
      come after the length command, the session is started once "0" has
      come after the message, and the exchange ends at the first +SBDI: line
      after that, whose report then decides success. When a reply never
      comes, the commands up to that wait have been written and all input is
      consumed. */
  lemma SendBinaryReplyOrder(l: Link, msg: seq<Byte>)
    ensures var raws := l.incoming;
      var (c1, c2, c3) := (Equal("READY"), Equal("0"), Prefix("+SBDI:"));
      var (w1, w2, w3) := (BinaryCommand(|msg|), msg + Checksum(msg), StartSession);
      var p1 := StopOf(raws, 0, c1);
      var p2 := StopOf(raws, p1, c2);
      var p3 := StopOf(raws, p2, c3);
      SendBinaryF(l, msg) ==
        if !Found(raws, 0, c1) then Outcome(Resumed(l, p1, [w1]), (), Some(Timeout))
        else if !Found(raws, p1, c2) then Outcome(Resumed(l, p2, [w1, w2]), (), Some(Timeout))
        else if !Found(raws, p2, c3) then Outcome(Resumed(l, p3, [w1, w2, w3]), (), Some(Timeout))
        else
          var report := Resumed(l, p3, [w1, w2, w3]).status.sbdi;
          Outcome(Resumed(l, p3, [w1, w2, w3]), (), if report.moStatus != 1 then Some(SendFailed(report)) else None)
  {
    var raws := l.incoming;
    var (c1, c2, c3) := (Equal("READY"), Equal("0"), Prefix("+SBDI:"));
    var (w1, w2, w3) := (BinaryCommand(|msg|), msg + Checksum(msg), StartSession);
    ResumedStart(l);
    WriteResumed(l, 0, [], w1);
    assert [] + [w1] == [w1];
    WaitFrom(l, 0, [w1], c1);
    var p1 := StopOf(raws, 0, c1);
    WriteResumed(l, p1, [w1], w2);
    assert [w1] + [w2] == [w1, w2];
    WaitFrom(l, p1, [w1, w2], c2);
    var p2 := StopOf(raws, p1, c2);
    WriteResumed(l, p2, [w1, w2], w3);
    assert [w1, w2] + [w3] == [w1, w2, w3];
    WaitFrom(l, p2, [w1, w2, w3], c3);
  }

  /** When SendBinary's waits all succeed, p3 tokens having been taken, and
      the last one's line holds a report that parses, that report is stored
      and the exchange succeeds exactly when its MO status is 1. */
  lemma SendBinaryReport(l: Link, msg: seq<Byte>, p1: nat, p2: nat, p3: nat)
    requires p1 == StopOf(l.incoming, 0, Equal("READY")) && Found(l.incoming, 0, Equal("READY"))
    requires p2 == StopOf(l.incoming, p1, Equal("0")) && Found(l.incoming, p1, Equal("0"))
    requires p3 == StopOf(l.incoming, p2, Prefix("+SBDI:")) && Found(l.incoming, p2, Prefix("+SBDI:"))
    requires SBDIFrame(LineOf(l.incoming[p3 - 1])).Ok?
    ensures SendBinaryF(l, msg).link.status.sbdi == SBDIFrame(LineOf(l.incoming[p3 - 1])).value
    ensures SendBinaryF(l, msg).err.None? <==> SBDIFrame(LineOf(l.incoming[p3 - 1])).value.moStatus == 1
  {
    var ws := [BinaryCommand(|msg|), msg + Checksum(msg), StartSession];
    SendBinaryReplyOrder(l, msg);
    assert SendBinaryF(l, msg).link == Resumed(l, p3, ws);
    assert Resumed(l, p3, ws).status == Feed(l.status, l.incoming[..p3]);
    ReportOfMatchedLine(l.status, l.incoming, p3);
  }

  /** SendText for every modem: the buffers are cleared (a missing OK there
      is ignored), the text is written, its OK awaited, the session started,
      and the exchange ends at the first OK after the first +SBDI: line
      after that; the report then stored decides success. When a reply never
      comes, the commands up to that wait have been written and all input is
      consumed. */
  lemma SendTextReplyOrder(l: Link, msg: seq<Byte>)
    ensures var raws := l.incoming;
      var (ok, report) := (Equal("OK"), Prefix("+SBDI:"));
      var (w1, w2, w3) := (ClearBuffers, TextCommand(msg), StartSession);
      var p0 := StopOf(raws, 0, ok);
      var p1 := StopOf(raws, p0, ok);
      var p2 := StopOf(raws, p1, report);
      var p3 := StopOf(raws, p2, ok);
      SendTextF(l, msg) ==
        if !Found(raws, p0, ok) then Outcome(Resumed(l, p1, [w1, w2]), (), Some(Timeout))
        else if !Found(raws, p1, report) then Outcome(Resumed(l, p2, [w1, w2, w3]), (), Some(Timeout))
        else if !Found(raws, p2, ok) then Outcome(Resumed(l, p3, [w1, w2, w3]), (), Some(Timeout))
        else
          var r := Resumed(l, p3, [w1, w2, w3]).status.sbdi;
          Outcome(Resumed(l, p3, [w1, w2, w3]), (), if r.moStatus != 2 then Some(SendFailed(r)) else None)
  {
    var raws := l.incoming;
    var (ok, report) := (Equal("OK"), Prefix("+SBDI:"));
    var (w1, w2, w3) := (ClearBuffers, TextCommand(msg), StartSession);
    ResumedStart(l);
    WriteResumed(l, 0, [], w1);
    assert [] + [w1] == [w1];
    WaitFrom(l, 0, [w1], ok);
    var p0 := StopOf(raws, 0, ok);
    WriteResumed(l, p0, [w1], w2);
    assert [w1] + [w2] == [w1, w2];
    WaitFrom(l, p0, [w1, w2], ok);
    var p1 := StopOf(raws, p0, ok);
    WriteResumed(l, p1, [w1, w2], w3);
    assert [w1, w2] + [w3] == [w1, w2, w3];
    WaitFrom(l, p1, [w1, w2, w3], report);
    var p2 := StopOf(raws, p1, report);
    WaitFrom(l, p2, [w1, w2, w3], ok);
  }

  // ---------------------------------------------------------------------------
  // Exchanges with a modem that answers in particular ways.

  /** A reply line with no line ends and none of the three frame prefixes is
      forwarded as it is and parses as nothing. */
  lemma PlainReply(st: Status, s: string)
    requires s != [] && s[0] !in LineEnds && s[|s| - 1] !in LineEnds
    requires !HasPrefix(s, SBDIPrefix) && !HasPrefix(s, CSQPrefix) && !HasPrefix(s, MSSTMPrefix)
    ensures Forward(s) == Some(s) && Deliver(st, s) == st
  {
    TrimKeepsClean(s, LineEnds);
  }

  /** A +SBDI report the modem prints is forwarded as it is and stored. */
  lemma ReportReply(st: Status, r: SBDIResponse, extended: bool)
    requires InInt32Response(r)
    ensures Forward(RenderSBDI(r, extended)) == Some(RenderSBDI(r, extended))
    ensures Deliver(st, RenderSBDI(r, extended)).sbdi == r
  {
    var s := RenderSBDI(r, extended);
    SBDIFrameRoundTrip(r, extended);
    RenderedLineIsClean(r, extended);
    assert s[..5] == SBDIPrefix;
    DeliverReport(st, s);
  }

  /** A modem that answers READY, 0 and a report with MO status 1 makes
      SendBinary succeed, with the report stored and all input consumed. */
  lemma SendBinaryAnswered(l: Link, msg: seq<Byte>, r: SBDIResponse)
    requires InInt32Response(r) && r.moStatus == 1
    requires l.incoming == ["READY", "0", RenderSBDI(r, false)]
    ensures var o := SendBinaryF(l, msg);
      o.err == None && o.link.status.sbdi == r && o.link.incoming == []
  {
    var st := l.status;
    PlainReply(st, "READY");
    PlainReply(st, "0");
    ReportReply(st, r, false);
    var s := RenderSBDI(r, false);
    assert s[..6] == "+SBDI:";
    var l1 := Next(Write(l, BinaryCommand(|msg|)));
    assert l1.incoming == ["0", s];
    var l2 := Next(Write(l1, msg + Checksum(msg)));
    assert l2.incoming == [s];
  }

  /** A +SBDIX report that arrives while the waiter expects OK is recorded,
      parsed and stored all the same. */
  lemma ReportWhileWaitingForOK(l: Link, r: SBDIResponse)
    requires InInt32Response(r)
    requires l.incoming == [RenderSBDI(r, true), "OK"]
    ensures var w := WaitF(l, Equal("OK"));
      && w.matched && w.link.status.sbdi == r && w.link.incoming == []
      && w.link.processed == l.processed + [RenderSBDI(r, true), "OK"]
  {
    var s := RenderSBDI(r, true);
    ReportReply(l.status, r, true);
    assert s[0] == '+';
    var l1 := Next(l);
    assert l1.incoming == ["OK"];
    PlainReply(l1.status, "OK");
  }

  /** The waiter accepts any line with the +CSQ: prefix, so a report that does
      not parse leaves the previous signal quality in place and
      GetSignalQuality returns it as if it were fresh. */
  lemma StaleSignalQuality(l: Link)
    requires l.incoming == ["+CSQ:x"]
    ensures var o := GetSignalQualityF(l);
      o.err == None && o.value == l.status.signalQuality
  {
    var s := "+CSQ:x";
    assert s[..5] == CSQPrefix;
    assert Trim(s[5..], Spaces) == "x";
    assert CSQFrame(s) == Err(BadNumber);
    TrimKeepsClean(s, LineEnds);
  }

  // ---------------------------------------------------------------------------
  // The connection object.

  class Connection {
    /** The raw tokens the scanner has still to produce. */
    var incoming: seq<string>
    /** Everything handed to the serial writer, in order. */
    var written: seq<seq<Byte>>
    var processedBuffer: seq<string>
    var sbdi: SBDIResponse
    var signalQuality: int
    var systemTime: Instant

    function CurrentStatus(): Status
      reads this
    {
      Status(sbdi, signalQuality, systemTime)
    }

    function State(): Link
      reads this
    {
      Link(incoming, written, processedBuffer, CurrentStatus())
    }

    /** A connection whose modem will send the given tokens; every parsed
        field starts at Go's zero value. */
    constructor (tokens: seq<string>)
      ensures State() == Link(tokens, [], [], InitialStatus)
    {
      incoming := tokens;
      written := [];
      processedBuffer := [];
      sbdi := ZeroSBDI;
      signalQuality := 0;
      systemTime := ZeroTime;
    }

    /** parseSBDI: the fields are collected one by one and the report is
        stored only when all six parse. */
    method ParseSBDI(msg: string) returns (err: Option<FrameError>)
      modifies this`sbdi
      ensures err.None? <==> SBDIFrame(msg).Ok?
      ensures err.None? ==> sbdi == SBDIFrame(msg).value
      ensures err.Some? ==> err.value == SBDIFrame(msg).error && sbdi == old(sbdi)
    {
      if !HasPrefix(msg, SBDIPrefix) {
        return Some(WrongPrefix);
      }
      if |msg| < 7 {
        return Some(TooShort);
      }
      var s := msg[7..];
      var x := Split(s, ',');
      if |x| != 6 {
        return Some(WrongFieldCount);
      }
      var parms: seq<int> := [];
      var i := 0;
      while i < |x|
        invariant 0 <= i <= |x|
        invariant FieldValues(x[..i]) == Some(parms)
      {
        var c := Trim(x[i], Spaces);
        var v := ParseInt32(c, 10);
        assert x[..i + 1][..i] == x[..i];
        if v.None? {
          FieldValuesSpec(x);
          FieldValuesSpec(x[..i + 1]);
          return Some(BadNumber);
        }
        parms := parms + [v.value];
        i := i + 1;
      }
      assert x[..|x|] == x;
      sbdi := SBDIResponse(parms[0], parms[1], parms[2], parms[3], parms[4], parms[5]);
      err := None;
    }

    /** parseCSQ. */
    method ParseCSQ(msg: string) returns (err: Option<FrameError>)
      modifies this`signalQuality
      ensures err.None? <==> CSQFrame(msg).Ok?
      ensures err.None? ==> signalQuality == CSQFrame(msg).value
      ensures err.Some? ==> err.value == CSQFrame(msg).error && signalQuality == old(signalQuality)
    {
      if !HasPrefix(msg, CSQPrefix) {
        return Some(WrongPrefix);
      }
      var v := Trim(msg[5..], Spaces);
      var i := ParseInt32(v, 10);
      if i.None? {
        return Some(BadNumber);
      }
      signalQuality := i.value;
      err := None;
    }

    /** parseMSSTM. */
    method ParseMSSTM(msg: string) returns (err: Option<FrameError>)
      modifies this`systemTime
      ensures err.None? <==> MSSTMFrame(msg).Ok?
      ensures err.None? ==> systemTime == MSSTMFrame(msg).value
      ensures err.Some? ==> err.value == MSSTMFrame(msg).error && systemTime == old(systemTime)
    {
      if !HasPrefix(msg, MSSTMPrefix) {
        return Some(WrongPrefix);
      }
      var v := Trim(msg[7..], Spaces);
      var i := ParseInt32(v, 16);
      if i.None? {
        return Some(BadNumber);
      }
      systemTime := IridiumEpoch + 90 * Millisecond * i.value;
      err := None;
    }

    /** serialReader's step for one scanner token: trim line ends, drop an
        empty line, parse whichever frame the line holds, forward the line
        (trimmed once more, which changes nothing). */
    method Receive(raw: string) returns (line: Option<string>)
      modifies this`sbdi, this`signalQuality, this`systemTime
      ensures CurrentStatus() == Deliver(old(CurrentStatus()), raw)
      ensures line == Forward(raw)
    {
      var m := Trim(raw, LineEnds);
      if |m| > 0 {
        if HasPrefix(m, SBDIPrefix) {
          var _ := ParseSBDI(m);
        }
        if HasPrefix(m, CSQPrefix) {
          var _ := ParseCSQ(m);
        }
        if HasPrefix(m, MSSTMPrefix) {
          var _ := ParseMSSTM(m);
        }
        TrimIsMaximalInfix(raw, LineEnds);
        TrimKeepsClean(m, LineEnds);
        line := Some(Trim(m, LineEnds));
      } else {
        line := None;
      }
    }

    /** serialWait: take lines until one satisfies the comparator. */
    method Wait(c: Comparator) returns (matched: bool)
      modifies this
      ensures Waited(State(), matched) == WaitF(old(State()), c)
    {
      while incoming != []
        invariant WaitF(State(), c) == WaitF(old(State()), c)
        decreases |incoming|
      {
        ghost var before := State();
        var raw := incoming[0];
        incoming := incoming[1..];
        var line := Receive(raw);
        if line.Some? {
          processedBuffer := processedBuffer + [line.value];
        } else {
          assert processedBuffer + [] == processedBuffer;
        }
        assert State() == Next(before);
        if line.Some? && Matches(c, line.value) {
          return true;
        }
      }
      return false;
    }

    /** serialWrite. */
    method SerialWrite(m: seq<Byte>)
      modifies this`written
      ensures written == old(written) + [m]
    {
      written := written + [m];
    }

    method Init() returns (err: Option<LinkError>)
      modifies this
      ensures Outcome(State(), (), err) == InitF(old(State()))
    {
      SerialWrite(AT);
      var ok := Wait(Equal("OK"));
      if !ok {
        return Some(Timeout);
      }
      SerialWrite(FlowControlOff);
      ok := Wait(Equal("OK"));
      if !ok {
        return Some(Timeout);
      }
      return None;
    }

    method ClearBuffer() returns (err: Option<LinkError>)
      modifies this
      ensures Outcome(State(), (), err) == ClearBufferF(old(State()))
    {
      SerialWrite(ClearBuffers);
      var ok := Wait(Equal("OK"));
      err := if ok then None else Some(Timeout);
    }

    method SendText(msg: seq<Byte>) returns (err: Option<LinkError>)
      modifies this
      ensures Outcome(State(), (), err) == SendTextF(old(State()), msg)
    {
      var _ := ClearBuffer();
      SerialWrite(TextCommand(msg));
      var ok := Wait(Equal("OK"));
      if !ok {
        return Some(Timeout);
      }
      SerialWrite(StartSession);
      ok := Wait(Prefix("+SBDI:"));
      if !ok {
        return Some(Timeout);
      }
      ok := Wait(Equal("OK"));
      if !ok {
        return Some(Timeout);
      }
      if sbdi.moStatus != 2 {
        return Some(SendFailed(sbdi));
      }
      return None;
    }

    method SendBinary(msg: seq<Byte>) returns (err: Option<LinkError>)
      modifies this
      ensures Outcome(State(), (), err) == SendBinaryF(old(State()), msg)
    {
      SerialWrite(BinaryCommand(|msg|));
      var ok := Wait(Equal("READY"));
      if !ok {
        return Some(Timeout);
      }
      var checksum := BinaryChecksum(msg);
      SerialWrite(msg + checksum);
      ok := Wait(Equal("0"));
      if !ok {
        return Some(Timeout);
      }
      SerialWrite(StartSession);
      ok := Wait(Prefix("+SBDI:"));
      if !ok {
        return Some(Timeout);
      }
      if sbdi.moStatus != 1 {
        return Some(SendFailed(sbdi));
      }
      return None;
    }

    method GetSignalQuality() returns (q: int, err: Option<LinkError>)
      modifies this
      ensures Outcome(State(), q, err) == GetSignalQualityF(old(State()))
    {
      SerialWrite(SignalQualityRequest);
      var ok := Wait(Prefix("+CSQ:"));
      if !ok {
        return -1, Some(Timeout);
      }
      return signalQuality, None;
    }

    /** GetTime, with the wall-clock reading used on timeout passed in. */
    method GetTime(now: Instant) returns (t: Instant, err: Option<LinkError>)
      modifies this
      ensures Outcome(State(), t, err) == GetTimeF(old(State()), now)
    {
      SerialWrite(SystemTimeRequest);
      var ok := Wait(Prefix("-MSSTM:"));
      if !ok {
        return now, Some(Timeout);
      }
      var _ := Wait(Equal("OK"));
      return systemTime, None;
    }

    /** DownloadMessage: reads the last report and changes nothing. */
    method DownloadMessage() returns (err: Option<LinkError>)
      ensures err == DownloadMessageF(State())
      ensures err.None? <==> sbdi.mtStatus == 1
    {
      if sbdi.mtStatus != 1 {
        return Some(NoMessagesWaiting);
      }
      return None;
    }
  }
}
