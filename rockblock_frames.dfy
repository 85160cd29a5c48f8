/**
 * The value-level part of the RockBLOCK (Iridium SBD) serial driver: the
 * carriage-return framer used by the scanner, the three status-frame parsers,
 * the line comparators, the reader's per-line step and the checksum appended
 * to binary messages.
 */
module RockBLOCKFrames {
  import opened Results
  import opened GoStrings
  import opened GoTime

  /** The six integers of a +SBDI / +SBDIX session report. */
  datatype SBDIResponse = SBDIResponse(
    moStatus: int, moMSN: int, mtStatus: int, mtMSN: int, mtLen: int, mtQueued: int)

  const ZeroSBDI: SBDIResponse := SBDIResponse(0, 0, 0, 0, 0, 0)

  /** Why a status frame was rejected. */
  datatype FrameError = WrongPrefix | TooShort | WrongFieldCount | BadNumber

  const CR: Byte := 13

  const SBDIPrefix: string := "+SBDI"
  const CSQPrefix: string := "+CSQ:"
  const MSSTMPrefix: string := "-MSSTM:"
  const Spaces: set<char> := {' '}
  const LineEnds: set<char> := {'\r', '\n'}

  // ---------------------------------------------------------------------------
  // RockBLOCKScanSplit: the bufio split function that cuts the byte stream
  // into carriage-return terminated lines.

  /** What a split function returns: how far to advance, and the token (None
      is Go's nil token, which asks the scanner for more data). */
  datatype SplitResult = SplitResult(advance: nat, token: Option<seq<Byte>>)

  /** bytes.IndexByte: the first position holding b. */
  function IndexOf(data: seq<Byte>, b: Byte): (r: Option<nat>)
    ensures r.None? <==> b !in data
    ensures r.Some? ==> r.value < |data| && data[r.value] == b && b !in data[..r.value]
  {
    if data == [] then None
    else if data[0] == b then Some(0)
    else
      match IndexOf(data[1..], b)
      case None => None
      case Some(i) =>
        assert data[..i + 1] == [data[0]] + data[1..][..i];
        Some(i + 1)
  }

  function ScanSplit(data: seq<Byte>, atEOF: bool): (r: SplitResult)
    ensures r.advance <= |data|
    ensures atEOF && data == [] ==> r == SplitResult(0, None)
    ensures CR in data ==>
      && r.token.Some? && r.advance == |r.token.value| + 1
      && data[..r.advance] == r.token.value + [CR] && CR !in r.token.value
    ensures CR !in data && atEOF && data != [] ==> r == SplitResult(|data|, Some(data))
    ensures CR !in data && !atEOF ==> r == SplitResult(0, None)
  {
    if atEOF && |data| == 0 then SplitResult(0, None)
    else
      match IndexOf(data, CR)
      case Some(i) =>
        assert data[..i + 1] == data[..i] + [CR];
        SplitResult(i + 1, Some(data[..i]))
      case None =>
        if atEOF then SplitResult(|data|, Some(data)) else SplitResult(0, None)
  }

  // ---------------------------------------------------------------------------
  // Status frames.

  /** One comma-separated field of a +SBDI frame: space-trimmed, decimal int32. */
  function FieldValue(f: string): Option<int> {
    ParseInt32(Trim(f, Spaces), 10)
  }

  /** parseSBDI: a line starting with "+SBDI"; the first seven characters
      ("+SBDI: " or "+SBDIX:") are dropped, and the rest must be six fields.
      A line with the prefix but shorter than seven characters makes the Go
      code panic; here it is rejected (see SBDIFrameAsWritten). */
  function SBDIFrame(s: string): (r: Result<SBDIResponse, FrameError>)
    ensures r == Err(WrongPrefix) <==> !HasPrefix(s, SBDIPrefix)
    ensures r == Err(TooShort) <==> HasPrefix(s, SBDIPrefix) && |s| < 7
    ensures r.Ok? ==> |Split(s[7..], ',')| == 6
  {
    if !HasPrefix(s, SBDIPrefix) then Err(WrongPrefix)
    else if |s| < 7 then Err(TooShort)
    else
      var x := Split(s[7..], ',');
      if |x| != 6 then Err(WrongFieldCount)
      else
        match FieldValues(x)
        case None => Err(BadNumber)
        case Some(v) => Ok(SBDIResponse(v[0], v[1], v[2], v[3], v[4], v[5]))
  }

  /** The values of all fields, or None as soon as one does not parse. */
  function FieldValues(x: seq<string>): (r: Option<seq<int>>)
    ensures r.Some? ==> |r.value| == |x|
  {
    if x == [] then Some([])
    else
      match FieldValues(x[..|x| - 1])
      case None => None
      case Some(vs) =>
        match FieldValue(x[|x| - 1])
        case None => None
        case Some(v) => Some(vs + [v])
  }

  /** FieldValues succeeds exactly when every field parses, and then holds
      the fields' values in order. */
  lemma {:induction false} FieldValuesSpec(x: seq<string>)
    ensures FieldValues(x).Some? <==> forall i :: 0 <= i < |x| ==> FieldValue(x[i]).Some?
    ensures FieldValues(x).Some? ==> forall i :: 0 <= i < |x| ==> Some(FieldValues(x).value[i]) == FieldValue(x[i])
  {
    if x != [] {
      var init := x[..|x| - 1];
      FieldValuesSpec(init);
      forall i | 0 <= i < |init| ensures init[i] == x[i] {}
    }
  }

  /** What the Go code does with a +SBDI line: slicing s[7:] of a shorter line
      is a run-time panic. */
  datatype SBDIOutcome = Returned(result: Result<SBDIResponse, FrameError>) | SlicePanic

  function SBDIFrameAsWritten(s: string): (r: SBDIOutcome)
    ensures r == SlicePanic <==> HasPrefix(s, SBDIPrefix) && |s| < 7
  {
    if !HasPrefix(s, SBDIPrefix) then Returned(Err(WrongPrefix))
    else if |s| < 7 then SlicePanic
    else Returned(SBDIFrame(s))
  }

  /** The line "+SBDI:" passes the prefix test and then crashes the reader. */
  lemma SBDIShortFramePanics()
    ensures SBDIFrameAsWritten("+SBDI:") == SlicePanic
    ensures SBDIFrame("+SBDI:") == Err(TooShort)
  {
    assert HasPrefix("+SBDI:", SBDIPrefix) by {
      assert "+SBDI:"[..5] == SBDIPrefix;
    }
  }

  /** The corrected parser differs from the code only on that panic. */
  lemma SBDIFrameAgreesWhenNoPanic(s: string)
    requires SBDIFrameAsWritten(s) != SlicePanic
    ensures SBDIFrameAsWritten(s) == Returned(SBDIFrame(s))
  {
  }

  /** parseCSQ: "+CSQ:" then a space-trimmed decimal int32. */
  function CSQFrame(s: string): (r: Result<int, FrameError>)
    ensures r == Err(WrongPrefix) <==> !HasPrefix(s, CSQPrefix)
    ensures r.Ok? ==> InInt32(r.value)
  {
    if !HasPrefix(s, CSQPrefix) then Err(WrongPrefix)
    else
      match ParseInt32(Trim(s[5..], Spaces), 10)
      case None => Err(BadNumber)
      case Some(v) => Ok(v)
  }

  /** The Iridium Era2 epoch, 2014-05-11 14:23:55 UTC: 1399818235 seconds after
      the Unix epoch, which is 62135596800 seconds after Go's zero time. */
  const IridiumEpoch: Instant := 63535415035 * Second

  /** -MSSTM counts 90 ms intervals since the Iridium epoch. */
  function SystemTimeOf(ticks: int): Instant {
    IridiumEpoch + 90 * Millisecond * ticks
  }

  /** parseMSSTM: "-MSSTM:" then a space-trimmed hexadecimal int32 tick count. */
  function MSSTMFrame(s: string): (r: Result<Instant, FrameError>)
    ensures r == Err(WrongPrefix) <==> !HasPrefix(s, MSSTMPrefix)
    ensures r.Ok? ==> exists v :: InInt32(v) && r.value == SystemTimeOf(v)
  {
    if !HasPrefix(s, MSSTMPrefix) then Err(WrongPrefix)
    else
      match ParseInt32(Trim(s[7..], Spaces), 16)
      case None => Err(BadNumber)
      case Some(v) => Ok(SystemTimeOf(v))
  }

  /** Later tick counts give strictly later times, and zero ticks is the epoch. */
  lemma SystemTimeMonotone(n: int, m: int)
    ensures SystemTimeOf(0) == IridiumEpoch
    ensures n < m <==> SystemTimeOf(n) < SystemTimeOf(m)
  {
  }

  // ---------------------------------------------------------------------------
  // How the modem writes these frames, and that the parsers read them back.

  /** fmt's %d of an int. */
  function FormatInt(n: int): string {
    if n < 0 then "-" + FormatNat(-n, 10) else FormatNat(n, 10)
  }

  predicate InInt32(n: int) {
    MinInt32 <= n <= MaxInt32
  }

  /** The fields of a report, in the order the modem prints them. */
  function Fields(r: SBDIResponse): seq<int> {
    [r.moStatus, r.moMSN, r.mtStatus, r.mtMSN, r.mtLen, r.mtQueued]
  }

  /** Integers printed in decimal and separated by ", ". */
  function DecimalList(fs: seq<int>): string
    requires |fs| >= 1
  {
    if |fs| == 1 then FormatInt(fs[0]) else FormatInt(fs[0]) + ", " + DecimalList(fs[1..])
  }

  /** "+SBDI: a, b, c, d, e, f", or "+SBDIX: a, ..." for the extended session. */
  function RenderSBDI(r: SBDIResponse, extended: bool): string {
    (if extended then "+SBDIX: " else "+SBDI: ") + DecimalList(Fields(r))
  }

  /** A printed integer is a sign and decimal digits, so it holds no space,
      comma, carriage return or line feed. */
  lemma FormatIntChars(n: int)
    ensures var s := FormatInt(n);
      s != [] && s[|s| - 1] != '-' && forall i :: 0 <= i < |s| ==> s[i] == '-' || '0' <= s[i] <= '9'
  {
    var s := FormatNat(if n < 0 then -n else n, 10);
    assert forall i :: 0 <= i < |s| ==> DigitValue(s[i]) < 10;
  }

  lemma {:induction false} FieldValueOfFormat(n: int, pad: string)
    requires InInt32(n)
    requires forall i :: 0 <= i < |pad| ==> pad[i] == ' '
    ensures FieldValue(pad + FormatInt(n)) == Some(n)
  {
    var s := FormatInt(n);
    FormatIntChars(n);
    TrimPadded(pad, s, Spaces);
    if n < 0 {
      ParseNegative(-n, 10);
    } else {
      FormatParseRoundTrip(n, 10);
    }
  }

  /** A signal-quality line as the modem prints it, "+CSQ:" then padding and
      a decimal int32, is read back as that number. */
  lemma CSQFrameRoundTrip(n: int, pad: string)
    requires InInt32(n)
    requires forall i :: 0 <= i < |pad| ==> pad[i] == ' '
    ensures CSQFrame(CSQPrefix + pad + FormatInt(n)) == Ok(n)
  {
    var f := pad + FormatInt(n);
    var s := CSQPrefix + f;
    assert CSQPrefix + pad + FormatInt(n) == s;
    assert HasPrefix(s, CSQPrefix) && s[5..] == f;
    FieldValueOfFormat(n, pad);
    assert ParseInt32(Trim(f, Spaces), 10) == Some(n);
  }

  /** Splitting a printed list on commas gives back one field per integer. */
  lemma {:induction false} SplitDecimalList(fs: seq<int>, pad: string)
    requires |fs| >= 1 && forall i :: 0 <= i < |fs| ==> InInt32(fs[i])
    requires forall i :: 0 <= i < |pad| ==> pad[i] == ' '
    ensures FieldsAre(Split(pad + DecimalList(fs), ','), fs)
  {
    var head := pad + FormatInt(fs[0]);
    NoCommaInField(fs[0], pad);
    FieldValueOfFormat(fs[0], pad);
    if |fs| == 1 {
      assert pad + DecimalList(fs) == head;
      SplitFree(head, ',');
      assert FieldsAre([head], fs);
    } else {
      var tail := " " + DecimalList(fs[1..]);
      DecimalListCons(fs, pad);
      SplitPrefix(head, tail, ',');
      SplitDecimalList(fs[1..], " ");
      FieldsCons(head, Split(tail, ','), fs[0], fs[1..]);
      assert [fs[0]] + fs[1..] == fs;
    }
  }

  /** The fields x hold the values fs, in order. */
  predicate FieldsAre(x: seq<string>, fs: seq<int>) {
    |x| == |fs| && forall i :: 0 <= i < |x| ==> FieldValue(x[i]) == Some(fs[i])
  }

  lemma FieldsCons(head: string, y: seq<string>, f: int, fs: seq<int>)
    requires FieldValue(head) == Some(f) && FieldsAre(y, fs)
    ensures FieldsAre([head] + y, [f] + fs)
  {
    var x, vs := [head] + y, [f] + fs;
    forall i | 0 <= i < |x| ensures FieldValue(x[i]) == Some(vs[i]) {
      if i > 0 {
        assert x[i] == y[i - 1] && vs[i] == fs[i - 1];
      }
    }
  }

  lemma DecimalListCons(fs: seq<int>, pad: string)
    requires |fs| >= 2
    ensures pad + DecimalList(fs) == (pad + FormatInt(fs[0])) + [','] + (" " + DecimalList(fs[1..]))
  {
    var f, rest := FormatInt(fs[0]), DecimalList(fs[1..]);
    assert DecimalList(fs) == f + ", " + rest;
    CommaSpaceSplit(pad, f, rest);
  }

  lemma CommaSpaceSplit(pad: string, f: string, rest: string)
    ensures pad + (f + ", " + rest) == (pad + f) + [','] + (" " + rest)
  {
    assert ", " + rest == [','] + (" " + rest);
  }

  lemma NoCommaInField(n: int, pad: string)
    requires forall i :: 0 <= i < |pad| ==> pad[i] == ' '
    ensures ',' !in pad + FormatInt(n)
  {
    FormatIntChars(n);
    var s := pad + FormatInt(n);
    forall i | 0 <= i < |s| ensures s[i] != ',' {
      if i >= |pad| {
        assert s[i] == FormatInt(n)[i - |pad|];
      }
    }
  }

  predicate InInt32Response(r: SBDIResponse) {
    forall i :: 0 <= i < 6 ==> InInt32(Fields(r)[i])
  }

  /** A report printed by the modem parses back to the same six values. */
  lemma SBDIFrameRoundTrip(r: SBDIResponse, extended: bool)
    requires InInt32Response(r)
    ensures SBDIFrame(RenderSBDI(r, extended)) == Ok(r)
  {
    var fs := Fields(r);
    var body := DecimalList(fs);
    var hdr := if extended then "+SBDIX: " else "+SBDI: ";
    var pad := if extended then " " else "";
    HeaderSlices(hdr, body, pad);
    SplitDecimalList(fs, pad);
    SBDIFrameOfPieces(hdr + body, r);
  }

  lemma HeaderSlices(hdr: string, body: string, pad: string)
    requires (hdr == "+SBDIX: " && pad == " ") || (hdr == "+SBDI: " && pad == "")
    ensures HasPrefix(hdr + body, SBDIPrefix) && |hdr + body| >= 7
    ensures (hdr + body)[7..] == pad + body
  {
    assert (hdr + body)[..5] == hdr[..5];
  }

  /** The parser's last step: six fields holding the report's values. */
  lemma SBDIFrameOfPieces(s: string, r: SBDIResponse)
    requires HasPrefix(s, SBDIPrefix) && |s| >= 7
    requires FieldsAre(Split(s[7..], ','), Fields(r))
    ensures SBDIFrame(s) == Ok(r)
  {
    var x := Split(s[7..], ',');
    FieldValuesSpec(x);
    var v := FieldValues(x).value;
    assert v == Fields(r);
  }

  /** A frame with five fields is rejected. */
  lemma FiveFieldsRejected()
    ensures SBDIFrame("+SBDI: " + Join(["0", " 4", " 1", " 2", " 6"], ',')) == Err(WrongFieldCount)
  {
    var pieces := ["0", " 4", " 1", " 2", " 6"];
    var s := "+SBDI: " + Join(pieces, ',');
    assert s[..5] == SBDIPrefix;
    assert s[7..] == Join(pieces, ',');
    SplitJoin(pieces, ',');
  }

  /** A device time report is read back as the Iridium epoch plus 90 ms per tick. */
  lemma MSSTMFrameRoundTrip(ticks: nat)
    requires ticks <= MaxInt32
    ensures MSSTMFrame(MSSTMPrefix + " " + FormatNat(ticks, 16)) == Ok(SystemTimeOf(ticks))
  {
    var h := FormatNat(ticks, 16);
    var s := MSSTMPrefix + " " + h;
    assert s[..7] == MSSTMPrefix;
    assert s[7..] == " " + h;
    assert DigitValue(h[0]) < 16 && DigitValue(h[|h| - 1]) < 16;
    TrimPadded(" ", h, Spaces);
    FormatParseRoundTrip(ticks, 16);
  }

  // ---------------------------------------------------------------------------
  // StringEqual / StringPrefix, as the two kinds of comparator a waiter uses.

  datatype Comparator = Equal(value: string) | Prefix(value: string)

  /** Both comparators accept only lines that start with their text. */
  predicate Matches(c: Comparator, line: string)
    ensures Matches(c, line) ==> HasPrefix(line, c.value)
  {
    match c
    case Equal(v) => line == v
    case Prefix(v) => HasPrefix(line, v)
  }

  // ---------------------------------------------------------------------------
  // The reader's step for one scanner token.

  /** The connection's parsed fields: the last session report, the last
      signal quality and the last device time. */
  datatype Status = Status(sbdi: SBDIResponse, signalQuality: int, systemTime: Instant)

  /** The token with carriage returns and line feeds trimmed from both ends. */
  function LineOf(raw: string): string {
    Trim(raw, LineEnds)
  }

  /** The line the reader hands to the waiter, if any: empty lines are dropped. */
  function Forward(raw: string): Option<string> {
    if LineOf(raw) == [] then None else Some(LineOf(raw))
  }

  /** The reader's effect on the parsed fields: each frame kind is parsed
      whenever its prefix appears, whatever the waiter expects, and a frame
      that does not parse leaves its field alone. */
  function Deliver(st: Status, raw: string): (r: Status)
    ensures LineOf(raw) == [] ==> r == st
    ensures r.sbdi == (match SBDIFrame(LineOf(raw)) case Ok(v) => v case Err(_) => st.sbdi)
    ensures r.signalQuality == (match CSQFrame(LineOf(raw)) case Ok(v) => v case Err(_) => st.signalQuality)
    ensures r.systemTime == (match MSSTMFrame(LineOf(raw)) case Ok(v) => v case Err(_) => st.systemTime)
  {
    var m := LineOf(raw);
    if m == [] then st
    else
      var s1 := if HasPrefix(m, SBDIPrefix) && SBDIFrame(m).Ok? then st.(sbdi := SBDIFrame(m).value) else st;
      var s2 := if HasPrefix(m, CSQPrefix) && CSQFrame(m).Ok? then s1.(signalQuality := CSQFrame(m).value) else s1;
      if HasPrefix(m, MSSTMPrefix) && MSSTMFrame(m).Ok? then s2.(systemTime := MSSTMFrame(m).value) else s2
  }

  /** A +SBDIX report delivered while waiting for something else still updates
      the session report. */
  lemma ExtendedReportUpdatesStatus(st: Status, r: SBDIResponse)
    requires InInt32Response(r)
    ensures Deliver(st, RenderSBDI(r, true)).sbdi == r
  {
    var s := RenderSBDI(r, true);
    SBDIFrameRoundTrip(r, true);
    RenderedLineIsClean(r, true);
    DeliverReport(st, s);
  }

  /** A printed report has no line ends to trim. */
  lemma RenderedLineIsClean(r: SBDIResponse, extended: bool)
    ensures LineOf(RenderSBDI(r, extended)) == RenderSBDI(r, extended)
  {
    var s := RenderSBDI(r, extended);
    var body := DecimalList(Fields(r));
    LastDigit(Fields(r));
    assert s[|s| - 1] == body[|body| - 1];
    TrimPadded("", s, LineEnds);
    assert "" + s == s;
  }

  lemma DeliverReport(st: Status, line: string)
    requires LineOf(line) == line && SBDIFrame(line).Ok?
    ensures Deliver(st, line).sbdi == SBDIFrame(line).value
  {
  }

  lemma {:induction false} LastDigit(fs: seq<int>)
    requires |fs| >= 1
    ensures var s := DecimalList(fs); s != [] && '0' <= s[|s| - 1] <= '9'
  {
    FormatIntChars(fs[0]);
    if |fs| > 1 {
      LastDigit(fs[1..]);
    }
  }

  // ---------------------------------------------------------------------------
  // binaryChecksum.

  /** The arithmetic sum of the bytes. */
  function Sum(msg: seq<Byte>): nat {
    if msg == [] then 0 else Sum(msg[..|msg| - 1]) + msg[|msg| - 1]
  }

  /** The low 16 bits of the sum, high byte first. */
  function Checksum(msg: seq<Byte>): (c: seq<Byte>)
    ensures |c| == 2 && c[0] as int * 256 + c[1] as int == Sum(msg) % 0x1_0000
  {
    [(Sum(msg) % 0x1_0000) / 256, Sum(msg) % 256]
  }

  /** Go's int32 addition, which wraps around. */
  function WrapInt32(x: int): int {
    (x - MinInt32) % 0x1_0000_0000 + MinInt32
  }

  lemma WrapKeepsLow16(x: int)
    ensures MinInt32 <= WrapInt32(x) <= MaxInt32
    ensures WrapInt32(x) % 0x1_0000 == x % 0x1_0000
  {
    var q := (x - MinInt32) / 0x1_0000_0000;
    assert WrapInt32(x) == x - q * 0x1_0000_0000;
    assert q * 0x1_0000_0000 == (q * 0x1_0000) * 0x1_0000;
  }

  /** The sum accumulated in an int32 as the Go loop does, then the two bytes
      (sum & 0xFF00) >> 8 and sum & 0xFF of its two's-complement pattern. */
  method BinaryChecksum(msg: seq<Byte>) returns (c: seq<Byte>)
    ensures c == Checksum(msg)
  {
    var sum: int := 0;
    var i := 0;
    while i < |msg|
      invariant 0 <= i <= |msg|
      invariant MinInt32 <= sum <= MaxInt32
      invariant sum % 0x1_0000 == Sum(msg[..i]) % 0x1_0000
    {
      SumSnoc(msg, i);
      AddKeepsLow16(sum, Sum(msg[..i]), msg[i]);
      WrapKeepsLow16(sum + msg[i]);
      sum := WrapInt32(sum + msg[i]);
      i := i + 1;
    }
    assert msg[..|msg|] == msg;
    var low16 := sum % 0x1_0000;
    Low8OfLow16(Sum(msg));
    c := [low16 / 256, low16 % 256];
  }

  lemma SumSnoc(msg: seq<Byte>, i: nat)
    requires i < |msg|
    ensures Sum(msg[..i + 1]) == Sum(msg[..i]) + msg[i]
  {
    assert msg[..i + 1][..i] == msg[..i];
  }

  lemma AddKeepsLow16(a: int, b: int, m: int)
    requires a % 0x1_0000 == b % 0x1_0000
    ensures (a + m) % 0x1_0000 == (b + m) % 0x1_0000
  {
    var qa, qb := a / 0x1_0000, b / 0x1_0000;
    assert a + m == (b + m) + (qa - qb) * 0x1_0000;
  }

  lemma Low8OfLow16(x: int)
    ensures (x % 0x1_0000) % 256 == x % 256
  {
    var r, k := x % 0x1_0000, x / 0x1_0000 * 256;
    assert x == r + k * 256;
    ShiftKeepsMod(r, k);
  }

  lemma ShiftKeepsMod(r: int, k: int)
    ensures (r + k * 256) % 256 == r % 256
  {
    var q := r / 256;
    assert r + k * 256 == (q + k) * 256 + r % 256;
  }

  lemma ChecksumExample()
    ensures Checksum([0x01, 0x02]) == [0x00, 0x03]
  {
    var m: seq<Byte> := [0x01, 0x02];
    assert m[..1] == [0x01] && m[..1][..0] == [];
    assert Sum(m) == 3;
  }
}
