# weatherserver core, modelled in Dafny

weatherserver is a small ground station. It fetches aviation weather reports
(METARs and TAFs) from the Aviation Digital Data Service (ADDS) and keeps the
latest report per station. It broadcasts those reports, and it can compress a
report's collection time into eight bits for the Iridium short-burst-data link.
A RockBLOCK modem provides that link and is driven by AT commands over a
serial line.

This project models five parts of that system and proves properties about them.

- **The RockBLOCK serial driver** (`rockblock_frames.dfy`, `rockblock_serial.dfy`):
  - the carriage-return scanner split function;
  - the `+SBDI`/`+SBDIX`, `+CSQ:` and `-MSSTM:` frame parsers;
  - the reader's per-line step, which parses every frame it sees;
  - the wait primitive with its equal/prefix comparators;
  - the 16-bit sum checksum for binary messages;
  - the scripted exchanges: Init, clearBuffer, SendText, SendBinary, GetSignalQuality, GetTime, DownloadMessage.

  The connection object is the class `RockBLOCKSerial.Connection`. Its
  fields are the driver's parsed fields, the scanner tokens the modem will
  still send, and the log of bytes written. Each method is proved equal to a
  function on the state value `Link`, and the exchanges are proved against
  those functions.
- **WeatherPack's time packing** (`weatherpack.dfy`): Pack and Unpack on
  eight one-bit Go ints. Unpack is modelled on 64-bit two's-complement words,
  because it accepts any ints.
- **The airport CSV projection** (`airportdb.dfy`):
  - the header row maps labels to columns, and seven required labels must be present;
  - every data record is projected onto the required columns;
  - the code skips a record shorter than the largest required column, but
    the CSV reader it creates already fails the import on any record whose
    field count differs from the header's, so that skip never applies.

  The loop is a method proved against a functional specification.
- **getLatestADDSMETAR** (`adds.dfy`): the strict "after" selection of the
  latest observation.
- **The broadcaster's tables** (`broadcaster.dfy`): the per-station merge of
  each update cycle, and the labels put in front of report texts.

Shared modules: `results.dfy` (Option and Result), `gostrings.dfy` (the parts
of Go's `strings`, `strconv` and `fmt` the core relies on), and `gotime.dfy`
(instants as nanoseconds since Go's zero time).

Notes on the code:
- The code has no priority queue, message packetizer or broadcast scheduler:
  the broadcaster prints every stored report every 15 seconds.
- `WeatherPack/WeatherPack.go:43` assigns an undeclared `roundedHours`, so the
  file does not compile as written. The model uses the evident intent: a
  rounded hour of 24 becomes 0.
- `math.Floor(float64(min)/10.0 + 0.5)` is modelled with exact reals. For
  minutes 0 to 59, the float quotient is exact at the halves and at least 0.1
  away from them elsewhere, so exact reals give the same floor.

## Model

| member | source | states |
|---|---|---|
| GoStrings.Trim | RockBLOCK/RockBLOCKSerial.go:98 | strings.Trim never lengthens its input |
| GoStrings.Split | RockBLOCK/RockBLOCKSerial.go:92 | strings.Split always yields at least one piece, even for the empty string |
| GoStrings.TrimIsMaximalInfix | RockBLOCK/RockBLOCKSerial.go:98 | strings.Trim removes cutset characters from the two ends only: the result is a contiguous piece of the input, and it neither starts nor ends with a cutset character |
| GoStrings.TrimKeepsClean | RockBLOCK/RockBLOCKSerial.go:160 | a line with no cutset character at either end is left unchanged by Trim |
| GoStrings.TrimPadded | RockBLOCK/RockBLOCKSerial.go:139 | leading padding drawn from the cutset is removed and nothing else |
| GoStrings.JoinSplit | RockBLOCK/RockBLOCKSerial.go:92 | joining the pieces of strings.Split with the separator gives back the input |
| GoStrings.SplitCount | RockBLOCK/RockBLOCKSerial.go:92 | Split yields one more piece than the input has separators |
| GoStrings.SplitJoin | RockBLOCK/RockBLOCKSerial.go:92 | splitting a join of separator-free pieces gives back the pieces |
| GoStrings.ParseInt32 | RockBLOCK/RockBLOCKSerial.go:99 | strconv.ParseInt(s, base, 32) accepts only values in the int32 range and rejects the empty string |
| GoStrings.FormatParseRoundTrip | RockBLOCK/RockBLOCKSerial.go:140 | parsing the base-b numeral of an int32-sized natural gives back the number |
| GoStrings.ParseNegative | RockBLOCK/RockBLOCKSerial.go:99 | a leading minus sign negates the parsed value |
| GoTime.DateOfDayZeroClock | WeatherPack/WeatherPack.go:65 | time.Date(0, 0, 0, h, m, ...) has clock hour h mod 24 and minute m for a minute below 60 |
| RockBLOCKFrames.ScanSplit | RockBLOCK/RockBLOCKSerial.go:62-76 | with a CR in the data it returns the bytes before the first CR and advances past that CR; without one it waits for more data, or at EOF it returns the remaining bytes; an empty buffer at EOF yields no token |
| RockBLOCKFrames.FieldValuesSpec | RockBLOCK/RockBLOCKSerial.go:96-104 | the fields are read completely exactly when every field is a trimmed decimal int32, and the values are then in field order |
| RockBLOCKFrames.SBDIFrame | RockBLOCK/RockBLOCKSerial.go:86-116 | corrected parseSBDI: a line is rejected for its prefix exactly when it does not start with `+SBDI`, rejected as too short exactly when it has the prefix but fewer than seven characters, and accepted only when the rest splits into six fields |
| RockBLOCKFrames.SBDIFrameAsWritten | RockBLOCK/RockBLOCKSerial.go:86-116 | parseSBDI as written panics exactly on a line with the `+SBDI` prefix and fewer than seven characters |
| RockBLOCKFrames.CSQFrame | RockBLOCK/RockBLOCKSerial.go:118-131 | parseCSQ rejects a line for its prefix exactly when it does not start with `+CSQ:`, and an accepted value is an int32 |
| RockBLOCKFrames.CSQFrameRoundTrip | RockBLOCK/RockBLOCKSerial.go:118-131 | a `+CSQ:` line with space padding and a printed int32 is read back as that number |
| RockBLOCKFrames.MSSTMFrame | RockBLOCK/RockBLOCKSerial.go:133-153 | parseMSSTM rejects a line for its prefix exactly when it does not start with `-MSSTM:`, and an accepted time is the Iridium epoch plus 90 ms times an int32 tick count |
| RockBLOCKFrames.Matches | RockBLOCK/RockBLOCKSerial.go:194-202 | both comparators accept only lines that start with the comparator's text |
| RockBLOCKFrames.SBDIFrameRoundTrip | RockBLOCK/RockBLOCKSerial.go:86-116 | a session report as the modem prints it, `+SBDI: ` or `+SBDIX: ` followed by six comma-separated int32 values, parses back to the same six values |
| RockBLOCKFrames.FiveFieldsRejected | RockBLOCK/RockBLOCKSerial.go:92-95 | a report with five fields is rejected for its field count |
| RockBLOCKFrames.SBDIShortFramePanics | RockBLOCK/RockBLOCKSerial.go:88-91 | the line `+SBDI:` passes the prefix test and then makes the code slice past the end (a panic); the corrected parser rejects it as too short |
| RockBLOCKFrames.SBDIFrameAgreesWhenNoPanic | RockBLOCK/RockBLOCKSerial.go:86-116 | the corrected parser gives the code's result on every line where the code does not panic |
| RockBLOCKFrames.SystemTimeMonotone | RockBLOCK/RockBLOCKSerial.go:133-153 | zero ticks is the Iridium epoch, and more ticks always means a strictly later time |
| RockBLOCKFrames.MSSTMFrameRoundTrip | RockBLOCK/RockBLOCKSerial.go:133-153 | a `-MSSTM:` line with a hexadecimal tick count is read as the Iridium epoch plus 90 ms per tick |
| RockBLOCKFrames.Deliver | RockBLOCK/RockBLOCKSerial.go:155-177 | for each token, the reader trims line ends and updates each parsed field exactly when the line is a well-formed frame of that kind, whatever the waiter expects; an empty line changes nothing |
| RockBLOCKFrames.ExtendedReportUpdatesStatus | RockBLOCK/RockBLOCKSerial.go:162-165 | a `+SBDIX` report that arrives while the waiter wants OK still replaces the stored session report |
| RockBLOCKFrames.RenderedLineIsClean | RockBLOCK/RockBLOCKSerial.go:160 | trimming line ends leaves a printed report unchanged |
| RockBLOCKFrames.Checksum | RockBLOCK/RockBLOCKSerial.go:293-299 | the two bytes, high byte first, are the byte sum modulo 2^16 |
| RockBLOCKFrames.WrapKeepsLow16 | RockBLOCK/RockBLOCKSerial.go:294-297 | int32 wrap-around of the running sum stays in range and keeps its low 16 bits, so it cannot change the checksum |
| RockBLOCKFrames.BinaryChecksum | RockBLOCK/RockBLOCKSerial.go:293-299 | the loop that adds the bytes with int32 wrap-around and masks out two bytes returns the checksum of the message |
| RockBLOCKFrames.ChecksumExample | RockBLOCK/RockBLOCKSerial.go:293-299 | the checksum of bytes 01 02 is 00 03 |
| RockBLOCKSerial.DecimalBytes | RockBLOCK/RockBLOCKSerial.go:303 | the length announced by SendBinary is a non-empty run of ASCII digits whose decimal value is the message length |
| RockBLOCKSerial.WaitF | RockBLOCK/RockBLOCKSerial.go:205-228 | a wait writes nothing; when no line satisfies the comparator it consumes all input (the timeout); when a line does, that line is the last one processed |
| RockBLOCKSerial.FirstMatch | RockBLOCK/RockBLOCKSerial.go:207-216 | identifies the first token whose forwarded line satisfies the comparator, or none when no token does |
| RockBLOCKSerial.WaitConsumesThroughFirstMatch | RockBLOCK/RockBLOCKSerial.go:205-228 | a wait stops right after the first matching line, having run the reader's step on every token up to it; with no match it runs through all tokens |
| RockBLOCKSerial.WaitMatchedIff | RockBLOCK/RockBLOCKSerial.go:205-228 | a wait succeeds exactly when some pending token forwards a line that satisfies the comparator |
| RockBLOCKSerial.StopOf | RockBLOCK/RockBLOCKSerial.go:205-228 | where a wait that starts at a token position stops: just past a matching token, or at the end of the input when no later token matches |
| RockBLOCKSerial.ConsumedTwice | RockBLOCK/RockBLOCKSerial.go:155-177 | running the reader's step over j more tokens after n tokens is the same as running it over the first n + j tokens |
| RockBLOCKSerial.WaitResumedMatched | RockBLOCK/RockBLOCKSerial.go:205-228 | a wait that starts after n tokens, with some later token matching, ends right after the first such token and succeeds |
| RockBLOCKSerial.WaitResumedUnmatched | RockBLOCK/RockBLOCKSerial.go:205-228 | a wait that starts after n tokens, with no later token matching, consumes all input and times out |
| RockBLOCKSerial.WaitFrom | RockBLOCK/RockBLOCKSerial.go:205-228 | a wait from any position ends at that position's stop, and it succeeds exactly when a later token matches; it writes nothing |
| RockBLOCKSerial.ReportOfMatchedLine | RockBLOCK/RockBLOCKSerial.go:155-177 | when the last token processed is a well-formed session report, the stored report is that one |
| RockBLOCKSerial.SignalQualityOfMatchedLine | RockBLOCK/RockBLOCKSerial.go:155-177 | when the last token processed is a well-formed `+CSQ:` line, the stored signal quality is the number on it |
| RockBLOCKSerial.InitF | RockBLOCK/RockBLOCKSerial.go:230-254 | on success it has written `AT` and `AT&K0`, each answered by OK; a failure is a timeout after the first command or after both |
| RockBLOCKSerial.ClearBufferF | RockBLOCK/RockBLOCKSerial.go:256-260 | it writes `AT+SBDD0` and fails only by timeout |
| RockBLOCKSerial.SendTextF | RockBLOCK/RockBLOCKSerial.go:262-291 | success means the clear, the text command and the session start were written and the report's MO status is 2; a failure is either a timeout or the report with an MO status other than 2 |
| RockBLOCKSerial.SendBinaryF | RockBLOCK/RockBLOCKSerial.go:301-336 | success means the length command, the message with its checksum and the session start were written and the report's MO status is 1; a failure is either a timeout or the report with an MO status other than 1 |
| RockBLOCKSerial.GetSignalQualityF | RockBLOCK/RockBLOCKSerial.go:338-347 | it writes `AT+CSQ`; the result is the stored signal quality, or -1 with a timeout |
| RockBLOCKSerial.GetTimeF | RockBLOCK/RockBLOCKSerial.go:389-399 | it writes `AT-MSSTM`; the result is the stored device time, or the current clock reading with a timeout; a missing OK afterwards is ignored |
| RockBLOCKSerial.DownloadMessageF | RockBLOCK/RockBLOCKSerial.go:374-387 | it fails with "no messages waiting" exactly when the last report's MT status is not 1, and with no other error |
| RockBLOCKSerial.InitReplyOrder | RockBLOCK/RockBLOCKSerial.go:230-254 | for every sequence of modem replies: `AT` is written; without a later OK, Init times out having consumed all input; otherwise `AT&K0` is written at that point, and Init then times out or succeeds right after the next OK |
| RockBLOCKSerial.SendBinaryReplyOrder | RockBLOCK/RockBLOCKSerial.go:301-336 | for every sequence of modem replies: the length command, then (after READY) the message with its checksum, then (after `0`) the session start are written, each only once the previous reply came; a missing reply is a timeout that consumes all input with the commands written so far; otherwise the call ends just past the first report line and fails exactly when that report's MO status is not 1 |
| RockBLOCKSerial.SendBinaryReport | RockBLOCK/RockBLOCKSerial.go:322-335 | once READY, `0` and a well-formed report line have come in that order, the report SendBinary checks and stores is the one on that line, and the call succeeds exactly when its MO status is 1 |
| RockBLOCKSerial.SendTextReplyOrder | RockBLOCK/RockBLOCKSerial.go:262-291 | for every sequence of modem replies: the clear is written and its wait's timeout ignored; the text command and the session start follow; a missing OK, report or final OK is a timeout that consumes all input with the commands written so far; otherwise the call ends just past that final OK and fails exactly when the stored report's MO status is not 2 |
| RockBLOCKSerial.GetSignalQualityReplyOrder | RockBLOCK/RockBLOCKSerial.go:338-347 | for every sequence of modem replies: `AT+CSQ` is written; without a `+CSQ:` line the call consumes all input and returns -1 with a timeout; otherwise it ends just past the first such line and returns the signal quality parsed from the lines taken |
| RockBLOCKSerial.GetSignalQualityValue | RockBLOCK/RockBLOCKSerial.go:338-347 | when that first `+CSQ:` line is well-formed, GetSignalQuality succeeds with the number on it |
| RockBLOCKSerial.GetTimeReplyOrder | RockBLOCK/RockBLOCKSerial.go:389-399 | for every sequence of modem replies: `AT-MSSTM` is written; without a `-MSSTM:` line the call consumes all input and returns the clock reading with a timeout; otherwise it then waits for OK and, whether or not one comes, succeeds with the device time parsed from the lines taken, ending just past that OK or at the end of the input |
| RockBLOCKSerial.PlainReply | RockBLOCK/RockBLOCKSerial.go:155-177 | a reply line with no frame prefix reaches the waiter unchanged and leaves the parsed fields alone |
| RockBLOCKSerial.ReportReply | RockBLOCK/RockBLOCKSerial.go:155-177 | a printed session report reaches the waiter unchanged and is stored |
| RockBLOCKSerial.SendBinaryAnswered | RockBLOCK/RockBLOCKSerial.go:301-336 | a modem that answers READY, 0 and a report with MO status 1 makes SendBinary succeed, storing that report and consuming all input |
| RockBLOCKSerial.ReportWhileWaitingForOK | RockBLOCK/RockBLOCKSerial.go:205-228 | a `+SBDIX` report followed by OK while waiting for OK satisfies the wait, stores the report and records both lines |
| RockBLOCKSerial.StaleSignalQuality | RockBLOCK/RockBLOCKSerial.go:338-347 | an unparsable `+CSQ:` line satisfies the wait, so GetSignalQuality returns the previous signal quality as if it were fresh |
| RockBLOCKSerial.Connection.constructor | RockBLOCK/RockBLOCKSerial.go:29-39 | a new connection has written and processed nothing, and every parsed field starts at its zero value |
| RockBLOCKSerial.Connection.ParseSBDI | RockBLOCK/RockBLOCKSerial.go:86-116 | it succeeds exactly on well-formed reports; on success the stored report is the parsed one, and on error the error is the frame's and the stored report is unchanged |
| RockBLOCKSerial.Connection.ParseCSQ | RockBLOCK/RockBLOCKSerial.go:118-131 | it succeeds exactly on `+CSQ:` with an int32; on success it stores that value, and on error the field is unchanged |
| RockBLOCKSerial.Connection.ParseMSSTM | RockBLOCK/RockBLOCKSerial.go:133-153 | it succeeds exactly on `-MSSTM:` with a hexadecimal int32; on success it stores the epoch-based time, and on error the field is unchanged |
| RockBLOCKSerial.Connection.Receive | RockBLOCK/RockBLOCKSerial.go:155-177 | one pass of the reader loop: it updates the parsed fields as Deliver says and forwards the trimmed line when it is not empty |
| RockBLOCKSerial.Connection.Wait | RockBLOCK/RockBLOCKSerial.go:205-228 | the loop over delivered lines ends in the state WaitF describes and reports whether a line matched |
| RockBLOCKSerial.Connection.SerialWrite | RockBLOCK/RockBLOCKSerial.go:189-192 | appends the bytes to the write log and changes nothing else |
| RockBLOCKSerial.Connection.Init | RockBLOCK/RockBLOCKSerial.go:230-254 | leaves the connection in the state InitF describes and returns its error |
| RockBLOCKSerial.Connection.ClearBuffer | RockBLOCK/RockBLOCKSerial.go:256-260 | leaves the connection in the state ClearBufferF describes and returns its error |
| RockBLOCKSerial.Connection.SendText | RockBLOCK/RockBLOCKSerial.go:262-291 | leaves the connection in the state SendTextF describes and returns its error |
| RockBLOCKSerial.Connection.SendBinary | RockBLOCK/RockBLOCKSerial.go:301-336 | leaves the connection in the state SendBinaryF describes and returns its error |
| RockBLOCKSerial.Connection.GetSignalQuality | RockBLOCK/RockBLOCKSerial.go:338-347 | its state, value and error are those of GetSignalQualityF |
| RockBLOCKSerial.Connection.GetTime | RockBLOCK/RockBLOCKSerial.go:389-399 | its state, value and error are those of GetTimeF, with the clock reading passed in |
| RockBLOCKSerial.Connection.DownloadMessage | RockBLOCK/RockBLOCKSerial.go:374-387 | it succeeds exactly when the last report's MT status is 1, and it changes nothing |
| WeatherPack.RoundedTensIsNearest | WeatherPack/WeatherPack.go:35-36 | the float rounding of minutes is rounding to the nearest ten, with halves rounded up |
| WeatherPack.RoundedClockMinutes | WeatherPack/WeatherPack.go:38-45 | the packed hour and tens of minutes give the minute of the day rounded to the nearest ten, modulo 24 hours |
| WeatherPack.Pack | WeatherPack/WeatherPack.go:29-52 | it yields eight values, each 0 or 1 |
| WeatherPack.PackLayout | WeatherPack/WeatherPack.go:47-50 | bits 0-4 are the binary numeral of the hour and bits 5-7 that of the tens of minutes, both read on t's clock in its Location, most significant bit first |
| WeatherPack.PackReadsZoneClock | WeatherPack/WeatherPack.go:32-35 | Pack reads the clock of t's Location: 08:04 UTC in a zone two hours east packs as 10:00 |
| WeatherPack.Unpack | WeatherPack/WeatherPack.go:54-68 | it fails exactly when the length is not 8, and otherwise gives the day-zero time of the or-ed hour and minute values |
| WeatherPack.UnpackOfBits | WeatherPack/WeatherPack.go:59-65 | on eight 0/1 values, the 64-bit shifts and ors read bits 0-4 as the hour and bits 5-7 as tens of minutes |
| WeatherPack.UnpackPack | WeatherPack/WeatherPack.go:29-68 | unpacking a packed time succeeds, with the packed hour and ten times the packed tens (both from t's Location) as the UTC hour and minute |
| WeatherPack.PackUnpackRoundTrip | WeatherPack/WeatherPack.go:28-68 | Unpack after Pack gives t's time of day in its Location, rounded to the nearest ten minutes, modulo 24 hours |
| ADDS.Latest | ADDS/ADDS.go:77-83 | the selected report is one of the fetched reports or the zero report |
| ADDS.LatestIndex | ADDS/ADDS.go:77-83 | the selected report is either one of the fetched reports, at the index given, or the zero report |
| ADDS.LatestIsFirstMaximum | ADDS/ADDS.go:77-83 | no fetched report is later than the selected one; the zero report comes back exactly when no report is after the zero time; otherwise the earliest report of the latest time is selected |
| ADDS.GetLatestMETAR | ADDS/ADDS.go:71-86 | a fetch error is returned with the zero report; otherwise the loop returns the latest report and no error |
| AirportDB.HeaderMap | ADDS/ParseDB.go:69-71 | every label maps to a column of the header |
| AirportDB.HeaderMapIsLastOccurrence | ADDS/ParseDB.go:69-71 | the label map holds exactly the header's labels, each mapped to its last column |
| AirportDB.MaxColumnBounds | ADDS/ParseDB.go:73-81 | the tracked maximum bounds every required column and is attained by one of them |
| AirportDB.RequiredLength | ADDS/ParseDB.go:77-82 | every required column lies below the required record length |
| AirportDB.RequiredLengthIsOnePastLastColumn | ADDS/ParseDB.go:77-82 | the required length is exactly one past the largest required column |
| AirportDB.Project | ADDS/ParseDB.go:91-94 | the projected row has one value per required label, read from that label's column |
| AirportDB.Import | ADDS/ParseDB.go:58-62 | an empty file imports successfully with no rows |
| AirportDB.MissingLabelRejected | ADDS/ParseDB.go:73-75 | a header without one of the required labels rejects the file |
| AirportDB.HeaderWithLabelsAccepted | ADDS/ParseDB.go:67-84 | a header with all required labels sets up the column map, and the rest of the file is imported against it |
| AirportDB.LongRecords | ADDS/ParseDB.go:87-89 | every record kept is at least as long as required |
| AirportDB.ImportRows | ADDS/ParseDB.go:58-101 | the data records yield at most one row each |
| AirportDB.ProjectAllSpec | ADDS/ParseDB.go:91-94 | every record long enough is projected, one row per record, in order |
| AirportDB.LongRecordsKeepsAll | ADDS/ParseDB.go:87-89 | when every data record reaches the required length, none is skipped |
| AirportDB.DefaultReader | ADDS/ParseDB.go:57-59 | the reader csv.NewReader creates gives one result per record |
| AirportDB.DefaultReaderSkipsNothing | ADDS/ParseDB.go:57-94 | with that reader and a header holding the labels, the import succeeds exactly when every data record has the header's field count, and then row j - 1 is data record j projected: no record is skipped |
| AirportDB.LenientReader | ADDS/ParseDB.go:57-59 | a reader that accepts any field count gives every record as read |
| AirportDB.LenientReaderSkipsShortRecords | ADDS/ParseDB.go:87-94 | with such a reader the import never fails after a header with the labels, and its rows are the records that reach the required length, projected in order |
| AirportDB.ShortRecordAbortsImport | ADDS/ParseDB.go:57-89 | a one-field record after the header fails the import with the default reader, and is skipped with the lenient one |
| AirportDB.ImportRowsKeepsLongRecords | ADDS/ParseDB.go:58-101 | the body imports without error exactly when no read fails, and the rows are then the projections of the records that are long enough, in order |
| AirportDB.LabelColumns | ADDS/ParseDB.go:69-71 | the loop over the header builds the label map HeaderMap describes |
| AirportDB.ReadHeader | ADDS/ParseDB.go:67-84 | builds the label map, reports whether all required labels are present and, when they are, returns the required length |
| AirportDB.ProjectRecord | ADDS/ParseDB.go:91-94 | the loop over the required fields builds the projected row |
| AirportDB.ImportCSV | ADDS/ParseDB.go:53-105 | the read loop returns exactly the result AirportDB.Import defines |
| Broadcaster.Upsert | broadcaster.go:38-40 | merging never removes a station, and every station of the batch has an entry afterwards |
| Broadcaster.UpsertSpec | broadcaster.go:38-40 | after the merge a station has an entry exactly when it had one or appears in the batch; a station of the batch maps to its last report there, and every other station keeps its old entry |
| Broadcaster.WeatherTables.constructor | broadcaster.go:58-59 | both tables start empty |
| Broadcaster.WeatherTables.UpdateMetars | broadcaster.go:34-41 | a failed fetch leaves the METAR table alone; a batch is merged into it; the TAF table is unchanged |
| Broadcaster.WeatherTables.UpdateTafs | broadcaster.go:43-50 | a failed fetch leaves the TAF table alone; a batch is merged into it; the METAR table is unchanged |
| Broadcaster.WeatherTables.UpdateCycle | broadcaster.go:31-51 | one update cycle merges each successful fetch into its table and leaves a table alone when its fetch fails |
| Broadcaster.MetarLabel | broadcaster.go:87-90 | every METAR line starts with `METAR `, and the prefix is added only when it is missing |
| Broadcaster.MetarLabelIdempotent | broadcaster.go:87-90 | labelling a labelled METAR changes nothing |
| Broadcaster.TafLabelAsWritten | broadcaster.go:94-97 | the TAF line is left alone only when it already starts with `METAR `; otherwise `TAF ` is put in front |
| Broadcaster.TafLabelAsWrittenDoublesPrefix | broadcaster.go:94-97 | a forecast text that already starts with `TAF ` gets a second `TAF `, so labelling is not idempotent |
| Broadcaster.TafLabel | broadcaster.go:94-97 | corrected: every TAF line starts with `TAF `, and the prefix is added only when it is missing |
| Broadcaster.TafLabelIdempotent | broadcaster.go:94-97 | labelling a labelled forecast changes nothing |
| Broadcaster.MetarLines | broadcaster.go:86-92 | one line per stored station, each starting with `METAR `: the report text when it already starts so, and otherwise `METAR ` followed by the text |
| Broadcaster.TafLines | broadcaster.go:93-99 | as written: one line per stored station; a text that starts with `METAR ` is shown unchanged, and any other text gets `TAF ` in front, so every line starts with `TAF ` or `METAR ` |
| Broadcaster.CorrectedTafLines | broadcaster.go:93-99 | corrected: one line per stored station, each starting with `TAF `: the text when it already starts so, and otherwise `TAF ` followed by the text |
| Broadcaster.TafLinesKeepMetarLabel | broadcaster.go:93-99 | a forecast whose text is `METAR X` is shown as `METAR X` by the loop as written, and as `TAF METAR X` by the corrected one |
| Broadcaster.LinesAfterMerge | broadcaster.go:86-92 | after a merge, a station of the batch shows its last report there labelled, and any other stored station shows the line it showed before |

## Left out

- The serial port, its goroutines and channels: the modem's output is a sequence of scanner tokens, and the writer is an append-only log. The five-minute serial timeout is modelled as running out of tokens.
- The reader goroutine's timing. It parses a line before it blocks on the unbuffered channel to hand it over, so it can run one line ahead of the waiter, and the parsed fields are shared with the waiter without a lock (a data race). The model fixes one interleaving: the reader's step for a token runs when the waiter takes that token. Other interleavings are not modelled. For example, with the replies READY, `0`, `+SBDI: 1, …` and `+SBDI: 2, …`, the program can parse the second report before SendBinary reads the MO status and fail with status 2, while the model succeeds with status 1.
- Aliasing of `scanner.Bytes()`: the slice handed to the waiter and kept in processedBuffer shares the scanner's buffer, which later scans overwrite. The model keeps each line as its own value.
- RockBLOCKSerial.Connection.Receive, RockBLOCKSerial.Connection.ParseSBDI and RockBLOCKFrames.Deliver: they use the corrected RockBLOCKFrames.SBDIFrame, so on the lines `+SBDI:` and `+SBDIX` (six characters) the model rejects the report and carries on where the program panics (see Findings and RockBLOCKFrames.SBDIShortFramePanics).
- NewRockBLOCKSerial: it opens the serial device and starts the goroutines, which is all I/O.
- WaitForNetwork: it repeats GetSignalQuality against a wall clock and sleeps, and clocks are not modelled.
- RockBLOCKSerial.Connection.GetTime: `time.Now()` becomes the parameter `now`.
- The text of error messages, and all printing.
- Aliasing of the package-level command slices by `append`: every command is a fresh value.
- RockBLOCKFrames.MSSTMFrame: does not model overflow of `time.Duration` in the tick product, because a 32-bit tick count times 90 ms fits in 64 bits; the 32-bit tick counter's rollover is not reflected either.
- RockBLOCKSerial.Connection.DownloadMessage: the `append` whose result is thrown away has no effect, and the download itself is not implemented in the code.
- ADDS.METAR: holds the text, station, observation time and flight category. The floating-point readings are left out.
- getADDSMETAR's HTTP request and XML decoding, and ADDSTime's XML unmarshalling: the fetch is given to GetLatestMETAR as its outcome.
- GetLatestADDSMETARsInRadiusOf, GetLatestADDSTAFsInRadiusOf and ADDSTAF are not part of this model. Broadcaster.TAF holds the two fields the broadcaster reads.
- ImportCSVToNewSQLite's database work: opening the database, creating the table, preparing the statement and committing. The projected rows are the result instead. Errors from `stmt.Exec` are not modelled.
- The CSV reader: records, read errors and EOF are the input sequence. Its field-count check (the reader csv.NewReader returns makes the first record fix the field count) is modelled by AirportDB.DefaultReader on parsed records. Its quoting rules and the text of its errors are not modelled.
- The broadcaster's mutex, its tickers, config loading and the geographic radius.
- Broadcaster.MetarLines and Broadcaster.TafLines: a map from station to line, because Go's map iteration order is unspecified.
- WeatherPack.Unpack: does not model `time.Date`'s normalisation of hours or minutes beyond what an int64 nanosecond count can hold, because the or-ed values are taken as exact integers.
- WeatherPack's IntDecode and StringDecode tables and the other report fields' Pack/Unpack stubs: they are not part of the core.
- RockBLOCKCORE.go, radar.go and weatherserver.go are not part of this model.

## Findings

| source | as written | input that shows it | evidently intended | confidence | as-written member | corrected member |
|---|---|---|---|---|---|---|
| RockBLOCK/RockBLOCKSerial.go:88-91 | parseSBDI tests the five-character prefix `+SBDI` and then slices `s[7:]` | the line `+SBDI:` (six characters) slices past the end, so the reader goroutine panics | reject a report shorter than seven characters | not executed | RockBLOCKFrames.SBDIFrameAsWritten | RockBLOCKFrames.SBDIFrame |
| ADDS/ParseDB.go:57-88 | the reader from csv.NewReader fails on any record whose field count differs from the header's, and the import returns that error; the skip of records shorter than the required length comes after it | a header with the seven labels followed by the one-field record `KSFO` fails the whole import instead of skipping the record | skip short records, e.g. with the reader's FieldsPerRecord set to -1 | not executed | AirportDB.ShortRecordAbortsImport | AirportDB.LenientReaderSkipsShortRecords |
| broadcaster.go:94-97 | the TAF label loop tests for the prefix `METAR ` before putting `TAF ` in front | a forecast text `TAF KSFO ...` is shown as `TAF TAF KSFO ...` | test for `TAF `, as the METAR loop tests for `METAR ` | not executed | Broadcaster.TafLabelAsWritten | Broadcaster.TafLabel |
| broadcaster.go:93-99 | the broadcast of forecasts uses that label | a forecast stored with the text `METAR X` is shown as `METAR X`, as if it were an observation | every forecast line starts with `TAF ` | not executed | Broadcaster.TafLinesKeepMetarLabel | Broadcaster.CorrectedTafLines |
