/**
 * The record handling of the airport database import: the first CSV record
 * is a header naming the columns, seven labels must be among them, and every
 * later record long enough to hold those seven columns becomes one row of
 * seven values. The CSV reader is given as the sequence of its results, and
 * the rows are returned instead of being inserted into the database.
 */
module AirportDB {
  import opened Results

  /** CSVRequiredFields, in the order a row's values are projected. */
  const RequiredFields: seq<string> :=
    ["ident", "type", "name", "latitude_deg", "longitude_deg", "continent", "iso_country"]

  /** One call of the CSV reader before end of file: a record, or an error. */
  datatype ReadResult = Record(fields: seq<string>) | ReadFailure(message: string)

  datatype ImportError = ReadFailed(message: string) | MissingRequiredFields

  type Columns = map<string, nat>

  /** The label-to-column map of a header; a later duplicate label overwrites
      an earlier one. */
  function HeaderMap(header: seq<string>): (cols: Columns)
    ensures forall l :: l in cols ==> cols[l] < |header|
  {
    if header == [] then map[]
    else HeaderMap(header[..|header| - 1])[header[|header| - 1] := |header| - 1]
  }

  /** The map holds exactly the header's labels, each at its last column. */
  lemma {:induction false} HeaderMapIsLastOccurrence(header: seq<string>)
    ensures forall l :: l in HeaderMap(header) <==> l in header
    ensures forall l :: l in HeaderMap(header) ==>
      HeaderMap(header)[l] < |header| && header[HeaderMap(header)[l]] == l
      && forall j :: HeaderMap(header)[l] < j < |header| ==> header[j] != l
  {
    if header != [] {
      var init := header[..|header| - 1];
      HeaderMapIsLastOccurrence(init);
      assert header == init + [header[|header| - 1]];
    }
  }

  predicate HasLabels(cols: Columns, labels: seq<string>) {
    forall k :: 0 <= k < |labels| ==> labels[k] in cols
  }

  /** The largest column of the labels, or 0 when there are none. */
  function MaxColumn(labels: seq<string>, cols: Columns): nat
    requires HasLabels(cols, labels)
  {
    if labels == [] then 0
    else
      var m, c := MaxColumn(labels[..|labels| - 1], cols), cols[labels[|labels| - 1]];
      if c > m then c else m
  }

  lemma {:induction false} MaxColumnBounds(labels: seq<string>, cols: Columns)
    requires HasLabels(cols, labels)
    ensures forall k :: 0 <= k < |labels| ==> cols[labels[k]] <= MaxColumn(labels, cols)
    ensures labels != [] ==> exists k :: 0 <= k < |labels| && cols[labels[k]] == MaxColumn(labels, cols)
  {
    if labels != [] {
      var init := labels[..|labels| - 1];
      assert HasLabels(cols, init);
      MaxColumnBounds(init, cols);
      assert forall k :: 0 <= k < |init| ==> labels[k] == init[k];
      var last := |labels| - 1;
      var m, c := MaxColumn(init, cols), cols[labels[last]];
      assert MaxColumn(labels, cols) == if c > m then c else m;
      if c < MaxColumn(labels, cols) {
        assert init != [];
        var k :| 0 <= k < |init| && cols[init[k]] == MaxColumn(init, cols);
        assert cols[labels[k]] == MaxColumn(labels, cols);
      } else {
        assert cols[labels[last]] == MaxColumn(labels, cols);
      }
    }
  }

  /** reqLen: one more than the largest column of a required label. */
  function RequiredLength(cols: Columns): (n: nat)
    requires HasLabels(cols, RequiredFields)
    ensures forall k :: 0 <= k < |RequiredFields| ==> cols[RequiredFields[k]] < n
  {
    MaxColumnBounds(RequiredFields, cols);
    MaxColumn(RequiredFields, cols) + 1
  }

  /** Every required column lies below reqLen, and the last one just below. */
  lemma RequiredLengthIsOnePastLastColumn(cols: Columns)
    requires HasLabels(cols, RequiredFields)
    ensures exists k :: 0 <= k < |RequiredFields| && cols[RequiredFields[k]] == RequiredLength(cols) - 1
  {
    MaxColumnBounds(RequiredFields, cols);
  }

  /** The values of a record in the columns of the given labels. */
  function Project(record: seq<string>, cols: Columns, labels: seq<string>): (row: seq<string>)
    requires HasLabels(cols, labels)
    requires forall k :: 0 <= k < |labels| ==> cols[labels[k]] < |record|
    ensures |row| == |labels|
    ensures forall k :: 0 <= k < |labels| ==> row[k] == record[cols[labels[k]]]
  {
    if labels == [] then []
    else
      var init := labels[..|labels| - 1];
      assert forall k :: 0 <= k < |init| ==> init[k] == labels[k];
      Project(record, cols, init) + [record[cols[labels[|labels| - 1]]]]
  }

  /** The rows the data records after the header give, or the first read
      error among them. */
  function ImportRows(rest: seq<ReadResult>, cols: Columns): (r: Result<seq<seq<string>>, ImportError>)
    requires HasLabels(cols, RequiredFields)
    ensures r.Ok? ==> |r.value| <= |rest|
  {
    if rest == [] then Ok([])
    else
      match rest[0]
      case ReadFailure(e) => Err(ReadFailed(e))
      case Record(record) =>
        var tail := ImportRows(rest[1..], cols);
        if |record| < RequiredLength(cols) then tail
        else
          match tail
          case Err(e) => Err(e)
          case Ok(rows) => Ok([Project(record, cols, RequiredFields)] + rows)
  }

  /** The whole import: the header, then the data records. */
  function Import(input: seq<ReadResult>): (r: Result<seq<seq<string>>, ImportError>)
    ensures input == [] ==> r == Ok([])
  {
    if input == [] then Ok([])
    else
      match input[0]
      case ReadFailure(e) => Err(ReadFailed(e))
      case Record(header) =>
        var cols := HeaderMap(header);
        if !HasLabels(cols, RequiredFields) then Err(MissingRequiredFields)
        else ImportRows(input[1..], cols)
  }

  /** A header without one of the required labels fails the import. */
  lemma MissingLabelRejected(input: seq<ReadResult>, k: nat)
    requires input != [] && input[0].Record?
    requires k < |RequiredFields| && RequiredFields[k] !in input[0].fields
    ensures Import(input) == Err(MissingRequiredFields)
  {
    HeaderMapIsLastOccurrence(input[0].fields);
  }

  /** A header with all of them moves on to the data records. */
  lemma HeaderWithLabelsAccepted(input: seq<ReadResult>)
    requires input != [] && input[0].Record?
    requires forall k :: 0 <= k < |RequiredFields| ==> RequiredFields[k] in input[0].fields
    ensures HasLabels(HeaderMap(input[0].fields), RequiredFields)
    ensures Import(input) == ImportRows(input[1..], HeaderMap(input[0].fields))
  {
    HeaderMapIsLastOccurrence(input[0].fields);
  }

  // A reference reading of the data records: keep the long ones, then project.

  function LongRecords(rest: seq<ReadResult>, n: nat): (records: seq<seq<string>>)
    ensures forall j :: 0 <= j < |records| ==> n <= |records[j]|
  {
    if rest == [] then []
    else
      var tail := LongRecords(rest[1..], n);
      match rest[0]
      case ReadFailure(_) => tail
      case Record(record) => if |record| < n then tail else [record] + tail
  }

  function ProjectAll(records: seq<seq<string>>, cols: Columns): seq<seq<string>>
    requires HasLabels(cols, RequiredFields)
    requires forall j :: 0 <= j < |records| ==> RequiredLength(cols) <= |records[j]|
  {
    if records == [] then []
    else
      assert RequiredLength(cols) <= |records[0]|;
      assert forall k :: 0 <= k < |RequiredFields| ==> cols[RequiredFields[k]] < |records[0]|;
      [Project(records[0], cols, RequiredFields)] + ProjectAll(records[1..], cols)
  }

  /** The data records import without error exactly when none of them is a
      read error, and the rows are then the projections of the records that
      reach reqLen, in order: shorter records are skipped. */
  lemma {:induction false} ImportRowsKeepsLongRecords(rest: seq<ReadResult>, cols: Columns)
    requires HasLabels(cols, RequiredFields)
    ensures ImportRows(rest, cols).Ok? <==> forall j :: 0 <= j < |rest| ==> rest[j].Record?
    ensures ImportRows(rest, cols).Ok? ==>
        ImportRows(rest, cols).value == ProjectAll(LongRecords(rest, RequiredLength(cols)), cols)
  {
    if rest != [] {
      ImportRowsKeepsLongRecords(rest[1..], cols);
      assert forall j :: 1 <= j < |rest| ==> rest[j] == rest[1..][j - 1];
    }
  }

  /** ProjectAll projects every record, in order. */
  lemma {:induction false} ProjectAllSpec(records: seq<seq<string>>, cols: Columns)
    requires HasLabels(cols, RequiredFields)
    requires forall j :: 0 <= j < |records| ==> RequiredLength(cols) <= |records[j]|
    ensures |ProjectAll(records, cols)| == |records|
    ensures forall j :: 0 <= j < |records| ==> ProjectAll(records, cols)[j] == Project(records[j], cols, RequiredFields)
  {
    if records != [] {
      ProjectAllSpec(records[1..], cols);
    }
  }

  // encoding/csv's Reader as csv.NewReader leaves it (FieldsPerRecord 0): the
  // first record fixes the number of fields, and a later record with another
  // number of fields comes back with ErrFieldCount.

  const ErrFieldCount: string := "wrong number of fields"

  /** The reader's results for the records of a file. */
  function DefaultReader(records: seq<seq<string>>): (rs: seq<ReadResult>)
    ensures |rs| == |records|
  {
    seq(|records|, j requires 0 <= j < |records| =>
      if j == 0 || |records[j]| == |records[0]| then Record(records[j]) else ReadFailure(ErrFieldCount))
  }

  /** Data records that are all Records at least n long are all kept. */
  lemma {:induction false} LongRecordsKeepsAll(rest: seq<ReadResult>, n: nat)
    requires forall j :: 0 <= j < |rest| ==> rest[j].Record? && n <= |rest[j].fields|
    ensures |LongRecords(rest, n)| == |rest|
    ensures forall j :: 0 <= j < |rest| ==> LongRecords(rest, n)[j] == rest[j].fields
  {
    if rest != [] {
      assert forall j :: 1 <= j < |rest| ==> rest[1..][j - 1] == rest[j];
      LongRecordsKeepsAll(rest[1..], n);
    }
  }

  /** With the reader the import creates, the short-record skip never
      applies: a data record whose length differs from the header's fails
      the import with ErrFieldCount, and a record as long as the header holds
      every required column. So the import succeeds exactly when every data
      record is as long as the header, and then row j - 1 is data record j
      projected, none skipped. */
  lemma DefaultReaderSkipsNothing(records: seq<seq<string>>)
    requires records != [] && HasLabels(HeaderMap(records[0]), RequiredFields)
    ensures Import(DefaultReader(records)).Ok? <==> forall j :: 1 <= j < |records| ==> |records[j]| == |records[0]|
    ensures Import(DefaultReader(records)).Ok? ==>
      && |Import(DefaultReader(records)).value| == |records| - 1
      && forall j :: 1 <= j < |records| ==>
           Import(DefaultReader(records)).value[j - 1] == Project(records[j], HeaderMap(records[0]), RequiredFields)
  {
    var input := DefaultReader(records);
    var cols := HeaderMap(records[0]);
    var rest := input[1..];
    assert input[0] == Record(records[0]);
    assert Import(input) == ImportRows(rest, cols);
    ImportRowsKeepsLongRecords(rest, cols);
    assert forall j :: 1 <= j < |records| ==> rest[j - 1] == input[j];
    if forall j :: 1 <= j < |records| ==> |records[j]| == |records[0]| {
      var n := RequiredLength(cols);
      RequiredLengthIsOnePastLastColumn(cols);
      assert n <= |records[0]|;
      LongRecordsKeepsAll(rest, n);
      var kept := LongRecords(rest, n);
      ProjectAllSpec(kept, cols);
      forall j | 1 <= j < |records|
        ensures Import(input).value[j - 1] == Project(records[j], cols, RequiredFields)
      {
        assert kept[j - 1] == records[j];
      }
    } else {
      var j :| 1 <= j < |records| && |records[j]| != |records[0]|;
      assert !rest[j - 1].Record?;
    }
  }

  /** A reader that accepts records of any length (FieldsPerRecord -1), the
      one under which the short-record skip does what it says. */
  function LenientReader(records: seq<seq<string>>): (rs: seq<ReadResult>)
    ensures |rs| == |records| && forall j :: 0 <= j < |records| ==> rs[j] == Record(records[j])
  {
    seq(|records|, j requires 0 <= j < |records| => Record(records[j]))
  }

  /** Under the lenient reader the import never fails once the header holds
      the labels, and its rows are the records that reach reqLen, projected
      in order. */
  lemma LenientReaderSkipsShortRecords(records: seq<seq<string>>)
    requires records != [] && HasLabels(HeaderMap(records[0]), RequiredFields)
    ensures var cols := HeaderMap(records[0]);
      var rest := LenientReader(records)[1..];
      Import(LenientReader(records)) == Ok(ProjectAll(LongRecords(rest, RequiredLength(cols)), cols))
  {
    var input := LenientReader(records);
    assert Import(input) == ImportRows(input[1..], HeaderMap(records[0]));
    ImportRowsKeepsLongRecords(input[1..], HeaderMap(records[0]));
  }

  /** A header with the seven labels followed by a one-field record: the
      default reader fails the whole import, the lenient one skips the
      record. */
  lemma ShortRecordAbortsImport()
    ensures Import(DefaultReader([RequiredFields, ["KSFO"]])) == Err(ReadFailed(ErrFieldCount))
    ensures Import(LenientReader([RequiredFields, ["KSFO"]])) == Ok([])
  {
    var records := [RequiredFields, ["KSFO"]];
    HeaderMapIsLastOccurrence(RequiredFields);
    var cols := HeaderMap(RequiredFields);
    assert HasLabels(cols, RequiredFields);
    var rest := DefaultReader(records)[1..];
    assert rest == [ReadFailure(ErrFieldCount)];
    assert Import(DefaultReader(records)) == ImportRows(rest, cols);
    var lenient := LenientReader(records)[1..];
    assert lenient == [Record(["KSFO"])];
    RequiredLengthIsOnePastLastColumn(cols);
    assert cols[RequiredFields[6]] == 6;
    assert 1 < RequiredLength(cols);
    assert Import(LenientReader(records)) == ImportRows(lenient, cols);
    assert ImportRows(lenient, cols) == ImportRows(lenient[1..], cols);
  }

  /** Prepending the rows already emitted to the outcome of the rest. */
  function After(rows: seq<seq<string>>, r: Result<seq<seq<string>>, ImportError>): Result<seq<seq<string>>, ImportError> {
    match r
    case Err(e) => Err(e)
    case Ok(more) => Ok(rows + more)
  }

  /** The header branch of the loop: the label map, whether every required
      label is present, and then reqLen. */
  method ReadHeader(record: seq<string>) returns (colLabels: Columns, ok: bool, reqLen: nat)
    ensures colLabels == HeaderMap(record)
    ensures ok <==> HasLabels(colLabels, RequiredFields)
    ensures ok ==> reqLen == RequiredLength(colLabels)
  {
    colLabels := LabelColumns(record);
    reqLen := 0;
    var k := 0;
    while k < |RequiredFields|
      invariant 0 <= k <= |RequiredFields|
      invariant HasLabels(colLabels, RequiredFields[..k])
      invariant reqLen == MaxColumn(RequiredFields[..k], colLabels)
    {
      var v := RequiredFields[k];
      if v !in colLabels {
        return colLabels, false, reqLen;
      }
      var fieldPos := colLabels[v];
      assert RequiredFields[..k + 1] == RequiredFields[..k] + [v];
      assert RequiredFields[..k + 1][..k] == RequiredFields[..k];
      if fieldPos > reqLen {
        reqLen := fieldPos;
      }
      k := k + 1;
    }
    assert RequiredFields[..k] == RequiredFields;
    reqLen := reqLen + 1;
    ok := true;
  }

  /** The first loop of the header branch: each label to its column. */
  method LabelColumns(record: seq<string>) returns (colLabels: Columns)
    ensures colLabels == HeaderMap(record)
  {
    colLabels := map[];
    var j := 0;
    while j < |record|
      invariant 0 <= j <= |record|
      invariant colLabels == HeaderMap(record[..j])
    {
      assert record[..j + 1][..j] == record[..j];
      colLabels := colLabels[record[j] := j];
      j := j + 1;
    }
    assert record[..j] == record;
  }

  /** The values a kept record contributes, in the order of the labels. */
  method ProjectRecord(record: seq<string>, colLabels: Columns) returns (vals: seq<string>)
    requires HasLabels(colLabels, RequiredFields) && RequiredLength(colLabels) <= |record|
    ensures vals == Project(record, colLabels, RequiredFields)
  {
    vals := [];
    var k := 0;
    while k < |RequiredFields|
      invariant 0 <= k <= |RequiredFields|
      invariant vals == Project(record, colLabels, RequiredFields[..k])
    {
      assert RequiredFields[..k + 1][..k] == RequiredFields[..k];
      vals := vals + [record[colLabels[RequiredFields[k]]]];
      k := k + 1;
    }
    assert RequiredFields[..k] == RequiredFields;
  }

  /** The loop of ImportCSVToNewSQLite between opening the CSV file and
      committing: the rows it would insert, or the error it returns. */
  method ImportCSV(input: seq<ReadResult>) returns (r: Result<seq<seq<string>>, ImportError>)
    ensures r == Import(input)
  {
    var colLabels: Columns := map[];
    var reqLen := 0;
    var rows: seq<seq<string>> := [];
    var i := 0;
    while i < |input|
      invariant 0 <= i <= |input|
      invariant i == 0 ==> colLabels == map[] && rows == []
      invariant i > 0 ==> input[0].Record? && colLabels == HeaderMap(input[0].fields)
      invariant i > 0 ==> HasLabels(colLabels, RequiredFields) && reqLen == RequiredLength(colLabels)
      invariant i > 0 ==> Import(input) == After(rows, ImportRows(input[i..], colLabels))
    {
      if input[i].ReadFailure? {
        if i > 0 {
          assert input[i..][0] == input[i];
        }
        return Err(ReadFailed(input[i].message));
      }
      var record := input[i].fields;
      if |colLabels| == 0 {
        var ok;
        colLabels, ok, reqLen := ReadHeader(record);
        if !ok {
          return Err(MissingRequiredFields);
        }
        AfterNothing(ImportRows(input[1..], colLabels));
        i := i + 1;
        continue;
      }
      RowStep(rows, input, i, colLabels);
      if |record| >= reqLen {
        var vals := ProjectRecord(record, colLabels);
        rows := rows + [vals];
      }
      i := i + 1;
    }
    if i == 0 {
      return Ok([]);
    }
    assert input[i..] == [] && rows + [] == rows;
    return Ok(rows);
  }

  /** One data record moves the loop forward without changing its outcome. */
  lemma RowStep(rows: seq<seq<string>>, input: seq<ReadResult>, i: nat, cols: Columns)
    requires i < |input| && input[i].Record?
    requires HasLabels(cols, RequiredFields)
    ensures var record := input[i].fields;
      |record| < RequiredLength(cols) ==>
        After(rows, ImportRows(input[i..], cols)) == After(rows, ImportRows(input[i + 1..], cols))
    ensures var record := input[i].fields;
      RequiredLength(cols) <= |record| ==>
        After(rows, ImportRows(input[i..], cols))
          == After(rows + [Project(record, cols, RequiredFields)], ImportRows(input[i + 1..], cols))
  {
    assert input[i..][1..] == input[i + 1..];
    var record := input[i].fields;
    if RequiredLength(cols) <= |record| {
      var row := Project(record, cols, RequiredFields);
      match ImportRows(input[i + 1..], cols)
      case Err(_) =>
      case Ok(more) =>
        assert rows + ([row] + more) == rows + [row] + more;
    }
  }

  lemma AfterNothing(r: Result<seq<seq<string>>, ImportError>)
    ensures After([], r) == r
  {
    if r.Ok? {
      assert [] + r.value == r.value;
    }
  }
}
