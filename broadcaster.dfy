/**
 * The broadcaster's report tables: every update cycle merges the freshly
 * fetched METARs and TAFs into station-keyed maps, and the broadcast loop
 * shows each stored report with a label in front of its text.
 */
module Broadcaster {
  import opened Results
  import opened GoStrings
  import opened ADDS

  /** A terminal aerodrome forecast, with the two fields the broadcaster reads.
      ADDS.ADDSTAF itself is not part of this model. */
  datatype TAF = TAF(stationID: string, text: string)

  function MetarStation(m: METAR): string {
    m.stationID
  }

  function TafStation(t: TAF): string {
    t.stationID
  }

  /** `for _, r := range batch { table[station(r)] = r }`. */
  function Upsert<R>(table: map<string, R>, batch: seq<R>, station: R -> string): (r: map<string, R>)
    ensures table.Keys <= r.Keys
    ensures forall i :: 0 <= i < |batch| ==> station(batch[i]) in r
  {
    if batch == [] then table
    else
      var last := batch[|batch| - 1];
      Upsert(table, batch[..|batch| - 1], station)[station(last) := last]
  }

  /** After the merge a station has an entry exactly when it had one before
      or appears in the batch; a station of the batch maps to its last report
      there, and any other station keeps its old entry. */
  lemma {:induction false} UpsertSpec<R>(table: map<string, R>, batch: seq<R>, station: R -> string)
    ensures forall k :: k in Upsert(table, batch, station) <==>
      k in table || exists i :: 0 <= i < |batch| && station(batch[i]) == k
    ensures forall i :: 0 <= i < |batch| ==>
      (forall j :: i < j < |batch| ==> station(batch[j]) != station(batch[i])) ==>
        Upsert(table, batch, station)[station(batch[i])] == batch[i]
    ensures forall k :: k in table && (forall i :: 0 <= i < |batch| ==> station(batch[i]) != k) ==>
      Upsert(table, batch, station)[k] == table[k]
  {
    if batch != [] {
      var init := batch[..|batch| - 1];
      UpsertSpec(table, init, station);
      assert forall i :: 0 <= i < |init| ==> batch[i] == init[i];
    }
  }

  /** The maps `metars` and `tafs` that weatherUpdater maintains. */
  class WeatherTables {
    var metars: map<string, METAR>
    var tafs: map<string, TAF>

    constructor()
      ensures metars == map[] && tafs == map[]
    {
      metars := map[];
      tafs := map[];
    }

    /** The METAR half of an update cycle: a failed fetch leaves the map
        alone, and a batch is merged report by report. */
    method UpdateMetars(fetched: Result<seq<METAR>, FetchError>)
      modifies this
      ensures fetched.Err? ==> metars == old(metars)
      ensures fetched.Ok? ==> metars == Upsert(old(metars), fetched.value, MetarStation)
      ensures tafs == old(tafs)
    {
      if fetched.Err? {
        return;
      }
      var batch := fetched.value;
      var i := 0;
      while i < |batch|
        invariant 0 <= i <= |batch|
        invariant metars == Upsert(old(metars), batch[..i], MetarStation)
        invariant tafs == old(tafs)
      {
        var metar := batch[i];
        assert batch[..i + 1][..i] == batch[..i];
        metars := metars[metar.stationID := metar];
        i := i + 1;
      }
      assert batch[..i] == batch;
    }

    /** The TAF half of an update cycle. */
    method UpdateTafs(fetched: Result<seq<TAF>, FetchError>)
      modifies this
      ensures fetched.Err? ==> tafs == old(tafs)
      ensures fetched.Ok? ==> tafs == Upsert(old(tafs), fetched.value, TafStation)
      ensures metars == old(metars)
    {
      if fetched.Err? {
        return;
      }
      var batch := fetched.value;
      var i := 0;
      while i < |batch|
        invariant 0 <= i <= |batch|
        invariant tafs == Upsert(old(tafs), batch[..i], TafStation)
        invariant metars == old(metars)
      {
        var taf := batch[i];
        assert batch[..i + 1][..i] == batch[..i];
        tafs := tafs[taf.stationID := taf];
        i := i + 1;
      }
      assert batch[..i] == batch;
    }

    /** One pass of weatherUpdater's loop, with both fetches given. */
    method UpdateCycle(metarFetch: Result<seq<METAR>, FetchError>, tafFetch: Result<seq<TAF>, FetchError>)
      modifies this
      ensures metarFetch.Err? ==> metars == old(metars)
      ensures metarFetch.Ok? ==> metars == Upsert(old(metars), metarFetch.value, MetarStation)
      ensures tafFetch.Err? ==> tafs == old(tafs)
      ensures tafFetch.Ok? ==> tafs == Upsert(old(tafs), tafFetch.value, TafStation)
    {
      UpdateMetars(metarFetch);
      UpdateTafs(tafFetch);
    }
  }

  // ---------------------------------------------------------------------------
  // Labels shown in front of report texts.

  const MetarPrefix: string := "METAR "
  const TafPrefix: string := "TAF "

  /** A METAR's text with "METAR " in front, unless it already starts so. */
  function MetarLabel(t: string): (s: string)
    ensures HasPrefix(s, MetarPrefix)
    ensures HasPrefix(t, MetarPrefix) ==> s == t
    ensures !HasPrefix(t, MetarPrefix) ==> s == MetarPrefix + t
  {
    if !HasPrefix(t, MetarPrefix) then MetarPrefix + t else t
  }

  /** Labelling a labelled METAR changes nothing. */
  lemma MetarLabelIdempotent(t: string)
    ensures MetarLabel(MetarLabel(t)) == MetarLabel(t)
  {
  }

  /** The TAF label as the broadcast loop writes it: it tests for the METAR
      prefix and then prepends the TAF one. */
  function TafLabelAsWritten(t: string): (s: string)
    ensures HasPrefix(t, MetarPrefix) ==> s == t
    ensures !HasPrefix(t, MetarPrefix) ==> s == TafPrefix + t
  {
    if !HasPrefix(t, MetarPrefix) then TafPrefix + t else t
  }

  /** A forecast text that already carries "TAF " gets a second one. */
  lemma TafLabelAsWrittenDoublesPrefix(t: string)
    requires HasPrefix(t, TafPrefix)
    ensures TafLabelAsWritten(t) == TafPrefix + t
    ensures TafLabelAsWritten(TafLabelAsWritten(t)) != TafLabelAsWritten(t)
  {
    assert t[0] == TafPrefix[0] != MetarPrefix[0];
  }

  /** The TAF label as evidently intended: "TAF " in front unless the text
      already starts with it. */
  function TafLabel(t: string): (s: string)
    ensures HasPrefix(s, TafPrefix)
    ensures HasPrefix(t, TafPrefix) ==> s == t
    ensures !HasPrefix(t, TafPrefix) ==> s == TafPrefix + t
  {
    if !HasPrefix(t, TafPrefix) then TafPrefix + t else t
  }

  lemma TafLabelIdempotent(t: string)
    ensures TafLabel(TafLabel(t)) == TafLabel(t)
  {
  }

  /** The METAR lines the broadcast loop shows, by station (the loop visits
      them in Go's map iteration order, which is unspecified): every line
      carries the METAR label, and it is the station's text itself when that
      already starts with it. */
  function MetarLines(metars: map<string, METAR>): (lines: map<string, string>)
    ensures lines.Keys == metars.Keys
    ensures forall k :: k in lines ==> HasPrefix(lines[k], MetarPrefix)
    ensures forall k :: k in lines && HasPrefix(metars[k].text, MetarPrefix) ==> lines[k] == metars[k].text
    ensures forall k :: k in lines && !HasPrefix(metars[k].text, MetarPrefix) ==>
      lines[k] == MetarPrefix + metars[k].text
  {
    map k | k in metars :: MetarLabel(metars[k].text)
  }

  /** The TAF lines as the loop writes them: a text that starts with the
      METAR label is shown as it is, and any other gets "TAF " in front. */
  function TafLines(tafs: map<string, TAF>): (lines: map<string, string>)
    ensures lines.Keys == tafs.Keys
    ensures forall k :: k in lines ==> HasPrefix(lines[k], TafPrefix) || HasPrefix(lines[k], MetarPrefix)
    ensures forall k :: k in lines && HasPrefix(tafs[k].text, MetarPrefix) ==> lines[k] == tafs[k].text
    ensures forall k :: k in lines && !HasPrefix(tafs[k].text, MetarPrefix) ==>
      lines[k] == TafPrefix + tafs[k].text
  {
    map k | k in tafs :: TafLabelAsWritten(tafs[k].text)
  }

  /** The TAF lines with the corrected label: every line carries the TAF
      label, and it is the station's text itself when that already starts
      with it. */
  function CorrectedTafLines(tafs: map<string, TAF>): (lines: map<string, string>)
    ensures lines.Keys == tafs.Keys
    ensures forall k :: k in lines ==> HasPrefix(lines[k], TafPrefix)
    ensures forall k :: k in lines && HasPrefix(tafs[k].text, TafPrefix) ==> lines[k] == tafs[k].text
    ensures forall k :: k in lines && !HasPrefix(tafs[k].text, TafPrefix) ==>
      lines[k] == TafPrefix + tafs[k].text
  {
    map k | k in tafs :: TafLabel(tafs[k].text)
  }

  /** After an update cycle the broadcast shows, for a station of the batch,
      the labelled text of its last report there, and for any other stored
      station the line it showed before. */
  lemma {:induction false} LinesAfterMerge(metars: map<string, METAR>, batch: seq<METAR>)
    ensures forall i :: 0 <= i < |batch| ==>
      (forall j :: i < j < |batch| ==> batch[j].stationID != batch[i].stationID) ==>
        MetarLines(Upsert(metars, batch, MetarStation))[batch[i].stationID] == MetarLabel(batch[i].text)
    ensures forall k :: k in metars && (forall i :: 0 <= i < |batch| ==> batch[i].stationID != k) ==>
      MetarLines(Upsert(metars, batch, MetarStation))[k] == MetarLines(metars)[k]
  {
    UpsertSpec(metars, batch, MetarStation);
  }

  /** A forecast whose text starts with the METAR label: the loop as written
      shows it unlabelled. */
  lemma TafLinesKeepMetarLabel()
    ensures TafLines(map["KSFO" := TAF("KSFO", "METAR X")])["KSFO"] == "METAR X"
    ensures CorrectedTafLines(map["KSFO" := TAF("KSFO", "METAR X")])["KSFO"] == "TAF METAR X"
  {
    assert HasPrefix("METAR X", MetarPrefix);
    assert "METAR X"[0] != TafPrefix[0];
  }
}
