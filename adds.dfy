/**
 * Reports from the Aviation Digital Data Service and the choice of the most
 * recent observation among those fetched for one station.
 */
module ADDS {
  import opened Results
  import opened GoTime

  /** An ADDSMETAR with its text fields and its observation time; the
      floating-point readings are not part of this model. */
  datatype METAR = METAR(text: string, stationID: string, observation: Instant, flightCategory: string)

  /** Go's zero ADDSMETAR: empty strings and the zero time. */
  const ZeroMETAR: METAR := METAR("", "", ZeroTime, "")

  /** Why a fetch from the data service failed. */
  datatype FetchError = FetchError(message: string)

  /** time.Time.After, strictly later. */
  predicate After(t: Instant, u: Instant) {
    t > u
  }

  /** The running best after looking at every report of ms in order: a report
      replaces the best so far only when it is strictly later. */
  function Latest(ms: seq<METAR>): (r: METAR)
    ensures r == ZeroMETAR || r in ms
  {
    if ms == [] then ZeroMETAR
    else
      var best := Latest(ms[..|ms| - 1]);
      if After(ms[|ms| - 1].observation, best.observation) then ms[|ms| - 1] else best
  }

  /** Where Latest's report sits in ms, None when it is still the zero value. */
  function LatestIndex(ms: seq<METAR>): (r: Option<nat>)
    ensures r.Some? ==> r.value < |ms| && Latest(ms) == ms[r.value]
    ensures r.None? ==> Latest(ms) == ZeroMETAR
  {
    if ms == [] then None
    else
      var best := Latest(ms[..|ms| - 1]);
      if After(ms[|ms| - 1].observation, best.observation) then Some(|ms| - 1)
      else LatestIndex(ms[..|ms| - 1])
  }

  /** What the selection promises: no report is later than the result, the
      zero value comes back exactly when no report is after the zero time,
      and otherwise the result is the first report of the latest time. */
  lemma {:induction false} LatestIsFirstMaximum(ms: seq<METAR>)
    ensures forall j :: 0 <= j < |ms| ==> ms[j].observation <= Latest(ms).observation
    ensures ZeroTime <= Latest(ms).observation
    ensures LatestIndex(ms).None? <==> forall j :: 0 <= j < |ms| ==> !After(ms[j].observation, ZeroTime)
    ensures LatestIndex(ms).Some? ==>
      forall j :: 0 <= j < LatestIndex(ms).value ==> ms[j].observation < Latest(ms).observation
  {
    if ms != [] {
      var init := ms[..|ms| - 1];
      LatestIsFirstMaximum(init);
      assert forall j :: 0 <= j < |init| ==> ms[j] == init[j];
    }
  }

  /** getLatestADDSMETAR, with the fetch given as its outcome: a fetch error
      is passed on with the zero report, and otherwise the latest report
      (by a strict After) is chosen. */
  method GetLatestMETAR(fetched: Result<seq<METAR>, FetchError>) returns (ret: METAR, err: Option<FetchError>)
    ensures fetched.Err? ==> ret == ZeroMETAR && err == Some(fetched.error)
    ensures fetched.Ok? ==> ret == Latest(fetched.value) && err == None
  {
    ret := ZeroMETAR;
    if fetched.Err? {
      return ret, Some(fetched.error);
    }
    var metars := fetched.value;
    var i := 0;
    while i < |metars|
      invariant 0 <= i <= |metars|
      invariant ret == Latest(metars[..i])
    {
      var v := metars[i];
      assert metars[..i + 1][..i] == metars[..i];
      if After(v.observation, ret.observation) {
        ret := v;
      }
      i := i + 1;
    }
    assert metars[..i] == metars;
    return ret, None;
  }
}
