/**
 * The POST handler of the latency analytics service: for each requested
 * region, in request order, one statistics entry computed from that region's
 * telemetry records; a region without records is skipped, and a matching
 * record without `latency_ms` or `uptime_pct` turns the whole answer into an
 * error object.
 */
module LatencyApi {
  import opened Wrappers
  import opened Statistics
  import opened Telemetry

  /** The threshold used when the request has no `threshold_ms`. */
  const DefaultThresholdMs: real := 180.0

  /** The request body; either key may be absent. */
  datatype Request = Request(regions: Option<seq<string>>, thresholdMs: Option<real>)

  /** One entry of the `regions` list of the answer (values before decimal rounding). */
  datatype RegionStats = RegionStats(
    region: string,
    avgLatency: real,
    p95Latency: real,
    avgUptime: real,
    breaches: nat)

  /** `{"regions": [...]}` on success, `{"error": ...}` (no `regions` key) on failure. */
  datatype Response = Regions(entries: seq<RegionStats>) | Error

  function RequestedRegions(req: Request): seq<string>
  {
    req.regions.GetOr([])
  }

  function Threshold(req: Request): real
  {
    req.thresholdMs.GetOr(DefaultThresholdMs)
  }

  // ---------------------------------------------------------------------
  // One region
  // ---------------------------------------------------------------------

  /** The dataset holds at least one record of region q (see MatchingEmptyIff). */
  predicate HasRecords(data: seq<Record>, q: string)
  {
    Matching(data, q) != []
  }

  /** Both numeric columns of region q's records can be read (see FieldsPresentIff). */
  predicate FieldsPresent(data: seq<Record>, q: string)
  {
    var m := Matching(data, q);
    Column(m, LatencyMs).Some? && Column(m, UptimePct).Some?
  }

  /** Every requested region passes FieldsPresent (see AllFieldsPresentIff). */
  predicate AllFieldsPresent(data: seq<Record>, regions: seq<string>)
  {
    regions == [] || (FieldsPresent(data, regions[0]) && AllFieldsPresent(data, regions[1..]))
  }

  /** AllFieldsPresent holds exactly when FieldsPresent holds at every position of the request. */
  lemma {:induction false} AllFieldsPresentIff(data: seq<Record>, regions: seq<string>)
    ensures AllFieldsPresent(data, regions) <==>
      forall j :: 0 <= j < |regions| ==> FieldsPresent(data, regions[j])
  {
    if regions != [] {
      AllFieldsPresentIff(data, regions[1..]);
      assert forall j :: 1 <= j < |regions| ==> regions[j] == regions[1..][j - 1];
    }
  }

  /** FieldsPresent holds exactly when no record of region q, anywhere in the dataset, lacks a field. */
  lemma FieldsPresentIff(data: seq<Record>, q: string)
    ensures FieldsPresent(data, q) <==>
      forall i :: 0 <= i < |data| && data[i].region == Some(q) ==>
        data[i].latencyMs.Some? && data[i].uptimePct.Some?
  {
    var m := Matching(data, q);
    MatchingCounts(data, q);
    forall i | 0 <= i < |data| && data[i].region == Some(q)
      ensures data[i] in m
    {
      assert multiset(data)[data[i]] > 0;
      assert multiset(m)[data[i]] > 0;
    }
  }

  /**
   * The statistics of one region from its latency and uptime columns: the
   * two means, the 95th percentile of the latencies and the number of
   * latencies strictly above the threshold. The means lie between the
   * extremes; p95 is one of the latencies with at most n - 1 - i latencies
   * above it and at most i below it (i = P95Index(n)); breaches is 0 exactly
   * when no latency exceeds the threshold.
   */
  function Summarize(region: string, latencies: seq<real>, uptimes: seq<real>, threshold: real): (e: RegionStats)
    requires latencies != [] && uptimes != []
    ensures e.region == region
    ensures e.avgLatency == Mean(latencies) && e.avgUptime == Mean(uptimes)
    ensures e.p95Latency == P95(latencies)
    ensures e.breaches == CountAbove(latencies, threshold)
    ensures Min(latencies) <= e.avgLatency <= Max(latencies)
    ensures e.p95Latency in latencies
    ensures CountAbove(latencies, e.p95Latency) <= |latencies| - 1 - P95Index(|latencies|)
    ensures CountBelow(latencies, e.p95Latency) <= P95Index(|latencies|)
    ensures Min(uptimes) <= e.avgUptime <= Max(uptimes)
    ensures e.breaches <= |latencies|
    ensures e.breaches == 0 <==> forall i :: 0 <= i < |latencies| ==> latencies[i] <= threshold
  {
    CountAboveZeroIff(latencies, threshold);
    RegionStats(
      region,
      Mean(latencies),
      P95(latencies),
      Mean(uptimes),
      CountAbove(latencies, threshold))
  }

  /**
   * The entry for region q, or None when the dataset has no record of q.
   * It exists exactly when q has records and then names q; its breaches
   * count is bounded by the number of q's records.
   */
  function Entry(data: seq<Record>, q: string, threshold: real): (e: Option<RegionStats>)
    requires FieldsPresent(data, q)
    ensures e.Some? <==> HasRecords(data, q)
    ensures e.Some? ==> e.value.region == q && e.value.breaches <= |Matching(data, q)|
  {
    var m := Matching(data, q);
    if m == [] then
      None
    else
      var latencies := Column(m, LatencyMs);
      var uptimes := Column(m, UptimePct);
      Some(Summarize(q, latencies.value, uptimes.value, threshold))
  }

  /** An entry is computed from region q's records alone. */
  lemma EntryUsesOnlyItsRegion(data: seq<Record>, q: string, threshold: real)
    requires FieldsPresent(data, q)
    ensures FieldsPresent(Matching(data, q), q)
    ensures Entry(data, q, threshold) == Entry(Matching(data, q), q, threshold)
  {
    MatchingIdempotent(data, q);
  }

  /**
   * Adding or removing a record of another region changes neither whether
   * region q's columns can be read nor region q's entry.
   */
  lemma EntryIgnoresOtherRegion(a: seq<Record>, r: Record, b: seq<Record>, q: string, threshold: real)
    requires r.region != Some(q)
    ensures FieldsPresent(a + [r] + b, q) == FieldsPresent(a + b, q)
    ensures FieldsPresent(a + b, q) ==> Entry(a + [r] + b, q, threshold) == Entry(a + b, q, threshold)
  {
    MatchingIgnoresOtherRegion(a, r, b, q);
  }

  // ---------------------------------------------------------------------
  // All requested regions
  // ---------------------------------------------------------------------

  /**
   * The `regions` list: one entry per requested region that has records, in
   * request order, repeated as often as the region is requested.
   */
  function Aggregate(data: seq<Record>, regions: seq<string>, threshold: real): (r: seq<RegionStats>)
    requires AllFieldsPresent(data, regions)
    ensures |r| <= |regions|
  {
    if regions == [] then []
    else EntryList(data, regions[0], threshold) + Aggregate(data, regions[1..], threshold)
  }

  /** Region q's contribution to the answer: its entry, or nothing. */
  function EntryList(data: seq<Record>, q: string, threshold: real): (l: seq<RegionStats>)
    requires FieldsPresent(data, q)
    ensures |l| == if HasRecords(data, q) then 1 else 0
  {
    match Entry(data, q, threshold)
    case None => []
    case Some(e) => [e]
  }

  /** Every requested region has records. */
  predicate EveryRegionHasRecords(data: seq<Record>, regions: seq<string>)
  {
    forall j :: 0 <= j < |regions| ==> HasRecords(data, regions[j])
  }

  /** No requested region has records. */
  predicate NoRegionHasRecords(data: seq<Record>, regions: seq<string>)
  {
    forall j :: 0 <= j < |regions| ==> !HasRecords(data, regions[j])
  }

  /** Both region-wise predicates split into the first region and the rest. */
  lemma RegionPredicatesCons(data: seq<Record>, regions: seq<string>)
    requires regions != []
    ensures EveryRegionHasRecords(data, regions) <==>
      HasRecords(data, regions[0]) && EveryRegionHasRecords(data, regions[1..])
    ensures NoRegionHasRecords(data, regions) <==>
      !HasRecords(data, regions[0]) && NoRegionHasRecords(data, regions[1..])
  {
    assert forall j :: 1 <= j < |regions| ==> regions[j] == regions[1..][j - 1];
  }

  /**
   * The answer has one entry per request exactly when every requested region
   * has records, and no entry exactly when none has.
   */
  lemma {:induction false} AggregateLength(data: seq<Record>, regions: seq<string>, threshold: real)
    requires AllFieldsPresent(data, regions)
    ensures |Aggregate(data, regions, threshold)| == |regions| <==> EveryRegionHasRecords(data, regions)
    ensures Aggregate(data, regions, threshold) == [] <==> NoRegionHasRecords(data, regions)
  {
    if regions != [] {
      var q, rest := regions[0], regions[1..];
      RegionPredicatesCons(data, regions);
      AggregateLength(data, rest, threshold);
      var n, n' := |Aggregate(data, regions, threshold)|, |Aggregate(data, rest, threshold)|;
      assert n == n' + (if HasRecords(data, q) then 1 else 0);
    }
  }

  /** The requested regions that have records, in request order, duplicates kept. */
  function Present(data: seq<Record>, regions: seq<string>): (p: seq<string>)
    ensures |p| <= |regions|
  {
    if regions == [] then []
    else if HasRecords(data, regions[0]) then [regions[0]] + Present(data, regions[1..])
    else Present(data, regions[1..])
  }

  /** A region is present exactly when it was requested and has records. */
  lemma {:induction false} PresentMembers(data: seq<Record>, regions: seq<string>)
    ensures forall q :: q in Present(data, regions) <==> q in regions && HasRecords(data, q)
  {
    if regions != [] {
      PresentMembers(data, regions[1..]);
      assert regions == [regions[0]] + regions[1..];
    }
  }

  /**
   * A general fact about sequences, not about the service: concatenation is
   * associative. Dafny knows it already; it is stated as a lemma so that
   * AggregateAppend can cite it for one triple of entry lists instead of
   * proving it element by element, which is slow when each element is an
   * unfolded entry.
   */
  lemma AppendAssoc<T>(a: seq<T>, b: seq<T>, c: seq<T>)
    ensures a + (b + c) == (a + b) + c
  {
  }

  /** If both lists are readable, so is their concatenation. */
  lemma {:induction false} AllFieldsPresentAppend(data: seq<Record>, rs1: seq<string>, rs2: seq<string>)
    requires AllFieldsPresent(data, rs1) && AllFieldsPresent(data, rs2)
    ensures AllFieldsPresent(data, rs1 + rs2)
  {
    if rs1 == [] {
      assert rs1 + rs2 == rs2;
    } else {
      assert (rs1 + rs2)[0] == rs1[0];
      assert (rs1 + rs2)[1..] == rs1[1..] + rs2;
      AllFieldsPresentAppend(data, rs1[1..], rs2);
    }
  }

  /** Requests for a concatenation of region lists answer with the concatenation. */
  lemma {:induction false} AggregateAppend(data: seq<Record>, rs1: seq<string>, rs2: seq<string>, threshold: real)
    requires AllFieldsPresent(data, rs1) && AllFieldsPresent(data, rs2)
    ensures AllFieldsPresent(data, rs1 + rs2)
    ensures Aggregate(data, rs1 + rs2, threshold) == Aggregate(data, rs1, threshold) + Aggregate(data, rs2, threshold)
  {
    AllFieldsPresentAppend(data, rs1, rs2);
    if rs1 == [] {
      assert rs1 + rs2 == rs2;
    } else {
      var q, tail := rs1[0], rs1[1..];
      AggregateAppend(data, tail, rs2, threshold);
      AggregateOfAppendCons(data, rs1, rs2, threshold);
      AppendAssoc(EntryList(data, q, threshold), Aggregate(data, tail, threshold), Aggregate(data, rs2, threshold));
    }
  }

  /** The answer for a concatenation whose first list is not empty starts with that list's first region. */
  lemma AggregateOfAppendCons(data: seq<Record>, rs1: seq<string>, rs2: seq<string>, threshold: real)
    requires rs1 != [] && AllFieldsPresent(data, rs1 + rs2)
    ensures FieldsPresent(data, rs1[0]) && AllFieldsPresent(data, rs1[1..] + rs2)
    ensures Aggregate(data, rs1 + rs2, threshold) ==
      EntryList(data, rs1[0], threshold) + Aggregate(data, rs1[1..] + rs2, threshold)
  {
    assert (rs1 + rs2)[0] == rs1[0];
    assert (rs1 + rs2)[1..] == rs1[1..] + rs2;
  }

  /** The answer has one entry per requested region that has records. */
  lemma {:induction false} AggregatePresentLength(data: seq<Record>, regions: seq<string>, threshold: real)
    requires AllFieldsPresent(data, regions)
    ensures |Aggregate(data, regions, threshold)| == |Present(data, regions)|
  {
    if regions != [] {
      AggregatePresentLength(data, regions[1..], threshold);
    }
  }

  /** Past a first region that has records, entry k of the answer is entry k - 1 of the rest's answer. */
  lemma SkipFirstEntry(data: seq<Record>, regions: seq<string>, threshold: real, k: nat)
    requires AllFieldsPresent(data, regions) && regions != [] && HasRecords(data, regions[0])
    requires 0 < k < |Present(data, regions)|
    ensures Present(data, regions)[k] == Present(data, regions[1..])[k - 1]
    ensures k < |Aggregate(data, regions, threshold)|
    ensures Aggregate(data, regions, threshold)[k] == Aggregate(data, regions[1..], threshold)[k - 1]
  {
    AggregatePresentLength(data, regions, threshold);
    assert |EntryList(data, regions[0], threshold)| == 1;
  }

  /** The k-th entry of the answer is the entry of the k-th requested region that has records. */
  lemma {:induction false} AggregateSelectsAt(data: seq<Record>, regions: seq<string>, threshold: real, k: nat)
    requires AllFieldsPresent(data, regions)
    requires k < |Present(data, regions)|
    ensures FieldsPresent(data, Present(data, regions)[k])
    ensures k < |Aggregate(data, regions, threshold)|
    ensures Entry(data, Present(data, regions)[k], threshold) == Some(Aggregate(data, regions, threshold)[k])
  {
    AggregatePresentLength(data, regions, threshold);
    var q, rest := regions[0], regions[1..];
    var l := EntryList(data, q, threshold);
    if HasRecords(data, q) && k == 0 {
      assert |l| == 1 && Entry(data, q, threshold) == Some(l[0]);
    } else {
      var k' := if HasRecords(data, q) then k - 1 else k;
      AggregateSelectsAt(data, rest, threshold, k');
      if HasRecords(data, q) {
        SkipFirstEntry(data, regions, threshold, k);
      }
    }
  }

  /**
   * The answer lists exactly the present regions' entries, in order: the k-th
   * entry is the entry of the k-th requested region that has records.
   */
  lemma AggregateSelects(data: seq<Record>, regions: seq<string>, threshold: real)
    requires AllFieldsPresent(data, regions)
    ensures |Aggregate(data, regions, threshold)| == |Present(data, regions)|
    ensures forall k :: 0 <= k < |Present(data, regions)| ==>
      FieldsPresent(data, Present(data, regions)[k]) &&
      Entry(data, Present(data, regions)[k], threshold) == Some(Aggregate(data, regions, threshold)[k])
  {
    AggregatePresentLength(data, regions, threshold);
    forall k | 0 <= k < |Present(data, regions)|
      ensures FieldsPresent(data, Present(data, regions)[k]) &&
        Entry(data, Present(data, regions)[k], threshold) == Some(Aggregate(data, regions, threshold)[k])
    {
      AggregateSelectsAt(data, regions, threshold, k);
    }
  }

  /** Asking for the same list twice answers with the same entries twice. */
  lemma RepeatedRequestRepeatsEntries(data: seq<Record>, regions: seq<string>, threshold: real)
    requires AllFieldsPresent(data, regions)
    ensures AllFieldsPresent(data, regions + regions)
    ensures Aggregate(data, regions + regions, threshold) ==
      Aggregate(data, regions, threshold) + Aggregate(data, regions, threshold)
  {
    AggregateAppend(data, regions, regions, threshold);
  }

  /**
   * Records of regions nobody asked for do not affect any entry, nor whether
   * every requested region's fields can be read.
   */
  lemma {:induction false} AggregateIgnoresOtherRegion(
    a: seq<Record>, r: Record, b: seq<Record>, regions: seq<string>, threshold: real)
    requires forall q :: q in regions ==> r.region != Some(q)
    ensures AllFieldsPresent(a + [r] + b, regions) == AllFieldsPresent(a + b, regions)
    ensures AllFieldsPresent(a + b, regions) ==>
      Aggregate(a + [r] + b, regions, threshold) == Aggregate(a + b, regions, threshold)
  {
    if regions != [] {
      assert regions[0] in regions;
      MatchingIgnoresOtherRegion(a, r, b, regions[0]);
      AggregateIgnoresOtherRegion(a, r, b, regions[1..], threshold);
    }
  }

  // ---------------------------------------------------------------------
  // The request
  // ---------------------------------------------------------------------

  /**
   * The answer to a request: the error object when some record of a requested
   * region lacks a numeric field, otherwise the aggregated entries. Without
   * `regions` the answer is an empty list.
   */
  function Analyze(data: seq<Record>, req: Request): (r: Response)
    ensures r.Regions? ==> |r.entries| <= |RequestedRegions(req)|
    ensures req.regions.None? ==> r == Regions([])
  {
    var regions := RequestedRegions(req);
    if AllFieldsPresent(data, regions) then Regions(Aggregate(data, regions, Threshold(req)))
    else Error
  }

  /** The request fails exactly when a record of some requested region lacks `latency_ms` or `uptime_pct`. */
  lemma AnalyzeFailsIff(data: seq<Record>, req: Request)
    ensures Analyze(data, req) == Error <==>
      exists j, i :: 0 <= j < |RequestedRegions(req)| && 0 <= i < |data| &&
        data[i].region == Some(RequestedRegions(req)[j]) &&
        (data[i].latencyMs.None? || data[i].uptimePct.None?)
  {
    var regions := RequestedRegions(req);
    AllFieldsPresentIff(data, regions);
    forall j | 0 <= j < |regions| {
      FieldsPresentIff(data, regions[j]);
    }
  }

  /** A request without `threshold_ms` is answered as one with threshold 180. */
  lemma DefaultThreshold(data: seq<Record>, regions: Option<seq<string>>)
    ensures Analyze(data, Request(regions, None)) == Analyze(data, Request(regions, Some(180.0)))
  {
  }

  /** Records of regions the request does not name change neither the entries nor the error outcome. */
  lemma AnalyzeIgnoresOtherRegion(a: seq<Record>, r: Record, b: seq<Record>, req: Request)
    requires forall q :: q in RequestedRegions(req) ==> r.region != Some(q)
    ensures Analyze(a + [r] + b, req) == Analyze(a + b, req)
  {
    AggregateIgnoresOtherRegion(a, r, b, RequestedRegions(req), Threshold(req));
  }

  /** One more requested region extends the answer by that region's entry, if it has one. */
  lemma AggregateStep(data: seq<Record>, regions: seq<string>, k: nat, threshold: real)
    requires k < |regions|
    requires AllFieldsPresent(data, regions[..k]) && FieldsPresent(data, regions[k])
    ensures AllFieldsPresent(data, regions[..k + 1])
    ensures Aggregate(data, regions[..k + 1], threshold) ==
      Aggregate(data, regions[..k], threshold) + EntryList(data, regions[k], threshold)
  {
    var q, prefix := regions[k], regions[..k];
    assert regions[..k + 1] == prefix + [q];
    assert [q][0] == q && [q][1..] == [];
    assert AllFieldsPresent(data, [q]);
    assert Aggregate(data, [q], threshold) == EntryList(data, q, threshold);
    AggregateAppend(data, prefix, [q], threshold);
  }

  /**
   * The handler's loop: walks the requested regions in order, appends one
   * entry per region with records, and gives up with Error at the first
   * matching record that lacks a field. Its answer is Analyze's.
   */
  method AnalyzeLatency(data: seq<Record>, request: Request) returns (response: Response)
    ensures response == Analyze(data, request)
  {
    var regions := if request.regions.Some? then request.regions.value else [];
    var threshold := if request.thresholdMs.Some? then request.thresholdMs.value else DefaultThresholdMs;
    assert regions == RequestedRegions(request) && threshold == Threshold(request);
    var results: seq<RegionStats> := [];
    for k := 0 to |regions|
      invariant AllFieldsPresent(data, regions[..k])
      invariant results == Aggregate(data, regions[..k], threshold)
    {
      var region := regions[k];
      var regionData := Matching(data, region);
      if regionData != [] {
        var latencies := Column(regionData, LatencyMs);
        var uptimes := Column(regionData, UptimePct);
        if latencies.None? || uptimes.None? {
          assert !FieldsPresent(data, region);
          AllFieldsPresentIff(data, regions);
          return Error;
        }
        var avgLatency := Mean(latencies.value);
        var sortedLatencies := SortAscending(latencies.value);
        var index95 := P95Index(|sortedLatencies|);
        var p95Latency := sortedLatencies[index95];
        var avgUptime := Mean(uptimes.value);
        var breaches := CountAbove(latencies.value, threshold);
        assert Entry(data, region, threshold) == Some(RegionStats(region, avgLatency, p95Latency, avgUptime, breaches));
        AggregateStep(data, regions, k, threshold);
        results := results + [RegionStats(region, avgLatency, p95Latency, avgUptime, breaches)];
      } else {
        assert Entry(data, region, threshold) == None;
        AggregateStep(data, regions, k, threshold);
      }
    }
    assert regions[..|regions|] == regions;
    return Regions(results);
  }
}
