/**
 * Telemetry records as the service holds them after loading: a read-only
 * sequence of JSON objects whose fields may be missing. Filtering by region
 * and projecting one numeric field out of the matching records.
 */
module Telemetry {
  import opened Wrappers

  /** One telemetry object; each key may be absent from the loaded JSON. */
  datatype Record = Record(region: Option<string>, latencyMs: Option<real>, uptimePct: Option<real>)

  /** The two numeric fields the aggregation reads with `item[key]`. */
  datatype Field = LatencyMs | UptimePct

  function Get(r: Record, f: Field): Option<real>
  {
    match f
    case LatencyMs => r.latencyMs
    case UptimePct => r.uptimePct
  }

  /**
   * The records whose region equals `q` exactly, in dataset order
   * (`[item for item in data if item.get("region") == region]`).
   * Each kept record belongs to region q.
   */
  function Matching(data: seq<Record>, q: string): (r: seq<Record>)
    ensures |r| <= |data|
    ensures forall i :: 0 <= i < |r| ==> r[i].region == Some(q)
  {
    if data == [] then []
    else if data[0].region == Some(q) then [data[0]] + Matching(data[1..], q)
    else Matching(data[1..], q)
  }

  /** Every record of region q is kept as often as it occurs in the dataset; no other record is. */
  lemma {:induction false} MatchingCounts(data: seq<Record>, q: string)
    ensures forall x :: multiset(Matching(data, q))[x] == if x.region == Some(q) then multiset(data)[x] else 0
  {
    if data != [] {
      assert data == [data[0]] + data[1..];
      MatchingCounts(data[1..], q);
    }
  }

  /** Region q has a record in the dataset exactly when the filter keeps something. */
  lemma MatchingEmptyIff(data: seq<Record>, q: string)
    ensures Matching(data, q) == [] <==> forall i :: 0 <= i < |data| ==> data[i].region != Some(q)
  {
    MatchingCounts(data, q);
    if Matching(data, q) == [] {
      forall i | 0 <= i < |data| ensures data[i].region != Some(q) {
        assert multiset(data)[data[i]] > 0;
      }
    }
  }

  /**
   * The column `[item[key] for item in recs]`: None when some record lacks
   * the key (the KeyError that aborts the request), else one value per record.
   */
  function Column(recs: seq<Record>, f: Field): (col: Option<seq<real>>)
    ensures col.Some? <==> forall i :: 0 <= i < |recs| ==> Get(recs[i], f).Some?
    ensures col.Some? ==> |col.value| == |recs|
    ensures col.Some? ==> forall i :: 0 <= i < |recs| ==> Get(recs[i], f) == Some(col.value[i])
  {
    if recs == [] then Some([])
    else
      match (Get(recs[0], f), Column(recs[1..], f))
      case (Some(v), Some(vs)) => Some([v] + vs)
      case _ => None
  }

  /** Filtering distributes over concatenation, so relative order is kept. */
  lemma {:induction false} MatchingAppend(a: seq<Record>, b: seq<Record>, q: string)
    ensures Matching(a + b, q) == Matching(a, q) + Matching(b, q)
  {
    if a == [] {
      assert a + b == b;
    } else {
      assert (a + b)[0] == a[0];
      assert (a + b)[1..] == a[1..] + b;
      MatchingAppend(a[1..], b, q);
    }
  }

  /** Inserting or deleting a record of another region anywhere leaves the filter unchanged. */
  lemma MatchingIgnoresOtherRegion(a: seq<Record>, r: Record, b: seq<Record>, q: string)
    requires r.region != Some(q)
    ensures Matching(a + [r] + b, q) == Matching(a + b, q)
  {
    assert [r][0] == r && [r][1..] == [];
    assert Matching([r], q) == Matching([], q) == [];
    MatchingAppend(a + [r], b, q);
    MatchingAppend(a, [r], q);
    assert Matching(a + [r], q) == Matching(a, q);
    MatchingAppend(a, b, q);
  }

  /** Filtering the filtered records again changes nothing. */
  lemma {:induction false} MatchingIdempotent(data: seq<Record>, q: string)
    ensures Matching(Matching(data, q), q) == Matching(data, q)
  {
    if data != [] {
      MatchingIdempotent(data[1..], q);
      if data[0].region == Some(q) {
        var m := [data[0]] + Matching(data[1..], q);
        assert m[0] == data[0] && m[1..] == Matching(data[1..], q);
      }
    }
  }
}
