/**
 * The initial savings matrix: `calc_savings` in greedy2.cpp, and the same
 * loop nest written inline in greedy.cpp's `main`. Entry (c, v) is what
 * caching video v at cache c would save if no cache held anything yet.
 */
module Savings {
  import opened Seqs
  import opened Catalogue

  /** `num_req * (datacenter_lat - cache_lat[c])` for request `rid`, connected or not. */
  function LatencyDelta(cat: Catalogue, c: int, rid: int): int
    requires WellFormed(cat) && 0 <= c < cat.caches && 0 <= rid < |cat.requests|
  {
    var r := cat.requests[rid];
    var e := cat.endpoints[r.endpointId];
    assert e in cat.endpoints;
    r.numReq * (e.datacenterLat - e.cacheLat[c])
  }

  /**
   * What request `rid` adds to entry (c, its video): its count times the
   * latency its endpoint saves through cache c, or nothing when the
   * endpoint is not connected to c.
   */
  function RequestGain(cat: Catalogue, c: int, rid: int): int
    requires WellFormed(cat) && 0 <= c < cat.caches && 0 <= rid < |cat.requests|
  {
    if IsConnected(cat, c, rid) then LatencyDelta(cat, c, rid) else 0
  }

  /** RequestGain summed over `rids`, in order. */
  function SumGains(cat: Catalogue, c: int, rids: seq<int>): int
    requires WellFormed(cat) && 0 <= c < cat.caches && InBounds(rids, |cat.requests|)
  {
    if |rids| == 0 then 0
    else SumGains(cat, c, rids[..|rids| - 1]) + RequestGain(cat, c, rids[|rids| - 1])
  }

  /** Entry (c, v) of the initial matrix. */
  function Saving(cat: Catalogue, c: int, v: int): int
    requires WellFormed(cat) && 0 <= c < cat.caches && 0 <= v < |cat.videos|
  {
    var vid := cat.videos[v];
    assert vid in cat.videos;
    if vid.size <= cat.capacity then SumGains(cat, c, vid.requestIds) else 0
  }

  /**
   * `calc_savings`: a C x V matrix of zeros, then for every eligible video
   * `savings[c][v] += num_req * (datacenter_lat - cache_lat[c])` over its
   * requests whose endpoint reaches c.
   */
  method CalcSavings(cat: Catalogue) returns (savings: array2<int>)
    requires WellFormed(cat)
    ensures fresh(savings)
    ensures savings.Length0 == cat.caches && savings.Length1 == |cat.videos|
    ensures forall c, v :: 0 <= c < cat.caches && 0 <= v < |cat.videos| ==>
              savings[c, v] == Saving(cat, c, v)
    ensures forall c, v ::
              0 <= c < cat.caches && 0 <= v < |cat.videos| && cat.videos[v].size > cat.capacity ==>
                savings[c, v] == 0
  {
    var C, V := cat.caches, |cat.videos|;
    savings := new int[C, V]((_, _) => 0);
    for c := 0 to C
      invariant forall i, j :: 0 <= i < C && 0 <= j < V ==>
                  savings[i, j] == if i < c then Saving(cat, i, j) else 0
    {
      for v := 0 to V
        invariant forall i, j :: 0 <= i < C && 0 <= j < V ==>
                    savings[i, j] == if i < c || (i == c && j < v) then Saving(cat, i, j) else 0
      {
        var vid := cat.videos[v];
        assert vid in cat.videos;
        if vid.size <= cat.capacity {
          var rids := vid.requestIds;
          for k := 0 to |rids|
            invariant savings[c, v] == SumGains(cat, c, rids[..k])
            invariant forall i, j :: 0 <= i < C && 0 <= j < V && (i != c || j != v) ==>
                        savings[i, j] == if i < c || (i == c && j < v) then Saving(cat, i, j) else 0
          {
            assert rids[..k + 1][..k] == rids[..k];
            var r := cat.requests[rids[k]];
            var e := cat.endpoints[r.endpointId];
            assert e in cat.endpoints;
            if e.cacheLat[c] >= 0 {
              savings[c, v] := savings[c, v] + r.numReq * (e.datacenterLat - e.cacheLat[c]);
            }
          }
          assert rids[..|rids|] == rids;
        }
      }
    }
  }

  /** The rows of the connected requests among `rids`. */
  function Connected(cat: Catalogue, c: int, rids: seq<int>): (r: seq<int>)
    requires WellFormed(cat) && 0 <= c < cat.caches && InBounds(rids, |cat.requests|)
    ensures InBounds(r, |cat.requests|)
  {
    if |rids| == 0 then []
    else Connected(cat, c, rids[..|rids| - 1]) +
         (if IsConnected(cat, c, rids[|rids| - 1]) then [rids[|rids| - 1]] else [])
  }

  lemma {:induction false} ConnectedMembers(cat: Catalogue, c: int, rids: seq<int>, rid: int)
    requires WellFormed(cat) && 0 <= c < cat.caches && InBounds(rids, |cat.requests|)
    ensures rid in Connected(cat, c, rids) <==> rid in rids && IsConnected(cat, c, rid)
  {
    if |rids| > 0 {
      var init := rids[..|rids| - 1];
      ConnectedMembers(cat, c, init, rid);
      assert rids == init + [rids[|rids| - 1]];
    }
  }

  /** Whether the endpoint of request `rid` reaches cache c (its latency entry is not NotConnected). */
  predicate IsConnected(cat: Catalogue, c: int, rid: int)
    requires WellFormed(cat) && 0 <= c < cat.caches && 0 <= rid < |cat.requests|
  {
    var e := cat.endpoints[cat.requests[rid].endpointId];
    assert e in cat.endpoints;
    e.cacheLat[c] >= 0
  }

  /** The unguarded formula `num_req * (datacenter_lat - cache_lat[c])` summed over `rids`. */
  function SumLatencyDeltas(cat: Catalogue, c: int, rids: seq<int>): int
    requires WellFormed(cat) && 0 <= c < cat.caches && InBounds(rids, |cat.requests|)
  {
    if |rids| == 0 then 0
    else SumLatencyDeltas(cat, c, rids[..|rids| - 1]) + LatencyDelta(cat, c, rids[|rids| - 1])
  }

  lemma DeltasSnoc(cat: Catalogue, c: int, rids: seq<int>, rid: int)
    requires WellFormed(cat) && 0 <= c < cat.caches && InBounds(rids, |cat.requests|)
    requires 0 <= rid < |cat.requests|
    ensures SumLatencyDeltas(cat, c, rids + [rid]) == SumLatencyDeltas(cat, c, rids) + LatencyDelta(cat, c, rid)
  {
    assert (rids + [rid])[..|rids|] == rids;
  }

  /**
   * Connectivity (greedy.cpp:84, greedy2.cpp:63): only requests reaching c
   * contribute, each with the full formula.
   */
  lemma {:induction false} OnlyConnectedContribute(cat: Catalogue, c: int, rids: seq<int>)
    requires WellFormed(cat) && 0 <= c < cat.caches && InBounds(rids, |cat.requests|)
    ensures SumGains(cat, c, rids) == SumLatencyDeltas(cat, c, Connected(cat, c, rids))
  {
    if |rids| > 0 {
      var init := rids[..|rids| - 1];
      var last := rids[|rids| - 1];
      OnlyConnectedContribute(cat, c, init);
      assert SumGains(cat, c, rids) == SumGains(cat, c, init) + RequestGain(cat, c, last);
      if IsConnected(cat, c, last) {
        DeltasSnoc(cat, c, Connected(cat, c, init), last);
        assert Connected(cat, c, rids) == Connected(cat, c, init) + [last];
      } else {
        var ci := Connected(cat, c, init);
        assert Connected(cat, c, rids) == ci + [] == ci;
      }
    }
  }

  /** A video none of whose requests reaches cache c saves nothing there. */
  lemma {:induction false} NoConnectionNoSaving(cat: Catalogue, c: int, v: int)
    requires WellFormed(cat) && 0 <= c < cat.caches && 0 <= v < |cat.videos|
    requires forall rid :: rid in cat.videos[v].requestIds ==> !IsConnected(cat, c, rid)
    ensures Saving(cat, c, v) == 0
  {
    var vid := cat.videos[v];
    assert vid in cat.videos;
    OnlyConnectedContribute(cat, c, vid.requestIds);
    var cs := Connected(cat, c, vid.requestIds);
    if cs != [] {
      ConnectedMembers(cat, c, vid.requestIds, cs[0]);
      assert false;
    }
  }

  /**
   * With non-negative request counts and a cache latency no worse than the
   * datacenter's wherever c is connected, the entry is non-negative.
   */
  lemma {:induction false} SumGainsNonNegative(cat: Catalogue, c: int, rids: seq<int>)
    requires WellFormed(cat) && 0 <= c < cat.caches && InBounds(rids, |cat.requests|)
    requires forall k :: 0 <= k < |rids| ==> cat.requests[rids[k]].numReq >= 0
    requires forall k :: 0 <= k < |rids| && IsConnected(cat, c, rids[k]) ==>
               var e := cat.endpoints[cat.requests[rids[k]].endpointId];
               e.cacheLat[c] <= e.datacenterLat
    ensures SumGains(cat, c, rids) >= 0
  {
    if |rids| > 0 {
      var n := |rids| - 1;
      SumGainsNonNegative(cat, c, rids[..n]);
      var r := cat.requests[rids[n]];
      var e := cat.endpoints[r.endpointId];
      assert e in cat.endpoints;
      if e.cacheLat[c] >= 0 {
        assert IsConnected(cat, c, rids[n]);
        assert r.numReq * (e.datacenterLat - e.cacheLat[c]) >= 0;
      }
    }
  }
}
