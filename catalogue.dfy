/**
 * The catalogue of the greedy placer (greedy2.cpp, and the identical
 * declarations of greedy.cpp): videos with their sizes and the requests
 * that ask for them, endpoints with a dense per-cache latency table, and
 * the requests themselves. Parsing the input text is not modelled; the
 * builders take the already-read numbers.
 */
module Catalogue {
  import opened Seqs

  /** Size of every endpoint's latency table (`MAXC`); cache ids must be below it. */
  const MAXC: int := 1001

  /** Latency value meaning "this endpoint is not connected to that cache". */
  const NotConnected: int := -1

  datatype Endpoint = Endpoint(
    datacenterLat: int,
    connectedCaches: seq<int>,
    cacheLat: seq<int>,        // MAXC entries, NotConnected where unconnected
    numConnectedCaches: int)

  datatype Request = Request(videoId: int, endpointId: int, numReq: int)

  datatype Video = Video(size: int, requestIds: seq<int>)

  /** The whole input: `V == |videos|`, `C == caches`, `X == capacity`. */
  datatype Catalogue = Catalogue(
    videos: seq<Video>,
    requests: seq<Request>,
    endpoints: seq<Endpoint>,
    caches: int,
    capacity: int)

  /** The table a fresh endpoint starts from: MAXC entries, all NotConnected. */
  function Unconnected(): (t: seq<int>)
    ensures |t| == MAXC && forall k :: 0 <= k < MAXC ==> t[k] == NotConnected
  {
    seq(MAXC, _ => NotConnected)
  }

  /**
   * Every id the greedy placer dereferences is in range: cache ids below
   * C <= MAXC, endpoint and video ids of requests, request ids of videos.
   */
  predicate WellFormed(cat: Catalogue)
  {
    && 0 <= cat.caches <= MAXC
    && (forall e :: e in cat.endpoints ==>
          |e.cacheLat| == MAXC && InBounds(e.connectedCaches, cat.caches))
    && (forall r :: r in cat.requests ==>
          0 <= r.videoId < |cat.videos| && 0 <= r.endpointId < |cat.endpoints|)
    && (forall v :: v in cat.videos ==> InBounds(v.requestIds, |cat.requests|))
  }

  /**
   * The `Endpoint` constructor: a table of MAXC entries filled with
   * NotConnected, then `cacheLat[cc[i]] := cl[i]` for each i below |cl|.
   */
  method NewEndpoint(dl: int, cc: seq<int>, cl: seq<int>) returns (e: Endpoint)
    requires |cl| <= |cc| && InBounds(cc[..|cl|], MAXC)
    ensures e.datacenterLat == dl && e.connectedCaches == cc && e.numConnectedCaches == |cc|
    ensures e.cacheLat == Overwrite(Unconnected(), cc[..|cl|], cl)
    ensures |e.cacheLat| == MAXC
    ensures forall k :: 0 <= k < MAXC && k !in cc[..|cl|] ==> e.cacheLat[k] == NotConnected
    ensures forall i :: 0 <= i < |cl| && (forall j :: i < j < |cl| ==> cc[j] != cc[i]) ==>
              e.cacheLat[cc[i]] == cl[i]
  {
    var lat := new int[MAXC](_ => NotConnected);
    assert lat[..] == Unconnected();
    ghost var ids := cc[..|cl|];
    for i := 0 to |cl|
      invariant lat[..] == Overwrite(Unconnected(), ids[..i], cl[..i])
    {
      OverwriteSnoc(Unconnected(), ids, cl, i);
      lat[cc[i]] := cl[i];
    }
    assert ids[..|cl|] == ids && cl[..|cl|] == cl;
    e := Endpoint(dl, cc, lat[..], |cc|);
    forall k | 0 <= k < MAXC && k !in ids
      ensures e.cacheLat[k] == NotConnected
    {
      OverwriteUnlisted(Unconnected(), ids, cl, k);
    }
    forall i | 0 <= i < |cl| && (forall j :: i < j < |cl| ==> cc[j] != cc[i])
      ensures e.cacheLat[cc[i]] == cl[i]
    {
      OverwriteLastWins(Unconnected(), ids, cl, i);
    }
  }

  /**
   * The state after the first `n` requests are indexed: video v has size
   * `sizes[v]` and the ids below n of the requests for v, in increasing order.
   */
  ghost predicate IndexedUpTo(vs: seq<Video>, sizes: seq<int>, requests: seq<Request>, n: int)
    requires 0 <= n <= |requests|
  {
    && |vs| == |sizes|
    && (forall v :: 0 <= v < |vs| ==> vs[v].size == sizes[v])
    && (forall v :: 0 <= v < |vs| ==> Increasing(vs[v].requestIds) && InBounds(vs[v].requestIds, n))
    && (forall v, j :: 0 <= v < |vs| && 0 <= j < n ==>
          (j in vs[v].requestIds <==> requests[j].videoId == v))
  }

  /** `push_back` of request n onto its video's list extends the index by one request. */
  lemma IndexStep(vs: seq<Video>, sizes: seq<int>, requests: seq<Request>, n: int)
    requires 0 <= n < |requests| && IndexedUpTo(vs, sizes, requests, n)
    requires 0 <= requests[n].videoId < |vs|
    ensures var vid := requests[n].videoId;
            IndexedUpTo(vs[vid := vs[vid].(requestIds := vs[vid].requestIds + [n])], sizes, requests, n + 1)
  {
    var vid := requests[n].videoId;
    var ws := vs[vid := vs[vid].(requestIds := vs[vid].requestIds + [n])];
    forall v | 0 <= v < |ws|
      ensures Increasing(ws[v].requestIds) && InBounds(ws[v].requestIds, n + 1)
    {
      if v == vid {
        var ids := vs[vid].requestIds;
        assert forall k :: 0 <= k < |ids| ==> ids[k] < n;
        assert ws[v].requestIds == ids + [n];
      }
    }
  }

  /**
   * `videos.resize(V)` with the read sizes, then
   * `videos[vid].request_ids.push_back(i)` for each request i in order: the
   * reverse index from a video to the requests that ask for it.
   */
  method BuildVideos(sizes: seq<int>, requests: seq<Request>) returns (videos: seq<Video>)
    requires forall i :: 0 <= i < |requests| ==> 0 <= requests[i].videoId < |sizes|
    ensures |videos| == |sizes|
    ensures forall v :: 0 <= v < |videos| ==> videos[v].size == sizes[v]
    ensures forall v :: 0 <= v < |videos| ==> Increasing(videos[v].requestIds)
    ensures forall v :: 0 <= v < |videos| ==> InBounds(videos[v].requestIds, |requests|)
    ensures forall v, i :: 0 <= v < |videos| && 0 <= i < |requests| ==>
              (i in videos[v].requestIds <==> requests[i].videoId == v)
  {
    var vs := new Video[|sizes|](v requires 0 <= v < |sizes| => Video(sizes[v], []));
    for i := 0 to |requests|
      invariant IndexedUpTo(vs[..], sizes, requests, i)
    {
      var vid := requests[i].videoId;
      IndexStep(vs[..], sizes, requests, i);
      vs[vid] := vs[vid].(requestIds := vs[vid].requestIds + [i]);
    }
    videos := vs[..];
  }
}
