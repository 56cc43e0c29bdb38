/**
 * The greedy placement engine of greedy2.cpp: selection of the best
 * (cache, video) pair, the update of a video's column after it is placed,
 * and the select / mark-infeasible / commit loop of `main`.
 *
 * Each method is proved against the value-level run of module Placement:
 * the loop's state, read as values, follows `GreedyStep` from the state it
 * starts in until every entry is negative.
 */
module Engine {
  import opened Seqs
  import opened Catalogue
  import opened Savings
  import opened Grids
  import opened Placement

  /** The starting value of `best_save`; entries below it are never selected. */
  const InitialBest: int := -10

  /** (c, v) is the last maximum of the matrix held in `s`. */
  ghost predicate IsLastMax(s: array2<int>, c: int, v: int)
    reads s
  {
    LastMaxOf(Grid(s), c, v)
  }

  /** Some entry is at or above InitialBest, so the scan assigns the pair it returns. */
  ghost predicate Selectable(s: array2<int>)
    reads s
  {
    exists c, v :: 0 <= c < s.Length0 && 0 <= v < s.Length1 && s[c, v] >= InitialBest
  }

  /**
   * `get_best_video_to_cache`: a row-major scan that takes any entry
   * `>= best_save`, so the last of several equal maxima wins. With no entry
   * at or above InitialBest, in particular with no cache or no video, the
   * source never assigns the pair it returns; `found` is false exactly then.
   */
  method SelectBest(savings: array2<int>) returns (found: bool, bestCache: int, bestVideo: int)
    ensures found <==> Selectable(savings)
    ensures found ==> IsLastMax(savings, bestCache, bestVideo)
  {
    var bestSave := InitialBest;
    bestCache, bestVideo := -1, -1;
    for c := 0 to savings.Length0
      invariant bestSave >= InitialBest
      invariant bestCache < 0 ==>
        (bestSave == InitialBest &&
         forall i, j :: 0 <= i < c && 0 <= j < savings.Length1 ==> savings[i, j] < InitialBest)
      invariant bestCache >= 0 ==>
        (0 <= bestCache < c && 0 <= bestVideo < savings.Length1 &&
         bestSave == savings[bestCache, bestVideo])
      invariant forall i, j :: 0 <= i < c && 0 <= j < savings.Length1 ==> savings[i, j] <= bestSave
      invariant forall i, j ::
        (0 <= i < c && 0 <= j < savings.Length1 && After(i, j, bestCache, bestVideo)) ==>
          savings[i, j] < bestSave
    {
      for v := 0 to savings.Length1
        invariant bestSave >= InitialBest
        invariant bestCache < 0 ==>
          (bestSave == InitialBest &&
           (forall i, j :: 0 <= i < c && 0 <= j < savings.Length1 ==> savings[i, j] < InitialBest) &&
           (forall j :: 0 <= j < v ==> savings[c, j] < InitialBest))
        invariant bestCache >= 0 ==>
          (0 <= bestVideo < savings.Length1 &&
           (0 <= bestCache < c || (bestCache == c && bestVideo < v)) &&
           bestSave == savings[bestCache, bestVideo])
        invariant forall i, j :: 0 <= i < c && 0 <= j < savings.Length1 ==> savings[i, j] <= bestSave
        invariant forall j :: 0 <= j < v ==> savings[c, j] <= bestSave
        invariant forall i, j ::
          (0 <= i < c && 0 <= j < savings.Length1 && After(i, j, bestCache, bestVideo)) ==>
            savings[i, j] < bestSave
        invariant forall j :: 0 <= j < v && After(c, j, bestCache, bestVideo) ==> savings[c, j] < bestSave
      {
        if savings[c, v] >= bestSave {
          bestSave := savings[c, v];
          bestCache := c;
          bestVideo := v;
        }
      }
    }
    found := bestCache >= 0;
  }

  /**
   * The `current_latency` loop of `update_savings_for_video`: the smallest
   * latency from the endpoint to a connected cache that already holds
   * `vid`, or the datacenter latency when there is none.
   */
  method CurrentLatency(e: Endpoint, perCache: seq<seq<int>>, vid: int) returns (lat: int)
    requires InBounds(e.connectedCaches, |perCache|) && |perCache| <= |e.cacheLat|
    ensures lat <= e.datacenterLat
    ensures forall k :: 0 <= k < |e.connectedCaches| && vid in perCache[e.connectedCaches[k]] ==>
              lat <= e.cacheLat[e.connectedCaches[k]]
    ensures lat == e.datacenterLat ||
            exists k :: 0 <= k < |e.connectedCaches| && vid in perCache[e.connectedCaches[k]] &&
              lat == e.cacheLat[e.connectedCaches[k]]
  {
    var cc := e.connectedCaches;
    lat := e.datacenterLat;
    for k := 0 to |cc|
      invariant lat <= e.datacenterLat
      invariant forall i :: 0 <= i < k && vid in perCache[cc[i]] ==> lat <= e.cacheLat[cc[i]]
      invariant lat == e.datacenterLat ||
                exists i :: 0 <= i < k && vid in perCache[cc[i]] && lat == e.cacheLat[cc[i]]
    {
      var cid := cc[k];
      if vid in perCache[cid] {
        lat := if lat <= e.cacheLat[cid] then lat else e.cacheLat[cid];
      }
    }
  }

  /** The shape the engine's state has throughout a run. */
  ghost predicate Shaped(cat: Catalogue, savings: array2<int>)
    reads savings
  {
    WellFormed(cat) && savings.Length0 == cat.caches && savings.Length1 == |cat.videos|
  }

  /**
   * `update_savings_for_video`. Every positive entry of column `vid` is
   * reset to 0; then, per request of `vid`, its current latency is found
   * and each still-positive entry of the column is to be raised by what the
   * cache would improve on it. Since no entry of the column is positive any
   * longer, the raise never applies: the net effect is that the positive
   * entries of column `vid` become 0 and nothing else changes.
   */
  method UpdateSavingsForVideo(cat: Catalogue, savings: array2<int>, perCache: seq<seq<int>>, vid: int)
    requires Shaped(cat, savings) && |perCache| == cat.caches && 0 <= vid < |cat.videos|
    modifies savings
    ensures forall c, v :: 0 <= c < savings.Length0 && 0 <= v < savings.Length1 ==>
              savings[c, v] == if v == vid && old(savings[c, v]) > 0 then 0 else old(savings[c, v])
    ensures forall c :: 0 <= c < savings.Length0 ==> savings[c, vid] <= 0
  {
    var C := cat.caches;
    for cid := 0 to C
      invariant forall c, v :: 0 <= c < C && 0 <= v < savings.Length1 ==>
                  savings[c, v] == if v == vid && c < cid && old(savings[c, v]) > 0 then 0 else old(savings[c, v])
    {
      if savings[cid, vid] > 0 {
        savings[cid, vid] := 0;
      }
    }
    var video := cat.videos[vid];
    assert video in cat.videos;
    var rids := video.requestIds;
    for k := 0 to |rids|
      invariant forall c, v :: 0 <= c < C && 0 <= v < savings.Length1 ==>
                  savings[c, v] == if v == vid && old(savings[c, v]) > 0 then 0 else old(savings[c, v])
    {
      var r := cat.requests[rids[k]];
      assert r in cat.requests;
      var e := cat.endpoints[r.endpointId];
      assert e in cat.endpoints;
      var currentLatency := CurrentLatency(e, perCache, vid);
      for cid := 0 to C
        invariant forall c, v :: 0 <= c < C && 0 <= v < savings.Length1 ==>
                    savings[c, v] == if v == vid && old(savings[c, v]) > 0 then 0 else old(savings[c, v])
      {
        var gap := currentLatency - e.cacheLat[cid];
        var raise := (if gap > 0 then gap else 0) * r.numReq;
        // `if (savings[cid][vid] > 0) savings[cid][vid] += raise;`
        var entry := savings[cid, vid];
        savings[cid, vid] := if entry > 0 then entry + raise else entry;
      }
    }
  }

  /** Total size of the videos in `vids`. */
  function Load(cat: Catalogue, vids: seq<int>): int
    requires InBounds(vids, |cat.videos|)
  {
    if |vids| == 0 then 0 else Load(cat, vids[..|vids| - 1]) + cat.videos[vids[|vids| - 1]].size
  }

  /**
   * What holds of the engine's state between iterations: each cache's free
   * space is the capacity minus what it holds and is never negative, a
   * cache holds only videos whose entry is Committed, and holds each at most
   * once.
   */
  ghost predicate EngineInvariant(cat: Catalogue, savings: array2<int>, spaceLeft: array<int>,
                                  perCache: seq<seq<int>>)
    reads savings, spaceLeft
  {
    && Shaped(cat, savings)
    && spaceLeft.Length == cat.caches && |perCache| == cat.caches
    && (forall c :: 0 <= c < cat.caches ==> InBounds(perCache[c], |cat.videos|))
    && (forall c :: 0 <= c < cat.caches ==>
          spaceLeft[c] == cat.capacity - Load(cat, perCache[c]) && spaceLeft[c] >= 0)
    && (forall c, v :: 0 <= c < cat.caches && v in perCache[c] ==> savings[c, v] == Committed)
    && (forall c :: 0 <= c < cat.caches ==> NoDuplicates(perCache[c]))
  }

  /** `savings[c][v] = -2`: the selected pair does not fit and is never selected again. */
  method MarkCannotFit(cat: Catalogue, savings: array2<int>, spaceLeft: array<int>,
                       perCache: seq<seq<int>>, c: int, v: int)
    requires EngineInvariant(cat, savings, spaceLeft, perCache)
    requires 0 <= c < cat.caches && 0 <= v < |cat.videos| && savings[c, v] >= 0
    modifies savings
    ensures EngineInvariant(cat, savings, spaceLeft, perCache)
    ensures savings[c, v] == CannotFit
    ensures forall i, j :: 0 <= i < savings.Length0 && 0 <= j < savings.Length1 && (i != c || j != v) ==>
              savings[i, j] == old(savings[i, j])
    ensures Grid(savings) == old(Grid(savings))[c := old(Grid(savings))[c][v := CannotFit]]
  {
    ghost var g := Grid(savings);
    savings[c, v] := CannotFit;
    MarkedGrid(savings, g, c, v);
  }

  /**
   * The first half of the commit branch of `main`: the cache's free space
   * shrinks by the video's size, the video is appended to the cache's list
   * and the pair is marked Committed.
   */
  method Place(cat: Catalogue, savings: array2<int>, spaceLeft: array<int>,
               perCache: seq<seq<int>>, c: int, v: int) returns (placed: seq<seq<int>>)
    requires EngineInvariant(cat, savings, spaceLeft, perCache)
    requires 0 <= c < cat.caches && 0 <= v < |cat.videos| && savings[c, v] >= 0
    requires spaceLeft[c] >= cat.videos[v].size
    modifies savings, spaceLeft
    ensures EngineInvariant(cat, savings, spaceLeft, placed)
    ensures placed == perCache[c := perCache[c] + [v]]
    ensures spaceLeft[c] == old(spaceLeft[c]) - cat.videos[v].size
    ensures forall i :: 0 <= i < spaceLeft.Length && i != c ==> spaceLeft[i] == old(spaceLeft[i])
    ensures savings[c, v] == Committed
    ensures forall i, j :: 0 <= i < savings.Length0 && 0 <= j < savings.Length1 && (i != c || j != v) ==>
              savings[i, j] == old(savings[i, j])
  {
    var held := perCache[c];
    assert (held + [v])[..|held|] == held;
    spaceLeft[c] := spaceLeft[c] - cat.videos[v].size;
    placed := perCache[c := held + [v]];
    savings[c, v] := Committed;
  }

  /**
   * The commit branch of `main`: Place, then `update_savings_for_video`
   * for the placed video.
   */
  method CommitVideo(cat: Catalogue, savings: array2<int>, spaceLeft: array<int>,
                     perCache: seq<seq<int>>, c: int, v: int) returns (placed: seq<seq<int>>)
    requires EngineInvariant(cat, savings, spaceLeft, perCache)
    requires 0 <= c < cat.caches && 0 <= v < |cat.videos| && savings[c, v] >= 0
    requires spaceLeft[c] >= cat.videos[v].size
    modifies savings, spaceLeft
    ensures EngineInvariant(cat, savings, spaceLeft, placed)
    ensures placed == perCache[c := perCache[c] + [v]]
    ensures spaceLeft[c] == old(spaceLeft[c]) - cat.videos[v].size
    ensures forall i :: 0 <= i < spaceLeft.Length && i != c ==> spaceLeft[i] == old(spaceLeft[i])
    ensures savings[c, v] == Committed
    ensures forall i, j :: 0 <= i < savings.Length0 && 0 <= j < savings.Length1 && (i != c || j != v) ==>
              savings[i, j] == if j == v && old(savings[i, j]) > 0 then 0 else old(savings[i, j])
    ensures Grid(savings) == ResetColumn(old(Grid(savings))[c := old(Grid(savings))[c][v := Committed]], v)
    ensures spaceLeft[..] == old(spaceLeft[..])[c := old(spaceLeft[c]) - cat.videos[v].size]
  {
    ghost var g := Grid(savings);
    placed := Place(cat, savings, spaceLeft, perCache, c, v);
    UpdateSavingsForVideo(cat, savings, placed, v);
    CommittedGrid(savings, g, c, v);
  }

  /** The engine's state read as values. */
  ghost function StateOf(savings: array2<int>, perCache: seq<seq<int>>, spaceLeft: array<int>): State
    reads savings, spaceLeft
  {
    State(Grid(savings), perCache, spaceLeft[..])
  }

  /**
   * One iteration of the loop of `main` on the selected pair (c, v), whose
   * entry is >= 0: mark it CannotFit when the video does not fit the
   * cache's free space, otherwise commit it. The new state is `Advance` of
   * the old one, so the pair's entry becomes negative and negative entries
   * keep their value. `retired` is the set of pairs retired earlier, which
   * (c, v) joins.
   */
  method Retire(cat: Catalogue, savings: array2<int>, spaceLeft: array<int>,
                perCache: seq<seq<int>>, c: int, v: int, ghost retired: set<(int, int)>)
    returns (next: seq<seq<int>>)
    requires EngineInvariant(cat, savings, spaceLeft, perCache) && AllRetired(savings, retired)
    requires 0 <= c < cat.caches && 0 <= v < |cat.videos| && savings[c, v] >= 0
    modifies savings, spaceLeft
    ensures EngineInvariant(cat, savings, spaceLeft, next)
    ensures var after := Advance(cat, old(StateOf(savings, perCache, spaceLeft)), c, v);
            Grid(savings) == after.grid && next == after.held && spaceLeft[..] == after.space
    ensures AllRetired(savings, retired + {(c, v)}) && |retired + {(c, v)}| == |retired| + 1
  {
    ghost var before := StateOf(savings, perCache, spaceLeft);
    assert Sized(cat, before);
    ghost var after := Advance(cat, before, c, v);
    if spaceLeft[c] < cat.videos[v].size {
      MarkCannotFit(cat, savings, spaceLeft, perCache, c, v);
      next := perCache;
      assert after == before.(grid := before.grid[c := before.grid[c][v := CannotFit]]);
      assert spaceLeft[..] == before.space by {
        assert forall i :: 0 <= i < spaceLeft.Length ==> spaceLeft[i] == old(spaceLeft[i]);
      }
    } else {
      next := CommitVideo(cat, savings, spaceLeft, perCache, c, v);
      assert after.grid == ResetColumn(before.grid[c := before.grid[c][v := Committed]], v);
      assert after.space == before.space[c := before.space[c] - cat.videos[v].size];
      assert after.held == next;
      assert spaceLeft[..] == after.space;
    }
    AdvanceRetires(cat, before, c, v, retired);
  }

  /** The matrix after MarkCannotFit, as values. */
  lemma MarkedGrid(s: array2<int>, g: seq<seq<int>>, c: int, v: int)
    requires |g| == s.Length0 && Rectangular(g, s.Length1) && 0 <= c < s.Length0 && 0 <= v < s.Length1
    requires s[c, v] == CannotFit
    requires forall i, j :: 0 <= i < s.Length0 && 0 <= j < s.Length1 && (i != c || j != v) ==>
               s[i, j] == g[i][j]
    ensures Grid(s) == g[c := g[c][v := CannotFit]]
  {
    GridIs(s, g[c := g[c][v := CannotFit]]);
  }

  /** The matrix after CommitVideo, as values. */
  lemma CommittedGrid(s: array2<int>, g: seq<seq<int>>, c: int, v: int)
    requires |g| == s.Length0 && Rectangular(g, s.Length1) && 0 <= c < s.Length0 && 0 <= v < s.Length1
    requires s[c, v] == Committed
    requires forall i, j :: 0 <= i < s.Length0 && 0 <= j < s.Length1 && (i != c || j != v) ==>
               s[i, j] == if j == v && g[i][j] > 0 then 0 else g[i][j]
    ensures Grid(s) == ResetColumn(g[c := g[c][v := Committed]], v)
  {
    GridIs(s, ResetColumn(g[c := g[c][v := Committed]], v));
  }

  /** Every pair in `retired` is an index pair of `s` with a negative entry. */
  ghost predicate AllRetired(s: array2<int>, retired: set<(int, int)>)
    reads s
  {
    Retired(Grid(s), retired)
  }

  /**
   * `main` after the input is read: build the savings matrix, then run the
   * placement loop on it. Returns each cache's videos in placement order;
   * `trace` and `picks` are the run from the initial state, for the proof.
   */
  method Run(cat: Catalogue) returns (perCache: seq<seq<int>>, ghost trace: seq<State>,
                                      ghost picks: seq<(int, int)>)
    requires WellFormed(cat) && cat.capacity >= 0
    ensures Complete(cat, trace, picks) && trace[0] == Begin(cat, InitialGrid(cat))
    ensures trace[|trace| - 1].held == perCache
    ensures |picks| <= cat.caches * |cat.videos|
    ensures |perCache| == cat.caches
    ensures forall c :: 0 <= c < cat.caches ==>
              InBounds(perCache[c], |cat.videos|) && Load(cat, perCache[c]) <= cat.capacity
    ensures forall c :: 0 <= c < cat.caches ==> NoDuplicates(perCache[c])
  {
    var savings := CalcSavings(cat);
    GridIs(savings, InitialGrid(cat));
    perCache, trace, picks := PlaceGreedily(cat, savings);
  }

  /**
   * One trip through the body of the loop of `main`: select the best pair;
   * if nothing is selectable or its entry is negative the loop is over
   * (`done`), which happens exactly when every entry is negative; otherwise
   * the pick is the last maximum, the state takes one `GreedyStep`, and the
   * pair joins `retired`.
   */
  method Step(cat: Catalogue, savings: array2<int>, spaceLeft: array<int>, perCache: seq<seq<int>>,
              ghost retired: set<(int, int)>)
    returns (done: bool, next: seq<seq<int>>, ghost grown: set<(int, int)>, ghost pick: (int, int))
    requires EngineInvariant(cat, savings, spaceLeft, perCache) && AllRetired(savings, retired)
    modifies savings, spaceLeft
    ensures EngineInvariant(cat, savings, spaceLeft, next) && AllRetired(savings, grown)
    ensures done <==> Finished(old(Grid(savings)))
    ensures done ==> next == perCache && unchanged(savings, spaceLeft)
    ensures !done ==> |grown| == |retired| + 1 && old(IsLastMax(savings, pick.0, pick.1)) &&
                      GreedyStep(cat, old(StateOf(savings, perCache, spaceLeft)), pick,
                                 StateOf(savings, next, spaceLeft))
  {
    ghost var before := StateOf(savings, perCache, spaceLeft);
    var found, bestCache, bestVideo := SelectBest(savings);
    if !found || savings[bestCache, bestVideo] < 0 {
      return true, perCache, retired, (0, 0);
    }
    assert !Finished(before.grid) by {
      assert before.grid[bestCache][bestVideo] >= 0;
    }
    next := Retire(cat, savings, spaceLeft, perCache, bestCache, bestVideo, retired);
    return false, next, retired + {(bestCache, bestVideo)}, (bestCache, bestVideo);
  }

  /** `vector<int> space_left(C, X)` and C empty cache lists. */
  method InitialState(cat: Catalogue, savings: array2<int>) returns (perCache: seq<seq<int>>, spaceLeft: array<int>)
    requires Shaped(cat, savings) && cat.capacity >= 0
    ensures fresh(spaceLeft)
    ensures EngineInvariant(cat, savings, spaceLeft, perCache)
    ensures StateOf(savings, perCache, spaceLeft) == Begin(cat, Grid(savings))
  {
    perCache := seq(cat.caches, _ => []);
    spaceLeft := new int[cat.caches](_ => cat.capacity);
    assert spaceLeft[..] == seq(cat.caches, _ => cat.capacity);
  }

  /**
   * The loop of `main`: select the best pair; stop if its entry is
   * negative; mark it CannotFit if the video does not fit the cache's free
   * space; otherwise place the video, mark the pair Committed and update
   * the video's column. The states the loop passes through form a complete
   * run from the initial state, whose last state is the final matrix and
   * lists. Every iteration retires one pair whose entry was >= 0 by making
   * it negative, and a negative entry never becomes >= 0 again, so there are
   * at most C * V iterations.
   */
  method PlaceGreedily(cat: Catalogue, savings: array2<int>)
    returns (perCache: seq<seq<int>>, ghost trace: seq<State>, ghost picks: seq<(int, int)>)
    requires Shaped(cat, savings) && cat.capacity >= 0
    modifies savings
    ensures Complete(cat, trace, picks) && trace[0] == Begin(cat, old(Grid(savings)))
    ensures trace[|trace| - 1] == State(Grid(savings), perCache, trace[|trace| - 1].space)
    ensures |picks| <= cat.caches * |cat.videos|
    ensures |perCache| == cat.caches
    ensures forall c :: 0 <= c < cat.caches ==>
              InBounds(perCache[c], |cat.videos|) && Load(cat, perCache[c]) <= cat.capacity
    ensures forall c :: 0 <= c < cat.caches ==> NoDuplicates(perCache[c])
    ensures forall c, v :: 0 <= c < cat.caches && 0 <= v < |cat.videos| ==> savings[c, v] < 0
    ensures forall c, v :: 0 <= c < cat.caches && 0 <= v < |cat.videos| && v in perCache[c] ==>
              savings[c, v] == Committed
  {
    var C, V := cat.caches, |cat.videos|;
    var spaceLeft;
    perCache, spaceLeft := InitialState(cat, savings);
    trace, picks := [StateOf(savings, perCache, spaceLeft)], [];
    // the pairs retired so far; each iteration retires one more
    ghost var retired: set<(int, int)> := {};
    ghost var total := C * V;
    while true
      invariant EngineInvariant(cat, savings, spaceLeft, perCache) && AllRetired(savings, retired)
      invariant |picks| == |retired| <= total
      invariant IsRun(cat, trace, picks) && trace[0] == Begin(cat, old(Grid(savings)))
      invariant trace[|trace| - 1] == StateOf(savings, perCache, spaceLeft)
      decreases total - |picks|
    {
      var done;
      ghost var pick;
      done, perCache, retired, pick := Step(cat, savings, spaceLeft, perCache, retired);
      if done {
        break;
      }
      RunSnoc(cat, trace, picks, pick, StateOf(savings, perCache, spaceLeft));
      trace, picks := trace + [StateOf(savings, perCache, spaceLeft)], picks + [pick];
      PairsBound(retired, C, V);
    }
  }
}
