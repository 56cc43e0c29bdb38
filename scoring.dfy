/**
 * The scorer (scoring.py): the per-endpoint latency table, validation of a
 * submitted assignment of videos to caches, and the raw score, the sum over
 * requests of the latency saved times the request count. Reading the two
 * files and the final scaling by 1000 / (total requests) are not modelled.
 *
 * Indexes into Python lists follow Python's rules: an index i with
 * -n <= i < 0 means n + i, anything else out of range raises IndexError,
 * which the model reports as `Malformed`.
 */
module Scoring {
  import opened Wrappers
  import opened Seqs
  import opened Catalogue

  /** Why a submitted assignment is refused. */
  datatype ScoreError =
    | TooManyCaches                    // the cache count is > c or < 0
    | RepeatedCache(cid: int)          // a cache line names a cache an earlier line named
    | OverCapacity(cid: int, csize: int) // the listed videos of cache cid weigh csize > x
    | Malformed                        // a missing or empty line, or an index out of range

  /** The list position Python reads for index `i` of a list of length `n`. */
  function PyIndex(i: int, n: int): (r: Option<int>)
    ensures r.Some? <==> -n <= i < n
    ensures r.Some? ==> 0 <= r.value < n && (r.value == i || r.value == i + n)
  {
    if 0 <= i < n then Some(i) else if -n <= i < 0 then Some(i + n) else None
  }

  /**
   * `lat_ca[-1]` for one endpoint: `[ld] * c`, then `lat_ca[-1][cid] = lc`
   * for each listed connection in order.
   */
  method LatencyRow(ld: int, c: nat, cids: seq<int>, lcs: seq<int>) returns (row: seq<int>)
    requires |cids| == |lcs| && InBounds(cids, c)
    ensures row == Overwrite(seq(c, _ => ld), cids, lcs)
    ensures |row| == c
    ensures forall k :: 0 <= k < c && k !in cids ==> row[k] == ld
    ensures forall i :: 0 <= i < |cids| && (forall j :: i < j < |cids| ==> cids[j] != cids[i]) ==>
              row[cids[i]] == lcs[i]
  {
    var base := seq(c, _ => ld);
    row := base;
    for j := 0 to |cids|
      invariant row == Overwrite(base, cids[..j], lcs[..j])
    {
      OverwriteSnoc(base, cids, lcs, j);
      row := row[cids[j] := lcs[j]];
    }
    assert cids[..|cids|] == cids && lcs[..|lcs|] == lcs;
    forall k | 0 <= k < c && k !in cids
      ensures row[k] == ld
    {
      OverwriteUnlisted(base, cids, lcs, k);
    }
    forall i | 0 <= i < |cids| && (forall j :: i < j < |cids| ==> cids[j] != cids[i])
      ensures row[cids[i]] == lcs[i]
    {
      OverwriteLastWins(base, cids, lcs, i);
    }
  }

  /**
   * `sum(v_len[vid] for vid in vids)`, duplicates counted: None when some
   * id is not a valid Python index into `vLen`.
   */
  function SizeSum(vLen: seq<int>, vids: seq<int>): (r: Option<int>)
    ensures r.Some? <==> forall k :: 0 <= k < |vids| ==> PyIndex(vids[k], |vLen|).Some?
  {
    if |vids| == 0 then Some(0)
    else
      var last := PyIndex(vids[|vids| - 1], |vLen|);
      match SizeSum(vLen, vids[..|vids| - 1])
      case None => None
      case Some(s) => if last.None? then None else Some(s + vLen[last.value])
  }

  /** The sizes of two lists of ids add up. */
  lemma {:induction false} SizeSumAppend(vLen: seq<int>, a: seq<int>, b: seq<int>)
    requires SizeSum(vLen, a).Some? && SizeSum(vLen, b).Some?
    ensures SizeSum(vLen, a + b) == Some(SizeSum(vLen, a).value + SizeSum(vLen, b).value)
  {
    if |b| == 0 {
      assert a + b == a;
    } else {
      var n := |b| - 1;
      assert (a + b)[..|a + b| - 1] == a + b[..n];
      assert SizeSum(vLen, b[..n]).Some?;
      SizeSumAppend(vLen, a, b[..n]);
    }
  }

  /** The slot a cache line writes: Python's reading of its first number as an index into `cached`. */
  function Slot(line: seq<int>, c: int): Option<int>
  {
    if |line| == 0 then None else PyIndex(line[0], c)
  }

  /** The elements of `s` as a set: Python's `set(s)`. */
  function ElementsOf(s: seq<int>): (r: set<int>)
    ensures forall v :: v in r <==> v in s
  {
    set v | v in s
  }

  /** `set(line[1:])` of the last of the first `n` lines that writes slot k, if any. */
  function Filled(lines: seq<seq<int>>, n: int, c: int, k: int): Option<set<int>>
    requires 0 <= n <= |lines|
  {
    if n == 0 then None
    else if Slot(lines[n - 1], c) == Some(k) then Some(ElementsOf(lines[n - 1][1..]))
    else Filled(lines, n - 1, c, k)
  }

  /** A slot is filled exactly when one of the first n lines writes it. */
  lemma {:induction false} FilledIff(lines: seq<seq<int>>, n: int, c: int, k: int)
    requires 0 <= n <= |lines|
    ensures Filled(lines, n, c, k).Some? <==> exists j :: 0 <= j < n && Slot(lines[j], c) == Some(k)
  {
    if n > 0 {
      FilledIff(lines, n - 1, c, k);
    }
  }

  /**
   * The check of cache line i (scoring.py:43-52), given that the lines
   * before it passed: None when it passes, otherwise the refusal. A line
   * passes exactly when it names a valid slot that no earlier line named,
   * and its valid video ids total at most x.
   */
  function LineCheck(vLen: seq<int>, c: int, x: int, lines: seq<seq<int>>, i: int): (r: Option<ScoreError>)
    requires 0 <= i
    ensures r.None? <==>
              && i < |lines| && Slot(lines[i], c).Some?
              && (forall j :: 0 <= j < i ==> Slot(lines[j], c) != Slot(lines[i], c))
              && SizeSum(vLen, lines[i][1..]).Some? && SizeSum(vLen, lines[i][1..]).value <= x
    ensures r.Some? && r.value.RepeatedCache? ==>
              i < |lines| && exists j :: 0 <= j < i && Slot(lines[j], c) == Slot(lines[i], c)
    ensures r.Some? && r.value.OverCapacity? ==> r.value.csize > x
  {
    if i >= |lines| || Slot(lines[i], c).None? then Some(Malformed)
    else
      var k := Slot(lines[i], c).value;
      FilledIff(lines, i, c, k);
      if Filled(lines, i, c, k).Some? then Some(RepeatedCache(lines[i][0]))
      else
        match SizeSum(vLen, lines[i][1..])
        case None => Some(Malformed)
        case Some(csize) => if csize > x then Some(OverCapacity(lines[i][0], csize)) else None
  }

  /** The submission passes every check. */
  predicate Accepted(vLen: seq<int>, c: int, x: int, numCache: int, lines: seq<seq<int>>)
  {
    0 <= numCache <= c && forall i :: 0 <= i < numCache ==> LineCheck(vLen, c, x, lines, i).None?
  }

  /** `[cac or set() for cac in cached]`: an unwritten slot becomes the empty set. */
  function Finalize(cached: seq<Option<set<int>>>): (r: seq<set<int>>)
    ensures |r| == |cached|
    ensures forall k :: 0 <= k < |r| ==> r[k] == if cached[k].Some? then cached[k].value else {}
  {
    seq(|cached|, k requires 0 <= k < |cached| => if cached[k].Some? then cached[k].value else {})
  }

  /**
   * The validation loop (scoring.py:37-54). `numCache` is the first number
   * of the submission and `lines` its remaining lines, already split into
   * numbers. The submission is refused with TooManyCaches exactly when the
   * count is out of range, accepted exactly when every line passes, and
   * otherwise refused with the complaint of the first line that fails. An
   * accepted submission gives every cache the set its line lists, and the
   * empty set to caches no line names.
   */
  method ReadAssignment(vLen: seq<int>, c: nat, x: int, numCache: int, lines: seq<seq<int>>)
    returns (r: Result<seq<set<int>>, ScoreError>)
    ensures r == Err(TooManyCaches) <==> numCache > c || numCache < 0
    ensures r.Ok? <==> Accepted(vLen, c, x, numCache, lines)
    ensures r.Ok? ==>
              (numCache <= |lines| && |r.value| == c &&
               forall k :: 0 <= k < c ==>
                 r.value[k] == if Filled(lines, numCache, c, k).Some? then Filled(lines, numCache, c, k).value else {})
    ensures r.Err? && r.error != TooManyCaches ==>
              exists i :: 0 <= i < numCache && LineCheck(vLen, c, x, lines, i) == Some(r.error) &&
                forall j :: 0 <= j < i ==> LineCheck(vLen, c, x, lines, j).None?
  {
    var cached: seq<Option<set<int>>> := seq(c, _ => None);
    if numCache > c || numCache < 0 {
      return Err(TooManyCaches);
    }
    for i := 0 to numCache
      invariant |cached| == c && i <= |lines|
      invariant forall j :: 0 <= j < i ==> LineCheck(vLen, c, x, lines, j).None?
      invariant forall k :: 0 <= k < c ==> cached[k] == Filled(lines, i, c, k)
    {
      if i >= |lines| || |lines[i]| == 0 {
        assert LineCheck(vLen, c, x, lines, i) == Some(Malformed);
        return Err(Malformed);
      }
      var line := lines[i];
      var cid := line[0];
      var slot := PyIndex(cid, c);
      if slot.None? {
        assert LineCheck(vLen, c, x, lines, i) == Some(Malformed);
        return Err(Malformed);
      }
      if cached[slot.value].Some? {
        assert LineCheck(vLen, c, x, lines, i) == Some(RepeatedCache(cid));
        return Err(RepeatedCache(cid));
      }
      assert Filled(lines, i, c, slot.value).None?;
      cached := cached[slot.value := Some(ElementsOf(line[1..]))];
      var csize := SizeSum(vLen, line[1..]);
      if csize.None? {
        assert LineCheck(vLen, c, x, lines, i) == Some(Malformed);
        return Err(Malformed);
      }
      if csize.value > x {
        assert LineCheck(vLen, c, x, lines, i) == Some(OverCapacity(cid, csize.value));
        return Err(OverCapacity(cid, csize.value));
      }
    }
    r := Ok(Finalize(cached));
  }

  /** No two lines of an accepted submission fill the same cache. */
  lemma AcceptedSlotsDistinct(vLen: seq<int>, c: int, x: int, numCache: int, lines: seq<seq<int>>,
                              i: int, j: int)
    requires Accepted(vLen, c, x, numCache, lines) && 0 <= i < j < numCache
    ensures j < |lines| && Slot(lines[i], c).Some? && Slot(lines[i], c) != Slot(lines[j], c)
  {
    assert LineCheck(vLen, c, x, lines, i).None? && LineCheck(vLen, c, x, lines, j).None?;
    assert j <= |lines|;
    FilledIff(lines, j, c, Slot(lines[j], c).value);
  }

  /** Every line of an accepted submission lists videos that fit in x. */
  lemma AcceptedWithinCapacity(vLen: seq<int>, c: int, x: int, numCache: int, lines: seq<seq<int>>, i: int)
    requires Accepted(vLen, c, x, numCache, lines) && 0 <= i < numCache
    ensures i < |lines| && |lines[i]| > 0 && SizeSum(vLen, lines[i][1..]).Some? && SizeSum(vLen, lines[i][1..]).value <= x
  {
    assert LineCheck(vLen, c, x, lines, i).None?;
  }

  /**
   * `best` for one request: the datacenter latency `worst`, lowered to the
   * latency of every cache among the first n that holds the video.
   */
  function Best(worst: int, row: seq<int>, cached: seq<set<int>>, vid: int, n: int): int
    requires 0 <= n <= |cached| <= |row|
  {
    if n == 0 then worst
    else
      var b := Best(worst, row, cached, vid, n - 1);
      if vid in cached[n - 1] && row[n - 1] < b then row[n - 1] else b
  }

  /** Best is the minimum of worst and the latencies of the caches holding the video. */
  lemma {:induction false} BestIsMin(worst: int, row: seq<int>, cached: seq<set<int>>, vid: int, n: int)
    requires 0 <= n <= |cached| <= |row|
    ensures Best(worst, row, cached, vid, n) <= worst
    ensures forall i :: 0 <= i < n && vid in cached[i] ==> Best(worst, row, cached, vid, n) <= row[i]
    ensures Best(worst, row, cached, vid, n) == worst ||
            exists i :: 0 <= i < n && vid in cached[i] && Best(worst, row, cached, vid, n) == row[i]
  {
    if n > 0 {
      BestIsMin(worst, row, cached, vid, n - 1);
    }
  }

  /** Holding more can only lower best: cached[i] <= more[i] everywhere. */
  lemma {:induction false} BestAntitone(worst: int, row: seq<int>, cached: seq<set<int>>, more: seq<set<int>>,
                                        vid: int, n: int)
    requires 0 <= n <= |cached| == |more| <= |row|
    requires forall i :: 0 <= i < |cached| ==> cached[i] <= more[i]
    ensures Best(worst, row, more, vid, n) <= Best(worst, row, cached, vid, n)
  {
    if n > 0 {
      BestAntitone(worst, row, cached, more, vid, n - 1);
    }
  }

  /** The input the scorer reads: per endpoint a datacenter latency and a row of C latencies. */
  predicate ScoreInput(latDat: seq<int>, latCa: seq<seq<int>>, reqs: seq<Request>, c: int)
  {
    && |latCa| == |latDat|
    && (forall e :: 0 <= e < |latCa| ==> |latCa[e]| == c)
    && (forall k :: 0 <= k < |reqs| ==> 0 <= reqs[k].endpointId < |latDat|)
  }

  /** `(worst - best) * num` for one request. */
  function Gain(latDat: seq<int>, latCa: seq<seq<int>>, r: Request, cached: seq<set<int>>): int
    requires 0 <= r.endpointId < |latDat| == |latCa| && |cached| <= |latCa[r.endpointId]|
  {
    var worst := latDat[r.endpointId];
    (worst - Best(worst, latCa[r.endpointId], cached, r.videoId, |cached|)) * r.numReq
  }

  /** The raw score: Gain summed over the requests, in order. */
  function Total(latDat: seq<int>, latCa: seq<seq<int>>, reqs: seq<Request>, cached: seq<set<int>>): int
    requires ScoreInput(latDat, latCa, reqs, |cached|)
  {
    if |reqs| == 0 then 0
    else
      Total(latDat, latCa, reqs[..|reqs| - 1], cached) + Gain(latDat, latCa, reqs[|reqs| - 1], cached)
  }

  /**
   * The scoring loop (scoring.py:58-66): for each request a running
   * minimum over the caches holding its video, then `score += (worst -
   * best) * num`. The result is the raw score Total.
   */
  method RawScore(latDat: seq<int>, latCa: seq<seq<int>>, reqs: seq<Request>, cached: seq<set<int>>)
    returns (score: int)
    requires ScoreInput(latDat, latCa, reqs, |cached|)
    ensures score == Total(latDat, latCa, reqs, cached)
  {
    score := 0;
    for k := 0 to |reqs|
      invariant score == Total(latDat, latCa, reqs[..k], cached)
    {
      var r := reqs[k];
      var worst := latDat[r.endpointId];
      var best := worst;
      for i := 0 to |cached|
        invariant best == Best(worst, latCa[r.endpointId], cached, r.videoId, i)
      {
        if r.videoId in cached[i] {
          best := if best <= latCa[r.endpointId][i] then best else latCa[r.endpointId][i];
        }
      }
      assert reqs[..k + 1][..k] == reqs[..k];
      score := score + (worst - best) * r.numReq;
    }
    assert reqs[..|reqs|] == reqs;
  }

  /** A request with a non-negative count never lowers the score. */
  lemma GainNonNegative(latDat: seq<int>, latCa: seq<seq<int>>, r: Request, cached: seq<set<int>>)
    requires 0 <= r.endpointId < |latDat| == |latCa| && |cached| <= |latCa[r.endpointId]|
    requires r.numReq >= 0
    ensures Gain(latDat, latCa, r, cached) >= 0
  {
    var worst := latDat[r.endpointId];
    BestIsMin(worst, latCa[r.endpointId], cached, r.videoId, |cached|);
    var d := worst - Best(worst, latCa[r.endpointId], cached, r.videoId, |cached|);
    assert d >= 0;
    assert d * r.numReq >= 0;
  }

  /** An assignment that caches nothing scores 0. */
  lemma {:induction false} EmptyScoresZero(latDat: seq<int>, latCa: seq<seq<int>>, reqs: seq<Request>,
                                           cached: seq<set<int>>)
    requires ScoreInput(latDat, latCa, reqs, |cached|)
    requires forall i :: 0 <= i < |cached| ==> cached[i] == {}
    ensures Total(latDat, latCa, reqs, cached) == 0
  {
    if |reqs| > 0 {
      var n := |reqs| - 1;
      EmptyScoresZero(latDat, latCa, reqs[..n], cached);
      var r := reqs[n];
      NothingHeld(latDat[r.endpointId], latCa[r.endpointId], cached, r.videoId, |cached|);
    }
  }

  lemma {:induction false} NothingHeld(worst: int, row: seq<int>, cached: seq<set<int>>, vid: int, n: int)
    requires 0 <= n <= |cached| <= |row|
    requires forall i :: 0 <= i < |cached| ==> cached[i] == {}
    ensures Best(worst, row, cached, vid, n) == worst
  {
    if n > 0 {
      NothingHeld(worst, row, cached, vid, n - 1);
    }
  }

  lemma ScaleMonotone(a: int, b: int, n: int)
    requires a <= b && n >= 0
    ensures a * n <= b * n
  {
    assert b * n - a * n == (b - a) * n;
  }

  /**
   * Caching more never lowers the score when no request count is negative:
   * if every cache of `more` holds at least what it holds in `cached`, the
   * raw score of `more` is at least that of `cached`.
   */
  lemma {:induction false} ScoreMonotone(latDat: seq<int>, latCa: seq<seq<int>>, reqs: seq<Request>,
                                         cached: seq<set<int>>, more: seq<set<int>>)
    requires ScoreInput(latDat, latCa, reqs, |cached|) && |more| == |cached|
    requires forall i :: 0 <= i < |cached| ==> cached[i] <= more[i]
    requires forall k :: 0 <= k < |reqs| ==> reqs[k].numReq >= 0
    ensures Total(latDat, latCa, reqs, cached) <= Total(latDat, latCa, reqs, more)
  {
    if |reqs| > 0 {
      var n := |reqs| - 1;
      ScoreMonotone(latDat, latCa, reqs[..n], cached, more);
      var r := reqs[n];
      var worst := latDat[r.endpointId];
      var row := latCa[r.endpointId];
      BestAntitone(worst, row, cached, more, r.videoId, |cached|);
      var b1 := Best(worst, row, cached, r.videoId, |cached|);
      var b2 := Best(worst, row, more, r.videoId, |cached|);
      ScaleMonotone(worst - b1, worst - b2, r.numReq);
    }
  }
}
