/**
 * The loop of greedy2.cpp's `main` as a transition system on values. A
 * state is the savings matrix (row by row), the videos each cache holds in
 * placement order, and each cache's free space. A step takes the last
 * maximal pair of the matrix, provided its entry is at least 0, and either
 * marks it CannotFit or commits the video to the cache. A run is a chain of
 * such steps, and a complete run ends in a matrix whose entries are all
 * negative.
 */
module Placement {
  import opened Catalogue
  import opened Savings
  import opened Grids

  /** The entry of a placed pair. */
  const Committed: int := -1
  /** The entry of a pair whose video did not fit. */
  const CannotFit: int := -2

  /** (i, j) comes after (c, v) when the matrix is scanned cache by cache, video by video. */
  predicate After(i: int, j: int, c: int, v: int)
  {
    i > c || (i == c && j > v)
  }

  /** (c, v) holds a maximum entry of `g` and every later entry in scan order is smaller. */
  predicate LastMaxOf(g: seq<seq<int>>, c: int, v: int)
  {
    && 0 <= c < |g| && 0 <= v < |g[c]|
    && (forall i, j :: 0 <= i < |g| && 0 <= j < |g[i]| ==> g[i][j] <= g[c][v])
    && (forall i, j :: 0 <= i < |g| && 0 <= j < |g[i]| && After(i, j, c, v) ==> g[i][j] < g[c][v])
  }

  /** The tie-break makes the choice unique: a matrix has one last maximum. */
  lemma LastMaxUnique(g: seq<seq<int>>, c1: int, v1: int, c2: int, v2: int)
    requires LastMaxOf(g, c1, v1) && LastMaxOf(g, c2, v2)
    ensures c1 == c2 && v1 == v2
  {
    assert g[c2][v2] <= g[c1][v1] && g[c1][v1] <= g[c2][v2];
    assert !After(c1, v1, c2, v2) && !After(c2, v2, c1, v1);
  }

  /**
   * `get_best_video_to_cache` as written, on the matrix rows: a row-major
   * scan from a best of -10. `unset` stands for the uninitialised
   * `best_cache` and `best_video`; they are returned as they are when no
   * entry reaches -10.
   */
  function ScanBest(g: seq<seq<int>>, unset: (int, int)): (int, int)
  {
    ScanFrom(g, 0, (unset, -10)).0
  }

  /** Rows c onward, carrying the best pair and its entry so far. */
  function ScanFrom(g: seq<seq<int>>, c: int, acc: ((int, int), int)): ((int, int), int)
    requires 0 <= c <= |g|
    decreases |g| - c
  {
    if c == |g| then acc else ScanFrom(g, c + 1, ScanRow(g[c], c, 0, acc))
  }

  /** Entries v onward of row c; `>=` lets a later equal entry take over. */
  function ScanRow(row: seq<int>, c: int, v: int, acc: ((int, int), int)): ((int, int), int)
    requires 0 <= v <= |row|
    decreases |row| - v
  {
    if v == |row| then acc
    else ScanRow(row, c, v + 1, if row[v] >= acc.1 then ((c, v), row[v]) else acc)
  }

  /** A row whose remaining entries are all below the best so far leaves it as it is. */
  lemma {:induction false} ScanRowBelow(row: seq<int>, c: int, v: int, acc: ((int, int), int))
    requires 0 <= v <= |row|
    requires forall j :: v <= j < |row| ==> row[j] < acc.1
    ensures ScanRow(row, c, v, acc) == acc
    decreases |row| - v
  {
    if v < |row| {
      ScanRowBelow(row, c, v + 1, acc);
    }
  }

  /** Rows whose entries are all below the best so far leave it as it is. */
  lemma {:induction false} ScanFromBelow(g: seq<seq<int>>, c: int, acc: ((int, int), int))
    requires 0 <= c <= |g|
    requires forall i, j :: c <= i < |g| && 0 <= j < |g[i]| ==> g[i][j] < acc.1
    ensures ScanFrom(g, c, acc) == acc
    decreases |g| - c
  {
    if c < |g| {
      ScanRowBelow(g[c], c, 0, acc);
      ScanFromBelow(g, c + 1, acc);
    }
  }

  /**
   * When no entry reaches -10 (always so with no cache or no video) the
   * scan hands back the uninitialised indexes, which the loop then uses to
   * index the matrix: with C == 0 that read is outside the matrix.
   */
  lemma NoCandidateLeavesUnset(g: seq<seq<int>>, unset: (int, int))
    requires forall i, j :: 0 <= i < |g| && 0 <= j < |g[i]| ==> g[i][j] < -10
    ensures ScanBest(g, unset) == unset
    ensures |g| == 0 ==> !(0 <= ScanBest(g, unset).0 < |g|)
  {
    ScanFromBelow(g, 0, (unset, -10));
  }

  /** Every entry is negative: the loop's `break`. */
  predicate Finished(g: seq<seq<int>>)
  {
    forall i, j :: 0 <= i < |g| && 0 <= j < |g[i]| ==> g[i][j] < 0
  }

  /** `savings`, `videos_per_cache` and `cache_space_left` between iterations. */
  datatype State = State(grid: seq<seq<int>>, held: seq<seq<int>>, space: seq<int>)

  /** A C x V matrix, C lists and C free-space entries. */
  predicate Sized(cat: Catalogue, st: State)
  {
    && |st.grid| == cat.caches && Rectangular(st.grid, |cat.videos|)
    && |st.held| == cat.caches && |st.space| == cat.caches
  }

  /** The initial matrix of the catalogue, entry (c, v) being `Saving(cat, c, v)`. */
  function InitialGrid(cat: Catalogue): (g: seq<seq<int>>)
    requires WellFormed(cat)
    ensures |g| == cat.caches && Rectangular(g, |cat.videos|)
    ensures forall c, v :: 0 <= c < cat.caches && 0 <= v < |cat.videos| ==> g[c][v] == Saving(cat, c, v)
  {
    seq(cat.caches, c requires 0 <= c < cat.caches =>
      seq(|cat.videos|, v requires 0 <= v < |cat.videos| => Saving(cat, c, v)))
  }

  /** The state the loop starts from: matrix `g`, no video placed, every cache with X free. */
  function Begin(cat: Catalogue, g: seq<seq<int>>): State
    requires WellFormed(cat)
  {
    State(g, seq(cat.caches, _ => []), seq(cat.caches, _ => cat.capacity))
  }

  /** The net effect of `update_savings_for_video(savings, v)`: positive entries of column v become 0. */
  function ResetColumn(g: seq<seq<int>>, v: int): (r: seq<seq<int>>)
    ensures |r| == |g| && forall i :: 0 <= i < |g| ==> |r[i]| == |g[i]|
    ensures forall i, j :: 0 <= i < |g| && 0 <= j < |g[i]| ==>
              r[i][j] == if j == v && g[i][j] > 0 then 0 else g[i][j]
  {
    seq(|g|, i requires 0 <= i < |g| => if 0 <= v < |g[i]| && g[i][v] > 0 then g[i][v := 0] else g[i])
  }

  /**
   * The body of the loop on pair (c, v): when the video is larger than the
   * cache's free space the entry becomes CannotFit; otherwise the space
   * shrinks by the video's size, the video joins the cache's list, the
   * entry becomes Committed and the video's column is updated.
   */
  function Advance(cat: Catalogue, st: State, c: int, v: int): (r: State)
    requires Sized(cat, st) && 0 <= c < cat.caches && 0 <= v < |cat.videos|
    ensures Sized(cat, r)
  {
    var size := cat.videos[v].size;
    if st.space[c] < size then
      st.(grid := st.grid[c := st.grid[c][v := CannotFit]])
    else
      State(ResetColumn(st.grid[c := st.grid[c][v := Committed]], v),
            st.held[c := st.held[c] + [v]],
            st.space[c := st.space[c] - size])
  }

  /** One iteration that does not break: `get_best_video_to_cache` picks p, whose entry is >= 0. */
  predicate GreedyStep(cat: Catalogue, st: State, p: (int, int), next: State)
  {
    && Sized(cat, st) && LastMaxOf(st.grid, p.0, p.1) && st.grid[p.0][p.1] >= 0
    && next == Advance(cat, st, p.0, p.1)
  }

  /** `trace[k + 1]` follows from `trace[k]` by a step on `picks[k]`. */
  predicate IsRun(cat: Catalogue, trace: seq<State>, picks: seq<(int, int)>)
  {
    |trace| == |picks| + 1 &&
    forall k :: 0 <= k < |picks| ==> GreedyStep(cat, trace[k], picks[k], trace[k + 1])
  }

  /** A run that has reached the `break`: every entry of its last matrix is negative. */
  predicate Complete(cat: Catalogue, trace: seq<State>, picks: seq<(int, int)>)
  {
    IsRun(cat, trace, picks) && Finished(trace[|trace| - 1].grid)
  }

  /** The k-th step of a run. */
  lemma StepOfRun(cat: Catalogue, trace: seq<State>, picks: seq<(int, int)>, k: int)
    ensures IsRun(cat, trace, picks) && 0 <= k < |picks| ==> GreedyStep(cat, trace[k], picks[k], trace[k + 1])
  {
  }

  /** A run extends by one more step at its end. */
  lemma RunSnoc(cat: Catalogue, trace: seq<State>, picks: seq<(int, int)>, p: (int, int), next: State)
    requires IsRun(cat, trace, picks) && GreedyStep(cat, trace[|trace| - 1], p, next)
    ensures IsRun(cat, trace + [next], picks + [p])
  {
    var t, q := trace + [next], picks + [p];
    forall k | 0 <= k < |q|
      ensures GreedyStep(cat, t[k], q[k], t[k + 1])
    {
      if k < |picks| {
        assert t[k] == trace[k] && q[k] == picks[k] && t[k + 1] == trace[k + 1];
      }
    }
  }

  /** From a given state at most one step is possible: the pick and the next state are determined. */
  lemma StepDeterministic(cat: Catalogue, st: State, p1: (int, int), n1: State, p2: (int, int), n2: State)
    requires GreedyStep(cat, st, p1, n1) && GreedyStep(cat, st, p2, n2)
    ensures p1 == p2 && n1 == n2
  {
    LastMaxUnique(st.grid, p1.0, p1.1, p2.0, p2.1);
  }

  /** A step retires its pair, and entries that were negative keep their value. */
  lemma StepRetires(cat: Catalogue, st: State, p: (int, int), next: State)
    requires GreedyStep(cat, st, p, next)
    ensures next.grid[p.0][p.1] < 0 && st.grid[p.0][p.1] >= 0
    ensures forall i, j :: 0 <= i < |st.grid| && 0 <= j < |st.grid[i]| && st.grid[i][j] < 0 ==>
              next.grid[i][j] == st.grid[i][j]
  {
  }

  /** Every pair of `retired` is an index pair of `g` with a negative entry. */
  predicate Retired(g: seq<seq<int>>, retired: set<(int, int)>)
  {
    forall p :: p in retired ==> 0 <= p.0 < |g| && 0 <= p.1 < |g[p.0]| && g[p.0][p.1] < 0
  }

  /** Retiring (c, v) adds a pair that was not retired before and keeps the others retired. */
  lemma AdvanceRetires(cat: Catalogue, st: State, c: int, v: int, retired: set<(int, int)>)
    requires Sized(cat, st) && 0 <= c < cat.caches && 0 <= v < |cat.videos| && st.grid[c][v] >= 0
    requires Retired(st.grid, retired)
    ensures Retired(Advance(cat, st, c, v).grid, retired + {(c, v)})
    ensures (c, v) !in retired && |retired + {(c, v)}| == |retired| + 1
  {
  }

  /**
   * The greedy placement is a function of its start: two complete runs
   * from the same state make the same picks through the same states.
   */
  lemma {:induction false} RunDeterministic(cat: Catalogue, t1: seq<State>, p1: seq<(int, int)>,
                                            t2: seq<State>, p2: seq<(int, int)>)
    requires Complete(cat, t1, p1) && Complete(cat, t2, p2) && t1[0] == t2[0]
    ensures t1 == t2 && p1 == p2
    decreases |p1|
  {
    if |p1| == 0 && |p2| == 0 {
      assert t1 == [t1[0]] && t2 == [t2[0]];
    } else if |p1| == 0 {
      // a finished state admits no step, since a step needs an entry >= 0
      StepOfRun(cat, t2, p2, 0);
      assert false;
    } else if |p2| == 0 {
      StepOfRun(cat, t1, p1, 0);
      assert false;
    } else {
      StepOfRun(cat, t1, p1, 0);
      StepOfRun(cat, t2, p2, 0);
      StepDeterministic(cat, t1[0], p1[0], t1[1], p2[0], t2[1]);
      CompleteTail(cat, t1, p1);
      CompleteTail(cat, t2, p2);
      RunDeterministic(cat, t1[1..], p1[1..], t2[1..], p2[1..]);
      assert t1 == [t1[0]] + t1[1..] && t2 == [t2[0]] + t2[1..];
      assert p1 == [p1[0]] + p1[1..] && p2 == [p2[0]] + p2[1..];
    }
  }

  /** What is left of a complete run after its first step is a complete run. */
  lemma CompleteTail(cat: Catalogue, trace: seq<State>, picks: seq<(int, int)>)
    requires Complete(cat, trace, picks) && |picks| > 0
    ensures Complete(cat, trace[1..], picks[1..])
  {
    var t, q := trace[1..], picks[1..];
    forall k | 0 <= k < |q|
      ensures GreedyStep(cat, t[k], q[k], t[k + 1])
    {
      assert t[k] == trace[k + 1] && q[k] == picks[k + 1] && t[k + 1] == trace[k + 2];
    }
    assert t[|t| - 1] == trace[|trace| - 1];
  }

  /** With no cache or no video the matrix is empty, so a complete run makes no step. */
  lemma EmptyRunStops(cat: Catalogue, trace: seq<State>, picks: seq<(int, int)>)
    requires Complete(cat, trace, picks) && Sized(cat, trace[0])
    requires cat.caches == 0 || |cat.videos| == 0
    ensures picks == [] && trace == [trace[0]]
  {
    if |picks| > 0 {
      StepOfRun(cat, trace, picks, 0);
      assert false;
    }
    assert trace == [trace[0]];
  }
}
