/**
 * Sequence facts shared by the models: index bounds, ordering, duplicates,
 * and the "write a list of (index, value) pairs into a table, last write
 * wins" construction that the endpoint latency tables, the scoring
 * latency table and multi-indexed view assignment all perform.
 */
module Seqs {

  /** Every element of `ids` is a valid index into a sequence of length `n`. */
  predicate InBounds(ids: seq<int>, n: int)
  {
    forall k :: 0 <= k < |ids| ==> 0 <= ids[k] < n
  }

  /** Strictly increasing, hence also free of duplicates. */
  predicate Increasing(s: seq<int>)
  {
    forall i, j :: 0 <= i < j < |s| ==> s[i] < s[j]
  }

  /** An index above every element of an increasing sequence extends it. */
  lemma IncreasingSnoc(m: seq<int>, n: int)
    requires Increasing(m) && InBounds(m, n) && n >= 0
    ensures Increasing(m + [n]) && InBounds(m + [n], n + 1)
  {
    var r := m + [n];
    forall i, j | 0 <= i < j < |r|
      ensures r[i] < r[j]
    {
      assert r[i] == m[i];
      if j < |m| {
        assert r[j] == m[j];
      }
    }
    forall k | 0 <= k < |r|
      ensures 0 <= r[k] < n + 1
    {
      if k < |m| {
        assert r[k] == m[k];
      }
    }
  }

  predicate NoDuplicates<T(==)>(s: seq<T>)
  {
    forall i, j :: 0 <= i < j < |s| ==> s[i] != s[j]
  }

  /** The position of the last occurrence of `p` in `ids`, or -1 if there is none. */
  function LastIndexOf(ids: seq<int>, p: int): (r: int)
    ensures -1 <= r < |ids|
    ensures r >= 0 ==> ids[r] == p
    ensures forall k :: r < k < |ids| ==> ids[k] != p
  {
    if |ids| == 0 then -1
    else if ids[|ids| - 1] == p then |ids| - 1
    else LastIndexOf(ids[..|ids| - 1], p)
  }

  /**
   * `base` after `base[ids[0]] := vals[0]`, `base[ids[1]] := vals[1]`, ...
   * in that order.
   */
  function Overwrite<T>(base: seq<T>, ids: seq<int>, vals: seq<T>): (r: seq<T>)
    requires |ids| == |vals| && InBounds(ids, |base|)
    ensures |r| == |base|
  {
    if |ids| == 0 then base
    else Overwrite(base, ids[..|ids| - 1], vals[..|vals| - 1])[ids[|ids| - 1] := vals[|vals| - 1]]
  }

  /** Each position holds the value of the last write to it, or its base value if never written. */
  lemma {:induction false} OverwriteAt<T>(base: seq<T>, ids: seq<int>, vals: seq<T>, p: int)
    requires |ids| == |vals| && InBounds(ids, |base|) && 0 <= p < |base|
    ensures Overwrite(base, ids, vals)[p] ==
              if LastIndexOf(ids, p) < 0 then base[p] else vals[LastIndexOf(ids, p)]
  {
    if |ids| > 0 {
      var n := |ids| - 1;
      if ids[n] != p {
        OverwriteAt(base, ids[..n], vals[..n], p);
      }
    }
  }

  /** A position that no write names keeps its base value. */
  lemma OverwriteUnlisted<T>(base: seq<T>, ids: seq<int>, vals: seq<T>, p: int)
    requires |ids| == |vals| && InBounds(ids, |base|) && 0 <= p < |base| && p !in ids
    ensures Overwrite(base, ids, vals)[p] == base[p]
  {
    OverwriteAt(base, ids, vals, p);
  }

  /** A write that no later write to the same position undoes survives. */
  lemma OverwriteLastWins<T>(base: seq<T>, ids: seq<int>, vals: seq<T>, i: int)
    requires |ids| == |vals| && InBounds(ids, |base|) && 0 <= i < |ids|
    requires forall k :: i < k < |ids| ==> ids[k] != ids[i]
    ensures Overwrite(base, ids, vals)[ids[i]] == vals[i]
  {
    OverwriteAt(base, ids, vals, ids[i]);
  }

  /** One more write extends the construction by one step. */
  lemma OverwriteSnoc<T>(base: seq<T>, ids: seq<int>, vals: seq<T>, i: int)
    requires |ids| == |vals| && InBounds(ids, |base|) && 0 <= i < |ids|
    ensures Overwrite(base, ids[..i + 1], vals[..i + 1]) ==
              Overwrite(base, ids[..i], vals[..i])[ids[i] := vals[i]]
  {
    assert ids[..i + 1][..i] == ids[..i];
    assert vals[..i + 1][..i] == vals[..i];
  }
}
