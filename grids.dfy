/**
 * A C x V savings matrix read as a sequence of rows, and the set of its
 * index pairs, which bounds how often the greedy loop of greedy2.cpp can
 * retire a pair.
 */
module Grids {

  /** The contents of `s`, row by row. */
  ghost function Grid(s: array2<int>): (g: seq<seq<int>>)
    reads s
    ensures |g| == s.Length0
    ensures forall i :: 0 <= i < |g| ==> |g[i]| == s.Length1
    ensures forall i, j :: 0 <= i < |g| && 0 <= j < s.Length1 ==> g[i][j] == s[i, j]
  {
    seq(s.Length0, i requires 0 <= i < s.Length0 reads s =>
      seq(s.Length1, j requires 0 <= j < s.Length1 reads s => s[i, j]))
  }

  /** An array holding `g` entry by entry has `g` as its contents. */
  lemma GridIs(s: array2<int>, g: seq<seq<int>>)
    requires |g| == s.Length0 && Rectangular(g, s.Length1)
    requires forall i, j :: 0 <= i < s.Length0 && 0 <= j < s.Length1 ==> s[i, j] == g[i][j]
    ensures Grid(s) == g
  {
    var h := Grid(s);
    forall i | 0 <= i < |g|
      ensures h[i] == g[i]
    {
      assert forall j :: 0 <= j < s.Length1 ==> h[i][j] == g[i][j];
    }
  }

  /** Every row has `n` entries. */
  predicate Rectangular(g: seq<seq<int>>, n: int)
  {
    forall i :: 0 <= i < |g| ==> |g[i]| == n
  }

  /** The pairs (i, j) of row i with 0 <= j < m. */
  ghost function Row(i: int, m: nat): set<(int, int)>
  {
    set j | 0 <= j < m :: (i, j)
  }

  /** The index pairs of an n x m matrix. */
  ghost function Pairs(n: nat, m: nat): set<(int, int)>
  {
    if n == 0 then {} else Pairs(n - 1, m) + Row(n - 1, m)
  }

  lemma {:induction false} InPairs(n: nat, m: nat, p: (int, int))
    ensures p in Pairs(n, m) <==> 0 <= p.0 < n && 0 <= p.1 < m
  {
    if n > 0 {
      InPairs(n - 1, m, p);
      assert p in Row(n - 1, m) <==> p.0 == n - 1 && 0 <= p.1 < m;
    }
  }

  lemma {:induction false} SubsetCard<T>(a: set<T>, b: set<T>)
    requires a <= b
    ensures |a| <= |b|
  {
    if a != {} {
      var x :| x in a;
      SubsetCard(a - {x}, b - {x});
    }
  }

  lemma {:induction false} RowCard(i: int, m: nat)
    ensures |Row(i, m)| == m
  {
    if m > 0 {
      RowCard(i, m - 1);
      assert Row(i, m) == Row(i, m - 1) + {(i, m - 1)};
    }
  }

  /** n rows of m: m added n times. */
  function Area(n: nat, m: nat): nat
  {
    if n == 0 then 0 else Area(n - 1, m) + m
  }

  lemma {:induction false} AreaIsProduct(n: nat, m: nat)
    ensures Area(n, m) == n * m
  {
    if n > 0 {
      AreaIsProduct(n - 1, m);
      assert n * m == (n - 1) * m + m;
    }
  }

  lemma {:induction false} PairsCard(n: nat, m: nat)
    ensures |Pairs(n, m)| <= Area(n, m)
  {
    if n > 0 {
      PairsCard(n - 1, m);
      RowCard(n - 1, m);
    }
  }

  /** A set of index pairs of an n x m matrix has at most n * m elements. */
  lemma PairsBound(k: set<(int, int)>, n: nat, m: nat)
    requires forall p :: p in k ==> 0 <= p.0 < n && 0 <= p.1 < m
    ensures |k| <= n * m
  {
    forall p | p in k
      ensures p in Pairs(n, m)
    {
      InPairs(n, m, p);
    }
    SubsetCard(k, Pairs(n, m));
    PairsCard(n, m);
    AreaIsProduct(n, m);
  }
}
