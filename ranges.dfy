/**
 * `Range<T>` and its non-contiguous `RangeView` (solvers/greedy/types.hpp):
 * a growable sequence with bounds-checked indexing, multi-indexed reads and
 * views, index filters, appending and joining; a view writes through a list
 * of positions into the Range it views, compares with other views, and can
 * delete the positions it names from that Range.
 *
 * `std::vector<T>` becomes a `seq<T>` field that the methods reassign; an
 * `indexes_t` is a `seq<int>`.
 */
module Ranges {
  import opened Seqs

  // ----- specification functions -----

  /** `res[k] == s[idx[k]]` for every k: the multi-indexed read. */
  function Select<T>(s: seq<T>, idx: seq<int>): (r: seq<T>)
    requires InBounds(idx, |s|)
    ensures |r| == |idx| && forall k :: 0 <= k < |idx| ==> r[k] == s[idx[k]]
  {
    seq(|idx|, k requires 0 <= k < |idx| => s[idx[k]])
  }

  /** The positions of `s` whose element satisfies `pred`, in increasing order. */
  function Matching<T>(s: seq<T>, pred: T -> bool): seq<int>
  {
    if |s| == 0 then []
    else Matching(s[..|s| - 1], pred) + (if pred(s[|s| - 1]) then [|s| - 1] else [])
  }

  /** What `filter` promises: exactly the matching positions, each once, in increasing order. */
  lemma {:induction false} MatchingSpec<T>(s: seq<T>, pred: T -> bool)
    ensures Increasing(Matching(s, pred)) && InBounds(Matching(s, pred), |s|)
    ensures forall i :: i in Matching(s, pred) <==> 0 <= i < |s| && pred(s[i])
  {
    if |s| > 0 {
      var n := |s| - 1;
      var t := s[..n];
      MatchingSpec(t, pred);
      var m := Matching(t, pred);
      if pred(s[n]) {
        assert Matching(s, pred) == m + [n];
        IncreasingSnoc(m, n);
        forall i
          ensures i in m + [n] <==> 0 <= i < |s| && pred(s[i])
        {
          if 0 <= i < n {
            assert t[i] == s[i];
          }
        }
      } else {
        assert Matching(s, pred) == m;
        forall i
          ensures i in m <==> 0 <= i < |s| && pred(s[i])
        {
          if 0 <= i < n {
            assert t[i] == s[i];
          }
        }
      }
    }
  }

  /** The comparison operators `<`, `>`, `<=`, `>=`, `==`, `!=` against a value. */
  datatype Cmp = Lt | Gt | Le | Ge | Eq | Ne

  predicate Holds(op: Cmp, t: int, v: int)
  {
    match op
    case Lt => t < v
    case Gt => t > v
    case Le => t <= v
    case Ge => t >= v
    case Eq => t == v
    case Ne => t != v
  }

  /**
   * `receiver[modifier[i]] = receiver[i]` for i below n, in order: view
   * assignment from the very Range the view writes into, where each read
   * sees the earlier writes.
   */
  function SelfOverwrite<T>(s: seq<T>, mod: seq<int>, n: int): (r: seq<T>)
    requires InBounds(mod, |s|) && 0 <= n <= |mod| <= |s|
    ensures |r| == |s|
  {
    if n == 0 then s
    else
      var t := SelfOverwrite(s, mod, n - 1);
      t[mod[n - 1] := t[n - 1]]
  }

  /** Scalar view assignment: the named positions hold `x`, all others are unchanged. */
  lemma ScalarOverwrite<T>(s: seq<T>, mod: seq<int>, x: T, p: int)
    requires InBounds(mod, |s|) && 0 <= p < |s|
    ensures Overwrite(s, mod, seq(|mod|, _ => x))[p] == if p in mod then x else s[p]
  {
    var vals := seq(|mod|, _ => x);
    OverwriteAt(s, mod, vals, p);
    if p in mod {
      var k :| 0 <= k < |mod| && mod[k] == p;
      assert LastIndexOf(mod, p) >= k;
    }
  }

  /** `tmp` after `std::sort` and `std::unique`: `x` put into the increasing `s`, unless already there. */
  function InsertUnique(x: int, s: seq<int>): seq<int>
  {
    if |s| == 0 then [x]
    else if x < s[0] then [x] + s
    else if x == s[0] then s
    else [s[0]] + InsertUnique(x, s[1..])
  }

  lemma {:induction false} InsertUniqueSpec(x: int, s: seq<int>)
    requires Increasing(s)
    ensures Increasing(InsertUnique(x, s))
    ensures forall y :: y in InsertUnique(x, s) <==> y == x || y in s
  {
    if |s| > 0 && x > s[0] {
      var t := s[1..];
      assert Increasing(t);
      InsertUniqueSpec(x, t);
      var u := InsertUnique(x, t);
      assert forall k :: 0 <= k < |t| ==> t[k] == s[k + 1];
      forall k | 0 <= k < |u|
        ensures s[0] < u[k]
      {
        assert u[k] in u;
      }
      assert InsertUnique(x, s) == [s[0]] + u;
      assert s == [s[0]] + t;
    }
  }

  /** The distinct elements of `m` in increasing order. */
  function SortedUnique(m: seq<int>): seq<int>
  {
    if |m| == 0 then [] else InsertUnique(m[|m| - 1], SortedUnique(m[..|m| - 1]))
  }

  lemma {:induction false} SortedUniqueSpec(m: seq<int>)
    ensures Increasing(SortedUnique(m))
    ensures forall y :: y in SortedUnique(m) <==> y in m
  {
    if |m| > 0 {
      var n := |m| - 1;
      SortedUniqueSpec(m[..n]);
      InsertUniqueSpec(m[n], SortedUnique(m[..n]));
      assert m == m[..n] + [m[n]];
    }
  }

  /** The elements of the first n positions of `s` that `drop` does not name, in order. */
  function Keep<T>(s: seq<T>, drop: seq<int>, n: int): (r: seq<T>)
    requires 0 <= n <= |s|
    ensures |r| <= n
  {
    if n == 0 then []
    else Keep(s, drop, n - 1) + (if n - 1 in drop then [] else [s[n - 1]])
  }

  /** What `remove` leaves: the elements at positions `drop` does not name, in their order. */
  function Survivors<T>(s: seq<T>, drop: seq<int>): seq<T>
  {
    Keep(s, drop, |s|)
  }

  /** The positions below n that `drop` does not name, in increasing order. */
  function Kept(drop: seq<int>, n: int): seq<int>
    requires 0 <= n
  {
    if n == 0 then [] else Kept(drop, n - 1) + (if n - 1 in drop then [] else [n - 1])
  }

  /** The kept positions are increasing and are exactly the positions below n that are not named. */
  lemma KeptSpec(drop: seq<int>, n: int)
    requires 0 <= n
    ensures Increasing(Kept(drop, n)) && InBounds(Kept(drop, n), n)
    ensures forall p :: p in Kept(drop, n) <==> 0 <= p < n && p !in drop
  {
    KeptIncreasing(drop, n);
    KeptMembers(drop, n);
  }

  /** The kept positions below n are increasing and below n. */
  lemma {:induction false} KeptIncreasing(drop: seq<int>, n: int)
    requires 0 <= n
    ensures Increasing(Kept(drop, n)) && InBounds(Kept(drop, n), n)
  {
    if n > 0 {
      KeptIncreasing(drop, n - 1);
      var k := Kept(drop, n - 1);
      if n - 1 in drop {
        assert Kept(drop, n) == k;
      } else {
        assert Kept(drop, n) == k + [n - 1];
        IncreasingSnoc(k, n - 1);
      }
    }
  }

  /** A position is kept exactly when it is below n and not named. */
  lemma {:induction false} KeptMembers(drop: seq<int>, n: int)
    requires 0 <= n
    ensures forall p :: p in Kept(drop, n) <==> 0 <= p < n && p !in drop
  {
    if n > 0 {
      KeptMembers(drop, n - 1);
    }
  }

  /**
   * Survivors are the picks of the kept positions, which are increasing
   * and are exactly the positions not named: `remove` deletes the named
   * positions and keeps the others in their relative order.
   */
  lemma SurvivorsAreKept<T>(s: seq<T>, drop: seq<int>, n: int)
    requires 0 <= n <= |s|
    ensures Increasing(Kept(drop, n)) && InBounds(Kept(drop, n), n)
    ensures forall p :: p in Kept(drop, n) <==> 0 <= p < n && p !in drop
    ensures Keep(s, drop, n) == Select(s, Kept(drop, n))
  {
    KeptSpec(drop, n);
    KeepIsSelect(s, drop, n);
  }

  /** Keeping the unnamed elements reads `s` at the kept positions. */
  lemma {:induction false} KeepIsSelect<T>(s: seq<T>, drop: seq<int>, n: int)
    requires 0 <= n <= |s|
    ensures InBounds(Kept(drop, n), |s|) && Keep(s, drop, n) == Select(s, Kept(drop, n))
  {
    if n > 0 {
      KeepIsSelect(s, drop, n - 1);
      var k := Kept(drop, n - 1);
      if n - 1 in drop {
        assert Kept(drop, n) == k;
        assert Keep(s, drop, n) == Keep(s, drop, n - 1);
      } else {
        assert Kept(drop, n) == k + [n - 1];
        SelectSnoc(s, k, n - 1);
      }
    }
  }

  /** Reading one more index appends that element. */
  lemma SelectSnoc<T>(s: seq<T>, idx: seq<int>, i: int)
    requires InBounds(idx, |s|) && 0 <= i < |s|
    ensures InBounds(idx + [i], |s|) && Select(s, idx + [i]) == Select(s, idx) + [s[i]]
  {
    var r := idx + [i];
    forall k | 0 <= k < |r|
      ensures 0 <= r[k] < |s|
    {
      if k < |idx| {
        assert r[k] == idx[k];
      }
    }
    assert Select(s, r)[|idx|] == s[i];
  }

  /** Naming the same positions removes the same elements. */
  lemma {:induction false} KeepSameNames<T>(s: seq<T>, a: seq<int>, b: seq<int>, n: int)
    requires 0 <= n <= |s|
    requires forall p :: p in a <==> p in b
    ensures Keep(s, a, n) == Keep(s, b, n)
  {
    if n > 0 {
      KeepSameNames(s, a, b, n - 1);
    }
  }

  /** `s` with `d` added to every element: positions of `b` seen from inside `a + b`. */
  function Shift(s: seq<int>, d: int): (r: seq<int>)
    ensures |r| == |s| && forall k :: 0 <= k < |s| ==> r[k] == s[k] + d
  {
    seq(|s|, k requires 0 <= k < |s| => s[k] + d)
  }

  /** Filtering a join: the matches of `a`, then those of `b` moved past the end of `a`. */
  lemma {:induction false} MatchingJoin<T>(a: seq<T>, b: seq<T>, pred: T -> bool)
    ensures Matching(a + b, pred) == Matching(a, pred) + Shift(Matching(b, pred), |a|)
  {
    if |b| == 0 {
      assert a + b == a;
    } else {
      var n := |b| - 1;
      MatchingJoin(a, b[..n], pred);
      assert (a + b)[..|a + b| - 1] == a + b[..n];
      var tail := if pred(b[n]) then [n] else [];
      assert Shift(Matching(b, pred), |a|) == Shift(Matching(b[..n], pred), |a|) + Shift(tail, |a|);
    }
  }

  /**
   * Assign-then-read: when a view names each position at most once,
   * reading it back after assigning `vals` yields `vals`.
   */
  lemma AssignThenRead<T>(base: seq<T>, ids: seq<int>, vals: seq<T>)
    requires |ids| == |vals| && InBounds(ids, |base|) && NoDuplicates(ids)
    ensures Select(Overwrite(base, ids, vals), ids) == vals
  {
    forall i | 0 <= i < |ids|
      ensures Overwrite(base, ids, vals)[ids[i]] == vals[i]
    {
      OverwriteLastWins(base, ids, vals, i);
    }
  }

  /**
   * Assigning a Range to a view of itself is not a permutation of the old
   * contents: with positions [1, 0] over [1, 2] the loop first writes 1 to
   * position 1 and then reads that 1 back for position 0.
   */
  lemma SelfAssignSeesWrites()
    ensures SelfOverwrite([1, 2], [1, 0], 2) == [1, 1]
    ensures Overwrite([1, 2], [1, 0], [1, 2]) == [2, 1]
  {
    assert SelfOverwrite([1, 2], [1, 0], 1) == [1, 1];
    assert [1, 0][..1] == [1] && [1, 2][..1] == [1];
  }

  /** Removing through a view that names no position leaves the Range as it was. */
  lemma {:induction false} RemoveNothing<T>(s: seq<T>, n: int)
    requires 0 <= n <= |s|
    ensures Keep(s, [], n) == s[..n]
  {
    if n > 0 {
      RemoveNothing(s, n - 1);
      assert s[..n] == s[..n - 1] + [s[n - 1]];
    }
  }

  // ----- Range -----

  /** `Range<T>`: a `std::vector<T>` with checked indexing and multi-index access. */
  class Range<T(==)> {
    var elems: seq<T>

    constructor (s: seq<T>)
      ensures elems == s
    {
      elems := s;
    }

    /** `size()`: the number of elements. */
    function Size(): (n: int)
      reads this
      ensures n >= 0 && n == |elems|
    {
      |elems|
    }

    /** `operator[] const`: the bounds assertion becomes the precondition. */
    function At(x: int): (t: T)
      reads this
      requires 0 <= x < |elems|
      ensures t in elems && t == elems[x]
    {
      elems[x]
    }

    /** Writing through the reference that `operator[]` returns. */
    method Set(x: int, t: T)
      requires 0 <= x < |elems|
      modifies this
      ensures elems == old(elems)[x := t]
    {
      elems := elems[x := t];
    }

    /** The const multi-indexed read: a new Range with `res[k] == this[indexes[k]]`. */
    method Pick(indexes: seq<int>) returns (res: Range<T>)
      requires InBounds(indexes, |elems|)
      ensures fresh(res) && res.elems == Select(elems, indexes)
    {
      res := new Range([]);
      for k := 0 to |indexes|
        invariant res.elems == Select(elems, indexes[..k])
      {
        res.elems := res.elems + [elems[indexes[k]]];
      }
      assert indexes[..|indexes|] == indexes;
    }

    /** The multi-indexed write access: a view of this Range through `indexes`. */
    method View(indexes: seq<int>) returns (v: RangeView<T>)
      requires InBounds(indexes, |elems|)
      ensures fresh(v) && v.receiver == this && v.modifier == indexes
    {
      v := new RangeView(this, indexes);
    }

    /** `filter`: the positions whose element satisfies `pred`, in increasing order. */
    method Filter(pred: T -> bool) returns (ret: seq<int>)
      ensures ret == Matching(elems, pred)
    {
      ret := [];
      for i := 0 to |elems|
        invariant ret == Matching(elems[..i], pred)
      {
        assert elems[..i + 1][..i] == elems[..i];
        if pred(elems[i]) {
          ret := ret + [i];
        }
      }
      assert elems[..|elems|] == elems;
    }

    /** `append`: `this` becomes its old contents followed by those of `rng`. */
    method Append(rng: Range<T>)
      modifies this
      ensures elems == old(elems) + old(rng.elems)
      ensures rng != this ==> rng.elems == old(rng.elems)
    {
      elems := elems + rng.elems;
    }

    /** `join`: a new Range holding this Range's elements, then those of `rng`. */
    method JoinWith(rng: Range<T>) returns (ret: Range<T>)
      ensures fresh(ret) && ret.elems == elems + rng.elems
    {
      ret := new Range(elems);
      ret.elems := ret.elems + rng.elems;
    }
  }

  /** The free function `join(a, b)`. */
  method Join<T(==)>(a: Range<T>, b: Range<T>) returns (ret: Range<T>)
    ensures fresh(ret) && ret.elems == a.elems + b.elems
  {
    ret := new Range(a.elems);
    ret.elems := ret.elems + b.elems;
  }

  /**
   * The comparison operators of Range against a value: the positions whose
   * element compares as `op` says with `v`, increasing and each once.
   */
  method CompareRange(r: Range<int>, op: Cmp, v: int) returns (ret: seq<int>)
    ensures Increasing(ret) && InBounds(ret, |r.elems|)
    ensures forall i :: i in ret <==> 0 <= i < |r.elems| && Holds(op, r.elems[i], v)
  {
    var pred := (t: int) => Holds(op, t, v);
    ret := r.Filter(pred);
    MatchingSpec(r.elems, pred);
  }

  // ----- RangeView -----

  /** `RangeView`: the Range `receiver` seen through the positions `modifier`. */
  class RangeView<T(==)> {
    const receiver: Range<T>
    const modifier: seq<int>

    constructor (receiver: Range<T>, modifier: seq<int>)
      ensures this.receiver == receiver && this.modifier == modifier
    {
      this.receiver := receiver;
      this.modifier := modifier;
    }

    /** Every named position is inside the Range, as the multi-index access asserts. */
    ghost predicate Valid()
      reads receiver
    {
      InBounds(modifier, |receiver.elems|)
    }

    /** `size()`: one element per named position. */
    function Size(): (n: int)
      ensures n >= 0 && n == |modifier|
    {
      |modifier|
    }

    /** The elements the view sees, in the order of `modifier`. */
    function Contents(): (c: seq<T>)
      reads receiver
      requires Valid()
      ensures |c| == |modifier|
    {
      Select(receiver.elems, modifier)
    }

    /** Read access to the i-th viewed element. */
    function At(i: int): (t: T)
      reads receiver
      requires Valid() && 0 <= i < |modifier|
      ensures t == receiver.At(modifier[i]) && t == Contents()[i]
    {
      receiver.elems[modifier[i]]
    }

    /** `operator Range<T>()`: a new Range holding the viewed elements. */
    method AsRange() returns (r: Range<T>)
      requires Valid()
      ensures fresh(r) && r.elems == Contents()
    {
      r := new Range([]);
      for k := 0 to |modifier|
        invariant r.elems == Select(receiver.elems, modifier[..k])
      {
        r.elems := r.elems + [receiver.elems[modifier[k]]];
      }
      assert modifier[..|modifier|] == modifier;
    }

    /**
     * `a[{...}] = rng` (sizes must match): `receiver[modifier[i]] = rhs[i]`
     * for each i in order. With a different right-hand side the last write
     * to a position wins and unnamed positions keep their values; when the
     * right-hand side is the receiver itself, each read sees earlier writes.
     */
    method AssignRange(rhs: Range<T>)
      requires Valid() && |rhs.elems| == |modifier|
      modifies receiver
      ensures rhs != receiver ==> receiver.elems == Overwrite(old(receiver.elems), modifier, old(rhs.elems))
      ensures rhs == receiver ==> receiver.elems == SelfOverwrite(old(receiver.elems), modifier, |modifier|)
    {
      for i := 0 to |modifier|
        invariant |receiver.elems| == old(|receiver.elems|)
        invariant rhs != receiver ==>
                    rhs.elems == old(rhs.elems) &&
                    receiver.elems == Overwrite(old(receiver.elems), modifier[..i], old(rhs.elems)[..i])
        invariant rhs == receiver ==> receiver.elems == SelfOverwrite(old(receiver.elems), modifier, i)
      {
        if rhs != receiver {
          OverwriteSnoc(old(receiver.elems), modifier, old(rhs.elems), i);
        }
        receiver.elems := receiver.elems[modifier[i] := rhs.elems[i]];
      }
      assert modifier[..|modifier|] == modifier;
      assert old(rhs.elems)[..|modifier|] == old(rhs.elems);
    }

    /** `a[{...}] = x`: every viewed position holds x (see ScalarOverwrite). */
    method AssignScalar(x: T)
      requires Valid()
      modifies receiver
      ensures receiver.elems == Overwrite(old(receiver.elems), modifier, seq(|modifier|, _ => x))
    {
      ghost var vals := seq(|modifier|, _ => x);
      for i := 0 to |modifier|
        invariant receiver.elems == Overwrite(old(receiver.elems), modifier[..i], vals[..i])
      {
        OverwriteSnoc(old(receiver.elems), modifier, vals, i);
        receiver.elems := receiver.elems[modifier[i] := x];
      }
      assert modifier[..|modifier|] == modifier && vals[..|modifier|] == vals;
    }

    /**
     * `remove`: sort and deduplicate the named positions into `tmp`, then
     * compact the receiver in place with a write cursor `it` and a read
     * cursor `cur`, skipping the positions in `tmp`, and cut it to `it`.
     * The receiver loses exactly the named positions, once each, and keeps
     * the others in their order.
     */
    method Remove()
      requires Valid()
      modifies receiver
      ensures receiver.elems == Survivors(old(receiver.elems), modifier)
      ensures |receiver.elems| == |old(receiver.elems)| - |SortedUnique(modifier)|
    {
      var tmp := SortedUnique(modifier);
      ghost var before := receiver.elems;
      var n := |receiver.elems|;
      SortedUniqueBounds(modifier, n);
      var it := Compact(tmp);
      receiver.elems := receiver.elems[..it];
      KeepSameNames(before, tmp, modifier, n);
    }

    /**
     * The while loop of `remove`: every element of the receiver whose
     * position is not in the increasing list `tmp` is moved down to the
     * write cursor, which ends at `it`. The first `it` elements are then
     * the survivors, and `it` is the size minus the number of names.
     */
    method Compact(tmp: seq<int>) returns (it: int)
      requires Increasing(tmp) && InBounds(tmp, |receiver.elems|)
      modifies receiver
      ensures |receiver.elems| == |old(receiver.elems)| && 0 <= it <= |receiver.elems|
      ensures it == |receiver.elems| - |tmp|
      ensures receiver.elems[..it] == Keep(old(receiver.elems), tmp, |receiver.elems|)
    {
      ghost var before := receiver.elems;
      var n := |receiver.elems|;
      var cur, toRemove := 0, 0;
      it := 0;
      while cur < n
        invariant 0 <= it <= cur <= n && |receiver.elems| == n
        invariant 0 <= toRemove <= |tmp| && it == cur - toRemove
        invariant forall q :: 0 <= q < toRemove ==> tmp[q] < cur
        invariant forall q :: toRemove <= q < |tmp| ==> tmp[q] >= cur
        invariant receiver.elems[..it] == Keep(before, tmp, cur)
        invariant forall k :: cur <= k < n ==> receiver.elems[k] == before[k]
      {
        RemoveStep(before, tmp, cur, toRemove);
        if toRemove < |tmp| && cur == tmp[toRemove] {
          toRemove := toRemove + 1;
        } else {
          CompactStep(receiver.elems, before, Keep(before, tmp, cur), it, cur);
          receiver.elems := receiver.elems[it := receiver.elems[cur]];
          it := it + 1;
        }
        cur := cur + 1;
      }
      AllRemoved(tmp, n, toRemove);
    }

    /** `*this == rhs`: the same size and equal elements position by position. */
    method Equals(rhs: RangeView<T>) returns (b: bool)
      requires Valid() && rhs.Valid()
      ensures b <==> |modifier| == |rhs.modifier| && forall i :: 0 <= i < |modifier| ==> At(i) == rhs.At(i)
      ensures b <==> Contents() == rhs.Contents()
    {
      if |modifier| != |rhs.modifier| {
        return false;
      }
      ghost var mine, theirs := Contents(), rhs.Contents();
      for i := 0 to |modifier|
        invariant forall k :: 0 <= k < i ==> mine[k] == theirs[k]
      {
        if receiver.elems[modifier[i]] != rhs.receiver.elems[rhs.modifier[i]] {
          assert At(i) != rhs.At(i);
          assert mine[i] != theirs[i];
          return false;
        }
      }
      assert mine == theirs;
      return true;
    }

    /** `*this != rhs`. */
    method NotEquals(rhs: RangeView<T>) returns (b: bool)
      requires Valid() && rhs.Valid()
      ensures b <==> Contents() != rhs.Contents()
    {
      var same := Equals(rhs);
      b := !same;
    }

    /** The free `operator==` of a view and a Range: the viewed elements are the Range's. */
    method EqualsRange(rng: Range<T>) returns (b: bool)
      requires Valid()
      ensures b <==> Contents() == rng.elems
    {
      if |modifier| != |rng.elems| {
        return false;
      }
      for i := 0 to |modifier|
        invariant forall k :: 0 <= k < i ==> At(k) == rng.elems[k]
      {
        if receiver.elems[modifier[i]] != rng.elems[i] {
          assert Contents()[i] != rng.elems[i];
          return false;
        }
      }
      assert forall k :: 0 <= k < |modifier| ==> Contents()[k] == rng.elems[k];
      assert Contents() == rng.elems;
      return true;
    }

    /** `filter` on a view: positions within the view, not within the receiver. */
    method Filter(pred: T -> bool) returns (ret: seq<int>)
      requires Valid()
      ensures ret == Matching(Contents(), pred)
    {
      ret := [];
      ghost var c := Contents();
      for i := 0 to |modifier|
        invariant ret == Matching(c[..i], pred)
      {
        assert c[..i + 1][..i] == c[..i];
        if pred(receiver.elems[modifier[i]]) {
          ret := ret + [i];
        }
      }
      assert c[..|modifier|] == c;
    }
  }

  /** One step of the compaction in `remove`: whether position `cur` is dropped, and what is kept so far. */
  lemma RemoveStep<T>(before: seq<T>, tmp: seq<int>, cur: int, toRemove: int)
    requires Increasing(tmp) && 0 <= cur < |before| && 0 <= toRemove <= |tmp|
    requires forall q :: 0 <= q < toRemove ==> tmp[q] < cur
    requires forall q :: toRemove <= q < |tmp| ==> tmp[q] >= cur
    ensures (toRemove < |tmp| && cur == tmp[toRemove]) <==> cur in tmp
    ensures forall q :: toRemove < q < |tmp| ==> tmp[q] > cur
    ensures cur !in tmp ==> forall q :: toRemove <= q < |tmp| ==> tmp[q] > cur
    ensures Keep(before, tmp, cur + 1) ==
              if cur in tmp then Keep(before, tmp, cur) else Keep(before, tmp, cur) + [before[cur]]
  {
    if cur in tmp {
      var q :| 0 <= q < |tmp| && tmp[q] == cur;
      if toRemove < q {
        Mention(tmp, toRemove);
        assert false;
      }
    }
    if toRemove < |tmp| && cur == tmp[toRemove] {
      assert cur in tmp;
    }
    if cur in tmp {
      assert Keep(before, tmp, cur + 1) == Keep(before, tmp, cur) + [];
    }
  }

  /** Moving the element under the read cursor to the write cursor keeps it and leaves the unread part alone. */
  lemma CompactStep<T>(e: seq<T>, before: seq<T>, kept: seq<T>, it: int, cur: int)
    requires |e| == |before| && 0 <= it <= cur < |e|
    requires e[..it] == kept && forall k :: cur <= k < |e| ==> e[k] == before[k]
    ensures e[it := e[cur]][..it + 1] == kept + [before[cur]]
    ensures forall k :: cur + 1 <= k < |e| ==> e[it := e[cur]][k] == before[k]
  {
    assert e[it := e[cur]][..it + 1] == e[..it] + [e[cur]];
  }

  /** `tmp` names positions inside the receiver when the view does. */
  lemma SortedUniqueBounds(m: seq<int>, n: int)
    requires InBounds(m, n)
    ensures Increasing(SortedUnique(m)) && InBounds(SortedUnique(m), n)
    ensures forall y :: y in SortedUnique(m) <==> y in m
  {
    SortedUniqueSpec(m);
    var t := SortedUnique(m);
    forall q | 0 <= q < |t|
      ensures 0 <= t[q] < n
    {
      assert t[q] in m;
    }
  }

  /** Once the read cursor passes the end, every position of `tmp` was skipped. */
  lemma AllRemoved(tmp: seq<int>, n: int, toRemove: int)
    requires InBounds(tmp, n) && 0 <= toRemove <= |tmp|
    requires forall q :: toRemove <= q < |tmp| ==> tmp[q] >= n
    ensures toRemove == |tmp|
  {
    if toRemove < |tmp| {
      Mention(tmp, toRemove);
      assert false;
    }
  }

  /** Brings the term `s[k]` into scope, so the quantified facts about `s` apply to it. */
  lemma Mention(s: seq<int>, k: int)
    ensures 0 <= k < |s| ==> s[k] in s
  {
  }

  /** The comparison operators of a view against a value, as positions within the view. */
  method CompareView(w: RangeView<int>, op: Cmp, v: int) returns (ret: seq<int>)
    requires w.Valid()
    ensures Increasing(ret) && InBounds(ret, |w.modifier|)
    ensures forall i :: i in ret <==> 0 <= i < |w.modifier| && Holds(op, w.At(i), v)
  {
    var pred := (t: int) => Holds(op, t, v);
    ret := w.Filter(pred);
    MatchingSpec(w.Contents(), pred);
  }
}
