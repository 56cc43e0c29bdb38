/**
 * The fill solver (solvers/fill.py): give every video a price (the number
 * of requests for it), order the videos by (price, size, id) from largest
 * to smallest, and put each one into the first cache that still has room
 * for it, counting the videos that fit nowhere. Reading the input and
 * printing the caches are not modelled.
 */
module Fill {
  import opened Wrappers
  import opened Seqs
  import opened Catalogue

  // ----- request totals (solvers/fill.py:27-34) -----

  /** The number of requests for video `v` among `reqs`. */
  function TotalFor(reqs: seq<Request>, v: int): int
  {
    if |reqs| == 0 then 0
    else TotalFor(reqs[..|reqs| - 1], v) + (if reqs[|reqs| - 1].videoId == v then reqs[|reqs| - 1].numReq else 0)
  }

  /** Request ids are valid (non-negative, below the video count) in the input. */
  predicate RequestsOf(reqs: seq<Request>, numVideos: int)
  {
    forall k :: 0 <= k < |reqs| ==> 0 <= reqs[k].videoId < numVideos
  }

  /** `video_price = [0] * v`, then `video_price[vid] += num` per request. */
  method VideoPrices(reqs: seq<Request>, numVideos: nat) returns (prices: seq<int>)
    requires RequestsOf(reqs, numVideos)
    ensures |prices| == numVideos
    ensures forall v :: 0 <= v < numVideos ==> prices[v] == TotalFor(reqs, v)
  {
    var price := new int[numVideos](_ => 0);
    for k := 0 to |reqs|
      invariant forall v :: 0 <= v < numVideos ==> price[v] == TotalFor(reqs[..k], v)
    {
      assert reqs[..k + 1][..k] == reqs[..k];
      var vid := reqs[k].videoId;
      price[vid] := price[vid] + reqs[k].numReq;
    }
    assert reqs[..|reqs|] == reqs;
    prices := price[..];
  }

  /** A video nobody requests has price 0. */
  lemma {:induction false} UnrequestedIsFree(reqs: seq<Request>, v: int)
    requires forall k :: 0 <= k < |reqs| ==> reqs[k].videoId != v
    ensures TotalFor(reqs, v) == 0
  {
    if |reqs| > 0 {
      UnrequestedIsFree(reqs[..|reqs| - 1], v);
    }
  }

  /** Totals over two runs of requests add up. */
  lemma {:induction false} TotalForAppend(a: seq<Request>, b: seq<Request>, v: int)
    ensures TotalFor(a + b, v) == TotalFor(a, v) + TotalFor(b, v)
  {
    if |b| == 0 {
      assert a + b == a;
    } else {
      assert (a + b)[..|a + b| - 1] == a + b[..|b| - 1];
      TotalForAppend(a, b[..|b| - 1], v);
    }
  }

  // ----- the order (solvers/fill.py:39-46) -----

  /** One entry of `zip(video_price, v_len, range(v))`. */
  datatype Key = Key(price: int, size: int, id: int)

  /** Python's tuple order on (price, size, id). */
  predicate KeyLe(a: Key, b: Key)
  {
    a.price < b.price ||
    (a.price == b.price && (a.size < b.size || (a.size == b.size && a.id <= b.id)))
  }

  predicate Ascending(s: seq<Key>)
  {
    forall i, j :: 0 <= i < j < |s| ==> KeyLe(s[i], s[j])
  }

  predicate Descending(s: seq<Key>)
  {
    forall i, j :: 0 <= i < j < |s| ==> KeyLe(s[j], s[i])
  }

  /** `k` inserted into an ascending `s` before the first element not below it. */
  function Insert(k: Key, s: seq<Key>): seq<Key>
  {
    if |s| == 0 then [k]
    else if KeyLe(k, s[0]) then [k] + s
    else [s[0]] + Insert(k, s[1..])
  }

  /** `lens.sort()`: the keys of `s` in ascending tuple order, each as often as in `s`. */
  function Sort(s: seq<Key>): (r: seq<Key>)
    ensures Ascending(r) && multiset(r) == multiset(s)
  {
    if |s| == 0 then []
    else
      InsertAscending(s[0], Sort(s[1..]));
      InsertPermutes(s[0], Sort(s[1..]));
      assert s == [s[0]] + s[1..];
      Insert(s[0], Sort(s[1..]))
  }

  lemma {:induction false} InsertPermutes(k: Key, s: seq<Key>)
    ensures multiset(Insert(k, s)) == multiset(s) + multiset{k}
  {
    if |s| > 0 && !KeyLe(k, s[0]) {
      InsertPermutes(k, s[1..]);
      assert s == [s[0]] + s[1..];
    }
  }

  lemma {:induction false} InsertAscending(k: Key, s: seq<Key>)
    requires Ascending(s)
    ensures Ascending(Insert(k, s))
  {
    if |s| > 0 && !KeyLe(k, s[0]) {
      InsertAscending(k, s[1..]);
      InsertPermutes(k, s[1..]);
      var t := Insert(k, s[1..]);
      forall j | 0 <= j < |t|
        ensures KeyLe(s[0], t[j])
      {
        assert t[j] in multiset(t);
        if t[j] != k {
          assert t[j] in multiset(s[1..]);
          var m :| 0 <= m < |s[1..]| && s[1..][m] == t[j];
          assert s[m + 1] == t[j];
        }
      }
    }
  }

  /** `lst[::-1]`. */
  function Reverse<T>(s: seq<T>): (r: seq<T>)
    ensures |r| == |s| && forall i :: 0 <= i < |s| ==> r[i] == s[|s| - 1 - i]
  {
    if |s| == 0 then [] else Reverse(s[1..]) + [s[0]]
  }

  lemma {:induction false} ReversePermutes<T>(s: seq<T>)
    ensures multiset(Reverse(s)) == multiset(s)
  {
    if |s| > 0 {
      ReversePermutes(s[1..]);
      assert s == [s[0]] + s[1..];
    }
  }

  /** `lens[::-1]` after `lens.sort()`: a descending permutation. */
  lemma ProcessingOrder(s: seq<Key>)
    ensures Descending(Reverse(Sort(s))) && multiset(Reverse(Sort(s))) == multiset(s)
  {
    ReversePermutes(Sort(s));
  }

  // ----- first fit (solvers/fill.py:42-55) -----

  /** The lowest index from `j` on with at least `size` room. */
  function FirstFitFrom(space: seq<int>, size: int, j: int): (r: Option<int>)
    requires 0 <= j <= |space|
    ensures r.Some? ==> j <= r.value < |space| && space[r.value] >= size &&
                        forall jj :: j <= jj < r.value ==> space[jj] < size
    ensures r.None? ==> forall jj :: j <= jj < |space| ==> space[jj] < size
    decreases |space| - j
  {
    if j == |space| then None
    else if space[j] >= size then Some(j)
    else FirstFitFrom(space, size, j + 1)
  }

  /** The first cache with room for `size`, or None. */
  function FirstFit(space: seq<int>, size: int): Option<int>
  {
    FirstFitFrom(space, size, 0)
  }

  /** The first index with room is the one that has room with none before it. */
  lemma FirstFitAt(space: seq<int>, size: int, j: int)
    requires 0 <= j < |space| && space[j] >= size
    requires forall jj :: 0 <= jj < j ==> space[jj] < size
    ensures FirstFit(space, size) == Some(j)
  {
    var fit := FirstFit(space, size);
    assert fit.Some? && fit.value <= j;
    assert !(fit.value < j);
  }

  lemma FirstFitNone(space: seq<int>, size: int)
    requires forall jj :: 0 <= jj < |space| ==> space[jj] < size
    ensures FirstFit(space, size).None?
  {
  }

  /** `space_left`, `cached` and `left` between videos. */
  datatype FillState = FillState(spaceLeft: seq<int>, cached: seq<seq<int>>, left: int)

  /** `left = 0`, `cached = [[]] * c`, `space_left = [x] * c`. */
  function Start(c: nat, x: int): FillState
  {
    FillState(seq(c, _ => x), seq(c, _ => []), 0)
  }

  /** The state has one free-space entry and one list per cache. */
  predicate Shaped(st: FillState)
  {
    |st.cached| == |st.spaceLeft|
  }

  /** One video: into its first fitting cache, or counted in `left`. */
  function PlaceOne(st: FillState, k: Key): (r: FillState)
    requires Shaped(st)
    ensures Shaped(r) && |r.cached| == |st.cached|
  {
    match FirstFit(st.spaceLeft, k.size)
    case Some(j) =>
      FillState(st.spaceLeft[j := st.spaceLeft[j] - k.size], st.cached[j := st.cached[j] + [k.id]], st.left)
    case None => st.(left := st.left + 1)
  }

  /**
   * What one step does: the first cache with room loses the video's size
   * and gains its id while nothing else changes; when no cache has room,
   * only `left` grows, by one.
   */
  lemma PlaceOneSpec(st: FillState, k: Key)
    requires Shaped(st)
    ensures var r := PlaceOne(st, k);
            r.left == st.left ==>
              exists j :: 0 <= j < |st.spaceLeft| && st.spaceLeft[j] >= k.size &&
                (forall jj :: 0 <= jj < j ==> st.spaceLeft[jj] < k.size) &&
                r.spaceLeft == st.spaceLeft[j := st.spaceLeft[j] - k.size] &&
                r.cached == st.cached[j := st.cached[j] + [k.id]]
    ensures var r := PlaceOne(st, k);
            r.left != st.left ==>
              r.left == st.left + 1 && r.spaceLeft == st.spaceLeft && r.cached == st.cached &&
              forall j :: 0 <= j < |st.spaceLeft| ==> st.spaceLeft[j] < k.size
  {
  }

  /** The videos of `keys`, placed one after the other. */
  function PlaceAll(st: FillState, keys: seq<Key>): (r: FillState)
    requires Shaped(st)
    ensures Shaped(r) && |r.cached| == |st.cached|
  {
    if |keys| == 0 then st else PlaceOne(PlaceAll(st, keys[..|keys| - 1]), keys[|keys| - 1])
  }

  /**
   * The body of the outer loop for one video: scan the caches in order
   * (`j %= c` leaves j unchanged, since j < c), take the first with room,
   * or else count the video in `left`.
   */
  method PlaceVideo(space: array<int>, cached: seq<seq<int>>, left: int, k: Key)
    returns (next: seq<seq<int>>, nextLeft: int)
    requires |cached| == space.Length
    modifies space
    ensures FillState(space[..], next, nextLeft) == PlaceOne(FillState(old(space[..]), cached, left), k)
  {
    ghost var before := space[..];
    var c := space.Length;
    next, nextLeft := cached, left;
    var placed := false;
    for j := 0 to c
      invariant space[..] == before && next == cached && !placed
      invariant forall jj :: 0 <= jj < j ==> before[jj] < k.size
    {
      var slot := j % c;
      assert slot == j;
      if space[slot] >= k.size {
        FirstFitAt(before, k.size, j);
        space[slot] := space[slot] - k.size;
        next := next[slot := next[slot] + [k.id]];
        placed := true;
        break;
      }
    }
    if !placed {
      FirstFitNone(before, k.size);
      nextLeft := nextLeft + 1;
    }
  }

  /** The outer loop of solvers/fill.py:46-55 over `order`. */
  method FirstFitLoop(order: seq<Key>, c: nat, x: int) returns (cached: seq<seq<int>>, spaceLeft: seq<int>, left: int)
    ensures FillState(spaceLeft, cached, left) == PlaceAll(Start(c, x), order)
  {
    var space := new int[c](_ => x);
    cached := seq(c, _ => []);
    left := 0;
    for k := 0 to |order|
      invariant |cached| == c
      invariant FillState(space[..], cached, left) == PlaceAll(Start(c, x), order[..k])
    {
      assert order[..k + 1][..k] == order[..k];
      cached, left := PlaceVideo(space, cached, left, order[k]);
    }
    assert order[..|order|] == order;
    spaceLeft := space[..];
  }

  // ----- what first fit keeps -----

  /** Total size of the videos in `ids`. */
  function Load(vLen: seq<int>, ids: seq<int>): int
    requires InBounds(ids, |vLen|)
  {
    if |ids| == 0 then 0 else Load(vLen, ids[..|ids| - 1]) + vLen[ids[|ids| - 1]]
  }

  /** Each key describes its video: a valid id and that video's size. */
  predicate KeysOf(keys: seq<Key>, vLen: seq<int>)
  {
    forall m :: 0 <= m < |keys| ==> 0 <= keys[m].id < |vLen| && keys[m].size == vLen[keys[m].id]
  }

  /** Every cache's free space is x minus what it holds, and never negative. */
  predicate Balanced(st: FillState, vLen: seq<int>, x: int)
  {
    && Shaped(st)
    && (forall j :: 0 <= j < |st.cached| ==> InBounds(st.cached[j], |vLen|))
    && (forall j :: 0 <= j < |st.cached| ==>
          st.spaceLeft[j] == x - Load(vLen, st.cached[j]) && st.spaceLeft[j] >= 0)
  }

  lemma LoadSnoc(vLen: seq<int>, ids: seq<int>, i: int)
    requires InBounds(ids, |vLen|) && 0 <= i < |vLen|
    ensures Load(vLen, ids + [i]) == Load(vLen, ids) + vLen[i]
  {
    assert (ids + [i])[..|ids|] == ids;
  }

  lemma PlaceOneBalanced(st: FillState, vLen: seq<int>, x: int, k: Key)
    requires Balanced(st, vLen, x) && KeysOf([k], vLen)
    ensures Balanced(PlaceOne(st, k), vLen, x)
  {
    match FirstFit(st.spaceLeft, k.size)
    case Some(j) =>
      assert [k][0] == k;
      LoadSnoc(vLen, st.cached[j], k.id);
    case None =>
  }

  /** First fit never overfills a cache (solvers/fill.py:44, 49-51). */
  lemma {:induction false} PlaceAllBalanced(st: FillState, vLen: seq<int>, x: int, keys: seq<Key>)
    requires Balanced(st, vLen, x) && KeysOf(keys, vLen)
    ensures Balanced(PlaceAll(st, keys), vLen, x)
  {
    if |keys| > 0 {
      var n := |keys| - 1;
      PlaceAllBalanced(st, vLen, x, keys[..n]);
      assert KeysOf([keys[n]], vLen);
      PlaceOneBalanced(PlaceAll(st, keys[..n]), vLen, x, keys[n]);
    }
  }

  lemma StartBalanced(c: nat, x: int, vLen: seq<int>)
    requires x >= 0
    ensures Balanced(Start(c, x), vLen, x)
  {
  }

  /** The ids of `keys`. */
  function Ids(keys: seq<Key>): (r: seq<int>)
    ensures |r| == |keys| && forall m :: 0 <= m < |keys| ==> r[m] == keys[m].id
  {
    seq(|keys|, m requires 0 <= m < |keys| => keys[m].id)
  }

  /** No id is held twice: not twice in one list, not in two lists. */
  predicate PlacedOnce(cached: seq<seq<int>>)
  {
    forall j1, p1, j2, p2 ::
      (0 <= j1 < |cached| && 0 <= p1 < |cached[j1]| && 0 <= j2 < |cached| && 0 <= p2 < |cached[j2]| &&
       cached[j1][p1] == cached[j2][p2]) ==> j1 == j2 && p1 == p2
  }

  /** Everything held comes from `ids`. */
  predicate HeldFrom(cached: seq<seq<int>>, ids: seq<int>)
  {
    forall j, p :: 0 <= j < |cached| && 0 <= p < |cached[j]| ==> cached[j][p] in ids
  }

  lemma PlaceOnePlacedOnce(st: FillState, done: seq<Key>, k: Key)
    requires Shaped(st) && PlacedOnce(st.cached) && HeldFrom(st.cached, Ids(done))
    requires k.id !in Ids(done)
    ensures PlacedOnce(PlaceOne(st, k).cached) && HeldFrom(PlaceOne(st, k).cached, Ids(done + [k]))
  {
    assert forall m :: 0 <= m < |done| ==> Ids(done + [k])[m] == Ids(done)[m];
    assert Ids(done + [k])[|done|] == k.id;
    match FirstFit(st.spaceLeft, k.size)
    case Some(j) =>
    case None =>
  }

  /** With distinct ids, each video ends up in at most one cache, at most once (solvers/fill.py:46-52). */
  lemma {:induction false} PlaceAllPlacedOnce(c: nat, x: int, keys: seq<Key>)
    requires NoDuplicates(Ids(keys))
    ensures PlacedOnce(PlaceAll(Start(c, x), keys).cached)
    ensures HeldFrom(PlaceAll(Start(c, x), keys).cached, Ids(keys))
  {
    if |keys| > 0 {
      var n := |keys| - 1;
      assert keys == keys[..n] + [keys[n]];
      assert NoDuplicates(Ids(keys[..n])) by {
        assert forall m :: 0 <= m < n ==> Ids(keys[..n])[m] == Ids(keys)[m];
      }
      PlaceAllPlacedOnce(c, x, keys[..n]);
      assert keys[n].id !in Ids(keys[..n]) by {
        forall m | 0 <= m < n
          ensures Ids(keys[..n])[m] != keys[n].id
        {
          assert Ids(keys[..n])[m] == Ids(keys)[m] && Ids(keys)[n] == keys[n].id;
        }
      }
      PlaceOnePlacedOnce(PlaceAll(Start(c, x), keys[..n]), keys[..n], keys[n]);
    }
  }

  /** The number of videos the lists hold. */
  function Held(cached: seq<seq<int>>): int
  {
    if |cached| == 0 then 0 else Held(cached[..|cached| - 1]) + |cached[|cached| - 1]|
  }

  lemma {:induction false} HeldAppendAt(cached: seq<seq<int>>, j: int, i: int)
    requires 0 <= j < |cached|
    ensures Held(cached[j := cached[j] + [i]]) == Held(cached) + 1
  {
    var n := |cached| - 1;
    var grown := cached[j := cached[j] + [i]];
    if j < n {
      assert grown[..n] == cached[..n][j := cached[j] + [i]];
      HeldAppendAt(cached[..n], j, i);
    } else {
      assert grown[..n] == cached[..n];
    }
  }

  lemma {:induction false} HeldEmpty(c: nat)
    ensures Held(Start(c, 0).cached) == 0
  {
    if c > 0 {
      assert Start(c, 0).cached[..c - 1] == Start(c - 1, 0).cached;
      HeldEmpty(c - 1);
    }
  }

  /** Every video is either held by one cache or counted in `left` (solvers/fill.py:42, 53-54). */
  lemma {:induction false} PlaceAllCount(c: nat, x: int, keys: seq<Key>)
    ensures PlaceAll(Start(c, x), keys).left + Held(PlaceAll(Start(c, x), keys).cached) == |keys|
  {
    if |keys| == 0 {
      HeldEmpty(c);
      assert Start(c, x).cached == Start(c, 0).cached;
    } else {
      var n := |keys| - 1;
      PlaceAllCount(c, x, keys[..n]);
      var st := PlaceAll(Start(c, x), keys[..n]);
      match FirstFit(st.spaceLeft, keys[n].size)
      case Some(j) => HeldAppendAt(st.cached, j, keys[n].id);
      case None =>
    }
  }

  /**
   * Lists only grow at the end: after the first n videos each list is a
   * prefix of the final one, so every list is in placement order
   * (solvers/fill.py:51).
   */
  lemma {:induction false} PlaceAllPrefix(st: FillState, keys: seq<Key>, n: int)
    requires Shaped(st) && 0 <= n <= |keys|
    ensures forall j :: 0 <= j < |st.cached| ==>
              PlaceAll(st, keys[..n]).cached[j] <= PlaceAll(st, keys).cached[j]
  {
    if n < |keys| {
      var m := |keys| - 1;
      assert keys[..m][..n] == keys[..n];
      PlaceAllPrefix(st, keys[..m], n);
      var mid := PlaceAll(st, keys[..m]);
      assert keys[..|keys|] == keys;
      forall j | 0 <= j < |st.cached|
        ensures mid.cached[j] <= PlaceAll(st, keys).cached[j]
      {
      }
    } else {
      assert keys[..n] == keys;
    }
  }

  /** The keys `fill` sorts: video i's total requests, its size and its id. */
  function VideoKeys(reqs: seq<Request>, vLen: seq<int>): (keys: seq<Key>)
    ensures |keys| == |vLen|
    ensures forall i :: 0 <= i < |vLen| ==> keys[i] == Key(TotalFor(reqs, i), vLen[i], i)
  {
    seq(|vLen|, i requires 0 <= i < |vLen| => Key(TotalFor(reqs, i), vLen[i], i))
  }

  /**
   * First fit over the descending order of one key per video: the caches
   * are never overfilled (when x >= 0), no video is held twice, and every
   * video is held once or counted in `left`.
   */
  lemma FirstFitFacts(vLen: seq<int>, keys: seq<Key>, c: nat, x: int)
    requires |keys| == |vLen|
    requires forall i :: 0 <= i < |keys| ==> keys[i].id == i && keys[i].size == vLen[i]
    ensures var st := PlaceAll(Start(c, x), Reverse(Sort(keys)));
            && |st.cached| == c
            && (x >= 0 ==> forall j :: 0 <= j < c ==>
                  InBounds(st.cached[j], |vLen|) && Load(vLen, st.cached[j]) <= x)
            && PlacedOnce(st.cached)
            && st.left + Held(st.cached) == |vLen|
  {
    var order := Reverse(Sort(keys));
    OrderFacts(vLen, keys, order);
    if x >= 0 {
      StartBalanced(c, x, vLen);
      PlaceAllBalanced(Start(c, x), vLen, x, order);
    }
    PlaceAllPlacedOnce(c, x, order);
    PlaceAllCount(c, x, order);
  }

  /**
   * The solver after reading the input: prices, the order, and first fit.
   * Its caches are never overfilled (when x >= 0), no video is held twice,
   * and every video is held once or counted in `left`.
   */
  method FillSolver(vLen: seq<int>, reqs: seq<Request>, c: nat, x: int)
    returns (cached: seq<seq<int>>, left: int)
    requires RequestsOf(reqs, |vLen|)
    ensures var st := PlaceAll(Start(c, x), Reverse(Sort(VideoKeys(reqs, vLen))));
            cached == st.cached && left == st.left
    ensures |cached| == c
    ensures x >= 0 ==> forall j :: 0 <= j < c ==>
              InBounds(cached[j], |vLen|) && Load(vLen, cached[j]) <= x
    ensures PlacedOnce(cached)
    ensures left + Held(cached) == |vLen|
  {
    var prices := VideoPrices(reqs, |vLen|);
    var keys := seq(|vLen|, i requires 0 <= i < |vLen| => Key(prices[i], vLen[i], i));
    assert keys == VideoKeys(reqs, vLen);
    var spaceLeft;
    cached, spaceLeft, left := FirstFitLoop(Reverse(Sort(keys)), c, x);
    FirstFitFacts(vLen, keys, c, x);
  }

  /** The processing order holds each video's key once. */
  lemma OrderFacts(vLen: seq<int>, keys: seq<Key>, order: seq<Key>)
    requires |keys| == |vLen|
    requires forall i :: 0 <= i < |keys| ==> keys[i].id == i && keys[i].size == vLen[i]
    requires order == Reverse(Sort(keys))
    ensures KeysOf(order, vLen) && NoDuplicates(Ids(order)) && |order| == |vLen|
  {
    ProcessingOrder(keys);
    PermutedKeys(vLen, keys, order);
  }

  /** A permutation of the keys holds each video's key once. */
  lemma PermutedKeys(vLen: seq<int>, keys: seq<Key>, order: seq<Key>)
    requires |keys| == |vLen|
    requires forall i :: 0 <= i < |keys| ==> keys[i].id == i && keys[i].size == vLen[i]
    requires multiset(order) == multiset(keys)
    ensures KeysOf(order, vLen) && NoDuplicates(Ids(order)) && |order| == |vLen|
  {
    forall m | 0 <= m < |order|
      ensures 0 <= order[m].id < |vLen| && order[m].size == vLen[order[m].id]
    {
      assert order[m] in multiset(keys);
    }
    assert |order| == |keys| by {
      assert |multiset(order)| == |multiset(keys)|;
    }
    forall m1, m2 | 0 <= m1 < m2 < |order|
      ensures order[m1].id != order[m2].id
    {
      KeyOfId(keys, order[m1]);
      KeyOfId(keys, order[m2]);
      if order[m1].id == order[m2].id {
        KeysOnce(keys, order[m1].id);
        MultiplicityTwo(order, m1, m2);
        assert false;
      }
    }
  }

  /** A key of `keys` sits at the position of its id. */
  lemma KeyOfId(keys: seq<Key>, k: Key)
    requires forall m :: 0 <= m < |keys| ==> keys[m].id == m
    requires k in multiset(keys)
    ensures 0 <= k.id < |keys| && keys[k.id] == k
  {
    var m :| 0 <= m < |keys| && keys[m] == k;
  }

  lemma MultiplicityTwo<T>(s: seq<T>, i: int, j: int)
    requires 0 <= i < j < |s| && s[i] == s[j]
    ensures multiset(s)[s[i]] >= 2
  {
    assert s == s[..i] + [s[i]] + s[i + 1..j] + [s[j]] + s[j + 1..];
  }

  lemma KeysOnce(keys: seq<Key>, i: int)
    requires 0 <= i < |keys| && forall m :: 0 <= m < |keys| ==> keys[m].id == m
    ensures multiset(keys)[keys[i]] == 1
  {
    assert keys == keys[..i] + [keys[i]] + keys[i + 1..];
    forall m | 0 <= m < i
      ensures keys[..i][m] != keys[i]
    {
      assert keys[m].id == m;
    }
    var rest := keys[i + 1..];
    forall m | 0 <= m < |rest|
      ensures rest[m] != keys[i]
    {
      assert rest[m] == keys[i + 1 + m] && keys[i + 1 + m].id == i + 1 + m;
    }
    assert keys[i] !in multiset(keys[..i]);
    assert keys[i] !in multiset(keys[i + 1..]);
  }
}
