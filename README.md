# Hash Code 2017 "streaming videos" placers, modelled in Dafny

The repository assigns videos to capacity-bounded caches. Requests arrive at
endpoints, and each endpoint reaches some caches at known latencies. The goal is
to maximise the latency saved compared with serving everything from the
datacenter. This project models the following parts of it:

- **The greedy placer (greedy2.cpp).** Modelled pieces:
  - the `Endpoint` constructor with its dense `MAXC`-entry latency table;
  - the reverse index from videos to their requests;
  - `calc_savings`, the initial savings matrix;
  - `get_best_video_to_cache`, a row-major scan where the last of equal maxima wins;
  - `update_savings_for_video`;
  - the select / mark-infeasible / commit loop of `main`.

  greedy.cpp repeats the same constructor and the same savings loop inline. Both
  are modelled once: `Catalogue.NewEndpoint` and `Savings.CalcSavings`.
- **The scorer (scoring.py).** It validates a submitted assignment and computes
  the raw score.
- **The fill solver (solvers/fill.py).** Each video gets a price, the number of
  requests for it. Videos are taken in descending (price, size, id) order, and
  each goes into the first cache with room. Videos that fit nowhere are counted
  in `left`.
- **`Range<T>` and `RangeView` (solvers/greedy/types.hpp).** A `Range<T>` is a
  vector with checked indexing. A `RangeView` names a list of positions in one;
  through it you can read, write, compare, filter and remove those positions.
- **`signum` (solvers/greedy/common.hpp).** Both overloads and the dispatch.

Modules and files:

| module | file | what it holds |
|---|---|---|
| Wrappers | wrappers.dfy | `Option` and `Result`, used for error paths |
| Seqs | seqs.dfy | shared sequence predicates and `Overwrite`, the "write (index, value) pairs in order, last write wins" table |
| Catalogue | catalogue.dfy | the catalogue data types and their builders |
| Savings | savings.dfy | the initial savings matrix and its specification |
| Grids | grids.dfy | index-pair sets that bound the number of loop iterations |
| Placement | placement.dfy | the greedy loop as a transition system on values: states, one step, runs |
| Engine | engine.dfy | the greedy loop on arrays, proved to take the steps of Placement |
| Scoring | scoring.dfy | the scorer |
| Fill | fill.dfy | the fill solver |
| Ranges | ranges.dfy | `Range` and `RangeView` |
| Common | common.dfy | signum |

Imperative code keeps its form:
- Matrices are `array2<int>`.
- These are arrays:
  - `cache_space_left` of greedy2.cpp;
  - `space_left` and `video_price` of solvers/fill.py;
  - the latency table that `Catalogue.NewEndpoint` fills.
- The scorer's latency rows are built as sequences (`Scoring.LatencyRow`),
  because scoring.py builds each row as a new list.
- `Range` and `RangeView` are classes whose methods reassign a `seq` field.

Each method is proved against a specification function (`Saving`, `Total`,
`PlaceAll`, `Overwrite`, `Survivors`, `Matching`, ...). The source's promises
are lemmas about those functions. The greedy loop of greedy2.cpp is specified
by `Placement.Advance`, one iteration on values. `Engine.Step` takes one such
step on the arrays, and `Engine.PlaceGreedily` returns the ghost trace of the
states it passed through. `Placement.RunDeterministic` shows that this trace
is the only complete run from the initial matrix.

Notes on how the model reads the code:

- **`update_savings_for_video` never raises anything.** Its loops are laid out
  to rebuild the column of the placed video: reset the entries, then raise each
  by what its cache still improves on every request. The code does something
  else:
  - It resets only the entries above zero (greedy2.cpp:75).
  - It then raises only entries that are still above zero (greedy2.cpp:93).
  - Nothing in the column is above zero any more, so no raise happens.

  The net effect is that positive entries of that column become 0. The model
  follows the code, and the contract of `Engine.UpdateSavingsForVideo` states
  that net effect exactly.
- **The greedy loop always ends.** Each iteration turns one entry that is at or
  above zero into a negative one, and negative entries never change again. So
  the loop runs at most C·V times, and it stops only when every entry is
  negative.
- **Selection needs an entry of at least -10.** `get_best_video_to_cache` starts
  from a best of -10. If every entry is below that, it returns uninitialised
  indexes; this always happens with no cache or no video (see Findings).
  `Engine.SelectBest` reports `found = false` in that case, and the model's
  loop stops there. During the loop this case cannot arise once an entry is
  -1 or -2, and the initial entries are sums of products that are normally 0
  or more.
- **Python list indexes follow Python's rules.** In scoring.py, a negative cache
  id or video id in a submission indexes from the end of the list. An index
  outside `[-n, n)` raises an error, which the model reports as `Malformed`. A
  missing or empty line of the submission is also `Malformed`.
- **Some inputs are taken as trusted.**
  - A request's endpoint id in the scorer lies in range.
  - The cache ids of an endpoint's connection list lie in range, for the scorer
    and for the greedy placer's constructor.
  - A request's video id in the fill solver lies in range.
  - For the greedy placer (`Catalogue.WellFormed`, required by
    `Catalogue.BuildVideos` and `Engine.Run`):
    - every request's video id is below V, because greedy2.cpp:135 indexes
      `videos[vid]` with it;
    - every request's endpoint id is below E, because `calc_savings` and the
      update step index `endpoints` with it (greedy2.cpp:63-65, 83);
    - every cache id in an endpoint's connection list is below C, not only
      below MAXC, because the update step indexes `videos_per_cache[cid]`
      with it (greedy2.cpp:85-87);
    - every request id in a video's list is below R, because `calc_savings`
      and the update step index `requests` with it (greedy2.cpp:62, 82).

  The programs index with these values without checking them.
- **The greedy placer is specified for a cache size X of at least 0**
  (`Engine.Run`, `Engine.PlaceGreedily`). The source also runs with X < 0:
  every video is then larger than X, every entry starts at 0, and each pair
  in turn becomes -2, so no video is placed. That run is not modelled,
  because the load invariant (free space = X minus load, never negative)
  does not hold from the start.
- **The cache count is at most MAXC** (`Catalogue.WellFormed`), the size of
  the dense latency table (greedy2.cpp:10 and 24). A larger count would index
  past the table. There is no lower bound: with no cache or no video the
  model's loop makes no step (`Placement.EmptyRunStops`).
- **`RangeView` reads require every named position to lie inside the receiver
  (`Valid()`).** The multi-index write access of `Range` asserts this when it
  creates a view (types.hpp:618-623). The `RangeView` constructor itself does
  not check it (types.hpp:461-462).

## Model

| member | source | states |
|---|---|---|
| `Catalogue.Unconnected` | greedy2.cpp:24 | a fresh latency table has MAXC entries, all -1 (not connected) |
| `Catalogue.NewEndpoint` | greedy2.cpp:20-28 | the endpoint keeps dl, cc and the count of cc; its table is the -1 table overwritten by `cc[i] := cl[i]` in order; unlisted caches stay -1; a connection with no later write to the same cache keeps its latency |
| `Catalogue.IndexStep` | greedy2.cpp:135 | appending request n to its video's list keeps every list increasing and in range, and keeps "j is listed for v iff request j asks for v" for one more request |
| `Catalogue.BuildVideos` | greedy2.cpp:116-136 | each video keeps its size, and its request list is increasing, in range, and holds exactly the requests that ask for it |
| `Seqs.LastIndexOf` | greedy2.cpp:25-26 | the result is the last position holding p; no later position holds p; -1 when p is absent |
| `Seqs.OverwriteAt` | greedy2.cpp:24-27 | after the writes, each cell holds the value of the last write to it, or its base value if it was never written |
| `Seqs.OverwriteUnlisted` | greedy.cpp:23-26 | a cell that no write names keeps its base value |
| `Seqs.OverwriteLastWins` | greedy.cpp:24-25 | a write that no later write to the same cell undoes survives |
| `Savings.CalcSavings` | greedy2.cpp:55-71 | a C×V matrix whose entry (c, v) is `Saving(c, v)`, the sum over v's requests of their gain at c; 0 for videos larger than X |
| `Savings.ConnectedMembers` | greedy2.cpp:63 | a request is among the connected ones exactly when it is listed and its endpoint's latency to c is not -1 |
| `Savings.OnlyConnectedContribute` | greedy.cpp:82-87 | the accumulated entry equals the unguarded formula `num_req * (dl - lat[c])` summed over the connected requests only |
| `Savings.NoConnectionNoSaving` | greedy.cpp:77-90 | a video none of whose requests reaches c has entry 0 at c |
| `Savings.SumGainsNonNegative` | greedy2.cpp:60-66 | with non-negative counts, and cache latencies no worse than the datacenter wherever connected, the entry is at least 0 |
| `Engine.SelectBest` | greedy2.cpp:100-112 | `found` exactly when some entry is at least -10; then the chosen pair holds a maximum entry, and every later pair in row-major order holds a smaller one (the last maximum wins) |
| `Engine.CurrentLatency` | greedy2.cpp:84-90 | the result is at most the datacenter latency and at most every connected cache holding the video, and it equals one of these |
| `Engine.UpdateSavingsForVideo` | greedy2.cpp:73-98 | positive entries of the video's column become 0, every other entry is unchanged, and the column ends at or below 0 |
| `Engine.MarkCannotFit` | greedy2.cpp:151-153 | the pair is set to -2; nothing else changes; the engine invariant is kept |
| `Engine.Place` | greedy2.cpp:155-157 | the cache's space drops by the video size, the video is appended to the cache's list, and the pair is set to -1; all else is unchanged and the invariant is kept |
| `Engine.CommitVideo` | greedy2.cpp:155-164 | Place followed by the column update; the new state of every entry, of the space and of the lists; the invariant is kept |
| `Engine.Retire` | greedy2.cpp:151-164 | the body of the loop for a picked pair at or above zero: the new matrix, lists and free space are exactly `Placement.Advance` of the old state (-2 when the video does not fit, otherwise the commit and the column update); the invariant is kept and one new pair is retired |
| `Engine.Step` | greedy2.cpp:146-164 | one trip through the loop: `done` exactly when every entry of the matrix is negative, and then nothing changes; otherwise the pick is the last maximum of the old matrix and the new state is one `GreedyStep` from the old one |
| `Engine.InitialState` | greedy2.cpp:141-142 | the state is `Begin`: the matrix as given, C empty lists and C free spaces equal to X; the invariant holds |
| `Engine.PlaceGreedily` | greedy2.cpp:145-165 | the loop returns a complete run from its initial state, whose last state holds the final matrix and the returned lists; at most C·V steps; each cache's videos are in range, distinct, and total at most X; every final entry is negative and every placed pair reads -1 |
| `Engine.Run` | greedy2.cpp:139-165 | the whole pipeline: a complete run from the initial matrix of `calc_savings` (`InitialGrid`) that ends in the returned lists, with the same load facts; with `RunDeterministic` the result is the one greedy placement of the catalogue |
| `Placement.LastMaxUnique` | greedy2.cpp:104-108 | the tie-break makes the choice unique: two last maxima of the same matrix coincide |
| `Placement.NoCandidateLeavesUnset` | greedy2.cpp:100-112 | when no entry reaches -10 the scan as written returns the uninitialised indexes unchanged; with no cache they lie outside the matrix |
| `Placement.InitialGrid` | greedy2.cpp:55-71 | the initial matrix on values: a C×V matrix whose entry (c, v) is `Saving(c, v)` |
| `Placement.ResetColumn` | greedy2.cpp:73-98 | the net effect of `update_savings_for_video` on values: positive entries of column v become 0, all other entries are unchanged |
| `Placement.Advance` | greedy2.cpp:151-164 | one iteration on values keeps a C×V matrix, C lists and C free spaces (what it does is stated by `StepRetires`, `AdvanceRetires` and `Engine.Retire`) |
| `Placement.StepRetires` | greedy2.cpp:150-157 | a step turns its pair from at least 0 to negative and leaves every negative entry as it is |
| `Placement.AdvanceRetires` | greedy2.cpp:150-164 | the set of retired pairs grows by a pair that was not retired before |
| `Placement.StepDeterministic` | greedy2.cpp:146-164 | from a given state at most one step is possible: the pick and the next state are determined |
| `Placement.RunSnoc` | greedy2.cpp:145-165 | a run followed by one more greedy step is a run |
| `Placement.CompleteTail` | greedy2.cpp:145-165 | a complete run without its first step is a complete run |
| `Placement.RunDeterministic` | greedy2.cpp:145-165 | two complete runs from the same state make the same picks through the same states: the placement is a function of the initial matrix |
| `Placement.EmptyRunStops` | greedy2.cpp:144-150 | with no cache or no video a complete run makes no step |
| `Grids.PairsBound` | greedy2.cpp:144 | a set of index pairs of a C×V matrix has at most C·V elements (`all = C*V`) |
| `Scoring.PyIndex` | scoring.py:44-45 | Python's list indexing: defined exactly on [-n, n), and then i or i + n |
| `Scoring.LatencyRow` | scoring.py:25-28 | the row is `[ld]*c` overwritten by `row[cid] := lc` in order; unlisted caches keep ld; the last write to a cache wins |
| `Scoring.SizeSum` | scoring.py:49 | the sum is defined exactly when every id is a valid Python index into the size list |
| `Scoring.SizeSumAppend` | scoring.py:49 | the sizes of two id lists add up |
| `Scoring.ElementsOf` | scoring.py:48 | `set(line[1:])` holds exactly the listed ids |
| `Scoring.FilledIff` | scoring.py:45-48 | a cache slot is filled exactly when one of the earlier lines writes it |
| `Scoring.LineCheck` | scoring.py:43-52 | line i passes exactly when it names a valid slot that no earlier line named and its ids are valid with sizes totalling at most x; a repeated cache has an earlier line naming the same slot; an over-capacity refusal carries a total above x |
| `Scoring.Finalize` | scoring.py:54 | a slot no line filled becomes the empty set; the others keep their set |
| `Scoring.ReadAssignment` | scoring.py:37-54 | refused for a bad cache count exactly when the count is > c or < 0; accepted exactly when every line passes; otherwise refused with the first failing line's complaint; an accepted submission maps each cache to its line's set, or {} |
| `Scoring.AcceptedSlotsDistinct` | scoring.py:45-47 | no two lines of an accepted submission fill the same cache |
| `Scoring.AcceptedWithinCapacity` | scoring.py:49-52 | every line of an accepted submission lists videos totalling at most x |
| `Scoring.BestIsMin` | scoring.py:61-65 | `best` is the minimum of the datacenter latency and the latencies of the caches holding the video |
| `Scoring.BestAntitone` | scoring.py:63-65 | caching more can only lower `best` |
| `Scoring.RawScore` | scoring.py:58-66 | the loop computes the raw score Total, the sum of `(worst - best) * num` over the requests |
| `Scoring.GainNonNegative` | scoring.py:66 | a request with a non-negative count contributes at least 0 |
| `Scoring.EmptyScoresZero` | scoring.py:58-66 | an assignment that caches nothing scores 0 |
| `Scoring.ScoreMonotone` | scoring.py:60-66 | with non-negative counts, adding videos to caches never lowers the raw score |
| `Fill.VideoPrices` | solvers/fill.py:27-34 | `video_price[v]` is the total request count for v |
| `Fill.UnrequestedIsFree` | solvers/fill.py:27 | a video nobody requests has price 0 |
| `Fill.TotalForAppend` | solvers/fill.py:31-34 | totals over two runs of requests add up |
| `Fill.InsertPermutes` | solvers/fill.py:40 | inserting a key adds exactly that key to the multiset |
| `Fill.InsertAscending` | solvers/fill.py:40 | inserting into an ascending list keeps it ascending |
| `Fill.Sort` | solvers/fill.py:40 | `lens.sort()` yields an ascending permutation under Python's tuple order |
| `Fill.Reverse` | solvers/fill.py:46 | `lst[::-1]` holds element n-1-i at position i |
| `Fill.ReversePermutes` | solvers/fill.py:46 | reversal is a permutation |
| `Fill.ProcessingOrder` | solvers/fill.py:39-46 | the videos are processed in descending (price, size, id) order, each key exactly as often as in the input |
| `Fill.FirstFitFrom` | solvers/fill.py:47-52 | the result is the lowest cache from j on that has room; None when no such cache exists |
| `Fill.FirstFitAt` | solvers/fill.py:47-52 | a cache with room and no earlier cache with room is the first fit |
| `Fill.FirstFitNone` | solvers/fill.py:53-54 | when no cache has room there is no fit |
| `Fill.PlaceOne` | solvers/fill.py:47-54 | one video keeps one list and one space entry per cache |
| `Fill.PlaceOneSpec` | solvers/fill.py:47-54 | the first cache with room loses the video's size and gains its id while nothing else changes; when no cache has room only `left` grows, by one |
| `Fill.PlaceAll` | solvers/fill.py:46-55 | placing videos keeps one list and one space entry per cache |
| `Fill.PlaceVideo` | solvers/fill.py:47-54 | the new space, lists and `left` are one first-fit step of the old state |
| `Fill.FirstFitLoop` | solvers/fill.py:42-55 | the final state is first fit applied to the order, starting from C empty caches of size X |
| `Fill.PlaceAllBalanced` | solvers/fill.py:44-51 | every cache's free space is X minus its load and never negative |
| `Fill.Ids` | solvers/fill.py:46 | the ids of the keys, position by position |
| `Fill.PlaceOnePlacedOnce` | solvers/fill.py:49-52 | placing a new id keeps every id held at most once, and draws only from the ids seen so far |
| `Fill.PlaceAllPlacedOnce` | solvers/fill.py:46-52 | with distinct ids, no video is held twice, either in one cache or across two |
| `Fill.HeldAppendAt` | solvers/fill.py:51 | appending to one list raises the held count by one |
| `Fill.HeldEmpty` | solvers/fill.py:43 | C empty lists hold nothing |
| `Fill.PlaceAllCount` | solvers/fill.py:42-54 | every video is either held once or counted in `left` |
| `Fill.PlaceAllPrefix` | solvers/fill.py:51 | lists only grow at the end: each earlier list is a prefix of the final one |
| `Fill.FillSolver` | solvers/fill.py:27-55 | the result is first fit over the descending price order; caches are never overfilled; no video is held twice; held + left = V |
| `Fill.OrderFacts` | solvers/fill.py:39-46 | the order holds one key per video, each with that video's id and size |
| `Fill.PermutedKeys` | solvers/fill.py:39-46 | any rearrangement of the keys holds one key per video, each with that video's id and size |
| `Fill.FirstFitFacts` | solvers/fill.py:42-55 | first fit over the descending order never overfills a cache (when X >= 0), holds no video twice, and holds or counts every video |
| `Ranges.Select` | solvers/greedy/types.hpp:625-633 | the multi-index read yields `s[idx[k]]` at position k |
| `Ranges.MatchingSpec` | solvers/greedy/types.hpp:663-669 | `filter` returns exactly the positions whose element satisfies the predicate, increasing and each once |
| `Ranges.Shift` | solvers/greedy/types.hpp:646-651 | every position moves by the length of the first part |
| `Ranges.MatchingJoin` | solvers/greedy/types.hpp:646-651 | filtering a join gives the first part's matches followed by the second part's matches, shifted past the first part |
| `Ranges.AssignThenRead` | solvers/greedy/types.hpp:473-477 | when a view names each position once, reading it back after assigning `vals` yields `vals` |
| `Ranges.SelfAssignSeesWrites` | solvers/greedy/types.hpp:476 | assigning a Range to a view of itself lets later reads see earlier writes: [1, 2] through [1, 0] becomes [1, 1], not [2, 1] |
| `Ranges.ScalarOverwrite` | solvers/greedy/types.hpp:486-489 | after scalar assignment the named positions hold x and all others are unchanged |
| `Ranges.InsertUniqueSpec` | solvers/greedy/types.hpp:501-502 | inserting into an increasing list without duplicates keeps it increasing and adds exactly x |
| `Ranges.SortedUniqueSpec` | solvers/greedy/types.hpp:500-502 | `tmp` is increasing and holds exactly the named positions |
| `Ranges.KeptSpec` | solvers/greedy/types.hpp:503-516 | the positions `remove` keeps are increasing and are exactly those below the size that are not named |
| `Ranges.KeepIsSelect` | solvers/greedy/types.hpp:503-516 | what `remove` keeps is the receiver read at the kept positions |
| `Ranges.SurvivorsAreKept` | solvers/greedy/types.hpp:503-516 | what `remove` keeps is the elements at the unnamed positions, in increasing position order |
| `Ranges.KeepSameNames` | solvers/greedy/types.hpp:500-508 | sort-and-unique does not change which positions are removed |
| `Ranges.RemoveStep` | solvers/greedy/types.hpp:508-512 | position `cur` is skipped exactly when it is in `tmp`, which is then `tmp[to_remove]` |
| `Ranges.CompactStep` | solvers/greedy/types.hpp:511 | `*it++ = *cur` appends the current element to the kept prefix and leaves the unread part alone |
| `Ranges.SortedUniqueBounds` | solvers/greedy/types.hpp:500-502 | `tmp` names positions inside the receiver |
| `Ranges.AllRemoved` | solvers/greedy/types.hpp:507-516 | at the end of the compaction every entry of `tmp` has been skipped |
| `Ranges.RemoveNothing` | solvers/greedy/types.hpp:499-517 | a view naming no position removes nothing |
| `Ranges.Range.constructor` | solvers/greedy/types.hpp:571 | a Range built from a vector holds its elements |
| `Ranges.Range.Size` | solvers/greedy/types.hpp:636 | Range's own `size()`, the vector's size cast to `int`, is the number of elements and at least 0 |
| `Ranges.Range.At` | solvers/greedy/types.hpp:612-616 | the checked read yields the element at x, which is one of the Range's elements |
| `Ranges.Range.Set` | solvers/greedy/types.hpp:606-610 | writing through the checked reference changes exactly position x |
| `Ranges.Range.Pick` | solvers/greedy/types.hpp:625-633 | the multi-index read yields a new Range with `this[indexes[k]]` at k |
| `Ranges.Range.View` | solvers/greedy/types.hpp:618-623 | multi-index write access yields a view of this Range through the indexes |
| `Ranges.Range.Filter` | solvers/greedy/types.hpp:663-669 | the result is the matching positions (see MatchingSpec) |
| `Ranges.Range.Append` | solvers/greedy/types.hpp:639-641 | the Range becomes its old elements followed by those of `rng` |
| `Ranges.Range.JoinWith` | solvers/greedy/types.hpp:646-651 | a new Range holding this Range's elements followed by those of `rng`, with this Range unchanged |
| `Ranges.Join` | solvers/greedy/types.hpp:726-730 | the free `join` yields a new Range holding a's elements followed by b's |
| `Ranges.CompareRange` | solvers/greedy/types.hpp:671-693 | `<`, `>`, `<=`, `>=`, `==`, `!=` against v give exactly the positions whose element compares so, increasing |
| `Ranges.RangeView.constructor` | solvers/greedy/types.hpp:461-462 | the view holds its receiver and its positions |
| `Ranges.RangeView.Contents` | solvers/greedy/types.hpp:492-496 | the view has one element per named position |
| `Ranges.RangeView.Size` | solvers/greedy/types.hpp:496 | the view's size is the number of named positions |
| `Ranges.RangeView.At` | solvers/greedy/types.hpp:492-494 | the i-th viewed element is the receiver's element at the i-th named position |
| `Ranges.RangeView.AsRange` | solvers/greedy/types.hpp:465-470 | the conversion yields a new Range holding the viewed elements |
| `Ranges.RangeView.AssignRange` | solvers/greedy/types.hpp:473-477 | from another Range, the receiver is overwritten position by position with the last write winning; from itself, the interleaved reads and writes of the loop |
| `Ranges.RangeView.AssignScalar` | solvers/greedy/types.hpp:486-489 | every named position receives x |
| `Ranges.RangeView.Compact` | solvers/greedy/types.hpp:503-515 | the while loop of `remove`: the size is unchanged, the write cursor ends at the size minus the number of names, and the elements before it are the survivors in order |
| `Ranges.RangeView.Remove` | solvers/greedy/types.hpp:499-517 | the receiver loses exactly the named positions, each once, keeping the rest in order; its size drops by the number of distinct named positions |
| `Ranges.RangeView.Equals` | solvers/greedy/types.hpp:520-526 | true exactly when both views have the same size and equal elements position by position |
| `Ranges.RangeView.NotEquals` | solvers/greedy/types.hpp:528 | true exactly when the viewed contents differ |
| `Ranges.RangeView.EqualsRange` | solvers/greedy/types.hpp:703-710 | a view equals a Range exactly when the viewed elements are the Range's elements |
| `Ranges.RangeView.Filter` | solvers/greedy/types.hpp:535-541 | the matching positions within the view, not within the receiver |
| `Ranges.CompareView` | solvers/greedy/types.hpp:543-565 | the six comparisons on a view give exactly the view positions whose element compares so, increasing |
| `Common.SignumUnsigned` | solvers/greedy/common.hpp:159-163 | the unsigned overload gives 0 or 1, and gives 0 exactly at zero |
| `Common.SignumSigned` | solvers/greedy/common.hpp:164-168 | the signed overload gives -1 exactly below zero, 0 exactly at zero and 1 exactly above |
| `Common.Signum` | solvers/greedy/common.hpp:169-177 | the dispatch returns 0 for zero, -1 for a negative number and +1 for a positive one, whatever the type |
| `Common.OverloadsAgree` | solvers/greedy/common.hpp:159-177 | both overloads agree on values that both types can hold |

## Left out

- Reading the input and the submission, and printing the caches, the score and
  messages, are not modelled. The builders and validators take numbers that
  have already been read. `exit(1)` becomes an `Err` result.
- The progress report of greedy2.cpp (the `done` counter and the `cerr` line,
  greedy2.cpp:143-144 and 159-162) is left out because it is output only.
- The final scaling of the score, `score *= 1000 / total requests` followed by
  `int(...)` (scoring.py:68-69), is left out because it is floating point. The
  model stops at the raw score.
- C++ `int` overflow is not modelled. Sums and products in the savings matrix
  and the update step are computed over unbounded integers.
- All integers are unbounded: `size_type` is `int`, and the Python lists have no
  size limit.
- The `cid` counter of solvers/fill.py:45, 55 is left out because nothing reads
  it. `j %= c` is modelled and shown to change nothing.
- Fill.Sort: `lens.sort()` is modelled as an insertion sort. Its result, an
  ascending permutation, is what the program uses; Timsort's stability adds
  nothing here, because the keys are distinct.
- Ranges.RangeView.AssignRange: the initializer-list assignment
  (types.hpp:479-484) runs the same loop over a list of values. It is covered by
  the case where the right-hand side is a different Range.
- Ranges.Range.Append: appending a Range to itself is undefined for
  `std::vector::insert`. The model gives that case the old elements twice.
- Ranges.RangeView.Remove: it requires every named position to be inside the
  receiver (`Valid()`). Only `Range::operator[]` asserts this
  (types.hpp:618-623). A view built directly with the constructor
  (types.hpp:461-462) may name other positions, and `remove` is still defined
  on it: a name at or past the end is never reached and is ignored, and a
  negative name sorts first, never matches, and so stops every removal. That
  behaviour of directly built views is not modelled. Nor is a view kept past a
  change of the receiver's size.
- Ranges.CompareRange, Ranges.CompareView, Common.Signum: elements and numbers
  are integers. For floating-point elements, as in the `double` filter of the
  documentation (types.hpp:659), IEEE 754 comparison is not modelled: a NaN
  compares false under every operator but `!=`, so it is in no result but that
  of `!=`, and `signum` of a NaN gives 0.
- Ranges.RangeView.Equals, Ranges.RangeView.NotEquals, Ranges.RangeView.EqualsRange:
  elements are compared with Dafny's `==`, which is reflexive. The source
  compares with T's own `operator!=` (types.hpp:520-526, 528, 703-710). For
  `double` that is IEEE 754 comparison, where NaN != NaN: in C++ a view holding
  a NaN is unequal even to itself, while the model calls it equal. T's own
  comparison operators are not modelled.
- Engine.Run, Engine.PlaceGreedily: they require a cache size X of at least 0.
  With X < 0 the source still runs: every entry starts at 0, each pair in turn
  becomes -2, and no video is placed. That run is not modelled, because the
  load invariant (free space = X minus load, never negative) fails from the
  start.
- `RangeView` holds `const indexes_t&`, a reference to the position list. The
  model copies the list, so a later change to the list through another name is
  not modelled.
- These members of `Range` are not part of this model:
  - its own assignment operators from a vector, an initializer list or a scalar
    (types.hpp:581-604);
  - its constructors from the `Vec`/`VecX` types;
  - the `Range == RangeView` and `!=` forms that only swap or negate
    `EqualsRange` (types.hpp:712-719).
- The rest of types.hpp and common.hpp is not part of this model: the
  Eigen-based vector types, the printing helpers, `get_seed`, `mem2str`,
  `make_unique` and `mem_used`. Neither is includes.hpp.

## Findings

| source | as written | input that shows it | evidently intended | confidence | as-written member | corrected member |
|---|---|---|---|---|---|---|
| greedy2.cpp:100-112, 146-150 | `get_best_video_to_cache` assigns `best_cache` and `best_video` only when some entry is at least -10, otherwise it returns them uninitialised, and `main` then reads `savings[best_cache][best_video]` | C == 0 (or V == 0): the matrix has no entry, the scan returns the unset pair, and the break test reads outside the matrix | the loop ends at once when there is nothing to place | not executed | `Placement.NoCandidateLeavesUnset` | `Engine.SelectBest` (`found` is false exactly then, and `Engine.Step` stops), with `Placement.EmptyRunStops` |
