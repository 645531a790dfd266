/** `parallel_min`: a divide-and-conquer minimum over an `i32` slice.
    The two recursive calls handed to `rayon::join` are independent and free
    of side effects, so they are evaluated here one after the other. */
module ParallelMin {
  import opened Int32
  import opened Options
  import opened Sequences

  /** Slices of at most this many elements are scanned directly. */
  const THRESHOLD: nat := 10

  /** `r` is the minimum of `s`: one of its elements, and no greater than any. */
  ghost predicate IsMinOf(r: i32, s: seq<i32>) {
    r in s && forall i :: 0 <= i < |s| ==> r <= s[i]
  }

  /** A sequence has at most one minimum. */
  lemma MinUnique(r1: i32, r2: i32, s: seq<i32>)
    requires IsMinOf(r1, s) && IsMinOf(r2, s)
    ensures r1 == r2
  {
  }

  /** The left-to-right reduction behind `Iterator::min`: the running minimum
      `acc` is combined with each element in turn. */
  function MinFold(acc: i32, s: seq<i32>): (r: i32)
    ensures r <= acc && (r == acc || r in s)
    ensures forall i :: 0 <= i < |s| ==> r <= s[i]
    decreases |s|
  {
    if s == [] then acc else MinFold(Min(acc, s[0]), s[1..])
  }

  /** `slice.iter().min()`: `None` on an empty slice, otherwise the minimum. */
  function IterMin(s: seq<i32>): (r: Option<i32>)
    ensures r.None? <==> s == []
    ensures r.Some? ==> IsMinOf(r.value, s)
  {
    if s == [] then None else Some(MinFold(s[0], s[1..]))
  }

  /** The purely sequential minimum, `slice.iter().min().unwrap()`; the
      `unwrap` panics on an empty slice, hence the precondition. */
  function SequentialMin(s: seq<i32>): (r: i32)
    requires |s| > 0
    ensures IsMinOf(r, s)
  {
    IterMin(s).value
  }

  /** `slice.split_at(mid)`, which panics when `mid` is past the end. */
  function SplitAt(s: seq<i32>, mid: nat): (halves: (seq<i32>, seq<i32>))
    requires mid <= |s|
    ensures halves.0 + halves.1 == s
    ensures |halves.0| == mid
  {
    (s[..mid], s[mid..])
  }

  /** A slice longer than THRESHOLD is cut at `len / 2` into two non-empty,
      strictly shorter halves that together are exactly the slice. */
  lemma SplitHalves(s: seq<i32>)
    requires |s| > THRESHOLD
    ensures var (left, right) := SplitAt(s, |s| / 2);
      left + right == s &&
      0 < |left| < |s| && 0 < |right| < |s| &&
      THRESHOLD / 2 <= |left| <= |right| <= |left| + 1
  {
  }

  /** `parallel_min`. */
  function ParallelMinOf(s: seq<i32>): (r: i32)
    requires |s| > 0
    ensures IsMinOf(r, s)
    decreases |s|
  {
    if |s| <= THRESHOLD then
      SequentialMin(s)
    else
      var (left, right) := SplitAt(s, |s| / 2);
      var minLeft := ParallelMinOf(left);
      var minRight := ParallelMinOf(right);
      Min(minLeft, minRight)
  }

  /** The parallel result is the sequential minimum. */
  lemma ParallelIsSequential(s: seq<i32>)
    requires |s| > 0
    ensures ParallelMinOf(s) == SequentialMin(s)
  {
    MinUnique(ParallelMinOf(s), SequentialMin(s), s);
  }

  /** Splitting at any point and combining the two minima with `min` gives the
      minimum of the whole, so the result does not depend on where the range is cut. */
  lemma {:induction false} SplitAnywhere(s: seq<i32>, k: nat)
    requires 0 < k < |s|
    ensures Min(SequentialMin(s[..k]), SequentialMin(s[k..])) == SequentialMin(s)
  {
  }

  /** Slices of at most THRESHOLD elements are not split: the result is the
      direct scan. */
  lemma SmallIsScan(s: seq<i32>)
    requires 0 < |s| <= THRESHOLD
    ensures ParallelMinOf(s) == MinFold(s[0], s[1..])
    ensures Leaves(s) == [s] && SplitCount(|s|) == 0
  {
  }

  /** The chunks that reach the sequential base case, left to right: the
      partition of the input that the recursion of `parallel_min` builds. */
  function Leaves(s: seq<i32>): (chunks: seq<seq<i32>>)
    decreases |s|
  {
    if |s| <= THRESHOLD then [s]
    else
      var (left, right) := SplitAt(s, |s| / 2);
      Leaves(left) + Leaves(right)
  }

  /** Concatenation of a sequence of chunks. */
  function Flatten(chunks: seq<seq<i32>>): seq<i32> {
    if chunks == [] then [] else chunks[0] + Flatten(chunks[1..])
  }

  lemma {:induction false} FlattenAppend(a: seq<seq<i32>>, b: seq<seq<i32>>)
    ensures Flatten(a + b) == Flatten(a) + Flatten(b)
    decreases |a|
  {
    if a == [] {
      assert a + b == b;
    } else {
      assert (a + b)[1..] == a[1..] + b;
      FlattenAppend(a[1..], b);
    }
  }

  /** The base-case chunks partition the input exactly (no element skipped or
      taken twice), and no chunk is empty or longer than THRESHOLD; past the
      first split no chunk is shorter than THRESHOLD / 2. */
  lemma {:induction false} LeavesPartition(s: seq<i32>)
    requires |s| > 0
    ensures Flatten(Leaves(s)) == s
    ensures forall i :: 0 <= i < |Leaves(s)| ==> 0 < |Leaves(s)[i]| <= THRESHOLD
    ensures |s| > THRESHOLD ==>
      forall i :: 0 <= i < |Leaves(s)| ==> THRESHOLD / 2 <= |Leaves(s)[i]|
    decreases |s|
  {
    if |s| <= THRESHOLD {
      assert Flatten([s]) == s + Flatten([]);
    } else {
      var (left, right) := SplitAt(s, |s| / 2);
      LeavesPartition(left);
      LeavesPartition(right);
      FlattenAppend(Leaves(left), Leaves(right));
      var ls, rs := Leaves(left), Leaves(right);
      assert Leaves(s) == ls + rs;
      forall i | 0 <= i < |Leaves(s)|
        ensures THRESHOLD / 2 <= |Leaves(s)[i]| <= THRESHOLD
      {
        if i < |ls| {
          assert Leaves(s)[i] == ls[i];
          if THRESHOLD < |left| {
          } else {
            assert ls == [left];
          }
        } else {
          assert Leaves(s)[i] == rs[i - |ls|];
          if THRESHOLD < |right| {
          } else {
            assert rs == [right];
          }
        }
      }
    }
  }

  /** The base-case result of each chunk, in order. */
  function ChunkMins(chunks: seq<seq<i32>>): seq<i32>
    requires forall i :: 0 <= i < |chunks| ==> |chunks[i]| > 0
  {
    seq(|chunks|, i requires 0 <= i < |chunks| => SequentialMin(chunks[i]))
  }

  lemma ChunkMinsAppend(a: seq<seq<i32>>, b: seq<seq<i32>>)
    requires forall i :: 0 <= i < |a| ==> |a[i]| > 0
    requires forall i :: 0 <= i < |b| ==> |b[i]| > 0
    ensures forall i :: 0 <= i < |a + b| ==> |(a + b)[i]| > 0
    ensures ChunkMins(a + b) == ChunkMins(a) + ChunkMins(b)
  {
  }

  /** The minimum of a concatenation is `min` of the two minima. */
  lemma MinOfConcat(a: seq<i32>, b: seq<i32>)
    requires |a| > 0 && |b| > 0
    ensures SequentialMin(a + b) == Min(SequentialMin(a), SequentialMin(b))
  {
    var s := a + b;
    assert s[..|a|] == a && s[|a|..] == b;
    SplitAnywhere(s, |a|);
  }

  /** `parallel_min` is the minimum of the base-case results of the chunks
      its recursion builds: every chunk contributes, each exactly once. */
  lemma {:induction false} ParallelMinOverLeaves(s: seq<i32>)
    requires |s| > 0
    ensures |Leaves(s)| > 0
    ensures forall i :: 0 <= i < |Leaves(s)| ==> |Leaves(s)[i]| > 0
    ensures ParallelMinOf(s) == SequentialMin(ChunkMins(Leaves(s)))
    decreases |s|
  {
    if |s| <= THRESHOLD {
      assert Leaves(s) == [s];
      assert ChunkMins([s]) == [SequentialMin(s)];
    } else {
      var (left, right) := SplitAt(s, |s| / 2);
      ParallelMinOverLeaves(left);
      ParallelMinOverLeaves(right);
      var ls, rs := Leaves(left), Leaves(right);
      assert Leaves(s) == ls + rs;
      ChunkMinsAppend(ls, rs);
      MinOfConcat(ChunkMins(ls), ChunkMins(rs));
    }
  }

  /** Number of times `parallel_min` splits a slice of length `n`. */
  function SplitCount(n: nat): nat {
    if n <= THRESHOLD then 0 else 1 + SplitCount(n / 2) + SplitCount(n - n / 2)
  }

  /** Each split replaces one task by two, so a slice split `SplitCount` times
      reaches the base case in exactly one more chunk. */
  lemma {:induction false} LeafCount(s: seq<i32>)
    ensures |Leaves(s)| == SplitCount(|s|) + 1
    decreases |s|
  {
    if |s| > THRESHOLD {
      var (left, right) := SplitAt(s, |s| / 2);
      LeafCount(left);
      LeafCount(right);
    }
  }

  /** A slice of exactly THRESHOLD elements is scanned; one more element
      causes exactly one split, at `mid = 5`. */
  lemma ThresholdBoundary()
    ensures SplitCount(THRESHOLD) == 0
    ensures SplitCount(THRESHOLD + 1) == 1
    ensures SplitCount(12) == 1
    ensures SplitCount(100) == 15
  {
    assert SplitCount(25) == 3 by {
      assert SplitCount(12) == 1;
      assert SplitCount(13) == 1;
    }
    assert SplitCount(50) == 7;
  }

  /** `1..=n` collected: 1, 2, ..., n. */
  function Ascending(n: nat): seq<i32>
    requires n <= I32_MAX
  {
    seq(n, i requires 0 <= i < n => (i + 1) as i32)
  }

  /** The input of the demonstration in `main`, `(1..=n).rev().collect()`. */
  function Countdown(n: nat): seq<i32>
    requires n <= I32_MAX
  {
    Reverse(Ascending(n))
  }

  /** `(1..=n).rev()` is n, n - 1, ..., 1. */
  lemma CountdownAt(n: nat)
    requires n <= I32_MAX
    ensures |Countdown(n)| == n
    ensures forall i :: 0 <= i < n ==> Countdown(n)[i] as int == n - i
  {
  }

  /** `parallel_min` of 100, 99, ..., 1 is 1. */
  lemma CountdownMin()
    ensures ParallelMinOf(Countdown(100)) == 1
  {
    var s := Countdown(100);
    CountdownAt(100);
    var r := ParallelMinOf(s);
    assert r <= s[99];
    var i :| 0 <= i < |s| && s[i] == r;
  }

  /** An element that is no greater than any other is the sequential minimum. */
  lemma SequentialMinAt(t: seq<i32>, k: nat)
    requires k < |t| && forall i :: 0 <= i < |t| ==> t[k] <= t[i]
    ensures SequentialMin(t) == t[k]
  {
  }

  /** A slice of THRESHOLD + 1 to 2 * THRESHOLD elements is split once,
      and each half is scanned directly. */
  lemma OneSplit(s: seq<i32>)
    requires THRESHOLD < |s| <= 2 * THRESHOLD
    ensures SplitCount(|s|) == 1
    ensures ParallelMinOf(s) == Min(SequentialMin(s[..|s| / 2]), SequentialMin(s[|s| / 2..]))
  {
  }

  /** [100, 2, 37, -5, 64, 0, 88, 13, 45, -20, 7, 99] is split once, at 6:
      [100, 2, 37, -5, 64, 0] has minimum -5, [88, 13, 45, -20, 7, 99] has
      minimum -20, and the result is -20. */
  lemma TwelveElements(left: seq<i32>, right: seq<i32>)
    requires left == [100, 2, 37, -5, 64, 0] && right == [88, 13, 45, -20, 7, 99]
    ensures SplitAt(left + right, 6) == (left, right)
    ensures SplitCount(|left + right|) == 1
    ensures SequentialMin(left) == -5 && SequentialMin(right) == -20
    ensures ParallelMinOf(left + right) == -20
  {
    var s := left + right;
    assert s[..6] == left && s[6..] == right;
    SequentialMinAt(left, 3);
    SequentialMinAt(right, 3);
    OneSplit(s);
  }

  /** A single element is its own minimum, with no split. */
  lemma Singleton(x: i32)
    ensures ParallelMinOf([x]) == x && SplitCount(1) == 0
  {
  }
}
