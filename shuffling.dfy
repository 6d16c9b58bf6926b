/** The Fisher–Yates shuffle of `MutableCollection.shuffle()` and its copying
    wrapper `Sequence.shuffled()`.

    The random draw `arc4random_uniform(unshuffledCount)` is replaced by an
    oracle: a sequence `ds` of offsets, one per loop iteration, each below the
    `unshuffledCount` of its iteration. The oracle keeps exactly the bound the
    code relies on and nothing about the distribution. */
module Shuffling {

  /** `stride(from: from, to: to, by: -1)`: from, from - 1, ..., to + 1 (the
      bound `to` itself is excluded). */
  function Stride(from: int, to: int): seq<int>
    decreases from - to
  {
    if from <= to then [] else [from] + Stride(from - 1, to)
  }

  lemma {:induction false} StrideAt(from: int, to: int)
    ensures |Stride(from, to)| == if from <= to then 0 else from - to
    ensures forall i :: 0 <= i < |Stride(from, to)| ==> Stride(from, to)[i] == from - i
    decreases from - to
  {
    if from > to {
      StrideAt(from - 1, to);
    }
  }

  /** The `indices` of a collection with `c` elements: 0, 1, ..., c - 1. */
  function Indices(c: nat): (r: seq<nat>)
    ensures |r| == c
    ensures forall i :: 0 <= i < c ==> r[i] == i
  {
    if c == 0 then [] else Indices(c - 1) + [c - 1]
  }

  /** `zip(xs, ys)`: pairs the elements position by position and stops at the
      end of the shorter sequence. */
  function Zip<X, Y>(xs: seq<X>, ys: seq<Y>): (r: seq<(X, Y)>)
    ensures |r| == if |xs| <= |ys| then |xs| else |ys|
    ensures forall i :: 0 <= i < |r| ==> r[i] == (xs[i], ys[i])
  {
    if xs == [] || ys == [] then [] else [(xs[0], ys[0])] + Zip(xs[1..], ys[1..])
  }

  /** The pairs `(firstUnshuffled, unshuffledCount)` the shuffle loop walks:
      `zip(indices, stride(from: c, to: 1, by: -1))`. */
  function Schedule(c: nat): seq<(nat, int)>
  {
    Zip(Indices(c), Stride(c, 1))
  }

  /** Number of loop iterations for a collection of `c` elements. */
  function Steps(c: nat): nat
  {
    if c > 1 then c - 1 else 0
  }

  /** The loop runs `c - 1` times (none when `c <= 1`); in iteration `j` the
      first unshuffled index is `j` and the unshuffled count is `c - j`, so the
      count goes from `c` down to 2. */
  lemma ScheduleAt(c: nat)
    ensures |Schedule(c)| == Steps(c)
    ensures forall j :: 0 <= j < |Schedule(c)| ==> Schedule(c)[j] == (j, c - j)
    ensures forall j :: 0 <= j < |Schedule(c)| ==> Schedule(c)[j].1 >= 2
  {
    StrideAt(c, 1);
  }

  /** The oracle for the random draws: one offset per iteration, and the offset
      of iteration `j` lies below its unshuffled count `c - j`, as
      `arc4random_uniform(unshuffledCount)` guarantees. */
  predicate OffsetsFit(c: nat, ds: seq<nat>)
  {
    |ds| == Steps(c) && forall j :: 0 <= j < |ds| ==> ds[j] < c - j
  }

  /** One iteration: swap position `first` with `first + d`; an offset of 0
      skips the swap. */
  function Step<T>(s: seq<T>, first: nat, d: nat): (r: seq<T>)
    requires first + d < |s|
    ensures |r| == |s| && multiset(r) == multiset(s)
    ensures r[first] == s[first + d] && r[first + d] == s[first]
    ensures forall m :: 0 <= m < |s| && m != first && m != first + d ==> r[m] == s[m]
  {
    if d == 0 then s else s[first := s[first + d]][first + d := s[first]]
  }

  /** The iterations `k, k + 1, ...` of the shuffle applied to `s`. */
  function ShuffleFrom<T>(s: seq<T>, ds: seq<nat>, k: nat): (r: seq<T>)
    requires OffsetsFit(|s|, ds) && k <= |ds|
    ensures |r| == |s| && multiset(r) == multiset(s)
    decreases |ds| - k
  {
    if k == |ds| then s else ShuffleFrom(Step(s, k, ds[k]), ds, k + 1)
  }

  /** What `shuffle()` leaves in a collection holding `s` when the draws are `ds`. */
  function Shuffle<T>(s: seq<T>, ds: seq<nat>): (r: seq<T>)
    requires OffsetsFit(|s|, ds)
    ensures |r| == |s| && multiset(r) == multiset(s)
  {
    ShuffleFrom(s, ds, 0)
  }

  /** Once the iteration for `firstUnshuffled = k` starts, the positions before
      `k` are never written again. */
  lemma {:induction false} ShuffleFromKeepsPrefix<T>(s: seq<T>, ds: seq<nat>, k: nat)
    requires OffsetsFit(|s|, ds) && k <= |ds|
    ensures ShuffleFrom(s, ds, k)[..k] == s[..k]
    decreases |ds| - k
  {
    if k < |ds| {
      var t := Step(s, k, ds[k]);
      ShuffleFromKeepsPrefix(t, ds, k + 1);
      ShorterPrefix(ShuffleFrom(t, ds, k + 1), t, k);
      StepKeepsBefore(s, k, ds[k]);
    }
  }

  lemma StepKeepsBefore<T>(s: seq<T>, first: nat, d: nat)
    requires first + d < |s|
    ensures Step(s, first, d)[..first] == s[..first]
  {
    var t := Step(s, first, d);
    forall m | 0 <= m < first ensures t[m] == s[m] {
    }
  }

  lemma ShorterPrefix<T>(r: seq<T>, t: seq<T>, k: nat)
    requires k < |r| && k < |t| && r[..k + 1] == t[..k + 1]
    ensures r[..k] == t[..k]
  {
    assert r[..k] == r[..k + 1][..k];
    assert t[..k] == t[..k + 1][..k];
  }

  /** Draws of 0 skip every swap, so all-zero draws leave the collection as it was. */
  lemma {:induction false} ShuffleFromZeroOffsets<T>(s: seq<T>, ds: seq<nat>, k: nat)
    requires OffsetsFit(|s|, ds) && k <= |ds|
    requires forall j :: k <= j < |ds| ==> ds[j] == 0
    ensures ShuffleFrom(s, ds, k) == s
    decreases |ds| - k
  {
    if k < |ds| {
      ShuffleFromZeroOffsets(s, ds, k + 1);
    }
  }

  /** The body of one iteration: `guard d != 0 else { continue }`, then
      `swap(&self[first], &self[first + d])`. */
  method SwapForward<T>(a: array<T>, first: nat, d: nat)
    requires first + d < a.Length
    modifies a
    ensures a[..] == Step(old(a[..]), first, d)
  {
    if d != 0 {
      var i := first + d;
      a[first], a[i] := a[i], a[first];
    }
  }

  /** `MutableCollection.shuffle()` on an array: walks the schedule and swaps
      each first unshuffled position with a later one chosen by the oracle. */
  method ShuffleInPlace<T>(a: array<T>, ds: seq<nat>)
    requires OffsetsFit(a.Length, ds)
    modifies a
    ensures a[..] == Shuffle(old(a[..]), ds)
    ensures multiset(a[..]) == multiset(old(a[..]))
    ensures a.Length <= 1 ==> a[..] == old(a[..])
  {
    var c := a.Length;
    if c <= 1 {
      return;
    }
    ghost var target := Shuffle(a[..], ds);
    var schedule := Schedule(c);
    ScheduleAt(c);
    var j := 0;
    while j < |schedule|
      invariant 0 <= j <= |schedule| == |ds|
      invariant ShuffleFrom(a[..], ds, j) == target
      invariant a[..j] == target[..j]
    {
      var (firstUnshuffled, unshuffledCount) := schedule[j];
      assert firstUnshuffled == j && unshuffledCount == c - j;
      var d := ds[j];
      SwapForward(a, firstUnshuffled, d);
      j := j + 1;
      ShuffleFromKeepsPrefix(a[..], ds, j);
    }
  }

  /** `Sequence.shuffled()`: copies the elements into a fresh array, shuffles
      the copy in place and returns it; the receiver is not touched. */
  method Shuffled<T>(s: seq<T>, ds: seq<nat>) returns (r: seq<T>)
    requires OffsetsFit(|s|, ds)
    ensures r == Shuffle(s, ds)
    ensures |r| == |s| && multiset(r) == multiset(s)
  {
    var result := new T[|s|](i requires 0 <= i < |s| => s[i]);
    assert result[..] == s;
    ShuffleInPlace(result, ds);
    r := result[..];
  }
}
