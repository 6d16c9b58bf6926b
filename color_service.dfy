/** `ColorService`: the list transformers that produce the next list of colours
    for the grid. The service holds no state besides two constant palettes, so
    its operations are functions of their arguments; the random choices they
    make through `shuffled()` are the oracle offsets of module Shuffling. */
module ColorService {
  import opened Shuffling

  /** A `UIColor`, compared by equality only: the named system colours the
      service uses, and any other colour. */
  datatype Color = Red | Green | Blue | Yellow | Purple | Brown | Orange | Other(id: nat)

  datatype Option<T> = None | Some(value: T)

  /** `initialColors` */
  const InitialColors: seq<Color> := [Red, Green, Blue]

  /** `availableColors`: the palette new colours are drawn from. */
  const AvailableColors: seq<Color> := [Red, Green, Blue, Yellow, Purple, Brown]

  predicate Distinct(s: seq<Color>)
  {
    forall i, j :: 0 <= i < j < |s| ==> s[i] != s[j]
  }

  // ---------------------------------------------------------------------------
  // Counting occurrences: a permutation of a duplicate-free list is duplicate-free.

  lemma {:induction false} DistinctOccursAtMostOnce(s: seq<Color>, x: Color)
    requires Distinct(s)
    ensures multiset(s)[x] <= 1
  {
    if s != [] {
      assert s == [s[0]] + s[1..];
      assert Distinct(s[1..]) by {
        forall i, j | 0 <= i < j < |s[1..]| ensures s[1..][i] != s[1..][j] {
          assert s[1..][i] == s[i + 1] && s[1..][j] == s[j + 1];
        }
      }
      DistinctOccursAtMostOnce(s[1..], x);
      assert s[0] !in s[1..] by {
        forall i | 0 <= i < |s[1..]| ensures s[1..][i] != s[0] {
          assert s[1..][i] == s[i + 1];
        }
      }
    }
  }

  lemma TwoOccurrences(s: seq<Color>, i: nat, j: nat)
    requires i < j < |s|
    ensures s[i] == s[j] ==> multiset(s)[s[i]] >= 2
  {
    assert s == s[..j] + s[j..];
    assert s[i] == s[..j][i];
    assert s[j] == s[j..][0];
  }

  lemma PermutationKeepsDistinct(a: seq<Color>, b: seq<Color>)
    requires multiset(a) == multiset(b) && Distinct(a)
    ensures Distinct(b)
  {
    forall i, j | 0 <= i < j < |b| ensures b[i] != b[j] {
      TwoOccurrences(b, i, j);
      DistinctOccursAtMostOnce(a, b[i]);
    }
  }

  // ---------------------------------------------------------------------------
  // `shuffle(_:)`

  /** `shuffle(colors)` returns `colors.shuffled()`: the same colours, each as
      often as before, in the order the draws `ds` select. */
  function ShuffleColors(colors: seq<Color>, ds: seq<nat>): (r: seq<Color>)
    requires OffsetsFit(|colors|, ds)
    ensures |r| == |colors| && multiset(r) == multiset(colors)
    ensures Distinct(colors) ==> Distinct(r)
  {
    var r := Shuffle(colors, ds);
    if Distinct(colors) then PermutationKeepsDistinct(colors, r); r else r
  }

  // ---------------------------------------------------------------------------
  // `removeOne(from:)`

  /** `Array.index(of:)`: the first position holding `x`, if any. */
  function IndexOf(s: seq<Color>, x: Color): (r: Option<nat>)
    ensures r.None? <==> x !in s
    ensures r.Some? ==> r.value < |s| && s[r.value] == x && x !in s[..r.value]
  {
    if s == [] then None
    else if s[0] == x then Some(0)
    else match IndexOf(s[1..], x)
      case None => None
      case Some(i) =>
        assert s[1..][..i] == s[1..i + 1];
        Some(i + 1)
  }

  /** Reference definition: `s` with the first occurrence of `x` deleted. */
  function DeleteFirst(s: seq<Color>, x: Color): seq<Color>
  {
    if s == [] then []
    else if s[0] == x then s[1..]
    else [s[0]] + DeleteFirst(s[1..], x)
  }

  /** Deleting a colour that occurs removes exactly one occurrence of it and
      keeps everything else; deleting one that does not occur changes nothing. */
  lemma {:induction false} DeleteFirstRemovesOne(s: seq<Color>, x: Color)
    ensures x in s ==> |DeleteFirst(s, x)| == |s| - 1
    ensures x in s ==> multiset(DeleteFirst(s, x)) == multiset(s) - multiset{x}
    ensures x !in s ==> DeleteFirst(s, x) == s
  {
    if s != [] {
      var t := s[1..];
      assert s == [s[0]] + t;
      assert multiset(s) == multiset{s[0]} + multiset(t);
      DeleteFirstRemovesOne(t, x);
      if s[0] != x {
        assert x in s <==> x in t;
        assert DeleteFirst(s, x) == [s[0]] + DeleteFirst(t, x);
      }
    }
  }

  /** When `x` first occurs at position `i`, deleting it leaves the colours
      before and after `i` in their relative order. */
  lemma {:induction false} DeleteFirstAt(s: seq<Color>, x: Color, i: nat)
    requires i < |s| && s[i] == x && x !in s[..i]
    ensures DeleteFirst(s, x) == s[..i] + s[i + 1..]
  {
    if i > 0 {
      assert s[0] == s[..i][0];
      assert s[1..][..i - 1] == s[1..i];
      DeleteFirstAt(s[1..], x, i - 1);
      assert s[1..][i - 1 + 1..] == s[i + 1..];
      assert s[..i] == [s[0]] + s[1..i];
    }
  }

  /** `removeOne(from:)`: an empty list gives the empty list; otherwise the
      colour at the front of a shuffled copy is looked up in the copy and
      removed there. The lookup always succeeds, so `fatalError()` is never
      reached. */
  method RemoveOne(colors: seq<Color>, ds: seq<nat>) returns (r: seq<Color>)
    requires OffsetsFit(|colors|, ds)
    ensures colors == [] ==> r == []
    ensures colors != [] ==> r == DeleteFirst(colors, Shuffle(colors, ds)[0])
    ensures colors != [] ==> |r| == |colors| - 1
    ensures colors != [] ==> multiset(r) + multiset{Shuffle(colors, ds)[0]} == multiset(colors)
  {
    if |colors| == 0 {
      return [];
    }
    var newColors := colors;
    var shuffledColors := Shuffled(newColors, ds);
    var pick := shuffledColors[0];
    assert pick in multiset(shuffledColors);
    var index := IndexOf(newColors, pick);
    if index.None? {
      // fatalError(): the pick comes from a permutation of newColors
      assert false;
    }
    var i := index.value;
    newColors := newColors[..i] + newColors[i + 1..];
    r := newColors;
    DeleteFirstAt(colors, pick, i);
    DeleteFirstRemovesOne(colors, pick);
  }

  // ---------------------------------------------------------------------------
  // `replaceOneAndAddOne(to:)`

  /** `pool.filter { !colors.contains($0) }`: the colours of `pool` absent from
      `colors`, in pool order. */
  function Missing(pool: seq<Color>, colors: seq<Color>): (r: seq<Color>)
    ensures forall x :: x in r <==> x in pool && x !in colors
    ensures Distinct(pool) ==> Distinct(r)
  {
    if pool == [] then []
    else
      var rest := Missing(pool[1..], colors);
      assert Distinct(pool) ==> Distinct(pool[1..]) && pool[0] !in pool[1..] by {
        if Distinct(pool) {
          forall i, j | 0 <= i < j < |pool[1..]| ensures pool[1..][i] != pool[1..][j] {
            assert pool[1..][i] == pool[i + 1] && pool[1..][j] == pool[j + 1];
          }
          forall i | 0 <= i < |pool[1..]| ensures pool[1..][i] != pool[0] {
            assert pool[1..][i] == pool[i + 1];
          }
        }
      }
      if pool[0] !in colors then [pool[0]] + rest else rest
  }

  /** The colours that can still be added to `colors`. */
  function Addable(colors: seq<Color>): seq<Color>
  {
    Missing(AvailableColors, colors)
  }

  lemma {:induction false} MissingNothing(pool: seq<Color>)
    ensures Missing(pool, []) == pool
  {
    if pool != [] {
      MissingNothing(pool[1..]);
    }
  }

  /** Excluding one more colour `y` from a duplicate-free pool deletes `y` from
      the filtered list. */
  lemma {:induction false} MissingSnoc(pool: seq<Color>, colors: seq<Color>, y: Color)
    requires Distinct(pool)
    ensures Missing(pool, colors + [y]) == DeleteFirst(Missing(pool, colors), y)
  {
    if pool != [] {
      assert Distinct(pool[1..]) by {
        forall i, j | 0 <= i < j < |pool[1..]| ensures pool[1..][i] != pool[1..][j] {
          assert pool[1..][i] == pool[i + 1] && pool[1..][j] == pool[j + 1];
        }
      }
      MissingSnoc(pool[1..], colors, y);
      var p := pool[0];
      assert p in colors + [y] <==> p in colors || p == y;
      if p !in colors && p == y {
        assert p !in pool[1..] by {
          forall i | 0 <= i < |pool[1..]| ensures pool[1..][i] != p {
            assert pool[1..][i] == pool[i + 1];
          }
        }
        DeleteFirstRemovesOne(Missing(pool[1..], colors), y);
      }
    }
  }

  /** A duplicate-free list of `k` pool colours leaves `|pool| - k` colours of a
      duplicate-free pool to add. */
  lemma {:induction false} MissingCount(pool: seq<Color>, colors: seq<Color>)
    requires Distinct(pool) && Distinct(colors)
    requires forall x :: x in colors ==> x in pool
    ensures |Missing(pool, colors)| == |pool| - |colors|
    decreases |colors|
  {
    if colors == [] {
      MissingNothing(pool);
    } else {
      var front, y := colors[..|colors| - 1], colors[|colors| - 1];
      assert colors == front + [y];
      assert Distinct(front) by {
        forall i, j | 0 <= i < j < |front| ensures front[i] != front[j] {
          assert front[i] == colors[i] && front[j] == colors[j];
        }
      }
      assert y !in front by {
        forall i | 0 <= i < |front| ensures front[i] != y {
          assert front[i] == colors[i];
        }
      }
      MissingCount(pool, front);
      MissingSnoc(pool, front, y);
      DeleteFirstRemovesOne(Missing(pool, front), y);
    }
  }

  lemma AvailableColorsDistinct()
    ensures Distinct(AvailableColors)
  {
  }

  /** Every colour of the shuffled addable list is a palette colour absent
      from `colors`, and none occurs twice. */
  lemma ShuffledAddable(colors: seq<Color>, ds: seq<nat>)
    requires OffsetsFit(|Addable(colors)|, ds)
    ensures Distinct(ShuffleColors(Addable(colors), ds))
    ensures forall x :: x in ShuffleColors(Addable(colors), ds) ==> x in AvailableColors && x !in colors
  {
    AvailableColorsDistinct();
    var addable := ShuffleColors(Addable(colors), ds);
    forall x | x in addable ensures x in Addable(colors) {
      assert x in multiset(addable);
    }
  }

  /** `replaceOneAndAddOne(to:)`: shuffles the addable colours, puts the first
      of them in place of `colors[0]`, keeps `colors[1...initialColors.count - 1]`
      and appends the second. The caller must supply at least
      `initialColors.count` colours and leave two palette colours unused, or
      the subscripts trap. */
  function ReplaceOneAndAddOne(colors: seq<Color>, ds: seq<nat>): (r: seq<Color>)
    requires |colors| >= |InitialColors|
    requires |Addable(colors)| >= 2
    requires OffsetsFit(|Addable(colors)|, ds)
    ensures |r| == 4
    ensures r[1..3] == colors[1..3]
    ensures r[0] in AvailableColors && r[0] !in colors
    ensures r[3] in AvailableColors && r[3] !in colors
    ensures r[0] != r[3]
  {
    var addableColors := ShuffleColors(Addable(colors), ds);
    ShuffledAddable(colors, ds);
    var newTop := addableColors[0];
    var newBottom := addableColors[1];
    var colorsToKeep := colors[1..|InitialColors|];
    [newTop] + colorsToKeep + [newBottom]
  }

  /** Lists on which `replaceOneAndAddOne` can be called again and again:
      three or four different palette colours. */
  predicate Replaceable(colors: seq<Color>)
  {
    3 <= |colors| <= 4 && Distinct(colors) && forall x :: x in colors ==> x in AvailableColors
  }

  /** A replaceable list meets the preconditions of `replaceOneAndAddOne`:
      it holds at least `initialColors.count` colours and leaves at least two
      palette colours to add. */
  lemma ReplaceableCanReplace(colors: seq<Color>)
    requires Replaceable(colors)
    ensures |colors| >= |InitialColors| && |Addable(colors)| >= 2
  {
    AvailableColorsDistinct();
    MissingCount(AvailableColors, colors);
  }

  /** Putting two new, different palette colours around `colors[1]` and
      `colors[2]` of a replaceable list gives a replaceable list. */
  lemma ReplaceableFromParts(colors: seq<Color>, r: seq<Color>)
    requires Replaceable(colors)
    requires |r| == 4 && r[1..3] == colors[1..3]
    requires r[0] in AvailableColors && r[0] !in colors
    requires r[3] in AvailableColors && r[3] !in colors
    requires r[0] != r[3]
    ensures Replaceable(r)
  {
    var top, c1, c2, bottom := r[0], colors[1], colors[2], r[3];
    assert r[1] == c1 && r[2] == c2 by {
      assert r[1..3][0] == r[1] && r[1..3][1] == r[2];
    }
    assert c1 in colors && c2 in colors && c1 != c2;
    assert r == [top, c1, c2, bottom];
  }

  /** The result of `replaceOneAndAddOne` on a replaceable list is replaceable
      again, whatever the draws: starting from `initialColors`, repeated calls
      never trap. */
  lemma ReplaceOneAndAddOneKeepsReplaceable(colors: seq<Color>, ds: seq<nat>)
    requires Replaceable(colors)
    requires |Addable(colors)| >= 2 && OffsetsFit(|Addable(colors)|, ds)
    ensures Replaceable(ReplaceOneAndAddOne(colors, ds))
  {
    ReplaceableFromParts(colors, ReplaceOneAndAddOne(colors, ds));
  }

  lemma InitialColorsReplaceable()
    ensures Replaceable(InitialColors)
  {
  }
}
