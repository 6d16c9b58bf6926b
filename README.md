# Collection view updating example — shuffle and colour-list model

The example app shows a grid of coloured cells and replaces the list of
colours behind it (reshuffle, reset, add and remove). This project models the
part of it that computes new lists:

- `MutableCollection.shuffle()`, an in-place Fisher–Yates shuffle, and
  `Sequence.shuffled()`, which shuffles a copy (module `Shuffling`,
  `shuffling.dfy`);
- `ColorService`, which shuffles a colour list, removes one colour from it, or
  replaces its first colour and appends a new one drawn from a fixed palette
  (module `ColorService`, `color_service.dfy`).

Randomness is an oracle. Each call of `arc4random_uniform(unshuffledCount)` is
replaced by the next element of a caller-supplied sequence of offsets `ds`.
`OffsetsFit(c, ds)` says that there is one offset per loop iteration (`c - 1`
of them, none when `c <= 1`) and that the offset of iteration `j` is below
that iteration's unshuffled count `c - j`. Every random choice in
`ColorService` goes through `shuffled()`, so it is an oracle of the same kind.

`shuffle()` is modelled as a method over an `array` with a `while` loop over
the pairs of `zip(indices, stride(from: c, to: 1, by: -1))`. It is proved
equal to the function `Shuffle`, which applies one `Step` (a swap, skipped for
offset 0) per iteration. The lemmas about `Shuffle` carry the properties:
permutation, positions already placed stay fixed, and all-zero draws change
nothing. `shuffled()` copies into a fresh array, so its argument is never
written. `removeOne` copies its argument and removes one element from the
copy in place, so it is a method. `shuffle(_:)` and `replaceOneAndAddOne` are
expressions, so they are functions. `UIColor` is a datatype compared only by
equality: the named system colours the code uses, plus `Other(id)` for any
other colour.

## Model

| member | source | states |
|---|---|---|
| `Shuffling.StrideAt` | CollectionViewExample/ViewController.swift:81 | `stride(from: f, to: t, by: -1)` has `f - t` elements (none when `f <= t`) and its `i`-th element is `f - i` |
| `Shuffling.Indices` | CollectionViewExample/ViewController.swift:81 | the indices of a `c`-element collection are exactly `0, ..., c - 1` |
| `Shuffling.Zip` | CollectionViewExample/ViewController.swift:81 | `zip` stops at the shorter sequence and pairs elements position by position |
| `Shuffling.ScheduleAt` | CollectionViewExample/ViewController.swift:81 | the loop runs `c - 1` times (none for `c <= 1`); iteration `j` has `firstUnshuffled == j` and `unshuffledCount == c - j >= 2` |
| `Shuffling.Step` | CollectionViewExample/ViewController.swift:82-85 | one iteration exchanges positions `first` and `first + d` and leaves all others alone, so length and multiset are kept; `d == 0` leaves the list unchanged |
| `Shuffling.ShuffleFrom` | CollectionViewExample/ViewController.swift:81-86 | running the remaining iterations keeps the length and the multiset of elements |
| `Shuffling.Shuffle` | CollectionViewExample/ViewController.swift:77-87 | the shuffled list is a permutation of the input: same length, same multiset |
| `Shuffling.ShuffleFromKeepsPrefix` | CollectionViewExample/ViewController.swift:84-85 | from iteration `k` on, positions before `k` are never written again |
| `Shuffling.ShuffleFromZeroOffsets` | CollectionViewExample/ViewController.swift:83 | draws that are all 0 skip every swap, so the collection is left as it was |
| `Shuffling.SwapForward` | CollectionViewExample/ViewController.swift:83-85 | one loop body on the array: both swap indices are in bounds and the array becomes `Step` of what it was |
| `Shuffling.ShuffleInPlace` | CollectionViewExample/ViewController.swift:77-87 | `shuffle()` on an array leaves `Shuffle` of the old contents, hence a permutation of them; a collection of count <= 1 is unchanged; the loop invariant keeps the placed prefix final |
| `Shuffling.Shuffled` | CollectionViewExample/ViewController.swift:92-96 | `shuffled()` returns `Shuffle` of its input, a permutation of it, computed on a fresh copy |
| `ColorService.ShuffleColors` | CollectionViewExample/ColorsService.swift:11-13 | `shuffle(colors)` returns a permutation of `colors`: same length, same multiset, and no duplicates if `colors` has none |
| `ColorService.IndexOf` | CollectionViewExample/ColorsService.swift:19 | `index(of:)` finds nothing exactly when the colour is absent, otherwise the first position holding it |
| `ColorService.DeleteFirstRemovesOne` | CollectionViewExample/ColorsService.swift:20 | deleting a present colour shortens the list by one and removes exactly one occurrence of it; deleting an absent one changes nothing |
| `ColorService.DeleteFirstAt` | CollectionViewExample/ColorsService.swift:19-20 | removing at the first index of `x` deletes the first occurrence of `x` and keeps the other colours in order |
| `ColorService.RemoveOne` | CollectionViewExample/ColorsService.swift:15-23 | empty input gives the empty list; otherwise the result is the input with the first occurrence of the picked colour deleted, one shorter, one occurrence fewer; the `fatalError()` branch is unreachable |
| `ColorService.Missing` | CollectionViewExample/ColorsService.swift:26 | the filter keeps exactly the pool colours absent from `colors`, and keeps a duplicate-free pool duplicate-free |
| `ColorService.AvailableColorsDistinct` | CollectionViewExample/ColorsService.swift:37-44 | the palette of six colours has no duplicates |
| `ColorService.ShuffledAddable` | CollectionViewExample/ColorsService.swift:26 | the shuffled addable colours are palette colours absent from `colors`, all different |
| `ColorService.ReplaceOneAndAddOne` | CollectionViewExample/ColorsService.swift:25-35 | given at least 3 colours and 2 unused palette colours, the result has 4 colours, keeps `colors[1]` and `colors[2]` in place, and its first and last colours are different palette colours not in `colors` |
| `ColorService.MissingCount` | CollectionViewExample/ColorsService.swift:26 | a duplicate-free list of `k` palette colours leaves exactly `6 - k` colours to add |
| `ColorService.ReplaceableCanReplace` | CollectionViewExample/ColorsService.swift:26-32 | three or four different palette colours meet both subscripts' bounds: at least 3 colours, at least 2 addable |
| `ColorService.ReplaceOneAndAddOneKeepsReplaceable` | CollectionViewExample/ColorsService.swift:25-35 | the result on such a list is again such a list, so repeated calls never go out of bounds |
| `ColorService.InitialColorsReplaceable` | CollectionViewExample/ColorsService.swift:5-9 | `initialColors` is a list of three different palette colours, where the repeated calls can start |

## Left out

- There is no insert/remove/move diffing or batch update in the code. `updateCollectionView(with:)` assigns the new list and calls `reloadData()` (CollectionViewExample/ViewController.swift:43-46), so no diff engine is modelled.
- The UIKit view controller: outlets, `viewDidLoad`, the button actions, the data source and delegate methods, cell colouring and the `CGSize` cell sizing. These are framework wiring and floating-point layout.
- `reloadData()`: a call into UIKit that this model cannot see.
- Randomness: `arc4random_uniform` and the picks through `shuffled()` are oracle offsets bounded as the code relies on. Uniformity and probability are not modelled.
- `UIColor` internals: colours are compared by equality only.
- `Shuffling.ShuffleInPlace` is written for an `array`; Swift's `MutableCollection` generality (any index type, `index(_:offsetBy:)`) is modelled for integer indices starting at 0.
- `ColorService.ReplaceOneAndAddOne`: the traps of `addableColors[0]`/`addableColors[1]` and of `colors[1...2]` on too short a list are modelled as preconditions, not as a crash value.
- `ColorService` is a class with no mutable state, so its methods are module-level members and its two constants are module constants.
