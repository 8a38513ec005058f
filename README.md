# Quicksort engine of quick_sort_parallel, in Dafny

This project models the sorting core of `main.c`: an in-place quicksort over one
integer buffer (the global `intArray`, here an `array<int>` passed to every
operation). It has three routines:

- `swap` exchanges two slots of the buffer;
- `partition` is a two-pointer (Hoare-style) partition of a window `[left, right]`
  around a pivot value that must equal the value in slot `right`. The left pointer
  starts at `left - 1` and moves up past values below the pivot. This scan has no
  bound check of its own. It always stops at slot `right` at the latest, because
  that slot holds the pivot until the final swap. The right pointer starts at
  `right` and moves down past values above the pivot while it is above 0 (not
  above `left`), so it may read slots below the window. The two pointers swap
  until they cross. A last swap then moves the pivot to the left pointer's
  position, which is returned;
- `quick_sort` leaves a window of at most one slot alone; otherwise it takes the
  last slot's value as the pivot, partitions, and sorts both sides of the pivot's
  position recursively.

`main` sorts the fixed buffer `{4, 6, 3, 2, 1, 9, 7}` with `quick_sort(0, MAX - 1)`.

Files:

- `sort_spec.dfy`, module `SortSpec`: the specification vocabulary. It holds
  sortedness of a window, the partition property, the effect of one swap
  (`Swapped`), and lemmas about rearrangements of a window.
- `quick_sort.dfy`, module `QuickSortEngine`: the routines as methods over an
  `array<int>`, and `main`'s run as `SortInitialArray`.

`swap`, `partition` and `quick_sort` are methods with `modifies a`. The two scan
loops of a partition pass are the methods `ScanUp` and `ScanDown`. Each keeps the
source's loop, its guard and its pre-increment or pre-decrement. `Partition` runs
the source's `while(true)` loop around them. The proof of one pass is stated on
sequences, in the lemmas `PartitionExchange` and `PartitionCrossed`. The verifier
checks that every array access is in bounds. That includes the upward scan, which
has no bound check, and the downward scan below `left`. It also checks that every
loop terminates and that no slot outside `[left, right]` is written. `quick_sort`
terminates because both recursive windows are strictly shorter.

## Model

| member | source | states |
|---|---|---|
| `SortSpec.Swapped` | main.c:38-42 | After exchanging slots i and j, slot i holds the old value of j and slot j the old value of i. Every other slot is unchanged, and the multiset of values is the same. |
| `SortSpec.SwappedTwice` | main.c:38-42 | Swapping the same pair twice restores the original contents. |
| `QuickSortEngine.Swap` | main.c:38-42 | The buffer after the call is `Swapped` of the buffer before it. |
| `QuickSortEngine.ScanUp` | main.c:59-62 | Needs a slot `stop` after the pointer whose value is not below the pivot. Returns the first slot after the pointer whose value is not below the pivot. It is strictly past the old pointer and never past `stop`, and every slot skipped is below the pivot. |
| `QuickSortEngine.ScanDown` | main.c:63-65 | Returns a slot `j` with `0 <= j <= rightPointer`. If the pointer was already 0, the result is 0. Otherwise `j` is strictly below the pointer, and either the value at `j` is at most the pivot or `j` is 0. Every slot skipped is above the pivot. |
| `QuickSortEngine.PartitionExchange` | main.c:66-73 | If the pointers have not crossed after both scans, the swap restores the loop's invariant: the slots up to the left pointer are at most the pivot, and the slots from the right pointer to `right` are at least the pivot. Slot `right` still holds the pivot, the contents are a permutation touching only `[left, right)`, and the distance between the pointers strictly shrinks. |
| `QuickSortEngine.PartitionCrossed` | main.c:75-82 | If the pointers have crossed, the left pointer lies in `[left, right]`. After the final swap with slot `right`, the window is partitioned at the left pointer around the pivot. The contents are a permutation of the input that touched only `[left, right]`. |
| `QuickSortEngine.Partition` | main.c:51-83 | Needs `0 <= left <= right < a.Length` and `pivot == a[right]`. Returns p with `left <= p <= right` and `a[p] == pivot`. Every slot in `[left, p)` is at most the pivot, and every slot in `(p, right]` is at least the pivot. The buffer is a permutation of its old contents, and every slot outside `[left, right]` is unchanged. |
| `QuickSortEngine.QuickSort` | main.c:91-100 | When `right - left <= 0`, the buffer is unchanged. Otherwise `[left, right]` ends up sorted ascending. The buffer is always a permutation of its old contents, and slots outside `[left, right]` never change. Recursion terminates on `right - left`. |
| `SortSpec.SortedRearrangementIsIdentity` | main.c:91-100 | Any result that satisfies `QuickSort`'s contract on an already sorted window equals the input. So sorting a sorted window changes nothing. |
| `QuickSortEngine.SortInitialArray` | main.c:106-115 | Sorting the initial buffer `{4, 6, 3, 2, 1, 9, 7}` with `quick_sort(0, MAX - 1)` yields exactly `[1, 2, 3, 4, 6, 7, 9]`. |
| `QuickSortEngine.SortedInitialArray` | main.c:4-7 | The only ascending arrangement of the initial buffer's values is `[1, 2, 3, 4, 6, 7, 9]`. |
| `QuickSortEngine.InitialArrayValues` | main.c:4-7 | The initial buffer holds the same multiset of values as `[1, 2, 3, 4, 6, 7, 9]`. |
| `QuickSortEngine.ExpectedOutputIsSorted` | main.c:110-112 | The expected output `[1, 2, 3, 4, 6, 7, 9]` is in ascending order. |
| `SortSpec.SortedPermutationsEqual` | main.c:91-100 | Two sorted sequences with the same multiset of values are equal. So the result of a sort is determined by its input's values. |
| `SortSpec.NeighboursOrderedIsSorted` | main.c:91-100 | If every neighbouring pair is in ascending order, then every pair is. |
| `SortSpec.WindowMultiset` | main.c:96-98 | If two sequences hold the same multiset and agree outside a window, the windows hold the same multiset. |
| `SortSpec.RearrangedWindowKeepsUpperBound` | main.c:97 | Sorting the left side of the pivot only rearranges `[left, p)`, so every value there stays at most the pivot. |
| `SortSpec.RearrangedWindowKeepsLowerBound` | main.c:98 | Sorting the right side of the pivot only rearranges `(p, right]`, so every value there stays at least the pivot. |
| `SortSpec.SortedAroundPivot` | main.c:95-98 | A window partitioned at p, with both sides sorted, is sorted as a whole. |

## Left out

- `printline`, `display` and every `printf` in `partition` and `main` (main.c:14-31, 71, 78, 80-81, 107-113). They write to the console only and do not touch the buffer.
- The exit status of `main` (always 0). It is not modelled beyond the sorted result.
- Random initialisation of the buffer, timing, and parallel execution of the two recursive calls. They are not part of `main.c`.
- 32-bit `int` overflow of the index arithmetic (`left - 1`, `right - left`, `p - 1`, `p + 1`). Indices are unbounded integers here. Buffer values are only compared, never computed with, so unbounded `int` matches C for them.
- Partition: the contract gives the partition property, the permutation and the frame. It does not name the particular arrangement the scans produce inside `[left, right]`.
- The global buffer is modelled as an array passed to each method rather than a global variable. It is the same single buffer throughout a sort.
