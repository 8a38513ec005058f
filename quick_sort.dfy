/**
 * The quicksort engine of main.c: swap, the two-pointer partition and the
 * recursive driver, all working in place on one integer buffer. The C
 * program keeps that buffer in the global `intArray`; here it is the array
 * `a` handed to every operation.
 */
module QuickSortEngine {
  import opened SortSpec

  /** Size of the program's buffer (the MAX macro). */
  const MAX: nat := 7

  /** Initial contents of the program's buffer. */
  const InitialArray: seq<int> := [4, 6, 3, 2, 1, 9, 7]

  /** Exchanges slots i and j of the buffer. */
  method Swap(a: array<int>, i: int, j: int)
    requires 0 <= i < a.Length && 0 <= j < a.Length
    modifies a
    ensures a[..] == Swapped(old(a[..]), i, j)
  {
    var temp := a[i];
    a[i] := a[j];
    a[j] := temp;
  }

  /**
   * The upward scan of one partition pass: the left pointer is incremented
   * before each comparison and moves on while the value reached is below
   * pivot, so the result is the first slot after leftPointer whose value is
   * not below pivot. The scan has no bound check of its own; it is bounded
   * by some slot `stop` after leftPointer that holds a value not below pivot.
   */
  method ScanUp(a: array<int>, leftPointer: int, pivot: int, ghost stop: int) returns (i: int)
    requires -1 <= leftPointer < stop < a.Length
    requires a[stop] >= pivot
    ensures leftPointer < i <= stop
    ensures a[i] >= pivot
    ensures forall k :: leftPointer < k < i ==> a[k] < pivot
  {
    i := leftPointer + 1;
    while a[i] < pivot
      invariant leftPointer < i <= stop
      invariant forall k :: leftPointer < k < i ==> a[k] < pivot
      decreases stop - i
    {
      i := i + 1;
    }
  }

  /**
   * The downward scan of one partition pass: while the right pointer is
   * above 0 it is decremented and compared, and the scan moves on while the
   * value reached is above pivot. The result is the nearest slot below
   * rightPointer whose value is at most pivot, or 0 when there is none; it
   * is 0 without any read when rightPointer is already 0.
   */
  method ScanDown(a: array<int>, rightPointer: int, pivot: int) returns (j: int)
    requires 0 <= rightPointer < a.Length
    ensures 0 <= j <= rightPointer
    ensures rightPointer > 0 ==> j < rightPointer && (a[j] <= pivot || j == 0)
    ensures forall k :: j < k < rightPointer ==> a[k] > pivot
  {
    j := rightPointer;
    while j > 0
      invariant 0 <= j <= rightPointer
      invariant forall k :: j <= k < rightPointer ==> a[k] > pivot
      decreases j
    {
      j := j - 1;
      if a[j] <= pivot {
        return;
      }
    }
  }

  /**
   * Two-pointer partition of the window [left, right] around pivot, which
   * must be the value in slot right. The upward scan stops at the latest on
   * the right pointer's slot, whose value is not below the pivot (at first
   * slot right, which holds the pivot until the final swap). The downward
   * scan is guarded by `> 0` rather than `> left`, so it may read slots below
   * left; it never writes them, since a swap needs the right pointer above
   * the left one.
   */
  method Partition(a: array<int>, left: int, right: int, pivot: int) returns (p: int)
    requires 0 <= left <= right < a.Length
    requires pivot == a[right]
    modifies a
    ensures left <= p <= right
    ensures PartitionedAt(a[..], left, p, right, pivot)
    ensures multiset(a[..]) == multiset(old(a[..]))
    ensures SameOutside(a[..], old(a[..]), left, right)
  {
    var leftPointer := left - 1;
    var rightPointer := right;
    while true
      invariant PartitionLoop(a[..], old(a[..]), left, right, pivot, leftPointer, rightPointer)
      decreases rightPointer - leftPointer
    {
      ghost var s := a[..];
      ghost var leftStart, rightStart := leftPointer, rightPointer;
      leftPointer := ScanUp(a, leftPointer, pivot, rightPointer);
      rightPointer := ScanDown(a, rightPointer, pivot);
      if leftPointer >= rightPointer {
        PartitionCrossed(s, old(a[..]), left, right, pivot, leftStart, rightStart, leftPointer, rightPointer);
        break;
      }
      PartitionExchange(s, old(a[..]), left, right, pivot, leftStart, rightStart, leftPointer, rightPointer);
      Swap(a, leftPointer, rightPointer);
    }
    Swap(a, leftPointer, right);
    p := leftPointer;
  }

  /**
   * What holds each time the partition loop comes round: the pointers are
   * in order inside the window, slot right still holds the pivot, the slots
   * up to the left pointer are at most the pivot, those from the right
   * pointer on are at least the pivot, and s is a rearrangement of s0 that
   * has touched only [left, right).
   */
  ghost predicate PartitionLoop(s: seq<int>, s0: seq<int>, left: int, right: int, pivot: int,
                                leftPointer: int, rightPointer: int)
  {
    && 0 <= left && right < |s|
    && left - 1 <= leftPointer < rightPointer <= right
    && s[right] == pivot
    && AtMostOn(s, left, leftPointer, pivot)
    && AtLeastOn(s, rightPointer, right, pivot)
    && multiset(s) == multiset(s0)
    && SameOutside(s, s0, left, right - 1)
  }

  /** What the two scans of one pass establish about s. */
  ghost predicate ScansDone(s: seq<int>, pivot: int, leftStart: int, rightStart: int,
                            leftPointer: int, rightPointer: int)
    requires -1 <= leftStart && rightStart < |s|
  {
    && leftStart < leftPointer <= rightStart
    && s[leftPointer] >= pivot
    && (forall k :: leftStart < k < leftPointer ==> s[k] < pivot)
    && 0 <= rightPointer <= rightStart
    && (rightStart > 0 ==> rightPointer < rightStart && (s[rightPointer] <= pivot || rightPointer == 0))
    && (forall k :: rightPointer < k < rightStart ==> s[k] > pivot)
  }

  /**
   * A pass whose pointers have not crossed swaps them and comes round
   * again with the loop's invariant, the pointers strictly closer.
   */
  lemma PartitionExchange(s: seq<int>, s0: seq<int>, left: int, right: int, pivot: int,
                          leftStart: int, rightStart: int, leftPointer: int, rightPointer: int)
    requires PartitionLoop(s, s0, left, right, pivot, leftStart, rightStart)
    requires ScansDone(s, pivot, leftStart, rightStart, leftPointer, rightPointer)
    requires leftPointer < rightPointer
    ensures PartitionLoop(Swapped(s, leftPointer, rightPointer), s0, left, right, pivot, leftPointer, rightPointer)
    ensures rightPointer - leftPointer < rightStart - leftStart
  {
    var t := Swapped(s, leftPointer, rightPointer);
    assert AtMostOn(t, left, leftPointer, pivot);
    assert AtLeastOn(t, rightPointer, right, pivot);
  }

  /**
   * A pass whose pointers have crossed ends the loop; the final swap puts
   * the pivot at the left pointer and leaves the window partitioned there.
   */
  lemma PartitionCrossed(s: seq<int>, s0: seq<int>, left: int, right: int, pivot: int,
                         leftStart: int, rightStart: int, leftPointer: int, rightPointer: int)
    requires PartitionLoop(s, s0, left, right, pivot, leftStart, rightStart)
    requires ScansDone(s, pivot, leftStart, rightStart, leftPointer, rightPointer)
    requires leftPointer >= rightPointer
    ensures left <= leftPointer <= right
    ensures PartitionedAt(Swapped(s, leftPointer, right), left, leftPointer, right, pivot)
    ensures multiset(Swapped(s, leftPointer, right)) == multiset(s0)
    ensures SameOutside(Swapped(s, leftPointer, right), s0, left, right)
  {
    var t := Swapped(s, leftPointer, right);
    assert AtMostOn(t, left, leftPointer - 1, pivot);
    assert AtLeastOn(t, leftPointer + 1, right, pivot);
  }

  /**
   * Sorts the window [left, right] in place: a window of at most one slot
   * is left alone; otherwise the last slot's value is the pivot, and the
   * two sides of its final position are sorted recursively.
   */
  method QuickSort(a: array<int>, left: int, right: int)
    requires left < right ==> 0 <= left && right < a.Length
    modifies a
    ensures right - left <= 0 ==> a[..] == old(a[..])
    ensures left < right ==> SortedRange(a[..], left, right)
    ensures multiset(a[..]) == multiset(old(a[..]))
    ensures SameOutside(a[..], old(a[..]), left, right)
    decreases right - left
  {
    if right - left <= 0 {
      return;
    }
    var pivot := a[right];
    var p := Partition(a, left, right, pivot);
    ghost var partitioned := a[..];

    QuickSort(a, left, p - 1);
    ghost var leftSorted := a[..];
    RearrangedWindowKeepsUpperBound(partitioned, leftSorted, left, p - 1, pivot);

    QuickSort(a, p + 1, right);
    ghost var after := a[..];
    RearrangedWindowKeepsLowerBound(leftSorted, after, p + 1, right, pivot);
    assert PartitionedAt(after, left, p, right, pivot);
    SortedAroundPivot(after, left, p, right, pivot);
  }

  /**
   * The program's run: its buffer {4, 6, 3, 2, 1, 9, 7} sorted by
   * quick_sort(0, MAX - 1) comes out as {1, 2, 3, 4, 6, 7, 9}.
   */
  method SortInitialArray() returns (result: seq<int>)
    ensures result == [1, 2, 3, 4, 6, 7, 9]
  {
    var a := new int[MAX] [4, 6, 3, 2, 1, 9, 7];
    assert a[..] == InitialArray;
    QuickSort(a, 0, MAX - 1);
    result := a[..];
    SortedInitialArray(result);
  }

  /** The only ascending arrangement of the initial buffer's values. */
  lemma SortedInitialArray(s: seq<int>)
    requires |s| == MAX && SortedRange(s, 0, MAX - 1)
    requires multiset(s) == multiset(InitialArray)
    ensures s == [1, 2, 3, 4, 6, 7, 9]
  {
    InitialArrayValues();
    ExpectedOutputIsSorted();
    SortedPermutationsEqual(s, [1, 2, 3, 4, 6, 7, 9]);
  }

  /** The initial buffer holds exactly the values 1, 2, 3, 4, 6, 7 and 9. */
  lemma InitialArrayValues()
    ensures multiset(InitialArray) == multiset([1, 2, 3, 4, 6, 7, 9])
  {
    calc {
      multiset(InitialArray);
      multiset{4, 6, 3, 2, 1, 9, 7};
      multiset{1, 2, 3, 4, 6, 7, 9};
      multiset([1, 2, 3, 4, 6, 7, 9]);
    }
  }

  /** The expected output lists its values in ascending order. */
  lemma ExpectedOutputIsSorted()
    ensures Sorted([1, 2, 3, 4, 6, 7, 9])
  {
    NeighboursOrderedIsSorted([1, 2, 3, 4, 6, 7, 9]);
  }
}
