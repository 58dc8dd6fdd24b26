/** Sorting the change indices in place (src/ui/display.c, inplace_selection_sort). */
module Sorting {
  import opened Common

  ghost predicate Sorted(d: seq<nat>) {
    forall i, j :: 0 <= i < j < |d| ==> d[i] <= d[j]
  }

  /** The first `n` elements are in their final places. */
  ghost predicate SortedTo(d: seq<byte>, n: nat) {
    forall i, j :: 0 <= i < j < |d| && i < n ==> d[i] <= d[j]
  }

  ghost predicate Smallest(d: seq<byte>, from: nat, to: nat, p: nat) {
    from <= p < to <= |d| && forall k :: from <= k < to ==> d[p] <= d[k]
  }

  function Swapped(d: seq<byte>, i: nat, j: nat): seq<byte>
    requires i < |d| && j < |d|
  {
    d[i := d[j]][j := d[i]]
  }

  lemma SwapStep(d: seq<byte>, i: nat, p: nat)
    requires SortedTo(d, i) && Smallest(d, i, |d|, p)
    ensures SortedTo(Swapped(d, i, p), i + 1)
  {
  }

  lemma SwapPermutes(d: seq<byte>, i: nat, j: nat)
    requires i < |d| && j < |d|
    ensures multiset(Swapped(d, i, j)) == multiset(d)
  {
  }

  lemma AllInPlace(d: seq<byte>)
    requires |d| > 0 && SortedTo(d, |d| - 1)
    ensures Sorted(d)
  {
  }

  /** The bound `len - 1` is computed on an unsigned length, which must not be zero. */
  method InplaceSelectionSort(len: nat, list: array<byte>)
    requires 1 <= len <= list.Length
    modifies list
    ensures Sorted(list[..len]) && multiset(list[..len]) == multiset(old(list[..len]))
    ensures list[len..] == old(list[len..])
  {
    hide Sorted, SortedTo, Smallest, Swapped;
    var i := 0;
    NothingInPlace(list[..len]);
    while i < len - 1
      invariant i <= len - 1
      invariant SortedTo(list[..len], i) && multiset(list[..len]) == multiset(old(list[..len]))
      invariant list[len..] == old(list[len..])
    {
      ghost var before := list[..len];
      var position := FindSmallest(list, i, len);
      SwapStep(before, i, position);
      SwapPermutes(before, i, position);
      if position != i {
        var tmp := list[position];
        list[position] := list[i];
        list[i] := tmp;
      }
      SwappedIs(before, list[..len], i, position);
      i := i + 1;
    }
    AllInPlace(list[..len]);
  }

  lemma NothingInPlace(d: seq<byte>)
    ensures SortedTo(d, 0)
  {
  }

  lemma SwappedIs(d: seq<byte>, e: seq<byte>, i: nat, j: nat)
    requires i < |d| && j < |d| && |e| == |d| && e[i] == d[j] && e[j] == d[i]
    requires forall k :: 0 <= k < |d| && k != i && k != j ==> e[k] == d[k]
    ensures e == Swapped(d, i, j)
  {
  }

  /** The inner loop. */
  method FindSmallest(list: array<byte>, i: nat, len: nat) returns (position: nat)
    requires i < len <= list.Length
    ensures Smallest(list[..len], i, len, position) && position < len
  {
    position := i;
    for j := i + 1 to len
      invariant Smallest(list[..len], i, j, position)
    {
      if list[position] > list[j] {
        position := j;
      }
    }
  }
}
