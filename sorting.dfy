/** A generic in-place sort by a strict weak order, standing for the
    library sort the listing uses. */
module Sorting {

  /** What a sort's less-function must be: asymmetric, and "not after"
      transitive (equivalently, incomparability is transitive too). */
  ghost predicate StrictWeakOrder<T(!new)>(less: (T, T) -> bool)
  {
    && (forall x, y :: less(x, y) ==> !less(y, x))
    && (forall x, y, z :: !less(y, x) && !less(z, y) ==> !less(z, x))
  }

  /** No later element is strictly less than an earlier one. */
  ghost predicate SortedBy<T>(s: seq<T>, less: (T, T) -> bool)
  {
    forall i, j | 0 <= i < j < |s| :: !less(s[j], s[i])
  }

  /** Through `i`, `s` is sorted apart from position `j`, and the element
      at `j` is less than every element after it. */
  ghost predicate Inserting<T>(s: seq<T>, j: int, i: int, less: (T, T) -> bool)
    requires 0 <= j <= i < |s|
  {
    && (forall p, q | 0 <= p < q <= i && p != j && q != j :: !less(s[q], s[p]))
    && (forall q | j < q <= i :: less(s[j], s[q]))
  }

  /** The step that ends one insertion: the element at `j` has come to
      rest, either at the front or behind an element it is not less
      than, so the prefix through `i` is sorted. */
  lemma InsertedSorted<T(!new)>(s: seq<T>, j: int, i: int, less: (T, T) -> bool)
    requires StrictWeakOrder(less) && 0 <= j <= i < |s|
    requires Inserting(s, j, i, less)
    requires j == 0 || !less(s[j], s[j - 1])
    ensures forall p, q | 0 <= p < q <= i :: !less(s[q], s[p])
  {
  }

  /** One step of an insertion: swapping the element at `j` with the
      element before it, which it is less than, moves it one place forward
      and keeps both what is sorted and the multiset of elements. */
  lemma SwapStep<T>(s: seq<T>, t: seq<T>, j: int, i: int, less: (T, T) -> bool)
    requires 0 < j <= i < |s| && t == s[j - 1 := s[j]][j := s[j - 1]]
    requires Inserting(s, j, i, less) && less(s[j], s[j - 1])
    ensures Inserting(t, j - 1, i, less)
    ensures multiset(t) == multiset(s)
  {
  }

  /** Sorts `a` in place by `less` (insertion sort). Like the library sort
      it stands for, it promises a sorted permutation and no particular
      order among elements neither of which is less than the other. */
  method SortBy<T(!new)>(a: array<T>, less: (T, T) -> bool)
    requires StrictWeakOrder(less)
    modifies a
    ensures SortedBy(a[..], less)
    ensures multiset(a[..]) == old(multiset(a[..]))
  {
    for i := 0 to a.Length
      invariant forall p, q | 0 <= p < q < i :: !less(a[q], a[p])
      invariant multiset(a[..]) == old(multiset(a[..]))
    {
      var j := Insert(a, i, less);
      InsertedSorted(a[..], j, i, less);
    }
  }

  /** Swaps `a[i]` forward past the elements of the sorted prefix it is
      less than, and returns where it came to rest: `Inserting` holds
      there, and the moved element is not less than the one before it. */
  method Insert<T>(a: array<T>, i: int, less: (T, T) -> bool) returns (j: int)
    requires 0 <= i < a.Length
    requires forall p, q | 0 <= p < q < i :: !less(a[q], a[p])
    modifies a
    ensures 0 <= j <= i && Inserting(a[..], j, i, less)
    ensures j == 0 || !less(a[j], a[j - 1])
    ensures multiset(a[..]) == old(multiset(a[..]))
  {
    j := i;
    ghost var s := a[..];
    while j > 0 && less(a[j], a[j - 1])
      invariant 0 <= j <= i && s == a[..]
      invariant Inserting(s, j, i, less)
      invariant multiset(s) == old(multiset(a[..]))
    {
      a[j - 1], a[j] := a[j], a[j - 1];
      ghost var t := a[..];
      SwapStep(s, t, j, i, less);
      s := t;
      j := j - 1;
    }
  }
}
