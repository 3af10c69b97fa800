// Node sets are sorted with a comparator that is no strict order: it puts an attribute before itself unless it
// has a place in the buffer.
module NodeSetSorting {

  import opened Documents
  import opened XPath
  import XPathModes
  import S = Sorting

  /** The comparator orders any two items, and puts no item before itself exactly when every attribute has its
      place in the buffer. */
  lemma ComparatorIsOrder(m: Memory)
    ensures S.Order((i, j) => ComesBefore(m, i, j))
    ensures S.Irreflexive((i, j) => ComesBefore(m, i, j)) <==> forall i: Item :: i.attr == NONE || BufferPlace(m, i) != NONE
  {
    var lt := (i, j) => ComesBefore(m, i, j);
    forall i ensures lt(i, i) <==> i.attr != NONE && BufferPlace(m, i) == NONE {}
  }

  lemma NoRepeatsIsDistinct(s: seq<Item>)
    ensures NoRepeats(s) == S.Distinct(s)
  {
  }

  /** Sorting the nodes of an unordered set gives its listing in document order. */
  method SortNodes(d: Doc, m: Memory, a: array<Item>, end: nat)
    requires Valid(d) && PlacesInOrder(d, m) && end <= a.Length && Proper(d, Raw(a[..end], Unsorted))
    modifies a
    ensures a[..end] == Listing(d, Items(old(a[..end])))
  {
    ghost var x := a[..];
    assert x[0..end] == a[..end];
    ComparatorIsOrder(m);
    NoRepeatsIsDistinct(x[0..end]);
    S.FitCases((i, j) => ComesBefore(m, i, j), x[0..end]);
    var loops;
    ghost var depth;
    loops, depth := S.Sort(a, 0, end, (i, j) => ComesBefore(m, i, j));
    ghost var y := a[..];
    SortedListing(d, m, x[0..end], y[0..end]);
    assert y[0..end] == a[..end];
  }

  /** A set that a user has built is fit to be sorted if and only if no attribute without a place in the buffer is in
      it twice. */
  lemma FitSets(m: Memory, s: seq<Item>)
    ensures S.Fit((i, j) => ComesBefore(m, i, j), s)
       <==> forall i: Item | i.attr != NONE && BufferPlace(m, i) == NONE :: multiset(s)[i] <= 1
  {
    var lt := (i, j) => ComesBefore(m, i, j);
    forall i ensures lt(i, i) <==> i.attr != NONE && BufferPlace(m, i) == NONE {}
  }

  lemma SortedListing(d: Doc, m: Memory, s: seq<Item>, t: seq<Item>)
    requires Valid(d) && AllThere(d, s) && NoRepeats(s)
    requires multiset(s) == multiset(t) && S.Sorted((i, j) => ComesBefore(m, i, j), t)
    ensures t == Listing(d, Items(s))
  {
    S.SameMembers(s, t);
    NoRepeatsIsDistinct(s);
    S.RearrangedDistinct(s, t);
    assert Items(s) == Items(t);
    forall j, k | 0 <= j < k < |t| ensures Before(t[j], t[k]) {
      assert S.Le((i, j) => ComesBefore(m, i, j), t[j], t[k]) && t[j] != t[k];
    }
    assert XPathModes.Within(d, Items(s)) by { assert forall k | 0 <= k < |s| :: HasItem(d, s[k]); }
    XPathModes.ListingIsSet(d, Items(s));
    XPathModes.OrderedListingUnique(t, Listing(d, Items(s)));
  }
}
