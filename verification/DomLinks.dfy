// The sibling links of the document tree: half-cyclic lists of children, and what one insertion or
// removal does to the link fields.
//
// A node is its number in the store. `kids` is the abstract value, the children of every node in order;
// `Links` says that the link fields match it.
module DomLinks {
  import opened Documents

  type Kids = seq<seq<int>>

  /** The link fields of all nodes: NONE is a null pointer, and the previous sibling of a first child is
      the last child. */
  datatype Fields = Fields(parent: seq<int>, first: seq<int>, prevC: seq<int>, next: seq<int>)
  {
    predicate Over(n: nat) { |parent| == |first| == |prevC| == |next| == n }
  }

  function First(s: seq<int>): int { if s == [] then NONE else s[0] }

  function Next(s: seq<int>, i: nat): int
    requires i < |s|
  {
    if i + 1 < |s| then s[i + 1] else NONE
  }

  function Previous(s: seq<int>, i: nat): int
    requires i < |s|
  {
    if i == 0 then s[|s| - 1] else s[i - 1]
  }

  function Insert(s: seq<int>, k: nat, x: int): (r: seq<int>)
    requires k <= |s|
    ensures |r| == |s| + 1
    ensures forall i {:trigger r[i]} | 0 <= i < |r| :: r[i] == if i < k then s[i] else if i == k then x else s[i - 1]
  {
    s[..k] + [x] + s[k..]
  }

  function Remove(s: seq<int>, k: nat): (r: seq<int>)
    requires k < |s|
    ensures |r| == |s| - 1
    ensures forall i {:trigger r[i]} | 0 <= i < |r| :: r[i] == if i < k then s[i] else s[i + 1]
  {
    s[..k] + s[k + 1..]
  }

  ghost function Position(s: seq<int>, x: int): (k: nat)
    requires x in s
    ensures k < |s| && s[k] == x
  {
    var k :| 0 <= k < |s| && s[k] == x;
    k
  }

  predicate Within(s: seq<int>, n: nat) { forall i | 0 <= i < |s| :: 0 <= s[i] < n }

  predicate LinkedAt(f: Fields, p: int, s: seq<int>, i: nat)
    requires i < |s| && f.Over(|f.parent|) && 0 <= s[i] < |f.parent|
  {
    f.parent[s[i]] == p && f.next[s[i]] == Next(s, i) && f.prevC[s[i]] == Previous(s, i)
  }

  /** The children of `p` are linked as the list `s`. */
  predicate Listed(f: Fields, p: int, s: seq<int>)
    requires f.Over(|f.parent|) && 0 <= p < |f.parent|
  {
    && f.first[p] == First(s)
    && Within(s, |f.parent|)
    && (forall i {:trigger LinkedAt(f, p, s, i)} | 0 <= i < |s| :: LinkedAt(f, p, s, i))
    && (forall i, j | 0 <= i < j < |s| :: s[i] != s[j])
  }

  predicate Attached(f: Fields, kids: Kids, x: int)
    requires f.Over(|kids|) && 0 <= x < |kids|
  {
    if f.parent[x] == NONE then (f.prevC[x] == NONE || f.prevC[x] == x) && f.next[x] == NONE
    else 0 <= f.parent[x] < |kids| && x in kids[f.parent[x]]
  }

  /** The link fields match the lists of children. */
  predicate Links(f: Fields, kids: Kids) {
    && f.Over(|kids|)
    && (forall p | 0 <= p < |kids| :: Listed(f, p, kids[p]))
    && (forall x | 0 <= x < |kids| :: Attached(f, kids, x))
  }

  lemma LinksListed(f: Fields, kids: Kids, p: int)
    requires Links(f, kids) && 0 <= p < |kids|
    ensures f.Over(|kids|) && Listed(f, p, kids[p])
  {}

  lemma LinksAttached(f: Fields, kids: Kids, x: int)
    requires Links(f, kids) && 0 <= x < |kids|
    ensures f.Over(|kids|) && Attached(f, kids, x)
  {}

  lemma ListedIn(f: Fields, p: int, s: seq<int>, x: int)
    requires f.Over(|f.parent|) && 0 <= p < |f.parent| && Listed(f, p, s) && x in s
    ensures 0 <= x < |f.parent| && f.parent[x] == p
  {
    var i := Position(s, x);
    assert LinkedAt(f, p, s, i);
  }

  /** All nodes other than `child` and those in `s` have the same parent and neighbours in both. */
  predicate SameSiblings(f: Fields, g: Fields, s: seq<int>, child: int)
    requires f.Over(|f.parent|) && g.Over(|f.parent|)
  {
    forall x | 0 <= x < |f.parent| && x != child && x !in s ::
      g.parent[x] == f.parent[x] && g.prevC[x] == f.prevC[x] && g.next[x] == f.next[x]
  }

  /** A list none of whose nodes changes is still linked. */
  lemma OtherListKept(f: Fields, g: Fields, q: int, t: seq<int>, s: seq<int>, child: int)
    requires f.Over(|f.parent|) && g.Over(|f.parent|) && 0 <= q < |f.parent| && Listed(f, q, t)
    requires SameSiblings(f, g, s, child) && g.first[q] == f.first[q]
    requires forall i | 0 <= i < |t| :: t[i] != child && t[i] !in s
    ensures Listed(g, q, t)
  {
    hide Next, Previous, First;
    forall i | 0 <= i < |t| ensures LinkedAt(g, q, t, i) {
      assert LinkedAt(f, q, t, i);
    }
  }

  lemma OtherList(f: Fields, g: Fields, kids: Kids, p: int, child: int, q: int)
    requires Links(f, kids) && g.Over(|kids|) && 0 <= p < |kids| && 0 <= q < |kids| && q != p
    requires 0 <= child < |kids| && (f.parent[child] == NONE || f.parent[child] == p)
    requires SameSiblings(f, g, kids[p], child) && g.first[q] == f.first[q]
    ensures Listed(g, q, kids[q])
  {
    hide Links, Listed, LinkedAt, First, Next, Previous;
    LinksListed(f, kids, p);
    LinksListed(f, kids, q);
    forall i | 0 <= i < |kids[q]| ensures kids[q][i] != child && kids[q][i] !in kids[p] {
      ListedIn(f, q, kids[q], kids[q][i]);
      if kids[q][i] in kids[p] { ListedIn(f, p, kids[p], kids[q][i]); }
    }
    OtherListKept(f, g, q, kids[q], kids[p], child);
  }

  lemma OneListLists(f: Fields, g: Fields, kids: Kids, now: Kids, p: int, child: int)
    requires Links(f, kids) && g.Over(|kids|) && 0 <= p < |kids| && 0 <= child < |kids|
    requires f.parent[child] == NONE || f.parent[child] == p
    requires |now| == |kids| && Listed(g, p, now[p]) && forall q | 0 <= q < |kids| && q != p :: now[q] == kids[q]
    requires SameSiblings(f, g, kids[p], child)
    requires forall x | 0 <= x < |kids| && x != p :: g.first[x] == f.first[x]
    ensures forall q | 0 <= q < |kids| :: Listed(g, q, now[q])
  {
    hide First, Next, Previous, Links, Listed, LinkedAt, SameSiblings;
    forall q | 0 <= q < |kids| ensures Listed(g, q, now[q]) {
      if q != p { OtherList(f, g, kids, p, child, q); }
    }
  }

  lemma OneListAttached(f: Fields, g: Fields, kids: Kids, p: int, child: int, s: seq<int>, x: int)
    requires Links(f, kids) && g.Over(|kids|) && 0 <= p < |kids| && 0 <= child < |kids| && 0 <= x < |kids|
    requires Listed(g, p, s) && SameSiblings(f, g, kids[p], child)
    requires forall x | x in kids[p] && x != child :: x in s
    requires child in s || (g.parent[child] == NONE && g.prevC[child] == NONE && g.next[child] == NONE)
    ensures Attached(g, kids[p := s], x)
  {
    hide First, Next, Previous, Links, Listed, LinkedAt;
    LinksAttached(f, kids, x);
    if x in s { ListedIn(g, p, s, x); }
  }

  /** The list of `p` is replaced by `s`, and only its nodes and `child` change: what is left to check is
      that list, and how `child` and the old and new members are attached. */
  lemma OneListChanges(f: Fields, g: Fields, kids: Kids, p: int, child: int, s: seq<int>)
    requires Links(f, kids) && g.Over(|kids|) && 0 <= p < |kids| && 0 <= child < |kids|
    requires f.parent[child] == NONE || f.parent[child] == p
    requires Listed(g, p, s) && SameSiblings(f, g, kids[p], child)
    requires forall x | 0 <= x < |kids| && x != p :: g.first[x] == f.first[x]
    requires forall x | x in kids[p] && x != child :: x in s
    requires child in s || (g.parent[child] == NONE && g.prevC[child] == NONE && g.next[child] == NONE)
    ensures Links(g, kids[p := s])
  {
    var now := kids[p := s];
    OneListLists(f, g, kids, now, p, child);
    hide First, Next, Previous, Listed, LinkedAt, SameSiblings, Attached;
    forall x | 0 <= x < |kids| ensures Attached(g, now, x) {
      OneListAttached(f, g, kids, p, child, s, x);
    }
  }

  /** What an operation that links the detached node `child` under `p` reads. */
  lemma ToInsert(f: Fields, kids: Kids, p: int, child: int)
    requires Links(f, kids) && 0 <= p < |kids| && 0 <= child < |kids| && f.parent[child] == NONE
    ensures f.Over(|kids|) && f.next[child] == NONE && child !in kids[p]
  {
    LinksListed(f, kids, p);
    LinksAttached(f, kids, child);
    hide Links, Listed;
    if child in kids[p] { ListedIn(f, p, kids[p], child); }
  }

  lemma HeadAndTail(f: Fields, kids: Kids, p: int)
    requires Links(f, kids) && 0 <= p < |kids|
    ensures f.Over(|kids|) && (f.first[p] == NONE <==> kids[p] == []) && Within(kids[p], |kids|)
    ensures kids[p] != [] ==> 0 <= kids[p][0] < |kids| && f.first[p] == kids[p][0]
    ensures kids[p] != [] ==>
      0 <= kids[p][|kids[p]| - 1] < |kids| && f.prevC[kids[p][0]] == kids[p][|kids[p]| - 1]
  {
    LinksListed(f, kids, p);
    hide Links;
    if kids[p] != [] { assert LinkedAt(f, p, kids[p], 0); }
  }

  /** The fields after `child` is linked in as the `k`-th child of `p`, whose children were `s`. */
  predicate Inserted(f: Fields, g: Fields, s: seq<int>, p: int, k: nat, child: int)
    requires f.Over(|f.parent|) && 0 <= p < |f.parent| && 0 <= child < |f.parent|
    requires Within(s, |f.parent|) && k <= |s|
  {
    var r := Insert(s, k, child);
    && g.parent == f.parent[child := p]
    && g.first == (if k == 0 then f.first[p := child] else f.first)
    && g.next == (if k == 0 then f.next else f.next[s[k - 1] := child])[child := Next(r, k)]
    && g.prevC == (if s == [] then f.prevC else f.prevC[s[if k < |s| then k else 0] := child])
                    [child := Previous(r, k)]
  }

  lemma InsertedAt(f: Fields, g: Fields, s: seq<int>, p: int, k: nat, child: int, i: nat)
    requires f.Over(|f.parent|) && 0 <= p < |f.parent| && 0 <= child < |f.parent|
    requires Within(s, |f.parent|) && k <= |s| && child !in s && Listed(f, p, s)
    requires Inserted(f, g, s, p, k, child) && i <= |s|
    ensures g.Over(|f.parent|) && 0 <= Insert(s, k, child)[i] < |f.parent|
    ensures LinkedAt(g, p, Insert(s, k, child), i)
  {
    if i < k {
      assert LinkedAt(f, p, s, i);
    } else if i > k {
      assert LinkedAt(f, p, s, i - 1);
    }
  }

  lemma InsertListed(f: Fields, g: Fields, s: seq<int>, p: int, k: nat, child: int)
    requires f.Over(|f.parent|) && 0 <= p < |f.parent| && 0 <= child < |f.parent|
    requires Within(s, |f.parent|) && k <= |s| && child !in s && Listed(f, p, s)
    requires Inserted(f, g, s, p, k, child)
    ensures g.Over(|f.parent|) && Listed(g, p, Insert(s, k, child))
  {
    hide LinkedAt, Next, Previous;
    var r := Insert(s, k, child);
    assert forall i, j | 0 <= i < j < |r| :: r[i] != r[j];
    forall i | 0 <= i < |r| ensures 0 <= r[i] < |f.parent| && LinkedAt(g, p, r, i) {
      InsertedAt(f, g, s, p, k, child, i);
    }
  }

  lemma InsertLinks(f: Fields, g: Fields, kids: Kids, p: int, k: nat, child: int)
    requires Links(f, kids) && 0 <= p < |kids| && 0 <= child < |kids| && child != p && f.parent[child] == NONE
    requires Within(kids[p], |kids|) && k <= |kids[p]| && Inserted(f, g, kids[p], p, k, child)
    ensures Links(g, kids[p := Insert(kids[p], k, child)])
  {
    hide Links, Listed, LinkedAt;
    LinksListed(f, kids, p);
    ToInsert(f, kids, p, child);
    InsertListed(f, g, kids[p], p, k, child);
    OneListChanges(f, g, kids, p, child, Insert(kids[p], k, child));
  }

  /** The fields after the `k`-th of the children `s` of `p` is unlinked. */
  predicate Unlinked(f: Fields, g: Fields, s: seq<int>, p: int, k: nat)
    requires f.Over(|f.parent|) && 0 <= p < |f.parent| && Within(s, |f.parent|) && k < |s|
  {
    && g.parent == f.parent[s[k] := NONE]
    && g.first == (if k == 0 then f.first[p := Next(s, k)] else f.first)
    && g.next == (if k == 0 then f.next else f.next[s[k - 1] := Next(s, k)])[s[k] := NONE]
    && g.prevC == f.prevC[s[if k + 1 < |s| then k + 1 else 0] := Previous(s, k)][s[k] := NONE]
  }

  lemma UnlinkedAt(f: Fields, g: Fields, s: seq<int>, p: int, k: nat, i: nat)
    requires f.Over(|f.parent|) && 0 <= p < |f.parent| && Within(s, |f.parent|) && k < |s| && Listed(f, p, s)
    requires Unlinked(f, g, s, p, k) && i < |s| - 1
    ensures g.Over(|f.parent|) && 0 <= Remove(s, k)[i] < |f.parent|
    ensures LinkedAt(g, p, Remove(s, k), i)
  {
    if i < k {
      assert LinkedAt(f, p, s, i);
    } else {
      assert LinkedAt(f, p, s, i + 1);
    }
  }

  lemma UnlinkLinks(f: Fields, g: Fields, kids: Kids, p: int, k: nat)
    requires Links(f, kids) && 0 <= p < |kids| && k < |kids[p]|
    requires Within(kids[p], |kids|) && Unlinked(f, g, kids[p], p, k)
    ensures Links(g, kids[p := Remove(kids[p], k)])
  {
    hide Links, LinkedAt, Previous;
    LinksListed(f, kids, p);
    var s, r := kids[p], Remove(kids[p], k);
    ListedIn(f, p, s, s[k]);
    forall i | 0 <= i < |r| ensures 0 <= r[i] < |kids| && LinkedAt(g, p, r, i) {
      UnlinkedAt(f, g, s, p, k, i);
    }
    forall x | x in s && x != s[k] ensures x in r {
      var j := Position(s, x);
      assert r[if j < k then j else j - 1] == x;
    }
    OneListChanges(f, g, kids, p, s[k], r);
  }

  /** What an operation reads around the listed node `x`. */
  lemma Around(f: Fields, kids: Kids, x: int)
    requires f.Over(|kids|) && Links(f, kids) && 0 <= x < |kids| && f.parent[x] != NONE
    ensures 0 <= f.parent[x] < |kids| && x in kids[f.parent[x]] && Within(kids[f.parent[x]], |kids|)
    ensures f.first[f.parent[x]] == kids[f.parent[x]][0]
    ensures (
      var s := kids[f.parent[x]];
      var k := Position(s, x);
      && f.next[x] == Next(s, k) && f.prevC[x] == Previous(s, k)
      && (k > 0 ==> f.next[s[k - 1]] == x) && f.next[s[|s| - 1]] == NONE)
  {
    LinksAttached(f, kids, x);
    var p := f.parent[x];
    LinksListed(f, kids, p);
    hide Links;
    var s, k := kids[p], Position(kids[p], x);
    assert LinkedAt(f, p, s, k) && LinkedAt(f, p, s, |s| - 1);
    if k > 0 { assert LinkedAt(f, p, s, k - 1); }
  }

  /** What the fields of one listed node and of its parent say. */
  lemma FieldsAt(f: Fields, kids: Kids, p: int, i: nat)
    requires Links(f, kids) && 0 <= p < |kids| && i < |kids[p]|
    ensures f.Over(|kids|) && 0 <= kids[p][i] < |kids|
    ensures f.first[p] == kids[p][0] && f.parent[kids[p][i]] == p && f.next[kids[p][i]] == Next(kids[p], i)
  {
    LinksListed(f, kids, p);
    hide Links;
    assert LinkedAt(f, p, kids[p], i);
  }

  /** The lists after `x` becomes the `k`-th child of `p`. */
  function Added(kids: Kids, p: int, k: nat, x: int): Kids
    requires 0 <= p < |kids| && k <= |kids[p]|
  {
    kids[p := Insert(kids[p], k, x)]
  }

  /** The lists after the child `x` of `p` is taken out. */
  ghost function Without(kids: Kids, p: int, x: int): Kids
    requires 0 <= p < |kids| && x in kids[p]
  {
    kids[p := Remove(kids[p], Position(kids[p], x))]
  }
}
