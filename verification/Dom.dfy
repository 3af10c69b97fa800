// Editing the document tree: the link operations on the half-cyclic sibling lists, moves that are
// refused exactly when they would tie a cycle, and copying a subtree by a walk over parent and sibling
// links, also into the subtree that is being copied.
//
// A new node gets the next number in the store. An operation is specified by what it does to `kids`.
// Allocation succeeds. The attributes of a node are kept as a sequence in its content.
module Dom {
  import opened Documents
  import opened DomLinks
  import opened DomCopy

  // ---------------------------------------------------------------- parents

  /** `rank` grows from every parent to its children, so no node is above itself. */
  predicate Grounded(parent: seq<int>, rank: seq<nat>) {
    && |rank| == |parent|
    && forall x | 0 <= x < |parent| && parent[x] != NONE :: 0 <= parent[x] < |parent| && rank[parent[x]] < rank[x]
  }

  ghost predicate Acyclic(parent: seq<int>) { exists rank :: Grounded(parent, rank) }

  function SelfAndAbove(parent: seq<int>, rank: seq<nat>, x: int): (r: set<int>)
    requires Grounded(parent, rank) && 0 <= x < |parent|
    ensures forall y | y in r :: 0 <= y < |parent| && rank[y] <= rank[x]
    decreases rank[x]
  {
    {x} + if parent[x] == NONE then {} else SelfAndAbove(parent, rank, parent[x])
  }

  lemma {:induction false} AboveClosed(parent: seq<int>, rank: seq<nat>, x: int, y: int)
    requires Grounded(parent, rank) && 0 <= x < |parent| && y in SelfAndAbove(parent, rank, x) && parent[y] != NONE
    ensures parent[y] in SelfAndAbove(parent, rank, x)
    decreases rank[x]
  {
    if x != y { AboveClosed(parent, rank, parent[x], y); }
    assert parent[x] in SelfAndAbove(parent, rank, parent[x]);
  }

  /** Any other ranking of the parents with `moved` below `target` would have to grow around the cycle. */
  lemma {:induction false} NoRankAround(parent: seq<int>, rank: seq<nat>, moved: int, target: int, other: seq<nat>, x: int)
    requires Grounded(parent, rank) && 0 <= x < |parent| && 0 <= moved < |parent| && 0 <= target < |parent|
    requires Grounded(parent[moved := target], other) && moved in SelfAndAbove(parent, rank, x)
    ensures other[moved] <= other[x]
    decreases rank[x]
  {
    if x != moved {
      NoRankAround(parent, rank, moved, target, other, parent[x]);
      assert parent[moved := target][x] == parent[x];
    }
  }

  /** Putting `moved` below `target` keeps a forest exactly when `target` is not in the subtree of `moved`. */
  lemma StaysAcyclic(parent: seq<int>, rank: seq<nat>, moved: int, target: int)
    requires Grounded(parent, rank) && 0 <= moved < |parent| && 0 <= target < |parent|
    ensures Acyclic(parent[moved := target]) <==> moved !in SelfAndAbove(parent, rank, target)
  {
    var up := SelfAndAbove(parent, rank, target);
    if moved in up {
      if Acyclic(parent[moved := target]) {
        var other :| Grounded(parent[moved := target], other);
        assert parent[moved := target][moved] == target;
        NoRankAround(parent, rank, moved, target, other, target);
      }
    } else {
      var other := seq(|parent|, x requires 0 <= x < |parent| => if x in up then rank[x] else rank[x] + rank[target] + 1);
      forall x | 0 <= x < |parent| && x in up && parent[x] != NONE ensures parent[x] in up {
        AboveClosed(parent, rank, target, x);
      }
      assert Grounded(parent[moved := target], other);
    }
  }

  // ---------------------------------------------------------------- the document

  /** Which kinds of nodes may be children of which; the kind OtherNode stands for declarations and
      document types. */
  predicate MayHold(parent: Kind, child: Kind) {
    if !parent.DocumentNode? && !parent.Element? then false
    else if child.DocumentNode? then false
    else if !parent.DocumentNode? && child.OtherNode? then false
    else true
  }

  /** Every node but the document nodes, and the roots of what was removed, is a child of a node of the
      same document that may hold it. */
  predicate Typed(parent: seq<int>, kind: seq<Kind>, home: seq<nat>, gone: set<int>)
    requires |kind| == |home| == |parent|
  {
    && (forall x | x in gone :: 0 <= x < |parent|)
    && forall x | 0 <= x < |parent| ::
      if parent[x] == NONE then kind[x].DocumentNode? || x in gone
      else 0 <= parent[x] < |parent| && x !in gone && MayHold(kind[parent[x]], kind[x]) && home[parent[x]] == home[x]
  }

  /** The table of kinds: which child may stand under which parent. */
  const TABLE: set<(Kind, Kind)> :=
    {(DocumentNode, Element), (DocumentNode, Pcdata), (DocumentNode, Cdata), (DocumentNode, Comment), (DocumentNode, Pi),
     (DocumentNode, OtherNode),
     (Element, Element), (Element, Pcdata), (Element, Cdata), (Element, Comment), (Element, Pi)}

  /** In every document, after any moves, exactly the kinds of the table stand where they do: no document node is a child,
      a declaration or document type is a child of a document node only, and text, comments, processing instructions,
      declarations and document types have no children. */
  lemma WhatStandsWhere(parent: seq<int>, kind: seq<Kind>, home: seq<nat>, gone: set<int>, x: int)
    requires |kind| == |home| == |parent| && Typed(parent, kind, home, gone) && 0 <= x < |parent| && parent[x] != NONE
    ensures 0 <= parent[x] < |parent| && (kind[parent[x]], kind[x]) in TABLE
    ensures forall p, c :: MayHold(p, c) <==> (p, c) in TABLE
  {
    forall p, c ensures MayHold(p, c) <==> (p, c) in TABLE { TableIs(p, c); }
  }

  lemma TableIs(p: Kind, c: Kind)
    ensures MayHold(p, c) <==> (p, c) in TABLE
  {
    match p
    case DocumentNode =>
    case Element =>
    case Pcdata =>
    case Cdata =>
    case Comment =>
    case Pi =>
    case OtherNode =>
  }

  function Looks(kind: seq<Kind>, content: seq<Content>): (r: seq<Look>)
    requires |kind| == |content|
    ensures |r| == |kind|
    ensures forall x {:trigger r[x]} | 0 <= x < |r| :: r[x] == Look(kind[x], content[x])
  {
    seq(|kind|, x requires 0 <= x < |kind| => Look(kind[x], content[x]))
  }

  /** A new node stands alone; a document node is its own predecessor. */
  lemma FreshLinks(f: Fields, g: Fields, kids: Kids, before: int)
    requires Links(f, kids) && (before == NONE || before == |kids|)
    requires g == Fields(f.parent + [NONE], f.first + [NONE], f.prevC + [before], f.next + [NONE])
    ensures Links(g, kids + [[]])
  {
    var now := kids + [[]];
    forall p | 0 <= p < |now| ensures Listed(g, p, now[p]) {
      hide Links;
      if p < |kids| {
        LinksListed(f, kids, p);
        forall i | 0 <= i < |now[p]| ensures LinkedAt(g, p, now[p], i) { assert LinkedAt(f, p, now[p], i); }
      }
    }
    forall x | 0 <= x < |now| ensures Attached(g, now, x) {
      hide Links, Listed;
      if x < |kids| { LinksAttached(f, kids, x); }
    }
  }

  ghost function Subtree(parent: seq<int>, rank: seq<nat>, x: int): set<int>
    requires Grounded(parent, rank)
  {
    set y | 0 <= y < |parent| && x in SelfAndAbove(parent, rank, y)
  }

  /** A move to where it is allowed touches no list of the subtree that is moved. */
  lemma MoveAgrees(l: Fields, f: Forest, g: Forest, rank: seq<nat>, moved: int, target: int)
    requires Links(l, f.kids) && Grounded(l.parent, rank) && |f.looks| == |f.kids| == |l.parent|
    requires 0 <= moved < |f.kids| && 0 <= target < |f.kids| && l.parent[moved] != NONE
    requires moved !in SelfAndAbove(l.parent, rank, target)
    requires |g.kids| == |f.kids| && g.looks == f.looks
    requires forall x | 0 <= x < |f.kids| && x != target && x != l.parent[moved] :: g.kids[x] == f.kids[x]
    ensures Agree(f, g, Subtree(l.parent, rank, moved)) && moved in Subtree(l.parent, rank, moved)
  {
    var a := Subtree(l.parent, rank, moved);
    assert l.parent[moved] !in a;
    forall x, i | x in a && 0 <= i < |f.kids[x]| ensures f.kids[x][i] in a {
      FieldsAt(l, f.kids, x, i);
      assert x in SelfAndAbove(l.parent, rank, f.kids[x][i]) by { assert x in SelfAndAbove(l.parent, rank, x); }
    }
  }

  /** A bound for finitely many ranks. */
  function Top(rank: seq<nat>): (r: nat)
    ensures forall x | 0 <= x < |rank| :: rank[x] < r
  {
    if rank == [] then 0
    else
      var r, n := Top(rank[..|rank| - 1]), rank[|rank| - 1];
      assert forall x | 0 <= x < |rank| - 1 :: rank[x] == rank[..|rank| - 1][x];
      if n < r then r else n + 1
  }

  predicate Rooted(src: Source, sn: int, t: Tree, chain: seq<Level>, rank: seq<nat>) {
    && chain != [] && chain[0].s == sn && chain[0].d == src.Root() && chain[0].t == t
    && 0 <= sn < src.Size() && sn < |rank|
    && forall k | 0 < k < |chain| :: 0 <= chain[k].s < |rank| && rank[sn] < rank[chain[k].s]
  }

  lemma RootedGrows(src: Source, sn: int, t: Tree, chain: seq<Level>, rank: seq<nat>, more: seq<nat>, m: Level)
    requires Rooted(src, sn, t, chain, rank) && rank <= more
    requires 0 <= m.s < |rank| && rank[sn] < rank[m.s]
    ensures Rooted(src, sn, t, Advance(chain), more) && Rooted(src, sn, t, chain + [m], more)
  {}

  class Dom {
    var parent: seq<int>
    var firstChild: seq<int>
    var prevC: seq<int>
    var next: seq<int>
    var kind: seq<Kind>
    var home: seq<nat>               // the document that owns the memory of the node
    var content: seq<Content>
    ghost var kids: Kids
    ghost var rank: seq<nat>
    ghost var gone: set<int>         // the roots of what was removed

    /** A document with nothing in it. */
    constructor (document: nat)
      ensures Valid() && kids == [[]] && kind == [DocumentNode] && home == [document] && gone == {}
    {
      parent, firstChild, prevC, next := [NONE], [NONE], [0], [NONE];
      kind, home, content := [DocumentNode], [document], [Content("", "", [])];
      kids, rank, gone := [[]], [0], {};
    }

    ghost function Now(): Fields
      reads this
    {
      Fields(parent, firstChild, prevC, next)
    }

    method AppendNode(child: int, node: int)
      requires Links(Now(), kids) && 0 <= child < |kids| && 0 <= node < |kids|
      requires parent[child] == NONE && child != node
      modifies `parent, `firstChild, `prevC, `next, `kids
      ensures kids == Added(old(kids), node, |old(kids[node])|, child)
      ensures Links(Now(), kids) && parent == old(parent)[child := node]
    {
      hide Links;
      ghost var f, s := Now(), kids[node];
      HeadAndTail(f, kids, node);
      ToInsert(f, kids, node, child);
      parent := parent[child := node];
      var head := firstChild[node];
      if head != NONE {
        var tail := prevC[head];
        next := next[tail := child];
        prevC := prevC[child := tail];
        prevC := prevC[head := child];
      } else {
        firstChild := firstChild[node := child];
        prevC := prevC[child := child];
      }
      assert Inserted(f, Now(), s, node, |s|, child);
      InsertLinks(f, Now(), kids, node, |s|, child);
      kids := Added(kids, node, |s|, child);
    }

    method PrependNode(child: int, node: int)
      requires Links(Now(), kids) && 0 <= child < |kids| && 0 <= node < |kids|
      requires parent[child] == NONE && child != node
      modifies `parent, `firstChild, `prevC, `next, `kids
      ensures kids == Added(old(kids), node, 0, child)
      ensures Links(Now(), kids) && parent == old(parent)[child := node]
    {
      hide Links, Listed;
      ghost var f, s := Now(), kids[node];
      HeadAndTail(f, kids, node);
      ToInsert(f, kids, node, child);
      parent := parent[child := node];
      var head := firstChild[node];
      if head != NONE {
        prevC := prevC[child := prevC[head]];
        prevC := prevC[head := child];
      } else {
        prevC := prevC[child := child];
      }
      next := next[child := head];
      firstChild := firstChild[node := child];
      assert Inserted(f, Now(), s, node, 0, child);
      InsertLinks(f, Now(), kids, node, 0, child);
      kids := Added(kids, node, 0, child);
    }

    method InsertNodeAfter(child: int, node: int)
      requires Links(Now(), kids) && 0 <= child < |kids| && 0 <= node < |kids|
      requires parent[child] == NONE && parent[node] != NONE && child != parent[node]
      modifies `parent, `firstChild, `prevC, `next, `kids
      ensures 0 <= old(parent[node]) < |old(kids)| && node in old(kids[parent[node]])
      ensures kids == Added(old(kids), old(parent[node]), Position(old(kids[parent[node]]), node) + 1, child)
      ensures Links(Now(), kids) && parent == old(parent)[child := old(parent[node])]
    {
      hide Links, Listed;
      ghost var f := Now();
      LinksAttached(f, kids, node);
      Around(f, kids, node);
      var p := parent[node];
      ghost var s, k := kids[p], Position(kids[p], node) + 1;
      ToInsert(f, kids, p, child);
      parent := parent[child := p];
      if next[node] != NONE {
        prevC := prevC[next[node] := child];
      } else {
        prevC := prevC[firstChild[p] := child];
      }
      next := next[child := next[node]];
      prevC := prevC[child := node];
      next := next[node := child];
      assert Inserted(f, Now(), s, p, k, child);
      InsertLinks(f, Now(), kids, p, k, child);
      kids := Added(kids, p, k, child);
    }

    method InsertNodeBefore(child: int, node: int)
      requires Links(Now(), kids) && 0 <= child < |kids| && 0 <= node < |kids|
      requires parent[child] == NONE && parent[node] != NONE && child != parent[node]
      modifies `parent, `firstChild, `prevC, `next, `kids
      ensures 0 <= old(parent[node]) < |old(kids)| && node in old(kids[parent[node]])
      ensures kids == Added(old(kids), old(parent[node]), Position(old(kids[parent[node]]), node), child)
      ensures Links(Now(), kids) && parent == old(parent)[child := old(parent[node])]
    {
      hide Links, Listed;
      ghost var f := Now();
      LinksAttached(f, kids, node);
      Around(f, kids, node);
      var p := parent[node];
      ghost var s, k := kids[p], Position(kids[p], node);
      ToInsert(f, kids, p, child);
      parent := parent[child := p];
      if next[prevC[node]] != NONE {
        next := next[prevC[node] := child];
      } else {
        firstChild := firstChild[p := child];
      }
      prevC := prevC[child := prevC[node]];
      next := next[child := node];
      prevC := prevC[node := child];
      assert Inserted(f, Now(), s, p, k, child);
      InsertLinks(f, Now(), kids, p, k, child);
      kids := Added(kids, p, k, child);
    }

    method RemoveNode(node: int)
      requires Links(Now(), kids) && 0 <= node < |kids| && parent[node] != NONE
      modifies `parent, `firstChild, `prevC, `next, `kids
      ensures 0 <= old(parent[node]) < |old(kids)| && node in old(kids[parent[node]])
      ensures kids == Without(old(kids), old(parent[node]), node)
      ensures Links(Now(), kids) && parent == old(parent)[node := NONE]
    {
      hide Links, Listed;
      ghost var f := Now();
      LinksAttached(f, kids, node);
      Around(f, kids, node);
      var p := parent[node];
      ghost var s, k := kids[p], Position(kids[p], node);
      if next[node] != NONE {
        prevC := prevC[next[node] := prevC[node]];
      } else {
        prevC := prevC[firstChild[p] := prevC[node]];
      }
      if next[prevC[node]] != NONE {
        next := next[prevC[node] := next[node]];
      } else {
        firstChild := firstChild[p := next[node]];
      }
      parent := parent[node := NONE];
      prevC := prevC[node := NONE];
      next := next[node := NONE];
      assert Unlinked(f, Now(), s, p, k);
      UnlinkLinks(f, Now(), kids, p, k);
      kids := Without(kids, p, node);
    }

    ghost predicate Valid()
      reads this
    {
      && Links(Now(), kids) && |kind| == |home| == |content| == |parent| == |kids|
      && Grounded(parent, rank) && Typed(parent, kind, home, gone)
    }

    predicate Handle(x: int)
      reads this
    {
      x == NONE || 0 <= x < |parent|
    }

    /** The reference for a legal move: the kinds fit, no other document is involved, and the new parent
        is not in the subtree that is moved. */
    ghost predicate CanMove(target: int, moved: int)
      requires Valid() && Handle(target) && Handle(moved)
      reads this
    {
      && target != NONE && moved != NONE && MayHold(kind[target], kind[moved]) && home[target] == home[moved]
      && moved !in SelfAndAbove(parent, rank, target)
    }

    method AllowMove(target: int, child: int) returns (ok: bool)
      requires Valid() && Handle(target) && Handle(child)
      ensures ok == CanMove(target, child)
    {
      hide Links, Typed;
      if target == NONE || child == NONE || !MayHold(kind[target], kind[child]) { return false; }
      if home[target] != home[child] { return false; }
      var cur := target;
      while cur != NONE
        invariant cur == NONE || 0 <= cur < |parent|
        invariant child in SelfAndAbove(parent, rank, target) <==>
          cur != NONE && child in SelfAndAbove(parent, rank, cur)
        decreases if cur == NONE then 0 else rank[cur] + 1
      {
        if cur == child { return false; }
        cur := parent[cur];
      }
      return true;
    }

    /** Another document, with nothing in it, whose nodes the same store holds from now on. */
    method AddDocument(document: nat) returns (root: int)
      requires Valid()
      modifies this
      ensures Valid() && root == |old(kids)| && kids == old(kids) + [[]] && gone == old(gone)
      ensures parent == old(parent) + [NONE] && rank == old(rank) + [0]
      ensures kind == old(kind) + [DocumentNode] && home == old(home) + [document]
      ensures content == old(content) + [Content("", "", [])]
      ensures document !in old(home) ==>
                forall x | 0 <= x < |old(kids)| :: !CanMove(root, x) && !CanMove(x, root)
    {
      hide Links;
      root := |parent|;
      ghost var f := Now();
      FreshLinks(f, Fields(f.parent + [NONE], f.first + [NONE], f.prevC + [root], f.next + [NONE]), kids, root);
      parent, firstChild, prevC, next := parent + [NONE], firstChild + [NONE], prevC + [root], next + [NONE];
      kind, home, content := kind + [DocumentNode], home + [document], content + [Content("", "", [])];
      kids, rank := kids + [[]], rank + [0];
    }

    /** The lists after a move of `moved` to place `k` of its new siblings. */
    ghost function Taken(moved: int): Kids
      requires Valid() && 0 <= moved < |parent| && parent[moved] != NONE
      reads this
    {
      LinksAttached(Now(), kids, moved);
      Without(kids, parent[moved], moved)
    }

    /** What the store looks like, as a value. */
    ghost function Picture(): Forest
      requires |kind| == |content|
      reads this
    {
      Forest(kids, Looks(kind, content))
    }

    lemma ShowsATree(x: int) returns (t: Tree)
      requires Valid() && 0 <= x < |kids|
      ensures Shows(Picture(), x, t)
    {
      var f := Picture();
      forall p, i | 0 <= p < |kids| && 0 <= i < |kids[p]|
        ensures 0 <= kids[p][i] < |kids| && rank[p] < rank[kids[p][i]]
      {
        FieldsAt(Now(), kids, p, i);
      }
      t := ShowsSome(f, rank, Top(rank), x);
    }

    /** The subtree of `x`. */
    ghost function TreeAt(x: int): (t: Tree)
      requires Valid() && 0 <= x < |kids|
      reads this
      ensures Shows(Picture(), x, t)
    {
      assert exists t :: Shows(Picture(), x, t) by { var t := ShowsATree(x); }
      var t :| Shows(Picture(), x, t);
      t
    }

    lemma MoveKeepsTree(l: Fields, f: Forest, t: Tree, ranked: seq<nat>, moved: int, target: int)
      requires Valid() && Links(l, f.kids) && Grounded(l.parent, ranked) && |f.looks| == |f.kids| == |l.parent|
      requires 0 <= moved < |f.kids| && 0 <= target < |f.kids| && l.parent[moved] != NONE
      requires moved !in SelfAndAbove(l.parent, ranked, target) && Shows(f, moved, t)
      requires |kids| == |f.kids| && Looks(kind, content) == f.looks
      requires forall x | 0 <= x < |f.kids| && x != target && x != l.parent[moved] :: kids[x] == f.kids[x]
      ensures TreeAt(moved) == t
    {
      hide Links, Shows, Agree, Typed;
      MoveAgrees(l, f, Picture(), ranked, moved, target);
      ShowsFrame(f, Picture(), Subtree(l.parent, ranked, moved), moved, t);
      ShowsOne(Picture(), moved, TreeAt(moved), t);
    }

    method AppendMove(target: int, moved: int) returns (r: int)
      requires Valid() && Handle(target) && Handle(moved) && moved !in gone
      modifies this
      ensures Valid() && kind == old(kind) && home == old(home) && content == old(content) && gone == old(gone)
      ensures r == if old(CanMove(target, moved)) then moved else NONE
      ensures r == NONE ==> kids == old(kids)
      ensures r != NONE ==> 0 <= moved < |old(parent)| && old(parent[moved]) != NONE && 0 <= target < |old(kids)|
      ensures r != NONE ==> TreeAt(moved) == old(TreeAt(moved))
      ensures r != NONE ==> kids == Added(old(Taken(moved)), target, |old(Taken(moved))[target]|, moved)
    {
      hide Links, Shows, Agree;
      r := NONE;
      var ok := AllowMove(target, moved);
      if !ok { return; }
      assert parent[moved] != NONE;
      StaysAcyclic(parent, rank, moved, target);
      ghost var l, f, t, ranked := Now(), Picture(), TreeAt(moved), rank;
      RemoveNode(moved);
      AppendNode(moved, target);
      assert parent == old(parent)[moved := target];
      ghost var ranks :| Grounded(parent, ranks);
      rank := ranks;
      MoveKeepsTree(l, f, t, ranked, moved, target);
      r := moved;
    }

    method PrependMove(target: int, moved: int) returns (r: int)
      requires Valid() && Handle(target) && Handle(moved) && moved !in gone
      modifies this
      ensures Valid() && kind == old(kind) && home == old(home) && content == old(content) && gone == old(gone)
      ensures r == if old(CanMove(target, moved)) then moved else NONE
      ensures r == NONE ==> kids == old(kids)
      ensures r != NONE ==> 0 <= moved < |old(parent)| && old(parent[moved]) != NONE && 0 <= target < |old(kids)|
      ensures r != NONE ==> TreeAt(moved) == old(TreeAt(moved))
      ensures r != NONE ==> kids == Added(old(Taken(moved)), target, 0, moved)
    {
      hide Links, Shows, Agree;
      r := NONE;
      var ok := AllowMove(target, moved);
      if !ok { return; }
      assert parent[moved] != NONE;
      StaysAcyclic(parent, rank, moved, target);
      ghost var l, f, t, ranked := Now(), Picture(), TreeAt(moved), rank;
      RemoveNode(moved);
      PrependNode(moved, target);
      assert parent == old(parent)[moved := target];
      ghost var ranks :| Grounded(parent, ranks);
      rank := ranks;
      MoveKeepsTree(l, f, t, ranked, moved, target);
      r := moved;
    }

    /** The move next to `node` that the two methods below allow. */
    ghost predicate CanMoveBeside(target: int, moved: int, node: int)
      requires Valid() && Handle(target) && Handle(moved) && Handle(node)
      reads this
    {
      CanMove(target, moved) && node != NONE && parent[node] == target && moved != node
    }

    /** `node` stays a child of `target` when its sibling or another node is taken out. */
    lemma StaysListed(target: int, moved: int, node: int)
      requires Valid() && Handle(target) && Handle(moved) && Handle(node) && moved !in gone
      requires CanMoveBeside(target, moved, node)
      ensures 0 <= target < |kids| && parent[moved] != NONE && node in Taken(moved)[target]
    {
      LinksAttached(Now(), kids, node);
      LinksAttached(Now(), kids, moved);
      hide Links;
      if parent[moved] == target {
        var s := kids[target];
        var k, j := Position(s, moved), Position(s, node);
        assert Remove(s, k)[if j < k then j else j - 1] == node;
      }
    }

    method InsertMoveAfter(target: int, moved: int, node: int) returns (r: int)
      requires Valid() && Handle(target) && Handle(moved) && Handle(node) && moved !in gone
      modifies this
      ensures Valid() && kind == old(kind) && home == old(home) && content == old(content) && gone == old(gone)
      ensures r == if old(CanMoveBeside(target, moved, node)) then moved else NONE
      ensures r == NONE ==> kids == old(kids)
      ensures r != NONE ==> 0 <= moved < |old(parent)| && old(parent[moved]) != NONE && 0 <= target < |old(kids)|
      ensures r != NONE ==> TreeAt(moved) == old(TreeAt(moved))
      ensures r != NONE ==> node in old(Taken(moved))[target]
      ensures r != NONE ==>
        kids == Added(old(Taken(moved)), target, Position(old(Taken(moved))[target], node) + 1, moved)
    {
      hide Links, Shows, Agree;
      r := NONE;
      var ok := AllowMove(target, moved);
      if !ok { return; }
      if node == NONE || parent[node] != target { return; }
      if moved == node { return; }
      StaysListed(target, moved, node);
      StaysAcyclic(parent, rank, moved, target);
      ghost var l, f, t, ranked := Now(), Picture(), TreeAt(moved), rank;
      RemoveNode(moved);
      InsertNodeAfter(moved, node);
      assert parent == old(parent)[moved := target];
      ghost var ranks :| Grounded(parent, ranks);
      rank := ranks;
      MoveKeepsTree(l, f, t, ranked, moved, target);
      r := moved;
    }

    method InsertMoveBefore(target: int, moved: int, node: int) returns (r: int)
      requires Valid() && Handle(target) && Handle(moved) && Handle(node) && moved !in gone
      modifies this
      ensures Valid() && kind == old(kind) && home == old(home) && content == old(content) && gone == old(gone)
      ensures r == if old(CanMoveBeside(target, moved, node)) then moved else NONE
      ensures r == NONE ==> kids == old(kids)
      ensures r != NONE ==> 0 <= moved < |old(parent)| && old(parent[moved]) != NONE && 0 <= target < |old(kids)|
      ensures r != NONE ==> TreeAt(moved) == old(TreeAt(moved))
      ensures r != NONE ==> node in old(Taken(moved))[target]
      ensures r != NONE ==> kids == Added(old(Taken(moved)), target, Position(old(Taken(moved))[target], node), moved)
    {
      hide Links, Shows, Agree;
      r := NONE;
      var ok := AllowMove(target, moved);
      if !ok { return; }
      if node == NONE || parent[node] != target { return; }
      if moved == node { return; }
      StaysListed(target, moved, node);
      StaysAcyclic(parent, rank, moved, target);
      ghost var l, f, t, ranked := Now(), Picture(), TreeAt(moved), rank;
      RemoveNode(moved);
      InsertNodeBefore(moved, node);
      assert parent == old(parent)[moved := target];
      ghost var ranks :| Grounded(parent, ranks);
      rank := ranks;
      MoveKeepsTree(l, f, t, ranked, moved, target);
      r := moved;
    }

    /** What hangs below `n` hangs there still, but `n` is no longer in the document. */
    method RemoveChild(target: int, n: int) returns (ok: bool)
      requires Valid() && Handle(target) && Handle(n)
      modifies this
      ensures Valid() && kind == old(kind) && home == old(home) && content == old(content)
      ensures ok <==> target != NONE && n != NONE && old(parent[n]) == target
      ensures ok ==> gone == old(gone) + {n} && kids == old(Taken(n)) && parent == old(parent)[n := NONE]
      ensures !ok ==> gone == old(gone) && kids == old(kids) && parent == old(parent)
    {
      hide Links;
      if target == NONE || n == NONE || parent[n] != target { return false; }
      RemoveNode(n);
      gone := gone + {n};
      return true;
    }

    // -------------------------------------------------------------- copying

    /** A new node that is not linked in yet, in the document of `node`. */
    method AllocateNode(node: int, type_: Kind) returns (child: int)
      requires Links(Now(), kids) && |kind| == |home| == |content| == |parent| == |kids| == |rank| && 0 <= node < |kids|
      modifies this
      ensures Links(Now(), kids) && kids == old(kids) + [[]] && child == |old(kids)| == |old(parent)| && gone == old(gone)
      ensures parent == old(parent) + [NONE] && rank == old(rank) + [old(rank[node]) + 1]
      ensures kind == old(kind) + [type_] && home == old(home) + [old(home[node])]
      ensures content == old(content) + [Content("", "", [])]
    {
      hide Links;
      child := |parent|;
      ghost var f := Now();
      assert f.Over(|kids|) by { LinksListed(f, kids, node); }
      FreshLinks(f, Fields(f.parent + [NONE], f.first + [NONE], f.prevC + [NONE], f.next + [NONE]), kids, NONE);
      parent, firstChild, prevC, next := parent + [NONE], firstChild + [NONE], prevC + [NONE], next + [NONE];
      kind, home, content := kind + [type_], home + [home[node]], content + [Content("", "", [])];
      kids, rank := kids + [[]], rank + [rank[node] + 1];
    }

    /** A new node under `node`, after its other children. */
    method AppendNewNode(node: int, type_: Kind) returns (child: int)
      requires Valid() && 0 <= node < |kids| && MayHold(kind[node], type_)
      modifies this
      ensures Valid() && child == |old(kids)| && gone == old(gone)
      ensures kids == Added(old(kids) + [[]], node, |old(kids[node])|, child)
      ensures parent == old(parent) + [node] && rank == old(rank) + [old(rank[node]) + 1]
      ensures kind == old(kind) + [type_] && home == old(home) + [old(home[node])]
      ensures content == old(content) + [Content("", "", [])]
    {
      hide Links;
      child := AllocateNode(node, type_);
      AppendNode(child, node);
      assert parent == old(parent) + [node];
    }

    /** All nodes older than the root of the copy are as they were when that was linked in. */
    ghost predicate Kept(src: Source)
      reads this
    {
      && Valid() && src.Ok() && src.Size() < |kids|
      && (forall x | 0 <= x < src.Size() :: kids[x] == src.Linked(x))
      && (forall x | 0 <= x < src.Size() :: src.forest.looks[x] == Look(kind[x], content[x]) && src.homes[x] == home[x])
    }

    /** The chain starts with the copy of `sn` to the new root, and no lower level is a copy of `sn`. */
    ghost predicate Started(src: Source, sn: int, t: Tree, chain: seq<Level>, done: set<int>)
      reads this
    {
      Kept(src) && ChainOk(Picture(), src, chain, done) && Rooted(src, sn, t, chain, rank)
    }

    /** The walk is at `sit`, and its copy goes under `dit`. */
    ghost predicate WalkAt(src: Source, sn: int, t: Tree, chain: seq<Level>, done: set<int>, sit: int, dit: int)
      reads this
    {
      && Started(src, sn, t, chain, done) && dit == Last(chain).d && 0 <= Last(chain).s < src.Size()
      && Last(chain).j < |src.Linked(Last(chain).s)| && sit == src.Linked(Last(chain).s)[Last(chain).j]
    }

    /** The subtree of `sit` is done, and the last level has counted it. */
    ghost predicate WalkPast(src: Source, sn: int, t: Tree, chain: seq<Level>, done: set<int>, sit: int, dit: int)
      reads this
    {
      && Started(src, sn, t, chain, done) && dit == Last(chain).d && 0 <= Last(chain).s < src.Size()
      && 0 < Last(chain).j <= |src.Linked(Last(chain).s)| && sit == src.Linked(Last(chain).s)[Last(chain).j - 1]
    }

    lemma PastFacts(src: Source, sn: int, t: Tree, chain: seq<Level>, done: set<int>, sit: int, dit: int)
      requires WalkPast(src, sn, t, chain, done, sit, dit)
      ensures Now().Over(|kids|) && 0 <= sit < |kids| && parent[sit] == Last(chain).s
      ensures next[sit] == if Last(chain).j < |src.Linked(Last(chain).s)| then src.Linked(Last(chain).s)[Last(chain).j] else NONE
      ensures Last(chain).j < |src.Linked(Last(chain).s)| ==> src.Linked(Last(chain).s)[Last(chain).j] != NONE
      ensures LevelOk(Picture(), src, Last(chain), done)
    {
      var l := Last(chain);
      assert kids[l.s] == src.Linked(l.s);
      FieldsAt(Now(), kids, l.s, l.j - 1);
      if l.j < |kids[l.s]| { FieldsAt(Now(), kids, l.s, l.j); }
    }

    lemma PopFacts(src: Source, sn: int, t: Tree, chain: seq<Level>, done: set<int>, sit: int, dit: int)
      requires WalkPast(src, sn, t, chain, done, sit, dit) && |chain| > 1
      requires Last(chain).j == |src.Linked(Last(chain).s)|
      ensures Now().Over(|kids|) && 0 <= dit < |kids|
      ensures WalkPast(src, sn, t, Advance(chain[..|chain| - 1]), done + {dit}, Last(chain).s, parent[dit])
      ensures Last(chain).s != sn
    {
      var l, m := chain[|chain| - 2], Last(chain);
      assert LevelOk(Picture(), src, l, done) && LevelOk(Picture(), src, m, done) && Below(Picture(), src, l, m);
      FieldsAt(Now(), kids, l.d, src.Index(l.s, l.j));
      hide Links, ChainOk;
      PopLevel(Picture(), src, chain, done);
    }

    /** On to the next node in the source, and from the end of a list of children up to its parent, with the
        copy alongside. */
    method Climb(ghost src: Source, ghost t: Tree, sn: int, ghost chain0: seq<Level>, ghost done0: set<int>, sit0: int, dit0: int)
      returns (sit: int, dit: int, ghost chain: seq<Level>, ghost done: set<int>)
      requires WalkPast(src, sn, t, chain0, done0, sit0, dit0)
      ensures if chain == [] then sit == sn && Kept(src) && Shows(Picture(), src.Root(), t)
              else WalkAt(src, sn, t, chain, done, sit, dit)
      ensures Work(src, chain) <= Work(src, chain0)
    {
      hide Links, ChainOk, Work, Shows, LevelOk;
      sit, dit, chain, done := sit0, dit0, chain0, done0;
      while true
        invariant WalkPast(src, sn, t, chain, done, sit, dit)
        invariant Work(src, chain) <= Work(src, chain0)
        decreases |chain|
      {
        PastFacts(src, sn, t, chain, done, sit, dit);
        if next[sit] != NONE {
          sit := next[sit];
          return;
        }
        if |chain| == 1 {
          LevelEnds(Picture(), src, chain, done);
          LevelRange(Picture(), src, chain[0], done);
          WorkNone(src);
        } else {
          PopFacts(src, sn, t, chain, done, sit, dit);
          WorkPop(src, chain);
        }
        chain, done := if |chain| == 1 then [] else Advance(chain[..|chain| - 1]), done + {dit};
        sit, dit := parent[sit], parent[dit];
        if sit == sn { return; }
      }
    }

    lemma AtFacts(src: Source, sn: int, t: Tree, chain: seq<Level>, done: set<int>, sit: int, dit: int)
      requires WalkAt(src, sn, t, chain, done, sit, dit)
      ensures 0 <= sit < |kids| && |rank| == |kids| && sit != sn && rank[sn] < rank[sit]
      ensures src.Size() <= dit < |kids| && dit !in done
      ensures sit == src.Root() <==> src.IsRoot(Last(chain).s, Last(chain).j)
      ensures sit != src.Root() ==>
        && sit < src.Size() && AtNode(src, chain) && sit == Current(src, chain)
        && MayHold(kind[dit], kind[sit]) && CurrentTree(src, chain).look == Look(kind[sit], content[sit])
      ensures |firstChild| == |kids| && firstChild[sit] == First(kids[sit])
    {
      var l := Last(chain);
      assert kids[l.s] == src.Linked(l.s) && LevelOk(Picture(), src, l, done);
      assert l.s == sn || rank[sn] < rank[l.s];
      FieldsAt(Now(), kids, l.s, l.j);
      LinkedFacts(src, l.s, l.j);
      LinksListed(Now(), kids, sit);
      hide Links, ChainOk;
      if sit != src.Root() {
        assert !src.IsRoot(l.s, l.j);
        assert Shows(src.forest, sit, l.t.children[src.Index(l.s, l.j)]);
      }
    }

    method CopyContents(dn: int, sn: int)
      requires |content| == |kids| && 0 <= dn < |kids| && 0 <= sn < |kids|
      modifies `content
      ensures content == old(content)[dn := old(content[sn])]
    {
      content := content[dn := content[sn]];
    }

    method CopyNode(ghost src: Source, dit: int, sit: int) returns (copy: int)
      requires Kept(src) && src.Size() <= dit < |kids| && 0 <= sit < src.Size() && MayHold(kind[dit], kind[sit])
      modifies this
      ensures Kept(src) && copy == |old(kids)| && gone == old(gone)
      ensures Picture() == Grown(old(Picture()), dit, Look(old(kind[sit]), old(content[sit])))
      ensures old(rank) <= rank
    {
      hide Links;
      copy := AppendNewNode(dit, kind[sit]);
      CopyContents(copy, sit);
      assert Looks(kind, content) == Looks(old(kind), old(content)) + [Look(old(kind[sit]), old(content[sit]))];
    }

    lemma Begin(src: Source, sn: int, t: Tree)
      requires Kept(src) && |kids| == src.Root() + 1 && kids[src.Root()] == [] && 0 <= sn < src.Size()
      requires Shows(src.forest, sn, t) && t.look == Look(kind[src.Root()], content[src.Root()])
      ensures |firstChild| == |kids| && firstChild[sn] == First(kids[sn])
      ensures kids[sn] == [] ==> Shows(Picture(), src.Root(), t)
      ensures kids[sn] != [] ==>
        kids[sn][0] != NONE && WalkAt(src, sn, t, [Level(sn, src.Root(), t, 0)], {}, kids[sn][0], src.Root())
    {
      LinksListed(Now(), kids, sn);
      if kids[sn] == [] {
        assert src.forest.kids[sn] == [];
      } else {
        FieldsAt(Now(), kids, sn, 0);
        NewLevel(Picture(), src, Level(sn, src.Root(), t, 0), {});
      }
    }

    /** Copies the node that the walk is at. If it has children, the walk goes on with the first. */
    method VisitNode(ghost src: Source, ghost t: Tree, sn: int, ghost chain0: seq<Level>, ghost done0: set<int>, sit: int, dit: int)
      returns (copy: int, ghost chain: seq<Level>, ghost done: set<int>)
      requires WalkAt(src, sn, t, chain0, done0, sit, dit) && sit != src.Root()
      modifies this
      ensures 0 <= sit < |firstChild| && (firstChild[sit] != NONE ==> WalkAt(src, sn, t, chain, done, firstChild[sit], copy))
      ensures firstChild[sit] == NONE ==> WalkPast(src, sn, t, chain, done, sit, dit)
      ensures chain != [] && Work(src, chain) < Work(src, chain0) && gone == old(gone)
    {
      hide Links, ChainOk, Work, Shows, LevelOk, Grounded, Typed, Rooted, Grown;
      AtFacts(src, sn, t, chain0, done0, sit, dit);
      assert Rooted(src, sn, t, chain0, rank);
      ghost var was, u := Picture(), CurrentTree(src, chain0);
      copy := CopyNode(src, dit, sit);
      WorkNode(src, chain0, copy);
      ReadFirst(src, sit);
      RootedGrows(src, sn, t, chain0, old(rank), rank, Level(sit, copy, u, 0));
      if kids[sit] != [] {
        CopyInner(was, src, chain0, done0);
        chain, done := chain0 + [Level(sit, copy, u, 0)], done0;
      } else {
        CopyLeaf(was, src, chain0, done0);
        chain, done := Advance(chain0), done0 + {copy};
      }
    }

    lemma SkipStep(src: Source, sn: int, t: Tree, chain: seq<Level>, done: set<int>, sit: int, dit: int)
      requires WalkAt(src, sn, t, chain, done, sit, dit) && sit == src.Root()
      ensures WalkPast(src, sn, t, Advance(chain), done, sit, dit)
      ensures Work(src, Advance(chain)) < Work(src, chain)
    {
      hide Links, ChainOk;
      AtFacts(src, sn, t, chain, done, sit, dit);
      SkipRoot(Picture(), src, chain, done);
      WorkSkip(src, chain);
    }

    lemma ReadFirst(src: Source, x: int)
      requires Kept(src) && 0 <= x < src.Size()
      ensures |firstChild| == |kids| && firstChild[x] == First(kids[x]) && kids[x] == src.Linked(x)
      ensures kids[x] != [] ==> kids[x][0] != NONE
    {
      LinksListed(Now(), kids, x);
    }

    /** The walk is over, or at a node. */
    ghost predicate Walking(src: Source, sn: int, t: Tree, chain: seq<Level>, done: set<int>, sit: int, dit: int)
      reads this
    {
      if chain == [] then (sit == NONE || sit == sn) && Kept(src) && Shows(Picture(), src.Root(), t)
      else WalkAt(src, sn, t, chain, done, sit, dit)
    }

    /** One round: the node is copied, or passed by if it is the root of the copy, and the walk goes on. */
    method Round(ghost src: Source, ghost t: Tree, dn: int, sn: int, ghost chain0: seq<Level>, ghost done0: set<int>,
                 sit0: int, dit0: int)
      returns (sit: int, dit: int, ghost chain: seq<Level>, ghost done: set<int>)
      requires WalkAt(src, sn, t, chain0, done0, sit0, dit0) && dn == src.Root()
      modifies this
      ensures Walking(src, sn, t, chain, done, sit, dit)
      ensures Work(src, chain) < Work(src, chain0) && gone == old(gone)
    {
      hide Links, ChainOk, Work, Shows, LevelOk, Grounded, Typed, WalkAt, WalkPast, Kept, Advance;
      if sit0 != dn {
        var copy;
        copy, chain, done := VisitNode(src, t, sn, chain0, done0, sit0, dit0);
        if firstChild[sit0] != NONE {
          dit, sit := copy, firstChild[sit0];
          return;
        }
      } else {
        SkipStep(src, sn, t, chain0, done0, sit0, dit0);
        chain, done := Advance(chain0), done0;
      }
      sit, dit, chain, done := Climb(src, t, sn, chain, done, sit0, dit0);
    }

    /** Makes the subtree of `dn`, a new node just linked in, look like the subtree of `sn` before that,
        wherever `dn` was put. */
    method CopyTree(dn: int, sn: int, ghost src: Source, ghost t: Tree)
      requires Kept(src) && dn == src.Root() && |kids| == dn + 1 && kids[dn] == [] && parent[dn] == src.host
      requires 0 <= sn < dn && kind[dn] == kind[sn] && Shows(src.forest, sn, t)
      modifies this
      ensures Kept(src) && Shows(Picture(), dn, t) && gone == old(gone)
    {
      assert t.look == Look(kind[sn], content[sn]);
      CopyContents(dn, sn);
      assert Kept(src);
      hide Links, ChainOk, Work, Shows, LevelOk, Grounded, Typed, WalkAt, WalkPast, Kept, Advance;
      Begin(src, sn, t);
      var dit, sit := dn, firstChild[sn];
      ghost var chain, done := if kids[sn] == [] then [] else [Level(sn, dn, t, 0)], {};
      while sit != NONE && sit != sn
        invariant Walking(src, sn, t, chain, done, sit, dit) && gone == old(gone)
        decreases Work(src, chain)
      {
        sit, dit, chain, done := Round(src, t, dn, sn, chain, done, sit, dit);
      }
      if chain != [] { AtFacts(src, sn, t, chain, done, sit, dit); }
    }

    ghost predicate CanCopy(target: int, proto: int)
      requires Valid() && Handle(target) && Handle(proto)
      reads this
    {
      target != NONE && proto != NONE && MayHold(kind[target], kind[proto])
    }

    ghost function SourceFor(target: int, at: nat): Source
      requires |kind| == |content|
      reads this
    {
      Source(Picture(), home, target, at)
    }

    lemma SourceIsOk(target: int, at: nat)
      requires Valid() && 0 <= target < |kids| && at <= |kids[target]|
      ensures SourceFor(target, at).Ok()
    {
      forall x | 0 <= x < |kids| ensures Within(kids[x], |kids|) {
        HeadAndTail(Now(), kids, x);
      }
    }

    method AppendCopy(target: int, proto: int) returns (n: int)
      requires Valid() && Handle(target) && Handle(proto)
      modifies this
      ensures Valid() && gone == old(gone)
      ensures n == if old(CanCopy(target, proto)) then |old(kids)| else NONE
      ensures n == NONE ==> Picture() == old(Picture())
      ensures n != NONE ==> Kept(old(SourceFor(target, |kids[target]|))) && TreeAt(n) == old(TreeAt(proto))
    {
      hide Links, Shows;
      if target == NONE || proto == NONE || !MayHold(kind[target], kind[proto]) { return NONE; }
      ghost var src, t := SourceFor(target, |kids[target]|), TreeAt(proto);
      SourceIsOk(target, |kids[target]|);
      n := AllocateNode(target, kind[proto]);
      AppendNode(n, target);
      assert Kept(src);
      CopyTree(n, proto, src, t);
      ShowsOne(Picture(), n, TreeAt(n), t);
    }

    method PrependCopy(target: int, proto: int) returns (n: int)
      requires Valid() && Handle(target) && Handle(proto)
      modifies this
      ensures Valid() && gone == old(gone)
      ensures n == if old(CanCopy(target, proto)) then |old(kids)| else NONE
      ensures n == NONE ==> Picture() == old(Picture())
      ensures n != NONE ==> Kept(old(SourceFor(target, 0))) && TreeAt(n) == old(TreeAt(proto))
    {
      hide Links, Shows;
      if target == NONE || proto == NONE || !MayHold(kind[target], kind[proto]) { return NONE; }
      ghost var src, t := SourceFor(target, 0), TreeAt(proto);
      SourceIsOk(target, 0);
      n := AllocateNode(target, kind[proto]);
      PrependNode(n, target);
      assert Kept(src);
      CopyTree(n, proto, src, t);
      ShowsOne(Picture(), n, TreeAt(n), t);
    }

    ghost predicate CanCopyBeside(target: int, proto: int, node: int)
      requires Valid() && Handle(target) && Handle(proto) && Handle(node)
      reads this
    {
      CanCopy(target, proto) && node != NONE && parent[node] == target
    }

    lemma ListedBelow(target: int, node: int)
      requires Valid() && Handle(target) && Handle(node) && node != NONE && target != NONE && parent[node] == target
      ensures node in kids[target]
    {
      LinksAttached(Now(), kids, node);
    }

    method InsertCopyAfter(target: int, proto: int, node: int) returns (n: int)
      requires Valid() && Handle(target) && Handle(proto) && Handle(node)
      modifies this
      ensures Valid() && gone == old(gone)
      ensures n == if old(CanCopyBeside(target, proto, node)) then |old(kids)| else NONE
      ensures n == NONE ==> Picture() == old(Picture())
      ensures n != NONE ==> node in old(kids[target])
      ensures n != NONE ==> Kept(old(SourceFor(target, Position(kids[target], node) + 1))) && TreeAt(n) == old(TreeAt(proto))
    {
      hide Links, Shows;
      if target == NONE || proto == NONE || !MayHold(kind[target], kind[proto]) { return NONE; }
      if node == NONE || parent[node] != target { return NONE; }
      ListedBelow(target, node);
      ghost var at := Position(kids[target], node) + 1;
      ghost var src, t := SourceFor(target, at), TreeAt(proto);
      SourceIsOk(target, at);
      n := AllocateNode(target, kind[proto]);
      InsertNodeAfter(n, node);
      assert Kept(src);
      CopyTree(n, proto, src, t);
      ShowsOne(Picture(), n, TreeAt(n), t);
    }

    method InsertCopyBefore(target: int, proto: int, node: int) returns (n: int)
      requires Valid() && Handle(target) && Handle(proto) && Handle(node)
      modifies this
      ensures Valid() && gone == old(gone)
      ensures n == if old(CanCopyBeside(target, proto, node)) then |old(kids)| else NONE
      ensures n == NONE ==> Picture() == old(Picture())
      ensures n != NONE ==> node in old(kids[target])
      ensures n != NONE ==> Kept(old(SourceFor(target, Position(kids[target], node)))) && TreeAt(n) == old(TreeAt(proto))
    {
      hide Links, Shows;
      if target == NONE || proto == NONE || !MayHold(kind[target], kind[proto]) { return NONE; }
      if node == NONE || parent[node] != target { return NONE; }
      ListedBelow(target, node);
      ghost var at := Position(kids[target], node);
      ghost var src, t := SourceFor(target, at), TreeAt(proto);
      SourceIsOk(target, at);
      n := AllocateNode(target, kind[proto]);
      InsertNodeBefore(n, node);
      assert Kept(src);
      CopyTree(n, proto, src, t);
      ShowsOne(Picture(), n, TreeAt(n), t);
    }
  }
}
