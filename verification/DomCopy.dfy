// Copying a subtree node by node, told on values: the trees that a store of nodes shows, and the chain of
// half-copied levels between the root of the copy and the node that is copied next.
module DomCopy {
  import opened Documents
  import opened DomLinks

  datatype Content = Content(name: string, value: string, attributes: seq<Attribute>)

  datatype Look = Look(kind: Kind, content: Content)

  /** A subtree as a value: it does not know which nodes it is made of. */
  datatype Tree = Tree(look: Look, children: seq<Tree>)

  datatype Forest = Forest(kids: Kids, looks: seq<Look>)

  predicate Shows(f: Forest, x: int, t: Tree)
    decreases t
  {
    && 0 <= x < |f.kids| && x < |f.looks| && f.looks[x] == t.look && |t.children| == |f.kids[x]|
    && forall i | 0 <= i < |t.children| :: Shows(f, f.kids[x][i], t.children[i])
  }

  /** A node shows at most one tree. */
  lemma {:induction false} ShowsOne(f: Forest, x: int, t: Tree, u: Tree)
    requires Shows(f, x, t) && Shows(f, x, u)
    ensures t == u
    decreases t
  {
    forall i | 0 <= i < |t.children| ensures t.children[i] == u.children[i] {
      ShowsOne(f, f.kids[x][i], t.children[i], u.children[i]);
    }
    assert t.children == u.children;
  }

  predicate Ranked(f: Forest, rank: seq<nat>, top: nat) {
    && |f.kids| == |f.looks| == |rank| && (forall x | 0 <= x < |rank| :: rank[x] < top)
    && forall x, i | 0 <= x < |f.kids| && 0 <= i < |f.kids[x]| ::
      0 <= f.kids[x][i] < |f.kids| && rank[x] < rank[f.kids[x][i]]
  }

  /** Without cycles, every node shows a tree. */
  lemma ShowsSome(f: Forest, rank: seq<nat>, top: nat, x: int) returns (t: Tree)
    requires Ranked(f, rank, top) && 0 <= x < |f.kids|
    ensures Shows(f, x, t)
    decreases top - rank[x], |f.kids[x]| + 1
  {
    var ts := ShowsMany(f, rank, top, x, |f.kids[x]|);
    t := Tree(f.looks[x], ts);
  }

  lemma ShowsMany(f: Forest, rank: seq<nat>, top: nat, x: int, n: nat) returns (ts: seq<Tree>)
    requires Ranked(f, rank, top) && 0 <= x < |f.kids| && n <= |f.kids[x]|
    ensures |ts| == n && forall i | 0 <= i < n :: Shows(f, f.kids[x][i], ts[i])
    decreases top - rank[x], n
  {
    ts := [];
    if n > 0 {
      ts := ShowsMany(f, rank, top, x, n - 1);
      var t := ShowsSome(f, rank, top, f.kids[x][n - 1]);
      ts := ts + [t];
    }
  }

  /** The set `a` is closed under children and looks the same in both. */
  predicate Agree(f: Forest, g: Forest, a: set<int>) {
    forall x | x in a ::
      && 0 <= x < |f.kids| && x < |g.kids| && x < |f.looks| && x < |g.looks|
      && g.kids[x] == f.kids[x] && g.looks[x] == f.looks[x]
      && forall i | 0 <= i < |f.kids[x]| :: f.kids[x][i] in a
  }

  lemma {:induction false} ShowsFrame(f: Forest, g: Forest, a: set<int>, x: int, t: Tree)
    requires Agree(f, g, a) && x in a && Shows(f, x, t)
    ensures Shows(g, x, t)
    decreases t
  {
    forall i | 0 <= i < |t.children| ensures Shows(g, g.kids[x][i], t.children[i]) {
      ShowsFrame(f, g, a, f.kids[x][i], t.children[i]);
    }
  }

  // ---------------------------------------------------------------- the chain of levels

  /** The store, and the documents of its nodes, before the root of the copy was linked in as the `at`-th
      child of `host`. */
  datatype Source = Source(forest: Forest, homes: seq<nat>, host: int, at: nat)
  {
    function Size(): nat { |forest.kids| }

    /** The root of the copy gets the next number. */
    function Root(): int { |forest.kids| }

    predicate Ok() {
      && |forest.looks| == |homes| == Size()
      && (forall x | 0 <= x < Size() :: Within(forest.kids[x], Size()))
      && 0 <= host < Size() && at <= |forest.kids[host]|
    }

    /** The children of `s` with the root of the copy linked in. */
    function Linked(s: int): seq<int>
      requires Ok() && 0 <= s < Size()
    {
      if s == host then Insert(forest.kids[s], at, Root()) else forest.kids[s]
    }

    /** How many of the first `j` linked children of `s` are there to be copied. */
    function Index(s: int, j: nat): nat { if s == host && j > at then j - 1 else j }

    predicate IsRoot(s: int, j: nat) { s == host && j == at }
  }

  /** The node `s`, which shows `t`, is being copied to `d`, and its first `j` linked children are done or,
      below another level, the `j`-th is being copied. */
  datatype Level = Level(s: int, d: int, t: Tree, j: nat)

  predicate LevelOk(cur: Forest, src: Source, l: Level, done: set<int>)
    requires src.Ok()
  {
    && 0 <= l.s < src.Size() && Shows(src.forest, l.s, l.t) && l.j <= |src.Linked(l.s)|
    && src.Size() <= l.d < |cur.kids| == |cur.looks| && l.d !in done && cur.looks[l.d] == l.t.look
    && CopiedTo(cur, src, l, done)
  }

  predicate CopiedTo(cur: Forest, src: Source, l: Level, done: set<int>)
    requires 0 <= l.d < |cur.kids|
  {
    var i := src.Index(l.s, l.j);
    && i <= |cur.kids[l.d]| && i <= |l.t.children|
    && forall m | 0 <= m < i :: cur.kids[l.d][m] in done && Shows(cur, cur.kids[l.d][m], l.t.children[m])
  }

  /** Level `m` copies the `j`-th linked child of level `l`. */
  predicate Below(cur: Forest, src: Source, l: Level, m: Level)
    requires src.Ok() && 0 <= l.s < src.Size() && 0 <= l.d < |cur.kids|
  {
    var i := src.Index(l.s, l.j);
    && !src.IsRoot(l.s, l.j) && l.j < |src.Linked(l.s)| && src.Linked(l.s)[l.j] == m.s
    && |cur.kids[l.d]| == i + 1 && cur.kids[l.d][i] == m.d
    && i < |l.t.children| && l.t.children[i] == m.t
  }

  predicate Finished(cur: Forest, src: Source, done: set<int>) {
    forall x | x in done :: src.Size() <= x < |cur.kids| && x < |cur.looks|
      && forall i | 0 <= i < |cur.kids[x]| :: cur.kids[x][i] in done
  }

  predicate ChainOk(cur: Forest, src: Source, chain: seq<Level>, done: set<int>)
    requires src.Ok()
  {
    && |cur.kids| == |cur.looks| && Finished(cur, src, done)
    && (forall k | 0 <= k < |chain| :: LevelOk(cur, src, chain[k], done))
    && (forall k | 0 <= k < |chain| - 1 :: Below(cur, src, chain[k], chain[k + 1]))
    && (forall k, m | 0 <= k < m < |chain| :: chain[k].d != chain[m].d)
    && (chain != [] ==> var l := chain[|chain| - 1]; |cur.kids[l.d]| == src.Index(l.s, l.j))
  }

  // ---------------------------------------------------------------- the steps of the walk

  lemma LinkedFacts(src: Source, s: int, j: nat)
    requires src.Ok() && 0 <= s < src.Size() && j <= |src.Linked(s)|
    ensures src.Index(s, j) <= |src.forest.kids[s]|
    ensures j == |src.Linked(s)| ==> src.Index(s, j) == |src.forest.kids[s]|
    ensures j < |src.Linked(s)| && src.IsRoot(s, j) ==>
      src.Linked(s)[j] == src.Root() && src.Index(s, j + 1) == src.Index(s, j)
    ensures j < |src.Linked(s)| && !src.IsRoot(s, j) ==>
      var i := src.Index(s, j);
      i < |src.forest.kids[s]| && src.Linked(s)[j] == src.forest.kids[s][i] && src.Index(s, j + 1) == i + 1
      && 0 <= src.Linked(s)[j] < src.Size()
  {
    assert Within(src.forest.kids[s], src.Size());
  }

  function Advanced(l: Level): Level { l.(j := l.j + 1) }

  /** The chain after its last level has moved on by one linked child. */
  function Advance(chain: seq<Level>): (r: seq<Level>)
    requires chain != []
    ensures |r| == |chain|
  {
    chain[|chain| - 1 := Advanced(chain[|chain| - 1])]
  }

  function Last(chain: seq<Level>): Level
    requires chain != []
  {
    chain[|chain| - 1]
  }

  /** The store after a childless node that looks like `look` is appended to the children of `d`. */
  function Grown(cur: Forest, d: int, look: Look): Forest
    requires 0 <= d < |cur.kids|
  {
    Forest(Added(cur.kids + [[]], d, |cur.kids[d]|, |cur.kids|), cur.looks + [look])
  }

  lemma GrownAgrees(cur: Forest, src: Source, done: set<int>, d: int, look: Look)
    requires |cur.kids| == |cur.looks| && Finished(cur, src, done) && 0 <= d < |cur.kids| && d !in done
    ensures Agree(cur, Grown(cur, d, look), done) && Finished(Grown(cur, d, look), src, done)
  {}

  lemma CopiedGrows(cur: Forest, src: Source, l: Level, done: set<int>, d: int, look: Look)
    requires |cur.kids| == |cur.looks| && Finished(cur, src, done) && 0 <= d < |cur.kids| && d !in done
    requires 0 <= l.d < |cur.kids| && CopiedTo(cur, src, l, done)
    ensures CopiedTo(Grown(cur, d, look), src, l, done)
  {
    var now := Grown(cur, d, look);
    GrownAgrees(cur, src, done, d, look);
    hide Shows, Agree, Finished;
    forall m | 0 <= m < src.Index(l.s, l.j)
      ensures now.kids[l.d][m] in done && Shows(now, now.kids[l.d][m], l.t.children[m])
    {
      assert cur.kids[l.d][m] in done && now.kids[l.d][m] == cur.kids[l.d][m];
      ShowsFrame(cur, now, done, cur.kids[l.d][m], l.t.children[m]);
    }
  }

  lemma LevelGrows(cur: Forest, src: Source, l: Level, done: set<int>, d: int, look: Look)
    requires src.Ok() && |cur.kids| == |cur.looks| && Finished(cur, src, done)
    requires 0 <= d < |cur.kids| && d !in done && LevelOk(cur, src, l, done)
    ensures LevelOk(Grown(cur, d, look), src, l, done)
  {
    CopiedGrows(cur, src, l, done, d, look);
    hide Shows, Finished, CopiedTo;
  }

  /** More finished nodes do no harm. */
  lemma LevelKept(cur: Forest, src: Source, l: Level, done: set<int>, more: int)
    requires src.Ok() && LevelOk(cur, src, l, done) && l.d != more
    ensures LevelOk(cur, src, l, done + {more})
  {
    hide Shows;
  }

  lemma LevelAdvances(cur: Forest, src: Source, l: Level, done: set<int>)
    requires src.Ok() && LevelOk(cur, src, l, done) && l.j < |src.Linked(l.s)|
    requires src.IsRoot(l.s, l.j) || (
      var i := src.Index(l.s, l.j);
      i < |cur.kids[l.d]| && i < |l.t.children| && cur.kids[l.d][i] in done
      && Shows(cur, cur.kids[l.d][i], l.t.children[i]))
    ensures LevelOk(cur, src, Advanced(l), done)
  {
    LinkedFacts(src, l.s, l.j);
    hide Shows;
  }

  lemma SkipRoot(cur: Forest, src: Source, chain: seq<Level>, done: set<int>)
    requires src.Ok() && ChainOk(cur, src, chain, done) && chain != []
    requires var l := Last(chain); l.j < |src.Linked(l.s)| && src.IsRoot(l.s, l.j)
    ensures ChainOk(cur, src, Advance(chain), done)
  {
    var l := Last(chain);
    LevelAdvances(cur, src, l, done);
    LinkedFacts(src, l.s, l.j);
    hide LevelOk, Finished;
    var r := Advance(chain);
    forall k | 0 <= k < |r| - 1 ensures Below(cur, src, r[k], r[k + 1]) {
      assert Below(cur, src, chain[k], chain[k + 1]);
    }
  }

  /** The node that the last level is about to copy. */
  predicate AtNode(src: Source, chain: seq<Level>)
    requires src.Ok()
  {
    && chain != [] && 0 <= Last(chain).s < src.Size()
    && Last(chain).j < |src.Linked(Last(chain).s)| && !src.IsRoot(Last(chain).s, Last(chain).j)
    && src.Index(Last(chain).s, Last(chain).j) < |Last(chain).t.children|
  }

  function Current(src: Source, chain: seq<Level>): int
    requires src.Ok() && AtNode(src, chain)
  {
    src.Linked(Last(chain).s)[Last(chain).j]
  }

  function CurrentTree(src: Source, chain: seq<Level>): Tree
    requires src.Ok() && AtNode(src, chain)
  {
    Last(chain).t.children[src.Index(Last(chain).s, Last(chain).j)]
  }

  lemma CurrentShows(cur: Forest, src: Source, chain: seq<Level>, done: set<int>)
    requires src.Ok() && ChainOk(cur, src, chain, done) && chain != []
    requires Last(chain).j < |src.Linked(Last(chain).s)| && !src.IsRoot(Last(chain).s, Last(chain).j)
    ensures AtNode(src, chain) && 0 <= Current(src, chain) < src.Size()
    ensures Shows(src.forest, Current(src, chain), CurrentTree(src, chain))
  {
    var l := Last(chain);
    assert LevelOk(cur, src, l, done);
    LinkedFacts(src, l.s, l.j);
  }

  /** All levels survive the growth at the last one; only the last has a new child. */
  lemma ChainGrows(cur: Forest, src: Source, chain: seq<Level>, done: set<int>, look: Look)
    requires src.Ok() && ChainOk(cur, src, chain, done) && chain != []
    ensures 0 <= Last(chain).d < |cur.kids|
    ensures var now := Grown(cur, Last(chain).d, look);
      && |now.kids| == |now.looks| == |cur.kids| + 1 && Finished(now, src, done)
      && (forall k | 0 <= k < |chain| :: LevelOk(now, src, chain[k], done))
      && (forall k | 0 <= k < |chain| - 1 :: Below(now, src, chain[k], chain[k + 1]))
  {
    var l := Last(chain);
    assert LevelOk(cur, src, l, done);
    var now := Grown(cur, l.d, look);
    GrownAgrees(cur, src, done, l.d, look);
    forall k | 0 <= k < |chain| ensures LevelOk(now, src, chain[k], done) {
      LevelGrows(cur, src, chain[k], done, l.d, look);
    }
    hide Finished, CopiedTo, Shows;
    forall k | 0 <= k < |chain| - 1 ensures Below(now, src, chain[k], chain[k + 1]) {
      assert LevelOk(cur, src, chain[k], done) && Below(cur, src, chain[k], chain[k + 1]);
      assert chain[k].d != l.d;
    }
  }

  /** The current node has children to visit: they are copied below its copy. */
  lemma CopyInner(cur: Forest, src: Source, chain: seq<Level>, done: set<int>)
    requires src.Ok() && ChainOk(cur, src, chain, done) && AtNode(src, chain)
    ensures 0 <= Last(chain).d < |cur.kids|
    ensures var u := CurrentTree(src, chain);
      ChainOk(Grown(cur, Last(chain).d, u.look), src, chain + [Level(Current(src, chain), |cur.kids|, u, 0)], done)
  {
    var l, u := Last(chain), CurrentTree(src, chain);
    var m := Level(Current(src, chain), |cur.kids|, u, 0);
    CurrentShows(cur, src, chain, done);
    ChainGrows(cur, src, chain, done, u.look);
    var now, r := Grown(cur, l.d, u.look), chain + [m];
    assert LevelOk(cur, src, l, done);
    assert m.d !in done;
    hide Finished, Shows, LevelOk;
    forall k | 0 <= k < |r| ensures LevelOk(now, src, r[k], done) {
      if k == |chain| { NewLevel(now, src, m, done); }
    }
    forall k | 0 <= k < |r| - 1 ensures Below(now, src, r[k], r[k + 1]) {
      if k == |chain| - 1 { LinkedFacts(src, l.s, l.j); }
    }
    forall k | 0 <= k < |chain| ensures chain[k].d != m.d {
      LevelRange(cur, src, chain[k], done);
    }
  }

  lemma LevelRange(cur: Forest, src: Source, l: Level, done: set<int>)
    requires src.Ok() && LevelOk(cur, src, l, done)
    ensures src.Size() <= l.d < |cur.kids|
  {}

  lemma NewLevel(cur: Forest, src: Source, l: Level, done: set<int>)
    requires src.Ok() && 0 <= l.s < src.Size() && Shows(src.forest, l.s, l.t) && l.j == 0
    requires src.Size() <= l.d < |cur.kids| == |cur.looks| && l.d !in done && cur.looks[l.d] == l.t.look
    ensures LevelOk(cur, src, l, done)
  {}

  /** The current node has no child: its copy is finished at once. */
  lemma CopyLeaf(cur: Forest, src: Source, chain: seq<Level>, done: set<int>)
    requires src.Ok() && ChainOk(cur, src, chain, done) && AtNode(src, chain)
    requires 0 <= Current(src, chain) < src.Size() && src.Linked(Current(src, chain)) == []
    ensures 0 <= Last(chain).d < |cur.kids|
    ensures ChainOk(Grown(cur, Last(chain).d, CurrentTree(src, chain).look), src, Advance(chain),
                    done + {|cur.kids|})
  {
    var l, u, c := Last(chain), CurrentTree(src, chain), |cur.kids|;
    CurrentShows(cur, src, chain, done);
    ChainGrows(cur, src, chain, done, u.look);
    assert u.children == [];
    var now, r, more := Grown(cur, l.d, u.look), Advance(chain), done + {c};
    assert Shows(now, c, u);
    LinkedFacts(src, l.s, l.j);
    assert Finished(now, src, more);
    hide Finished, Shows;
    forall k | 0 <= k < |r| ensures LevelOk(now, src, r[k], more) {
      LevelRange(cur, src, chain[k], done);
      LevelKept(now, src, chain[k], done, c);
      if k == |r| - 1 { LevelAdvances(now, src, l, more); }
    }
    forall k | 0 <= k < |r| - 1 ensures Below(now, src, r[k], r[k + 1]) {
      assert Below(now, src, chain[k], chain[k + 1]);
    }
  }

  /** The last level has come to its end: its copy shows the whole tree. */
  lemma LevelEnds(cur: Forest, src: Source, chain: seq<Level>, done: set<int>)
    requires src.Ok() && ChainOk(cur, src, chain, done) && chain != []
    requires LevelOk(cur, src, Last(chain), done) && Last(chain).j == |src.Linked(Last(chain).s)|
    ensures Shows(cur, Last(chain).d, Last(chain).t)
    ensures Finished(cur, src, done + {Last(chain).d})
  {
    var l := Last(chain);
    LinkedFacts(src, l.s, l.j);
  }

  lemma PopUpper(cur: Forest, src: Source, l: Level, m: Level, done: set<int>)
    requires src.Ok() && LevelOk(cur, src, l, done) && Below(cur, src, l, m)
    requires Shows(cur, m.d, m.t) && m.d != l.d
    ensures LevelOk(cur, src, Advanced(l), done + {m.d})
    ensures |cur.kids[l.d]| == src.Index(l.s, l.j + 1)
  {
    hide Shows;
    LevelKept(cur, src, l, done, m.d);
    LevelAdvances(cur, src, l, done + {m.d});
    LinkedFacts(src, l.s, l.j);
  }

  lemma AdvanceLast(chain: seq<Level>)
    requires |chain| > 1
    ensures var r := Advance(chain[..|chain| - 1]);
      && r[|chain| - 2] == Advanced(chain[|chain| - 2])
      && forall k | 0 <= k < |chain| - 2 :: r[k] == chain[k]
  {}

  lemma BelowAdvances(cur: Forest, src: Source, l: Level, m: Level)
    requires src.Ok() && 0 <= l.s < src.Size() && 0 <= l.d < |cur.kids| && Below(cur, src, l, m)
    ensures Below(cur, src, l, Advanced(m))
  {}

  /** The level above the one that ends. */
  lemma PopAbove(cur: Forest, src: Source, chain: seq<Level>, done: set<int>)
    requires src.Ok() && ChainOk(cur, src, chain, done) && |chain| > 1
    requires Shows(cur, Last(chain).d, Last(chain).t)
    ensures var r, k := Advance(chain[..|chain| - 1]), |chain| - 2;
      && |r| == k + 1
      && LevelOk(cur, src, r[k], done + {Last(chain).d}) && 0 <= r[k].s < src.Size() && 0 <= r[k].d < |cur.kids|
      && |cur.kids[r[k].d]| == src.Index(r[k].s, r[k].j)
  {
    var k := |chain| - 2;
    assert LevelOk(cur, src, chain[k], done) && Below(cur, src, chain[k], chain[k + 1]);
    assert chain[k].d != Last(chain).d && 0 <= chain[k].s < src.Size() && 0 <= chain[k].d < |cur.kids|;
    hide Finished, Shows, ChainOk, CopiedTo, LevelOk, Below, Advance;
    AdvanceLast(chain);
    PopUpper(cur, src, chain[k], Last(chain), done);
  }

  lemma PopLevels(cur: Forest, src: Source, chain: seq<Level>, done: set<int>, k: nat)
    requires src.Ok() && ChainOk(cur, src, chain, done) && |chain| > 1 && k < |chain| - 1
    requires Shows(cur, Last(chain).d, Last(chain).t)
    ensures var r := Advance(chain[..|chain| - 1]);
      && LevelOk(cur, src, r[k], done + {Last(chain).d}) && 0 <= r[k].s < src.Size() && 0 <= r[k].d < |cur.kids|
      && (k + 1 < |r| ==> Below(cur, src, r[k], r[k + 1]))
      && (k + 1 == |r| ==> |cur.kids[r[k].d]| == src.Index(r[k].s, r[k].j))
  {
    if k + 2 == |chain| {
      hide Finished, Shows, ChainOk, CopiedTo, LevelOk, Below, Advance;
      PopAbove(cur, src, chain, done);
    } else {
      assert LevelOk(cur, src, chain[k], done) && Below(cur, src, chain[k], chain[k + 1]);
      assert chain[k].d != Last(chain).d && 0 <= chain[k].s < src.Size() && 0 <= chain[k].d < |cur.kids|;
      var r := Advance(chain[..|chain| - 1]);
      hide Finished, Shows, ChainOk, CopiedTo, LevelOk, Below, Advance;
      assert r[k] == chain[k] && (r[k + 1] == chain[k + 1] || r[k + 1] == Advanced(chain[k + 1])) by {
        AdvanceLast(chain);
      }
      LevelKept(cur, src, chain[k], done, Last(chain).d);
      BelowAdvances(cur, src, chain[k], chain[k + 1]);
    }
  }

  lemma PopLevel(cur: Forest, src: Source, chain: seq<Level>, done: set<int>)
    requires src.Ok() && ChainOk(cur, src, chain, done) && |chain| > 1
    requires LevelOk(cur, src, Last(chain), done) && Last(chain).j == |src.Linked(Last(chain).s)|
    ensures ChainOk(cur, src, Advance(chain[..|chain| - 1]), done + {Last(chain).d})
  {
    var r, more := Advance(chain[..|chain| - 1]), done + {Last(chain).d};
    LevelEnds(cur, src, chain, done);
    hide Finished, Shows, LevelOk, Below;
    forall k | 0 <= k < |r|
      ensures LevelOk(cur, src, r[k], more) && 0 <= r[k].s < src.Size() && 0 <= r[k].d < |cur.kids|
      ensures k + 1 < |r| ==> Below(cur, src, r[k], r[k + 1])
      ensures k + 1 == |r| ==> |cur.kids[r[k].d]| == src.Index(r[k].s, r[k].j)
    {
      PopLevels(cur, src, chain, done, k);
    }
  }

  // ---------------------------------------------------------------- the walk ends

  /** Twice the nodes of the subtrees from the `i`-th on. */
  function Weight(t: Tree, i: nat): nat
    decreases t, |t.children| - i
  {
    if i < |t.children| then 2 + Weight(t.children[i], 0) + Weight(t, i + 1) else 0
  }

  /** What a level has still to visit; the root of the copy is passed by once. */
  function Pending(src: Source, l: Level): nat {
    Weight(l.t, src.Index(l.s, l.j)) + if l.s == src.host && l.j <= src.at then 1 else 0
  }

  /** What the levels above the last have still to visit after the node they are at. */
  function Above(src: Source, chain: seq<Level>): nat {
    if chain == [] then 0 else Pending(src, Advanced(Last(chain))) + Above(src, chain[..|chain| - 1])
  }

  function Work(src: Source, chain: seq<Level>): nat {
    if chain == [] then 0 else Pending(src, Last(chain)) + Above(src, chain[..|chain| - 1])
  }

  lemma WorkSkip(src: Source, chain: seq<Level>)
    requires chain != [] && src.IsRoot(Last(chain).s, Last(chain).j)
    ensures Work(src, Advance(chain)) < Work(src, chain)
  {
    assert Advance(chain)[..|chain| - 1] == chain[..|chain| - 1];
  }

  lemma WorkNode(src: Source, chain: seq<Level>, c: int)
    requires src.Ok() && AtNode(src, chain)
    ensures Work(src, Advance(chain)) < Work(src, chain)
    ensures Work(src, chain + [Level(Current(src, chain), c, CurrentTree(src, chain), 0)]) < Work(src, chain)
  {
    var l := Last(chain);
    var m := Level(Current(src, chain), c, CurrentTree(src, chain), 0);
    LinkedFacts(src, l.s, l.j);
    assert Advance(chain)[..|chain| - 1] == chain[..|chain| - 1];
    assert (chain + [m])[..|chain|] == chain;
    assert Last(chain + [m]) == m;
    var i := src.Index(l.s, l.j);
    assert Weight(l.t, i) == 2 + Weight(m.t, 0) + Weight(l.t, i + 1);
  }

  lemma WorkPop(src: Source, chain: seq<Level>)
    requires |chain| > 1
    ensures Work(src, Advance(chain[..|chain| - 1])) <= Work(src, chain)
  {
    var rest := chain[..|chain| - 1];
    assert Advance(rest)[..|rest| - 1] == rest[..|rest| - 1];
    assert Last(Advance(rest)) == Advanced(Last(rest));
  }

  lemma WorkNone(src: Source)
    ensures Work(src, []) == 0
  {}
}
