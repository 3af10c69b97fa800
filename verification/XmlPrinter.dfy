// The raw printer, walking the links of a document, prints what the tree at a node is.
module XmlPrinter {

  import opened Documents
  import opened XmlText
  import P = XmlParser
  import R = XmlRoundTrip

  // ---------------------------------------------------------------- texts

  /** The end of a run of usual characters. */
  method UsualRun(s: string, from: nat, attribute: bool) returns (i: nat)
    requires from <= |s|
    ensures from <= i <= |s| && (i < |s| ==> IsSpecial(s[i], attribute))
    ensures Escape(s[from..], attribute) == s[from..i] + Escape(s[i..], attribute)
  {
    hide EscapeChar, IsSpecial, Escape;
    i := from;
    assert s[from..i] + Escape(s[i..], attribute) == Escape(s[from..], attribute);
    while i < |s| && !IsSpecial(s[i], attribute)
      invariant from <= i <= |s|
      invariant Escape(s[from..], attribute) == s[from..i] + Escape(s[i..], attribute)
    {
      R.PlainChar(s[i], attribute);
      EscapeNext(s, i, attribute);
      assert s[from..i + 1] == s[from..i] + [s[i]];
      i := i + 1;
    }
  }

  lemma EscapeNext(s: string, i: nat, attribute: bool)
    requires i < |s|
    ensures Escape(s[i..], attribute) == EscapeChar(s[i], attribute) + Escape(s[i + 1..], attribute)
  {
    assert s[i..][1..] == s[i + 1..];
  }

  /** `text_output_escaped`: runs of usual characters are written as they are, the others one by one. */
  method OutputEscaped(s: string, attribute: bool) returns (out: string)
    ensures out == Escape(s, attribute)
  {
    hide Escape, EscapeChar;
    out := "";
    var i := 0;
    assert s[0..] == s;
    while i < |s|
      invariant 0 <= i <= |s| && out + Escape(s[i..], attribute) == Escape(s, attribute)
    {
      var prev := i;
      i := UsualRun(s, prev, attribute);
      out := out + s[prev..i];
      if i < |s| {
        EscapeNext(s, i, attribute);
        out := out + EscapeChar(s[i], attribute);
        i := i + 1;
      }
    }
    NothingToEscape(s[i..], attribute);
  }

  lemma NothingToEscape(s: string, attribute: bool)
    ensures s == "" ==> Escape(s, attribute) == ""
  {
  }

  /** The place of the next `]]>`, or the end of the text. */
  method ScanEnd(s: string, from: nat) returns (i: nat)
    requires from <= |s|
    ensures from <= i <= |s| && (i == |s| || R.IsEnd(s, i)) && forall k | from <= k < i :: !R.IsEnd(s, k)
  {
    i := from;
    while i < |s| && !R.IsEnd(s, i)
      invariant from <= i <= |s| && forall k | from <= k < i :: !R.IsEnd(s, k)
    {
      i := i + 1;
    }
  }

  function OneSection(s: string): string { "<![CDATA[" + s + "]]>" }

  lemma Regrouped(a: string, b: string, c: string)
    ensures a + (b + c) == (a + b) + c
  {
  }

  /** `text_output_cdata`: one section after another, `]]>` being left to the next one but for its brackets. */
  method OutputCdata(s: string) returns (out: string)
    ensures out == R.PrintSections(R.Sections(s))
  {
    hide R.PrintSections, R.Sections, R.IsEnd, OneSection;
    out := "";
    var i, more := 0, true;
    assert s[0..] == s;
    while more
      invariant 0 <= i <= |s|
      invariant out + (if more then R.PrintSections(R.Sections(s[i..])) else "") == R.PrintSections(R.Sections(s))
      decreases |s| - i, more
    {
      var prev := i;
      i := ScanEnd(s, prev);
      EndFound(s, prev, i);
      if i < |s| { i := i + 2; }
      more := i < |s|;
      Regrouped(out, OneSection(s[prev..i]), if more then R.PrintSections(R.Sections(s[i..])) else "");
      out := out + OneSection(s[prev..i]);
    }
  }

  /** The scan stops where the section is cut. */
  lemma EndFound(s: string, prev: nat, i: nat)
    requires prev <= i <= |s| && (i == |s| || R.IsEnd(s, i)) && forall k | prev <= k < i :: !R.IsEnd(s, k)
    ensures var w := R.PrintSections(R.Sections(s[prev..]));
            if i == |s| then w == OneSection(s[prev..i])
            else i + 2 < |s| && w == OneSection(s[prev..i + 2]) + R.PrintSections(R.Sections(s[i + 2..]))
  {
    var t := s[prev..];
    var q := R.FindEnd(t);
    assert forall k | 0 <= k < |t| :: R.IsEnd(t, k) == R.IsEnd(s, prev + k);
    assert i < |s| ==> R.IsEnd(t, i - prev);
    assert q < |t| ==> R.IsEnd(s, prev + q);
    assert q == i - prev;
    if i == |s| {
      assert R.Sections(t) == [t] && t == s[prev..i];
      assert R.PrintSections([t]) == "<![CDATA[" + t + "]]>" + R.PrintSections([t][1..]);
    } else {
      assert t[..q + 2] == s[prev..i + 2] && t[q + 2..] == s[i + 2..];
      var rest := R.Sections(s[i + 2..]);
      assert R.Sections(t) == [t[..q + 2]] + rest;
      assert ([t[..q + 2]] + rest)[1..] == rest;
    }
  }

  method OutputAttributes(a: seq<Attribute>) returns (out: string)
    ensures out == R.PrintAttributes(a)
  {
    hide R.PrintAttributes, Escape;
    out := "";
    var i := 0;
    assert a[0..] == a;
    while i < |a|
      invariant 0 <= i <= |a| && out + R.PrintAttributes(a[i..]) == R.PrintAttributes(a)
    {
      var value := OutputEscaped(a[i].value, true);
      AttributesNext(a, i);
      out := out + (" " + a[i].name + "=\"" + value + "\"");
      i := i + 1;
    }
    assert a[i..] == [];
    AttributesNone();
  }

  lemma AttributesNext(a: seq<Attribute>, i: nat)
    requires i < |a|
    ensures R.PrintAttributes(a[i..])
         == (" " + a[i].name + "=\"" + Escape(a[i].value, true) + "\"") + R.PrintAttributes(a[i + 1..])
  {
    hide Escape;
    assert a[i..][1..] == a[i + 1..];
  }

  lemma AttributesNone()
    ensures R.PrintAttributes([]) == ""
  {}

  // ---------------------------------------------------------------- the tree at a node

  /** The subtree of `x` holds elements, character data and CDATA only. */
  predicate Plain(d: Doc)
    requires Valid(d)
  {
    forall x | 0 <= x < d.Size() :: x == 0 || d.kind[x].Element? || ((d.kind[x].Pcdata? || d.kind[x].Cdata?) && d.firstChild[x] == NONE)
  }

  /** The tree the links describe at `x`. */
  function TreeAt(d: Doc, x: int): P.Node
    requires Valid(d) && d.Has(x)
    decreases d.Size() - x, 0
  {
    match d.kind[x]
    case Pcdata => P.Pcdata(d.value[x])
    case Cdata => P.Cdata(d.value[x])
    case _ =>
      NodeFacts(d, x);
      P.Element(d.name[x], d.attributes[x], TreesFrom(d, d.firstChild[x]))
  }

  /** The trees at `c` and the siblings after it. */
  function TreesFrom(d: Doc, c: int): seq<P.Node>
    requires Valid(d) && (c == NONE || d.Has(c))
    decreases if c == NONE then 0 else d.Size() - c, 1
  {
    if c == NONE then []
    else
      NextSibling(d, c);
      NodeFacts(d, c);
      [TreeAt(d, c)] + TreesFrom(d, d.next[c])
  }

  function EndTag(d: Doc, x: int): string
    requires Valid(d) && d.Has(x)
  {
    "</" + d.name[x] + ">"
  }

  /** What remains to be printed after the subtree of `x`, up to the end of the subtree of `root`. */
  ghost function Rest(d: Doc, x: int, root: int): string
    requires Valid(d) && d.Has(root) && root <= x < d.end[root]
    decreases x
  {
    NodeFacts(d, root);
    if x == root then ""
    else
      ParentInside(d, root, x);
      NodeFacts(d, x);
      NextSibling(d, x);
      R.PrintAll(TreesFrom(d, d.next[x])) + EndTag(d, d.parent[x]) + Rest(d, d.parent[x], root)
  }

  lemma PrintNext(d: Doc, c: int)
    requires Valid(d) && d.Has(c)
    ensures d.next[c] == NONE || d.Has(d.next[c])
    ensures R.PrintAll(TreesFrom(d, c)) == R.Print(TreeAt(d, c)) + R.PrintAll(TreesFrom(d, d.next[c]))
  {
    NextSibling(d, c);
    NodeFacts(d, c);
    assert ([TreeAt(d, c)] + TreesFrom(d, d.next[c]))[1..] == TreesFrom(d, d.next[c]);
  }

  /** `node_output_start` with format_raw. */
  method OutputStart(d: Doc, x: int) returns (out: string, open: bool)
    requires Valid(d) && d.Has(x) && d.kind[x].Element?
    ensures open == (d.firstChild[x] != NONE)
    ensures open ==> d.Has(d.firstChild[x])
    ensures R.Print(TreeAt(d, x)) == out + (if open then R.PrintAll(TreesFrom(d, d.firstChild[x])) + EndTag(d, x) else "")
  {
    hide Linked, R.PrintAttributes, R.PrintAll, R.Sections, R.PrintSections, Escape;
    NodeFacts(d, x);
    var attributes := OutputAttributes(d.attributes[x]);
    open := d.firstChild[x] != NONE;
    out := "<" + d.name[x] + attributes + (if open then ">" else "/>");
    assert open ==> TreesFrom(d, d.firstChild[x]) != [];
  }

  lemma NextInside(d: Doc, x: int, root: int)
    requires Valid(d) && d.Has(root) && d.Has(x) && root < x < d.end[root] && d.next[x] != NONE
    ensures d.Has(d.next[x]) && d.next[x] == d.end[x] < d.end[root] && x < d.next[x] && d.parent[d.next[x]] == d.parent[x]
  {
    NodeFacts(d, root);
    ParentInside(d, root, x);
    NodeFacts(d, x);
    NextSibling(d, x);
    NodeFacts(d, d.parent[x]);
    NodeFacts(d, d.end[x]);
  }

  /** After `x` comes its next sibling, and what remains after that. */
  lemma SplitRest(d: Doc, x: int, root: int)
    requires Valid(d) && d.Has(root) && d.Has(x) && root < x < d.end[root] && d.next[x] != NONE
    ensures d.Has(d.next[x]) && root <= d.next[x] < d.end[root]
    ensures Rest(d, x, root) == R.Print(TreeAt(d, d.next[x])) + Rest(d, d.next[x], root)
  {
    hide Linked, R.Print, R.PrintAll, TreesFrom, TreeAt, EndTag;
    NodeFacts(d, root);
    NextInside(d, x, root);
    ParentInside(d, root, x);
    PrintNext(d, d.next[x]);
  }

  /** After a last child comes the closing tag of its parent. */
  lemma LastRest(d: Doc, x: int, root: int)
    requires Valid(d) && Plain(d) && d.Has(root) && d.kind[root].Element? && d.Has(x) && root < x < d.end[root] && d.next[x] == NONE
    ensures d.Has(d.parent[x]) && root <= d.parent[x] < x && d.end[d.parent[x]] == d.end[x] && d.kind[d.parent[x]].Element?
    ensures Rest(d, x, root) == EndTag(d, d.parent[x]) + Rest(d, d.parent[x], root)
  {
    hide Linked, R.Print, TreeAt, EndTag;
    NodeFacts(d, root);
    ParentInside(d, root, x);
    NodeFacts(d, x);
    NextSibling(d, x);
    NodeFacts(d, d.parent[x]);
    assert R.PrintAll(TreesFrom(d, NONE)) == "";
  }

  /** Goes on after the subtree of `x`: writes the closing tags of what ends there. */
  method OutputEnds(d: Doc, x: int, root: int) returns (out: string, node: int)
    requires Valid(d) && Plain(d) && d.Has(root) && d.kind[root].Element? && root <= x < d.end[root]
    ensures node == NONE || (d.Has(node) && x < node < d.end[root])
    ensures Rest(d, x, root) == out + (if node == NONE then "" else R.Print(TreeAt(d, node)) + Rest(d, node, root))
  {
    hide Linked, R.Print, R.PrintAll, TreesFrom, TreeAt, Rest;
    out, node := "", x;
    NodeFacts(d, root);
    NodeFacts(d, x);
    while node != root
      invariant d.Has(node) && root <= node <= x < d.end[node] <= d.end[root]
      invariant Rest(d, x, root) == out + Rest(d, node, root)
      decreases node
    {
      if d.next[node] != NONE {
        NextInside(d, node, root);
        SplitRest(d, node, root);
        node := d.next[node];
        return;
      }
      LastRest(d, node, root);
      node := d.parent[node];
      if d.kind[node].Element? { out := out + EndTag(d, node); }
    }
    NothingRemains(d, root);
    node := NONE;
  }

  lemma NothingRemains(d: Doc, root: int)
    requires Valid(d) && d.Has(root)
    ensures root < d.end[root] && Rest(d, root, root) == ""
  {
    NodeFacts(d, root);
  }

  /** `node_output` with format_raw from an element: the loop down to first children, along siblings and up
      through closing tags writes the print of the tree. */
  method NodeOutput(d: Doc, root: int) returns (out: string)
    requires Valid(d) && Plain(d) && d.Has(root) && d.kind[root].Element?
    ensures out == R.Print(TreeAt(d, root))
  {
    hide Linked, R.Print, R.PrintAll, TreesFrom, TreeAt, Rest;
    out := "";
    var node := root;
    NothingRemains(d, root);
    while node != NONE
      invariant node == NONE || (d.Has(node) && root <= node < d.end[root])
      invariant R.Print(TreeAt(d, root)) == out + (if node == NONE then "" else R.Print(TreeAt(d, node)) + Rest(d, node, root))
      decreases if node == NONE then 0 else d.Size() - node
    {
      var open := false;
      ghost var before := out;
      if d.kind[node].Element? {
        var start;
        start, open := OutputStart(d, node);
        out := out + start;
      } else {
        var text := OutputSimple(d, node);
        out := out + text;
      }
      if open {
        FirstRest(d, node, root);
        node := d.firstChild[node];
      } else {
        var ends, next := OutputEnds(d, node, root);
        out := out + ends;
        node := next;
      }
    }
  }

  method OutputSimple(d: Doc, x: int) returns (out: string)
    requires Valid(d) && Plain(d) && d.Has(x) && !d.kind[x].Element? && x != 0
    ensures out == R.Print(TreeAt(d, x))
  {
    hide Linked;
    if d.kind[x].Pcdata? { out := OutputEscaped(d.value[x], false); } else { out := OutputCdata(d.value[x]); }
  }

  /** The children of `x` and its closing tag are its first child and what remains after that. */
  lemma RestOf(d: Doc, x: int, root: int)
    requires Valid(d) && d.Has(root) && d.Has(x) && root < x < d.end[root]
    ensures d.Has(d.parent[x]) && root <= d.parent[x] < d.end[root] && (d.next[x] == NONE || d.Has(d.next[x]))
    ensures Rest(d, x, root)
         == R.PrintAll(TreesFrom(d, d.next[x])) + EndTag(d, d.parent[x]) + Rest(d, d.parent[x], root)
  {
    hide R.PrintAll, TreesFrom, EndTag, Linked;
    NodeFacts(d, root);
    ParentInside(d, root, x);
    NodeFacts(d, x);
    NextSibling(d, x);
  }

  lemma FirstRest(d: Doc, x: int, root: int)
    requires Valid(d) && d.Has(root) && d.Has(x) && root <= x < d.end[root] && d.firstChild[x] != NONE
    ensures var c := d.firstChild[x];
            && d.Has(c) && x < c < d.end[root]
            && R.PrintAll(TreesFrom(d, c)) + EndTag(d, x) + Rest(d, x, root) == R.Print(TreeAt(d, c)) + Rest(d, c, root)
  {
    hide Linked, R.Print, R.PrintAll, TreesFrom, TreeAt, EndTag, Rest;
    NodeFacts(d, root);
    NodeFacts(d, x);
    NodeFacts(d, x + 1);
    PrintNext(d, x + 1);
    RestOf(d, x + 1, root);
  }
}
