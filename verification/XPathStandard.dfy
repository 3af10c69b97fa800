// The program against the standard, and exactly where they part.
//
// Comparisons: section 3.4 of XPath 1.0 makes a node set a boolean before comparing it with one. The code does
// so for `=` and `!=` only: for `<`, `>`, `<=` and `>=` it compares the number of the boolean with the number of
// each node. Nodes: section 5 knows no declarations and document types, and the code finds them with `node()`.
// Characters: `translate`, `string-length` and `substring` work on bytes in the code.
//
// A query has the value of the standard if none of these can matter; the conditions are on the syntax tree and
// on the document. For each of the three there is a query that has another value.
//
// The document is taken as the library shows it to queries: names are compared as written, with their prefix;
// pieces of text that stand side by side are separate nodes, and an empty one is a node; no node has an id; and
// of several attributes of one name, a step finds the first. There are no namespace nodes, so a query that asks
// for them is left out. The other library functions, and the conversions between numbers and strings, are those
// of the program in both readings.
module XPathStandard {

  import opened Documents
  import opened XPath
  import opened XPathModes
  import opened XPathStrings
  import opened XPathMeaning
  import opened XPathAgreement
  import XPathOptimizer
  import U = Transcoding

  // ---------------------------------------------------------------- nodes that are none in XPath

  /** The document has no declarations and document types. */
  predicate AllXPathNodes(d: Doc)
    requires Valid(d)
  {
    forall x | 0 <= x < d.Size() :: !d.kind[x].OtherNode?
  }

  predicate Exist(d: Doc, s: seq<Item>)
    requires Valid(d)
  {
    forall k | 0 <= k < |s| :: IsXPathNode(d, s[k])
  }

  lemma {:induction false} AllExist(d: Doc, s: seq<Item>)
    requires Valid(d)
    ensures |XPathNodes(d, s)| <= |s| && (XPathNodes(d, s) == s <==> Exist(d, s))
    ensures forall y :: y in XPathNodes(d, s) <==> y in s && IsXPathNode(d, y)
  {
    hide Linked, IsXPathNode;
    if s != [] {
      AllExist(d, s[1..]);
      if IsXPathNode(d, s[0]) {
        assert [s[0]] + XPathNodes(d, s[1..]) == s ==> XPathNodes(d, s[1..]) == s[1..] by {
          if [s[0]] + XPathNodes(d, s[1..]) == s { assert s[1..] == ([s[0]] + XPathNodes(d, s[1..]))[1..]; }
        }
        if Exist(d, s[1..]) { assert forall k | 0 < k < |s| :: s[k] == s[1..][k - 1]; }
        if Exist(d, s) { assert forall k | 0 <= k < |s[1..]| :: s[1..][k] == s[k + 1]; }
      }
    }
  }

  /** What axis and test select from `i`: nodes of the axis, and attributes of the node that `i` stands at. */
  lemma StepMembers(d: Doc, a: Axis, t: NodeTest, i: Item)
    requires Valid(d) && HasItem(d, i)
    ensures forall y | y in StepItems(d, a, t, i) ::
              && HasItem(d, y) && (y.attr == NONE ==> InAxis(d, a, i, y.node) && Passes(d, t, y.node))
              && (y.attr != NONE ==> y.node == i.node)
    ensures t.TestTypeNode? ==> forall y | d.Has(y) && InAxis(d, a, i, y) :: Item(y, NONE) in StepItems(d, a, t, i)
  {
    hide Linked, InAxis, InOrder, InReverse, AxisItems, PassesAttribute;
    AxisInOrder(d, a, i, t);
    var s := AxisItems(d, a, i, t);
    assert forall y | y in StepItems(d, a, t, i) :: y in s;
    forall y | t.TestTypeNode? && d.Has(y) && InAxis(d, a, i, y) ensures Item(y, NONE) in StepItems(d, a, t, i) {
      assert Selected(d, a, i, t, Item(y, NONE));
    }
  }

  /** Axis and test select from `i` what they select in XPath if and only if they do not ask for any kind of node,
      or no declaration and no document type is on the axis. */
  lemma StepMeetsStandard(d: Doc, a: Axis, t: NodeTest, i: Item)
    requires Valid(d) && HasItem(d, i) && IsXPathNode(d, i)
    ensures StepNodes(d, Standard, a, t, i) == StepNodes(d, Program, a, t, i)
       <==> !t.TestTypeNode? || forall y | d.Has(y) && InAxis(d, a, i, y) :: !d.kind[y].OtherNode?
  {
    hide Linked, InAxis, XPathNodes, StepItems;
    StepMembers(d, a, t, i);
    var s := StepItems(d, a, t, i);
    AllExist(d, s);
    if Exist(d, s) {
      forall y | t.TestTypeNode? && d.Has(y) && InAxis(d, a, i, y) ensures !d.kind[y].OtherNode? {
        var k :| 0 <= k < |s| && s[k] == Item(y, NONE);
        assert IsXPathNode(d, s[k]);
      }
    } else {
      var k :| 0 <= k < |s| && !IsXPathNode(d, s[k]);
      assert s[k] in s && Passes(d, t, s[k].node);
    }
  }

  /** Every node that the query sees is one in XPath: the document has no others, or no step asks for any kind of
      node. The second is the case of no query with `//`, `.` or `..`. */
  predicate SeesXPathNodes(d: Doc, e: Expr)
    requires Valid(d)
  {
    AllXPathNodes(d) || NamesItsNodes(e)
  }

  predicate NamesItsNodes(e: Expr) {
    match e
    case Or(l, r) => NamesItsNodes(l) && NamesItsNodes(r)
    case And(l, r) => NamesItsNodes(l) && NamesItsNodes(r)
    case Compare(_, l, r) => NamesItsNodes(l) && NamesItsNodes(r)
    case Union(l, r) => NamesItsNodes(l) && NamesItsNodes(r)
    case Filter(l, _, r) => NamesItsNodes(l) && NamesItsNodes(r)
    case Step(start, _, t, preds) => (start.From? ==> NamesItsNodes(start.left)) && !t.TestTypeNode? && PredicatesName(preds)
    case Id(l) => NamesItsNodes(l)
    case Count(l) => NamesItsNodes(l)
    case Call(_, args) => ArgumentsName(args)
    case Translate(l, from, to) => NamesItsNodes(l) && NamesItsNodes(from) && NamesItsNodes(to)
    case TranslateTable(l, _) => NamesItsNodes(l)
    case CompareAttribute(_, r) => NamesItsNodes(r)
    case _ => true
  }

  predicate PredicatesName(preds: Predicates) {
    preds.Pred? ==> NamesItsNodes(preds.right) && PredicatesName(preds.next)
  }

  predicate ArgumentsName(args: Arguments) { args.Arg? ==> NamesItsNodes(args.e) && ArgumentsName(args.next) }

  /** The root is no declaration, and the variables hold nodes that there are in XPath. */
  ghost predicate SetsExist(env: Env)
    requires Valid(env.d)
  {
    IsXPathNode(env.d, Item(0, NONE)) && forall name :: Exist(env.d, env.setVar(name).nodes)
  }

  // ---------------------------------------------------------------- queries on which code and standard agree

  /** A boolean and a node set are asked which is less. */
  predicate Deviates(op: Relation, l: Expr, r: Expr) {
    && !op.Eq? && !op.Ne?
    && ((TypeOf(l).BooleanType? && TypeOf(r).NodeSetType?) || (TypeOf(l).NodeSetType? && TypeOf(r).BooleanType?))
  }

  /** Nowhere in the query are a boolean and a node set asked which is less, or namespace nodes asked for; and
      unless all strings are ASCII (`ascii`), characters are not counted and only literal ASCII is translated. */
  predicate Conforms(e: Expr, ascii: bool) {
    match e
    case Text(s) => ascii ==> Ascii(s)
    case Or(l, r) => Conforms(l, ascii) && Conforms(r, ascii)
    case And(l, r) => Conforms(l, ascii) && Conforms(r, ascii)
    case Compare(op, l, r) => Conforms(l, ascii) && Conforms(r, ascii) && !Deviates(op, l, r)
    case Union(l, r) => Conforms(l, ascii) && Conforms(r, ascii)
    case Filter(l, _, r) => Conforms(l, ascii) && Conforms(r, ascii)
    case Step(start, axis, _, preds) =>
      (start.From? ==> Conforms(start.left, ascii)) && !axis.NamespaceAxis? && ConformingPredicates(preds, ascii)
    case Id(l) => Conforms(l, ascii)
    case Count(l) => Conforms(l, ascii)
    case Call(f, args) =>
      && (!CountsCharacters(f) || (ascii && (f.StringLength0? ==> args.End?)))
      && ConformingArguments(args, ascii)
    case Translate(l, from, to) =>
      && Conforms(l, ascii) && Conforms(from, ascii) && Conforms(to, ascii)
      && (ascii || (from.Text? && to.Text? && Ascii(from.s) && Ascii(to.s)))
    case TranslateTable(l, _) => Conforms(l, ascii)
    case CompareAttribute(_, r) => Conforms(r, ascii)
    case _ => true
  }

  predicate ConformingPredicates(preds: Predicates, ascii: bool) {
    preds.Pred? ==> Conforms(preds.right, ascii) && ConformingPredicates(preds.next, ascii)
  }

  predicate ConformingArguments(args: Arguments, ascii: bool) {
    args.Arg? ==> Conforms(args.e, ascii) && ConformingArguments(args.next, ascii)
  }

  predicate AsciiArguments(args: seq<Argument>) {
    forall k | 0 <= k < |args| :: args[k].StringArg? ==> Ascii(args[k].s)
  }

  /** Document, variables and library hold nothing but ASCII. */
  ghost predicate AsciiWorld(env: Env) {
    && (forall i :: Ascii(env.stringValue(i)))
    && (forall name :: Ascii(env.stringVar(name)))
    && (forall n :: Ascii(env.toText(n)))
    && (forall f, i, args | AsciiArguments(args) && env.lib(f, i, args).S? :: Ascii(env.lib(f, i, args).s))
  }

  /** The functions of the program that number characters count bytes. */
  ghost predicate CountsBytes(env: Env) {
    && (forall i :: env.lib(StringLength0, i, []) == N(Fin(|env.stringValue(i)| as real)))
    && (forall i, s :: env.lib(StringLength1, i, [StringArg(s)]) == N(Fin(|s| as real)))
    && (forall i, s, a ::
         env.lib(Substring2, i, [StringArg(s), NumberArg(a)]) == S(SubstringBytes(s, RoundNearest(a), PlusInfinity)))
    && (forall i, s, a, b ::
         env.lib(Substring3, i, [StringArg(s), NumberArg(a), NumberArg(b)])
           == S(SubstringBytes(s, RoundNearest(a), Plus(RoundNearest(a), RoundNearest(b)))))
  }

  // ---------------------------------------------------------------- in a world of ASCII

  lemma {:induction false} TranslatedAscii(s: string, from: string, to: string)
    requires Ascii(s) && Ascii(to)
    ensures Ascii(TranslateText(s, from, to))
  {
    if s != "" {
      AsciiRest(s);
      TranslatedAscii(s[1..], from, to);
    }
  }

  lemma {:induction false} TabledAscii(s: string, table: seq<nat>)
    requires Ascii(s)
    ensures Ascii(ByTable(s, table))
  {
    if s != "" {
      AsciiRest(s);
      TabledAscii(s[1..], table);
    }
  }

  /** Every string that the query comes by is ASCII. */
  lemma {:induction false} AsciiText(env: Env, e: Expr, c: Context)
    requires Good(env) && AsciiWorld(env) && Conforms(e, true)
    ensures Ascii(AsText(env, Full, e, c))
    decreases e, 2
  {
    hide GoodLibrary, Linked, Nodes, Native, Conforms;
    AsciiNative(env, e, c);
  }

  lemma {:induction false} AsciiNative(env: Env, e: Expr, c: Context)
    requires Good(env) && AsciiWorld(env) && Conforms(e, true)
    ensures Native(env, Full, e, c).S? ==> Ascii(Native(env, Full, e, c).s)
    decreases e, 1
  {
    if e.Call? {
      var args, values := e.args, ArgumentValues(env, Full, e.f, e.args, 0, c);
      assert ConformingArguments(args, true) && Native(env, Full, e, c) == env.lib(e.f, c.item, values);
      hide *;
      AsciiValues(env, e.f, args, 0, c);
      LibraryIsAscii(env, e.f, c.item, values);
    } else if e.Translate? || e.TranslateTable? {
      AsciiTranslation(env, e, c);
    } else {
      hide GoodLibrary, Linked, Nodes, AsText, AsBool, AsNum, AsOperand, Compares, AttributeEquals, Ascii, AsciiWorld;
      if e.Variable? { VariableIsAscii(env, e.name); }
    }
  }

  lemma {:induction false} AsciiTranslation(env: Env, e: Expr, c: Context)
    requires Good(env) && AsciiWorld(env) && Conforms(e, true) && (e.Translate? || e.TranslateTable?)
    ensures Native(env, Full, e, c).S? && Ascii(Native(env, Full, e, c).s)
    decreases e, 0
  {
    hide GoodLibrary, Linked, AsText, TranslateText, ByTable, Ascii, AsciiWorld;
    AsciiText(env, e.left, c);
    if e.Translate? {
      AsciiText(env, e.to, c);
      TranslatedAscii(AsText(env, Full, e.left, c), AsText(env, Full, e.from, c), AsText(env, Full, e.to, c));
    } else {
      TabledAscii(AsText(env, Full, e.left, c), e.table);
    }
  }

  lemma VariableIsAscii(env: Env, name: string)
    requires AsciiWorld(env)
    ensures Ascii(env.stringVar(name))
  {
  }

  lemma LibraryIsAscii(env: Env, f: Function, i: Item, args: seq<Argument>)
    requires AsciiWorld(env) && AsciiArguments(args)
    ensures env.lib(f, i, args).S? ==> Ascii(env.lib(f, i, args).s)
  {
  }

  lemma {:induction false} AsciiValue(env: Env, kind: ArgumentKind, e: Expr, c: Context)
    requires Good(env) && AsciiWorld(env) && Conforms(e, true)
    ensures var v := ArgumentValue(env, Full, kind, e, c); v.StringArg? ==> Ascii(v.s)
    decreases e, 3
  {
    hide GoodLibrary, Linked, Nodes, AsText, AsBool, AsNum, Ascii, AsciiWorld, Conforms;
    AsciiText(env, e, c);
  }

  lemma OneMoreAscii(v: Argument, args: seq<Argument>)
    requires (v.StringArg? ==> Ascii(v.s)) && AsciiArguments(args)
    ensures AsciiArguments([v] + args)
  {
    hide Ascii;
  }

  lemma {:induction false} AsciiValues(env: Env, f: Function, args: Arguments, k: nat, c: Context)
    requires Good(env) && AsciiWorld(env) && ConformingArguments(args, true)
    ensures AsciiArguments(ArgumentValues(env, Full, f, args, k, c))
    decreases args, 0
  {
    hide GoodLibrary, Linked, ArgumentValue, KindOf, Ascii, AsciiWorld, AsciiArguments, Conforms;
    if args.Arg? {
      AsciiValue(env, KindOf(f, k), args.e, c);
      AsciiValues(env, f, args.next, k + 1, c);
      OneMoreAscii(ArgumentValue(env, Full, KindOf(f, k), args.e, c), ArgumentValues(env, Full, f, args.next, k + 1, c));
    } else {
      NoneAscii();
    }
  }

  lemma NoneAscii()
    ensures AsciiArguments([])
  {
  }

  /** Where bytes are characters, the library of the program is that of the standard. */
  lemma SameCall(env: Env, f: Function, i: Item, args: seq<Argument>)
    requires !CountsCharacters(f) || (CountsBytes(env) && AsciiWorld(env) && AsciiArguments(args))
    requires f.StringLength0? ==> args == []
    ensures StandardCall(env, f, i, args) == env.lib(f, i, args)
  {
    hide AsciiWorld, StandardSubstring, SubstringBytes, RoundNearest, Plus, Characters, Integral;
    if f.StringLength0? {
      WorldIsAscii(env, i);
      AsciiCharacters(env.stringValue(i));
    } else if CountsCharacters(f) && args != [] && args[0].StringArg? {
      var s := args[0].s;
      AsciiCharacters(s);
      if f.StringLength1? && |args| == 1 {
        assert args == [StringArg(s)];
      } else if f.Substring2? && |args| == 2 && args[1].NumberArg? {
        var a := args[1].n;
        assert args == [StringArg(s), NumberArg(a)];
        RoundIsIntegral(a, a);
        AsciiSubstring(s, RoundNearest(a), PlusInfinity);
      } else if f.Substring3? && |args| == 3 && args[1].NumberArg? && args[2].NumberArg? {
        var a, b := args[1].n, args[2].n;
        assert args == [StringArg(s), NumberArg(a), NumberArg(b)];
        RoundIsIntegral(a, b);
        AsciiSubstring(s, RoundNearest(a), Plus(RoundNearest(a), RoundNearest(b)));
      }
    }
  }

  lemma WorldIsAscii(env: Env, i: Item)
    requires AsciiWorld(env)
    ensures Ascii(env.stringValue(i))
  {
  }

  // ---------------------------------------------------------------- the values agree

  /** What the two readings are given alike: the query, the document and the library. */
  ghost predicate Alike(env: Env, ascii: bool) {
    Good(env) && SetsExist(env) && (ascii ==> AsciiWorld(env) && CountsBytes(env))
  }

  /** The two rules differ only where a boolean and a node set are asked which is less. */
  lemma RulesMeet(env: Env, op: Relation, a: Operand, b: Operand)
    requires op.Eq? || op.Ne? || (Meant(a, b) == a && Meant(b, a) == b)
    ensures StandardCompares(env, op, a, b) == Compares(env, op, a, b)
  {
  }

  /** The type of an expression says what kind of operand it is. */
  lemma OperandKind(env: Env, reading: Reading, e: Expr, c: Context, m: Mode)
    requires Good(env)
    ensures var o := AsOperand(env, reading, e, c, m);
            (o.Strings? <==> TypeOf(e).NodeSetType?) && (o.Value? && o.v.B? <==> TypeOf(e).BooleanType?)
  {
    hide GoodLibrary, Linked, Nodes, Native;
    if !TypeOf(e).NodeSetType? { NativeFits(env, reading, e, c); }
  }

  lemma NothingDeviates(env: Env, reading: Reading, op: Relation, l: Expr, r: Expr, c: Context, m: Mode, n: Mode)
    requires Good(env) && !Deviates(op, l, r)
    ensures var a, b := AsOperand(env, reading, l, c, m), AsOperand(env, reading, r, c, n);
            op.Eq? || op.Ne? || (Meant(a, b) == a && Meant(b, a) == b)
  {
    hide GoodLibrary, Linked, AsOperand;
    OperandKind(env, reading, l, c, m);
    OperandKind(env, reading, r, c, n);
  }

  lemma SubsetExists(d: Doc, s: seq<Item>, t: seq<Item>)
    requires Valid(d) && Exist(d, s) && Items(t) <= Items(s)
    ensures Exist(d, t)
  {
    hide Linked, IsXPathNode;
    forall k | 0 <= k < |t| ensures IsXPathNode(d, t[k]) { assert t[k] in Items(s); }
  }

  ghost predicate SetExists(d: Doc, s: set<Item>)
    requires Valid(d)
  {
    forall y | y in s :: IsXPathNode(d, y)
  }

  /** What is in a listing is in the set. */
  lemma {:induction false} ListedExists(d: Doc, s: set<Item>)
    requires Valid(d) && SetExists(d, s)
    ensures Exist(d, Listing(d, s))
  {
    hide Linked, IsXPathNode;
    ListBelowMembers(d, s, |d.attributes|);
    var l := Listing(d, s);
    forall k | 0 <= k < |l| ensures IsXPathNode(d, l[k]) { assert l[k] in l; }
  }

  lemma KeptExists(env: Env, reading: Reading, e: Expr, s: seq<Item>)
    requires Valid(env.d) && Exist(env.d, s)
    ensures Exist(env.d, Keep(env, reading, e, s, 0, false))
  {
    hide Linked, IsXPathNode, Keep;
    KeepIsPart(env, reading, e, s, 0, false);
    PartIsSubset(Keep(env, reading, e, s, 0, false), s);
    SubsetExists(env.d, s, Keep(env, reading, e, s, 0, false));
  }

  lemma PartIsSubset(p: seq<Item>, s: seq<Item>)
    requires PartOf(p, s[0..])
    ensures Items(p) <= Items(s)
  {
    assert s[0..] == s;
  }

  lemma {:induction false} StandardNodes(env: Env, e: Expr, c: Context, m: Mode, ascii: bool)
    requires Alike(env, ascii) && Conforms(e, ascii) && SeesXPathNodes(env.d, e) && IsXPathNode(env.d, c.item)
    ensures Nodes(env, Standard, e, c, m) == Nodes(env, Full, e, c, m) && Exist(env.d, Nodes(env, Full, e, c, m).nodes)
    decreases e, 0
  {
    hide Linked, Keep, StepSet, Listing, AsciiWorld, CountsBytes, GoodLibrary, IsXPathNode, AllXPathNodes, SetsExist;
    match e
    case Union(l, r) =>
      StandardNodes(env, l, c, All, ascii);
      StandardNodes(env, r, c, All, ascii);
      UnionExists(env.d, Nodes(env, Full, l, c, All).nodes, Nodes(env, Full, r, c, All).nodes);
    case Filter(l, _, r) =>
      StandardNodes(env, l, c, All, ascii);
      var s := Nodes(env, Full, l, c, All).nodes;
      StandardKeep(env, r, s, 0, ascii);
      KeptExists(env, Full, r, s);
    case Step(start, _, _, _) =>
      if start.From? { StandardNodes(env, start.left, c, All, ascii); }
      var s := if start.From? then Nodes(env, Full, start.left, c, All).nodes else [c.item];
      StandardStepSet(env, e, s, |s|, ascii);
      ListedExists(env.d, StepSet(env, Full, e, s, |s|));
    case Root => RootExists(env, c, ascii);
    case Variable(name, _) => VariableExists(env, name, ascii);
    case _ =>
  }

  lemma UnionExists(d: Doc, s: seq<Item>, t: seq<Item>)
    requires Valid(d) && Exist(d, s) && Exist(d, t)
    ensures Exist(d, Listing(d, Items(s) + Items(t)))
  {
    hide Linked, IsXPathNode, Listing;
    ListedExists(d, Items(s) + Items(t));
  }

  lemma VariableExists(env: Env, name: string, ascii: bool)
    requires Alike(env, ascii)
    ensures Exist(env.d, Listing(env.d, Items(env.setVar(name).nodes)))
  {
    hide Linked, IsXPathNode, Listing, AsciiWorld, CountsBytes, GoodLibrary;
    ListedExists(env.d, Items(env.setVar(name).nodes));
  }

  lemma {:induction false} StandardValues(env: Env, e: Expr, c: Context, ascii: bool)
    requires Alike(env, ascii) && Conforms(e, ascii) && SeesXPathNodes(env.d, e) && IsXPathNode(env.d, c.item)
    ensures AsBool(env, Standard, e, c) == AsBool(env, Full, e, c)
    ensures AsText(env, Standard, e, c) == AsText(env, Full, e, c)
    ensures AsNum(env, Standard, e, c) == AsNum(env, Full, e, c)
    ensures forall m: Mode {:trigger AsOperand(env, Standard, e, c, m)} {:trigger AsOperand(env, Full, e, c, m)} ::
              AsOperand(env, Standard, e, c, m) == AsOperand(env, Full, e, c, m)
    decreases e, 1
  {
    hide Linked, Nodes, Native, Conforms, SeesXPathNodes, Alike, IsXPathNode, Exist;
    assert Good(env) by { GoodAlike(env, ascii); }
    hide GoodLibrary;
    forall m: Mode ensures Nodes(env, Standard, e, c, m) == Nodes(env, Full, e, c, m) {
      StandardNodes(env, e, c, m, ascii);
    }
    assert Nodes(env, Standard, e, c, First) == Nodes(env, Full, e, c, First);
    assert Nodes(env, Standard, e, c, Any) == Nodes(env, Full, e, c, Any);
    StandardNative(env, e, c, ascii);
  }

  lemma GoodAlike(env: Env, ascii: bool)
    requires Alike(env, ascii)
    ensures Good(env) && Valid(env.d)
  {
  }

  lemma {:induction false} StandardNative(env: Env, e: Expr, c: Context, ascii: bool)
    requires Alike(env, ascii) && Conforms(e, ascii) && SeesXPathNodes(env.d, e) && IsXPathNode(env.d, c.item)
    ensures Native(env, Standard, e, c) == Native(env, Full, e, c)
    decreases e, 0
  {
    hide GoodLibrary, Linked, Nodes, AsText, AsBool, AsNum, AsOperand, Compares, StandardCompares, TranslateText, ByTable,
         AttributeEquals, StandardCall, StandardTranslate, Deviates, IsXPathNode, AllXPathNodes, Alike, AsciiWorld, Ascii;
    match e
    case Or(l, r) => StandardValues(env, l, c, ascii); StandardValues(env, r, c, ascii);
    case And(l, r) => StandardValues(env, l, c, ascii); StandardValues(env, r, c, ascii);
    case Compare(op, l, r) =>
      StandardValues(env, l, c, ascii);
      StandardValues(env, r, c, ascii);
      SameComparison(env, op, l, r, c, ascii);
    case Count(l) => StandardNodes(env, l, c, All, ascii);
    case Call(f, args) => StandardLibrary(env, f, args, c, ascii);
    case Translate(l, from, to) =>
      StandardValues(env, l, c, ascii);
      StandardValues(env, from, c, ascii);
      StandardValues(env, to, c, ascii);
      SameTranslation(env, e, c, ascii);
    case TranslateTable(l, _) => StandardValues(env, l, c, ascii);
    case CompareAttribute(_, r) => StandardValues(env, r, c, ascii);
    case _ =>
  }

  lemma SameComparison(env: Env, op: Relation, l: Expr, r: Expr, c: Context, ascii: bool)
    requires Alike(env, ascii) && !Deviates(op, l, r)
    ensures var a, b := AsOperand(env, Full, l, c, OperandMode(op, r)), AsOperand(env, Full, r, c, OperandMode(op, l));
            StandardCompares(env, op, a, b) == Compares(env, op, a, b)
  {
    hide Linked, AsOperand, Deviates, Compares, StandardCompares;
    NothingDeviates(env, Full, op, l, r, c, OperandMode(op, r), OperandMode(op, l));
    RulesMeet(env, op, AsOperand(env, Full, l, c, OperandMode(op, r)), AsOperand(env, Full, r, c, OperandMode(op, l)));
  }

  lemma LiteralText(env: Env, reading: Reading, e: Expr, c: Context)
    requires Valid(env.d) && e.Text?
    ensures AsText(env, reading, e, c) == e.s
  {
  }

  lemma SameTranslation(env: Env, e: Expr, c: Context, ascii: bool)
    requires Alike(env, ascii) && Conforms(e, ascii) && e.Translate?
    ensures var s, from, to := AsText(env, Full, e.left, c), AsText(env, Full, e.from, c), AsText(env, Full, e.to, c);
            StandardTranslate(s, from, to) == TranslateText(s, from, to)
  {
    var from, to := AsText(env, Full, e.from, c), AsText(env, Full, e.to, c);
    if ascii {
      AsciiText(env, e.from, c);
      AsciiText(env, e.to, c);
    }
    if e.from.Text? { LiteralText(env, Full, e.from, c); }
    if e.to.Text? { LiteralText(env, Full, e.to, c); }
    hide GoodLibrary, Linked, StandardTranslate, TranslateText, AsciiWorld, CountsBytes, SetsExist;
    AsciiTranslate(AsText(env, Full, e.left, c), from, to);
  }

  lemma {:induction false} StandardLibrary(env: Env, f: Function, args: Arguments, c: Context, ascii: bool)
    requires Alike(env, ascii) && ConformingArguments(args, ascii) && IsXPathNode(env.d, c.item)
    requires AllXPathNodes(env.d) || ArgumentsName(args)
    requires !CountsCharacters(f) || (ascii && (f.StringLength0? ==> args.End?))
    ensures StandardCall(env, f, c.item, ArgumentValues(env, Standard, f, args, 0, c))
         == env.lib(f, c.item, ArgumentValues(env, Full, f, args, 0, c))
    decreases args, 1
  {
    hide Linked, IsXPathNode, AllXPathNodes, AsciiWorld, CountsBytes, SetsExist, StandardCall, AsciiArguments;
    StandardArguments(env, f, args, 0, c, ascii);
    if ascii { AsciiValues(env, f, args, 0, c); }
    assert args.End? ==> ArgumentValues(env, Full, f, args, 0, c) == [];
    SameCall(env, f, c.item, ArgumentValues(env, Full, f, args, 0, c));
  }

  lemma {:induction false} StandardArguments(env: Env, f: Function, args: Arguments, k: nat, c: Context, ascii: bool)
    requires Alike(env, ascii) && ConformingArguments(args, ascii) && IsXPathNode(env.d, c.item)
    requires AllXPathNodes(env.d) || ArgumentsName(args)
    ensures ArgumentValues(env, Standard, f, args, k, c) == ArgumentValues(env, Full, f, args, k, c)
    decreases args, 0
  {
    hide Linked, Nodes, AsText, AsBool, AsNum, KindOf, IsXPathNode, AllXPathNodes, AsciiWorld, CountsBytes, SetsExist, Exist, GoodLibrary;
    if args.Arg? {
      StandardValues(env, args.e, c, ascii);
      StandardNodes(env, args.e, c, First, ascii);
      StandardNodes(env, args.e, c, All, ascii);
      StandardArguments(env, f, args.next, k + 1, c, ascii);
    }
  }

  lemma {:induction false} StandardKeep(env: Env, e: Expr, s: seq<Item>, k: nat, ascii: bool)
    requires Alike(env, ascii) && Conforms(e, ascii) && SeesXPathNodes(env.d, e) && k <= |s| && Exist(env.d, s)
    ensures Keep(env, Standard, e, s, k, false) == Keep(env, Full, e, s, k, false)
    decreases e, 2, |s| - k
  {
    hide Linked, AsText, AsBool, AsNum, Conforms, SeesXPathNodes, IsXPathNode, AsciiWorld, CountsBytes, SetsExist, GoodLibrary;
    if k < |s| {
      StandardValues(env, e, Context(s[k], k + 1, |s|), ascii);
      StandardKeep(env, e, s, k + 1, ascii);
    }
  }

  lemma {:induction false} StandardPredicates(env: Env, preds: Predicates, s: seq<Item>, ascii: bool)
    requires Alike(env, ascii) && ConformingPredicates(preds, ascii) && Exist(env.d, s)
    requires AllXPathNodes(env.d) || PredicatesName(preds)
    ensures ApplyPredicates(env, Standard, preds, s, false) == ApplyPredicates(env, Full, preds, s, false)
    ensures Exist(env.d, ApplyPredicates(env, Full, preds, s, false))
    decreases preds, 0
  {
    hide Linked, Keep, Conforms, IsXPathNode, AsciiWorld, CountsBytes, SetsExist, GoodLibrary, AllXPathNodes;
    if preds.Pred? {
      StandardKeep(env, preds.right, s, 0, ascii);
      KeptExists(env, Full, preds.right, s);
      StandardPredicates(env, preds.next, ApplyPredicate(env, Full, preds.test, preds.right, s, false), ascii);
    }
  }

  /** What a step selects from a node that exists in XPath. */
  lemma SameStep(d: Doc, e: Expr, i: Item)
    requires Valid(d) && e.Step? && SeesXPathNodes(d, e) && IsXPathNode(d, i)
    ensures StepNodes(d, Standard, e.axis, e.nodeTest, i) == StepItems(d, e.axis, e.nodeTest, i)
    ensures Exist(d, StepItems(d, e.axis, e.nodeTest, i))
  {
    hide Linked, StepItems, XPathNodes, InAxis;
    if HasItem(d, i) { StepMeetsStandard(d, e.axis, e.nodeTest, i); } else { NothingFromNowhere(d, e, i); }
    AllExist(d, StepItems(d, e.axis, e.nodeTest, i));
  }

  lemma NothingFromNowhere(d: Doc, e: Expr, i: Item)
    requires Valid(d) && e.Step? && !HasItem(d, i)
    ensures StepItems(d, e.axis, e.nodeTest, i) == []
  {
    hide Linked, AxisItems;
  }

  lemma {:induction false} StandardStepSet(env: Env, step: Expr, s: seq<Item>, n: nat, ascii: bool)
    requires Alike(env, ascii) && step.Step? && ConformingPredicates(step.preds, ascii) && SeesXPathNodes(env.d, step)
    requires n <= |s| && Exist(env.d, s)
    ensures StepSet(env, Standard, step, s, n) == StepSet(env, Full, step, s, n)
    ensures SetExists(env.d, StepSet(env, Full, step, s, n))
    decreases step.preds, 1, n
  {
    hide Linked, ApplyPredicates, StepItems, ConformingPredicates, XPathNodes, IsXPathNode, AsciiWorld, CountsBytes, SetsExist,
         GoodLibrary, AllXPathNodes;
    if n > 0 {
      StandardStepSet(env, step, s, n - 1, ascii);
      SameStep(env.d, step, s[n - 1]);
      StandardPredicates(env, step.preds, StepItems(env.d, step.axis, step.nodeTest, s[n - 1]), ascii);
    }
  }

  lemma RootExists(env: Env, c: Context, ascii: bool)
    requires Alike(env, ascii)
    ensures Exist(env.d, RootOf(c.item))
  {
    hide Linked, AsciiWorld, CountsBytes, GoodLibrary, IsXPathNode;
  }

  /** In a document without declarations and document types, everything the query is given exists in XPath. */
  lemma PlainDocument(env: Env)
    requires Good(env) && AllXPathNodes(env.d)
    ensures SetsExist(env) && forall i :: IsXPathNode(env.d, i)
  {
    hide Linked;
  }

  /** Running the optimized query gives the value of the standard reading of the evaluator. */
  lemma QueryMeetsReading(env: Env, e: Expr, c: Context, ascii: bool)
    requires Good(env) && Formed(e) && Conforms(e, ascii) && Somewhere(env.d, c.item)
    requires ascii ==> AsciiWorld(env) && CountsBytes(env)
    requires AllXPathNodes(env.d) || (NamesItsNodes(e) && SetsExist(env) && IsXPathNode(env.d, c.item))
    ensures AsBool(env, Program, XPathOptimizer.Optimize(e), c) == AsBool(env, Standard, e, c)
    ensures AsText(env, Program, XPathOptimizer.Optimize(e), c) == AsText(env, Standard, e, c)
    ensures AsNum(env, Program, XPathOptimizer.Optimize(e), c) == AsNum(env, Standard, e, c)
    ensures TypeOf(e).NodeSetType? ==>
              var s := Nodes(env, Standard, e, c, All).nodes;
              && SortDo(env.d, Nodes(env, Program, XPathOptimizer.Optimize(e), c, All)).nodes == s
              && FirstOf(Nodes(env, Program, XPathOptimizer.Optimize(e), c, First)) == if s == [] then NOWHERE else s[0]
  {
    hide Linked, Nodes, AsText, AsBool, AsNum, Formed, Conforms, IsXPathNode, Exist, FirstOf, SortDo, GoodLibrary, SetsExist,
         AllXPathNodes, NamesItsNodes, AsciiWorld, CountsBytes, XPathOptimizer.Optimize;
    if AllXPathNodes(env.d) { PlainDocument(env); }
    XPathOptimizer.OptimizedQuery(env, e, c);
    AgreeValues(env, e, c);
    StandardValues(env, e, c, ascii);
    StandardNodes(env, e, c, All, ascii);
    if TypeOf(e).NodeSetType? { XPathOptimizer.RunsToListing(env, e, c); }
  }

  /** Running the optimized query gives the value that XPath 1.0 defines: its boolean, string and number, and for a
      node set exactly its nodes in document order, and the first of them. */
  lemma QueryMeetsStandard(env: Env, e: Expr, c: Context, ascii: bool)
    requires Good(env) && Formed(e) && Written(e) && Conforms(e, ascii) && Somewhere(env.d, c.item)
    requires ascii ==> AsciiWorld(env) && CountsBytes(env)
    requires AllXPathNodes(env.d) || (NamesItsNodes(e) && SetsExist(env) && IsXPathNode(env.d, c.item))
    ensures var v, query := Meaning(env, e, c), XPathOptimizer.Optimize(e);
            && AsBool(env, Program, query, c) == BooleanOf(v)
            && AsText(env, Program, query, c) == StringOf(env, v)
            && AsNum(env, Program, query, c) == NumberOf(env, v)
            && (TypeOf(e).NodeSetType? <==> v.NodeSet?)
            && (v.NodeSet? ==>
                  var s := SortDo(env.d, Nodes(env, Program, query, c, All)).nodes;
                  && InOrder(s) && (set y | y in s) == v.s
                  && FirstOf(Nodes(env, Program, query, c, First)) == if v.s == {} then NOWHERE else FirstInDocument(v.s))
  {
    hide Linked, Nodes, AsText, AsBool, AsNum, Formed, Written, Conforms, IsXPathNode, Exist, FirstOf, SortDo, GoodLibrary,
         SetsExist, AllXPathNodes, NamesItsNodes, AsciiWorld, CountsBytes, XPathOptimizer.Optimize, Meaning, Native;
    QueryMeetsReading(env, e, c, ascii);
    MeaningOfValues(env, e, c);
    if TypeOf(e).NodeSetType? {
      MeaningOfNodes(env, e, c, All);
      FirstOfRaw(env.d, Nodes(env, Standard, e, c, All));
      var s := Nodes(env, Standard, e, c, All).nodes;
      if s != [] { FirstOfList(s); }
    } else {
      MeaningOfNative(env, e, c);
    }
  }

  // ---------------------------------------------------------------- the comparison that deviates

  function Flipped(op: Relation): Relation {
    match op
    case Lt => Gt
    case Gt => Lt
    case Le => Ge
    case Ge => Le
    case Eq => Eq
    case Ne => Ne
  }

  predicate SomeNumber(env: Env, q: set<string>, op: Relation, v: real) {
    exists y | y in q :: Compares(env, op, Value(N(env.toNumber(y))), Value(N(Fin(v))))
  }

  /** What the nodes of `q` must be for code and standard to agree on `q op b`. */
  predicate NodesAgree(env: Env, q: set<string>, op: Relation, b: bool) {
    match op
    case Lt => if b then q != {} && !SomeNumber(env, q, Lt, 1.0) else !SomeNumber(env, q, Lt, 0.0)
    case Le => if b then SomeNumber(env, q, Le, 1.0) else q != {} && !SomeNumber(env, q, Le, 0.0)
    case Gt => if b then !SomeNumber(env, q, Gt, 1.0) else q == {} || SomeNumber(env, q, Gt, 0.0)
    case Ge => if b then q == {} || SomeNumber(env, q, Ge, 1.0) else SomeNumber(env, q, Ge, 0.0)
    case _ => true
  }

  /** For each relation and boolean, which nodes code and standard agree on, whichever side they stand. */
  lemma RulesAgree(env: Env, q: set<string>, op: Relation, b: bool)
    ensures Compares(env, op, Strings(q), Value(B(b))) == StandardCompares(env, op, Strings(q), Value(B(b)))
       <==> NodesAgree(env, q, op, b)
    ensures Compares(env, Flipped(op), Value(B(b)), Strings(q)) == StandardCompares(env, Flipped(op), Value(B(b)), Strings(q))
       <==> NodesAgree(env, q, op, b)
  {
  }

  /** What the two rules make of a node set and a boolean. */
  lemma Operands(env: Env, l: Expr, r: Expr, c: Context, q: set<string>, b: bool, ascii: bool)
    requires Alike(env, ascii) && Conforms(l, ascii) && Conforms(r, ascii)
    requires SeesXPathNodes(env.d, l) && SeesXPathNodes(env.d, r) && IsXPathNode(env.d, c.item)
    requires TypeOf(l).NodeSetType? && TypeOf(r).BooleanType?
    requires Strings(q) == AsOperand(env, Standard, l, c, All) && b == AsBool(env, Standard, r, c)
    ensures AsOperand(env, Full, l, c, All) == Strings(q)
    ensures forall m: Mode :: AsOperand(env, Full, r, c, m) == AsOperand(env, Standard, r, c, m) == Value(B(b))
  {
    hide GoodLibrary, Linked, Nodes, Native, Conforms;
    StandardValues(env, l, c, ascii);
    StandardValues(env, r, c, ascii);
    OperandKind(env, Standard, r, c, All);
  }

  /** The whole comparison of two parts that do not deviate themselves: the program gives the value XPath 1.0
      says if and only if the numbers of the nodes are such. */
  lemma ComparisonMeetsStandard(env: Env, op: Relation, l: Expr, r: Expr, c: Context, ascii: bool)
    requires Alike(env, ascii) && Formed(l) && Formed(r) && Conforms(l, ascii) && Conforms(r, ascii)
    requires SeesXPathNodes(env.d, l) && SeesXPathNodes(env.d, r) && Somewhere(env.d, c.item) && IsXPathNode(env.d, c.item)
    requires TypeOf(l).NodeSetType? && TypeOf(r).BooleanType?
    ensures var q, b := AsOperand(env, Standard, l, c, All).s, AsBool(env, Standard, r, c);
            && (Native(env, Program, Compare(op, l, r), c) == Native(env, Standard, Compare(op, l, r), c)
                <==> NodesAgree(env, q, op, b))
            && (Native(env, Program, Compare(Flipped(op), r, l), c) == Native(env, Standard, Compare(Flipped(op), r, l), c)
                <==> NodesAgree(env, q, op, b))
  {
    hide GoodLibrary, Linked, Nodes, AsBool, Compares, StandardCompares, SomeNumber;
    AgreeNative(env, Compare(op, l, r), c);
    AgreeNative(env, Compare(Flipped(op), r, l), c);
    if op.Eq? || op.Ne? {
      StandardNative(env, Compare(op, l, r), c, ascii);
      StandardNative(env, Compare(op, r, l), c, ascii);
    } else {
      var q, b := AsOperand(env, Standard, l, c, All).s, AsBool(env, Standard, r, c);
      Operands(env, l, r, c, q, b, ascii);
      RulesAgree(env, q, op, b);
    }
  }

  lemma ZeroAgainstTrue(env: Env)
    requires env.toNumber("0") == Fin(0.0)
    ensures Compares(env, Lt, Strings({"0"}), Value(B(true))) && !StandardCompares(env, Lt, Strings({"0"}), Value(B(true)))
  {
    assert "0" in {"0"};
  }

  /** `nodes < true()` where the only number is 0: the code says true, for 0 is less than 1; the standard says
      false, for a node set that has nodes counts as 1. */
  lemma LessThanTrue(env: Env, l: Expr, r: Expr, c: Context, ascii: bool)
    requires Alike(env, ascii) && Formed(l) && Conforms(l, ascii)
    requires SeesXPathNodes(env.d, l) && Somewhere(env.d, c.item) && IsXPathNode(env.d, c.item)
    requires TypeOf(l).NodeSetType? && AsOperand(env, Standard, l, c, All) == Strings({"0"}) && env.toNumber("0") == Fin(0.0)
    requires r == Call(True, End) && env.lib(True, c.item, []) == B(true)
    ensures Native(env, Program, Compare(Lt, l, r), c) == B(true)
    ensures Native(env, Standard, Compare(Lt, l, r), c) == B(false)
  {
    hide GoodLibrary, Linked, Nodes, AsOperand, StandardCompares;
    AgreeNative(env, Compare(Lt, l, r), c);
    Operands(env, l, r, c, {"0"}, true, ascii);
    ZeroAgainstTrue(env);
  }

  // ---------------------------------------------------------------- the node test that deviates

  /** `/node()`. */
  const TOP_NODES := Step(From(Root), Child, TestTypeNode, NoMore)

  lemma TopNodes(env: Env, reading: Reading, c: Context, x: int)
    requires Good(env) && !reading.Program? && HasItem(env.d, c.item) && env.d.Has(x) && env.d.parent[x] == 0
    ensures Item(x, NONE) in Nodes(env, reading, TOP_NODES, c, All).nodes
       <==> (reading.Standard? ==> !env.d.kind[x].OtherNode?)
  {
    var root := Item(0, NONE);
    TopSet(env, reading, c);
    var s := Items(StepNodes(env.d, reading, Child, TestTypeNode, root));
    TopMembers(env.d, reading, x);
    hide Linked, StepNodes, StepItems, Nodes, GoodLibrary;
    ListBelowMembers(env.d, s, |env.d.attributes|);
  }

  lemma TopStep(env: Env, reading: Reading)
    requires Valid(env.d)
    ensures StepSet(env, reading, TOP_NODES, [Item(0, NONE)], 1)
         == Items(StepNodes(env.d, reading, Child, TestTypeNode, Item(0, NONE)))
  {
    hide Linked, StepNodes;
    var found := StepNodes(env.d, reading, Child, TestTypeNode, Item(0, NONE));
    assert ApplyPredicates(env, reading, NoMore, found, false) == found;
    assert StepSet(env, reading, TOP_NODES, [Item(0, NONE)], 0) == {};
    assert {} + Items(found) == Items(found);
  }

  /** The set that `/node()` means. */
  lemma TopSet(env: Env, reading: Reading, c: Context)
    requires Good(env) && !reading.Program? && HasItem(env.d, c.item)
    ensures Nodes(env, reading, TOP_NODES, c, All).nodes
         == Listing(env.d, Items(StepNodes(env.d, reading, Child, TestTypeNode, Item(0, NONE))))
  {
    hide Linked, StepNodes, Listing, GoodLibrary, StepSet;
    assert Nodes(env, reading, Root, c, All).nodes == [Item(0, NONE)];
    TopStep(env, reading);
  }

  lemma TopMembers(d: Doc, reading: Reading, x: int)
    requires Valid(d) && !reading.Program? && d.Has(x) && d.parent[x] == 0
    ensures Item(x, NONE) in StepNodes(d, reading, Child, TestTypeNode, Item(0, NONE))
       <==> (reading.Standard? ==> !d.kind[x].OtherNode?)
  {
    hide Linked, StepItems, XPathNodes;
    StepMembers(d, Child, TestTypeNode, Item(0, NONE));
    assert InAxis(d, Child, Item(0, NONE), x);
    AllExist(d, StepItems(d, Child, TestTypeNode, Item(0, NONE)));
  }

  /** `/node()` and its count, on a document with a declaration or a document type `x`: the code finds `x`, and
      there is no such node in XPath 1.0. */
  lemma NodeFindsDeclaration(env: Env, c: Context, x: int)
    requires Good(env) && HasItem(env.d, c.item)
    requires env.d.Has(x) && env.d.parent[x] == 0 && env.d.kind[x].OtherNode?
    ensures Item(x, NONE) in Nodes(env, Program, TOP_NODES, c, All).nodes
    ensures Item(x, NONE) !in Nodes(env, Standard, TOP_NODES, c, All).nodes
    ensures Native(env, Program, Count(TOP_NODES), c) != Native(env, Standard, Count(TOP_NODES), c)
  {
    hide GoodLibrary, Linked, Nodes, Listing;
    TopNodes(env, Full, c, x);
    TopNodes(env, Standard, c, x);
    ProgramFinds(env, TOP_NODES, c);
    assert Item(x, NONE) in Items(Nodes(env, Program, TOP_NODES, c, All).nodes);
    AgreeNative(env, Count(TOP_NODES), c);
    FewerInStandard(env, c, x);
  }

  lemma ProgramFinds(env: Env, e: Expr, c: Context)
    requires Good(env) && Formed(e) && TypeOf(e).NodeSetType? && Somewhere(env.d, c.item)
    ensures Items(Nodes(env, Program, e, c, All).nodes) == Items(Nodes(env, Full, e, c, All).nodes)
  {
    hide GoodLibrary, Linked, Nodes, Listing, Formed;
    AgreeNodes(env, e, c, All);
  }

  lemma FewerInStandard(env: Env, c: Context, x: int)
    requires Good(env) && HasItem(env.d, c.item)
    requires Item(x, NONE) in Nodes(env, Full, TOP_NODES, c, All).nodes
    requires Item(x, NONE) !in Nodes(env, Standard, TOP_NODES, c, All).nodes
    ensures |Nodes(env, Standard, TOP_NODES, c, All).nodes| < |Nodes(env, Full, TOP_NODES, c, All).nodes|
  {
    hide Linked, Nodes, Listing, GoodLibrary;
    TopSet(env, Full, c);
    TopSet(env, Standard, c);
    var root := Item(0, NONE);
    var all := Items(StepNodes(env.d, Full, Child, TestTypeNode, root));
    var some := Items(StepNodes(env.d, Standard, Child, TestTypeNode, root));
    TopSubset(env.d, some, all);
    hide StepNodes;
    ListingSize(env.d, all);
    ListingSize(env.d, some);
    assert Item(x, NONE) in all && Item(x, NONE) !in some;
    ProperSubset(some, all);
  }

  lemma TopSubset(d: Doc, some: set<Item>, all: set<Item>)
    requires Valid(d)
    requires all == Items(StepNodes(d, Full, Child, TestTypeNode, Item(0, NONE)))
    requires some == Items(StepNodes(d, Standard, Child, TestTypeNode, Item(0, NONE)))
    ensures some <= all && Within(d, all) && Within(d, some)
  {
    hide Linked, StepItems, XPathNodes, IsXPathNode, InAxis;
    StepMembers(d, Child, TestTypeNode, Item(0, NONE));
    AllExist(d, StepItems(d, Child, TestTypeNode, Item(0, NONE)));
  }

  lemma ListingSize(d: Doc, s: set<Item>)
    requires Valid(d) && Within(d, s)
    ensures |Listing(d, s)| == |s| && Items(Listing(d, s)) == s
  {
    hide Linked, Listing;
    ListingIsSet(d, s);
    SizeOfItems(Listing(d, s));
  }

  lemma ProperSubset(s: set<Item>, t: set<Item>)
    requires s < t
    ensures |s| < |t|
  {
    assert |t| == |s| + |t - s| by { assert t == s + (t - s); }
    var y :| y in t && y !in s;
    assert y in t - s;
  }

  // ---------------------------------------------------------------- the strings that deviate

  /** `translate('é', 'à', 'a')` in UTF-8: the code translates the byte that the two letters share. */
  lemma TranslateCutsCharacters(env: Env, c: Context)
    requires Good(env)
    ensures var e, a := [0xC3 as char, 0xA9 as char], [0xC3 as char, 0xA0 as char];
            && e == U.Encode8([0xE9]) && a == U.Encode8([0xE0])
            && Native(env, Program, Translate(Text(e), Text(a), Text("a")), c) == S(['a', 0xA9 as char])
            && Native(env, Standard, Translate(Text(e), Text(a), Text("a")), c) == S(e)
  {
    hide GoodLibrary, Linked, TranslateText, StandardTranslate, AsText, U.Encode8;
    TranslateSplits();
    forall reading: Reading, s ensures AsText(env, reading, Text(s), c) == s { LiteralText(env, reading, Text(s), c); }
  }

  lemma OneString(env: Env, reading: Reading, l: Expr, c: Context)
    requires Valid(env.d)
    ensures ArgumentValues(env, reading, StringLength1, Arg(l, End), 0, c) == [StringArg(AsText(env, reading, l, c))]
  {
    hide Linked, AsText, AsBool, AsNum, Nodes;
    assert ArgumentValues(env, reading, StringLength1, End, 1, c) == [];
  }

  /** `string-length` of a text in UTF-8 is the number of its characters if and only if it is ASCII. */
  lemma StringLengthMeetsStandard(env: Env, l: Expr, c: Context, ascii: bool, cs: seq<int>)
    requires Alike(env, ascii) && CountsBytes(env) && Formed(l) && Conforms(l, ascii) && SeesXPathNodes(env.d, l)
    requires Somewhere(env.d, c.item) && IsXPathNode(env.d, c.item)
    requires U.Scalars(cs) && AsText(env, Standard, l, c) == U.Encode8(cs)
    ensures var e := Call(StringLength1, Arg(l, End));
            && Native(env, Standard, e, c) == N(Fin(|cs| as real))
            && (Native(env, Program, e, c) == Native(env, Standard, e, c) <==> forall k | 0 <= k < |cs| :: cs[k] < 0x80)
  {
    hide Linked, Nodes, AsText, AsBool, AsNum, Formed, Conforms, SeesXPathNodes, IsXPathNode, Exist, Characters, AsciiWorld,
         SetsExist, Native, CountsBytes;
    GoodAlike(env, ascii);
    hide GoodLibrary;
    AgreeValues(env, l, c);
    StandardValues(env, l, c, ascii);
    CharactersOfText(cs);
    BytesOfText(cs);
    LengthsAre(env, l, c);
    hide U.Encode8;
  }

  lemma LengthsAre(env: Env, l: Expr, c: Context)
    requires Valid(env.d) && CountsBytes(env)
    ensures var e := Call(StringLength1, Arg(l, End));
            && Native(env, Standard, e, c) == N(Fin(|Characters(AsText(env, Standard, l, c))| as real))
            && Native(env, Program, e, c) == N(Fin(|AsText(env, Program, l, c)| as real))
  {
    hide Linked, Nodes, AsText, AsBool, AsNum, Characters, ArgumentValues;
    OneString(env, Standard, l, c);
    OneString(env, Program, l, c);
  }
}
