// The value of an expression as XPath 1.0 defines it, apart from any way to compute it: node sets are sets, a
// predicate selects by the proximity position of each node in its set, and a comparison of node sets is an
// existential statement. It uses no function of the evaluator.
//
// The document is taken as the library shows it to queries (see XPathStandard). String values, the conversions
// between numbers and strings and the functions of the core library other than those that number characters are
// those of the environment.
module XPathMeaning {

  import opened Documents
  import opened XPath

  datatype XValue = Of(v: Scalar) | NodeSet(s: set<Item>)

  // ---------------------------------------------------------------- node sets

  predicate IsFirst(y: Item, s: set<Item>) { y in s && forall z | z in s && z != y :: Before(y, z) }

  lemma {:induction false} SomeIsFirst(s: set<Item>)
    requires s != {}
    ensures exists y :: IsFirst(y, s)
  {
    var x :| x in s;
    if s != {x} {
      var t := s - {x};
      SomeIsFirst(t);
      var y :| IsFirst(y, t);
      if Before(x, y) {
        forall z | z in s && z != x ensures Before(x, z) { assert z in t; }
        assert IsFirst(x, s);
      } else {
        assert IsFirst(y, s);
      }
    } else {
      assert IsFirst(x, s);
    }
  }

  /** The node of `s` that is first in document order. */
  ghost function FirstInDocument(s: set<Item>): (y: Item)
    requires s != {}
    ensures IsFirst(y, s)
  {
    SomeIsFirst(s);
    var y :| IsFirst(y, s);
    y
  }

  /** Section 2.4: the proximity position of `y` in `s`, with respect to a forward or a reverse axis. */
  ghost function ProximityPosition(s: set<Item>, y: Item, reverse: bool): nat {
    1 + |set z | z in s && if reverse then Before(y, z) else Before(z, y)|
  }

  // ---------------------------------------------------------------- conversions

  /** Section 4.3, `boolean`. */
  ghost function BooleanOf(v: XValue): bool {
    match v
    case NodeSet(s) => s != {}
    case Of(N(n)) => n != NaN && n != Fin(0.0)
    case Of(S(s)) => |s| > 0
    case Of(B(b)) => b
  }

  /** Section 4.2, `string`. */
  ghost function StringOf(env: Env, v: XValue): string {
    match v
    case NodeSet(s) => if s == {} then "" else env.stringValue(FirstInDocument(s))
    case Of(N(n)) => env.toText(n)
    case Of(S(s)) => s
    case Of(B(b)) => if b then "true" else "false"
  }

  /** Section 4.4, `number`. */
  ghost function NumberOf(env: Env, v: XValue): Number {
    match v
    case NodeSet(_) => env.toNumber(StringOf(env, v))
    case Of(N(n)) => n
    case Of(S(s)) => env.toNumber(s)
    case Of(B(b)) => if b then Fin(1.0) else Fin(0.0)
  }

  // ---------------------------------------------------------------- comparisons

  /** IEEE 754: not-a-number is neither less than, equal to nor greater than anything. */
  predicate Less(a: Number, b: Number) {
    match (a, b)
    case (Fin(x), Fin(y)) => x < y
    case (MinusInfinity, Fin(_)) => true
    case (MinusInfinity, PlusInfinity) => true
    case (Fin(_), PlusInfinity) => true
    case _ => false
  }

  predicate Same(a: Number, b: Number) { a == b && a != NaN }

  predicate NumbersCompare(op: Relation, a: Number, b: Number) {
    match op
    case Eq => Same(a, b)
    case Ne => !Same(a, b)
    case Lt => Less(a, b)
    case Le => Less(a, b) || Same(a, b)
    case Gt => Less(b, a)
    case Ge => Less(b, a) || Same(a, b)
  }

  /** Section 3.4, for two operands that are no node sets. */
  ghost predicate ScalarsCompare(env: Env, op: Relation, x: Scalar, y: Scalar) {
    if !op.Eq? && !op.Ne? then NumbersCompare(op, NumberOf(env, Of(x)), NumberOf(env, Of(y)))
    else if x.B? || y.B? then (BooleanOf(Of(x)) == BooleanOf(Of(y))) <==> op.Eq?
    else if x.N? || y.N? then NumbersCompare(op, NumberOf(env, Of(x)), NumberOf(env, Of(y)))
    else (StringOf(env, Of(x)) == StringOf(env, Of(y))) <==> op.Eq?
  }

  /** The string value of a node, as a number next to a number. */
  ghost function NodeAgainst(env: Env, i: Item, other: Scalar): Scalar {
    if other.N? then N(env.toNumber(env.stringValue(i))) else S(env.stringValue(i))
  }

  /** Section 3.4: two node sets compare if two of their nodes do by their string values; a node set compares with
      a string or a number if one of its nodes does, and with a boolean as the boolean it converts to. */
  ghost predicate ValuesCompare(env: Env, op: Relation, x: XValue, y: XValue) {
    match (x, y)
    case (NodeSet(p), NodeSet(q)) =>
      exists i, j :: i in p && j in q && ScalarsCompare(env, op, S(env.stringValue(i)), S(env.stringValue(j)))
    case (NodeSet(p), Of(v)) =>
      if v.B? then ScalarsCompare(env, op, B(BooleanOf(x)), v)
      else exists i :: i in p && ScalarsCompare(env, op, NodeAgainst(env, i, v), v)
    case (Of(v), NodeSet(q)) =>
      if v.B? then ScalarsCompare(env, op, v, B(BooleanOf(y)))
      else exists j :: j in q && ScalarsCompare(env, op, v, NodeAgainst(env, j, v))
    case (Of(v), Of(w)) => ScalarsCompare(env, op, v, w)
  }

  // ---------------------------------------------------------------- steps

  /** A node of the data model (section 5): no declaration or document type, and no attribute of one. */
  predicate InDataModel(d: Doc, y: Item)
    requires Valid(d) && HasItem(d, y)
  {
    TypeAt(d, Item(y.node, NONE)) != NoType
  }

  /** No earlier attribute of the element has the name of `y`. */
  predicate IsFirstOfItsName(d: Doc, y: Item)
    requires Valid(d) && HasItem(d, y)
  {
    forall k | 0 <= k < y.attr :: d.attributes[y.node][k].name != NameAt(d, y)
  }

  /** What axis and node test select from `i`. */
  ghost function Selection(d: Doc, a: Axis, t: NodeTest, i: Item): set<Item>
    requires Valid(d)
  {
    if !HasItem(d, i) then {}
    else set y | y in Chosen(d, a, i, t) && InDataModel(d, y) && (a.AttributeAxis? && t.TestName? ==> IsFirstOfItsName(d, y))
  }

  // ---------------------------------------------------------------- calls

  /** What becomes of argument number `k` of a function (sections 3.5 and 4.1 to 4.4). */
  ghost function Converted(env: Env, f: Function, k: nat, v: XValue): Argument {
    if f in {LocalName1, NamespaceUri1, Name1} then
      NodeArg(if v.NodeSet? && v.s != {} then FirstInDocument(v.s) else NOWHERE)
    else if f == Sum then NodesArg(if v.NodeSet? then multiset(v.s) else multiset{})
    else if f in {Add, Subtract, Multiply, Divide, Mod, Negate, Number1, Floor, Ceiling, Round} then
      NumberArg(NumberOf(env, v))
    else if f in {Substring2, Substring3} && k > 0 then NumberArg(NumberOf(env, v))
    else if f in {Boolean, Not} then BooleanArg(BooleanOf(v))
    else StringArg(StringOf(env, v))
  }

  // ---------------------------------------------------------------- expressions

  function NodesIn(v: XValue): set<Item> { if v.NodeSet? then v.s else {} }

  /** The expression is made of what the grammar of XPath 1.0 has: the other two forms come from the optimizer. */
  predicate Written(e: Expr) {
    match e
    case Or(l, r) => Written(l) && Written(r)
    case And(l, r) => Written(l) && Written(r)
    case Compare(_, l, r) => Written(l) && Written(r)
    case Union(l, r) => Written(l) && Written(r)
    case Filter(l, _, r) => Written(l) && Written(r)
    case Step(start, _, _, preds) => (start.From? ==> Written(start.left)) && WrittenPredicates(preds)
    case Id(l) => Written(l)
    case Count(l) => Written(l)
    case Call(_, args) => WrittenArguments(args)
    case Translate(l, from, to) => Written(l) && Written(from) && Written(to)
    case TranslateTable(_, _) => false
    case CompareAttribute(_, _) => false
    case _ => true
  }

  predicate WrittenPredicates(preds: Predicates) { preds.Pred? ==> Written(preds.right) && WrittenPredicates(preds.next) }

  predicate WrittenArguments(args: Arguments) { args.Arg? ==> Written(args.e) && WrittenArguments(args.next) }

  /** The value of an expression in a context. */
  ghost function Meaning(env: Env, e: Expr, c: Context): XValue
    requires Valid(env.d)
    decreases e, 0
  {
    match e
    case Text(s) => Of(S(s))
    case Num(n) => Of(N(n))
    case Variable(name, NumberType) => Of(N(env.numberVar(name)))
    case Variable(name, StringType) => Of(S(env.stringVar(name)))
    case Variable(name, BooleanType) => Of(B(env.booleanVar(name)))
    case Variable(name, NodeSetType) => NodeSet(set i | i in env.setVar(name).nodes)
    case Position => Of(N(Fin(c.position as real)))
    case Last => Of(N(Fin(c.size as real)))
    case Or(l, r) => Of(B(BooleanOf(Meaning(env, l, c)) || BooleanOf(Meaning(env, r, c))))
    case And(l, r) => Of(B(BooleanOf(Meaning(env, l, c)) && BooleanOf(Meaning(env, r, c))))
    case Compare(op, l, r) => Of(B(ValuesCompare(env, op, Meaning(env, l, c), Meaning(env, r, c))))
    case Union(l, r) => NodeSet(NodesIn(Meaning(env, l, c)) + NodesIn(Meaning(env, r, c)))
    case Filter(l, _, r) => NodeSet(Passing(env, r, NodesIn(Meaning(env, l, c)), false))
    case Step(start, a, t, preds) =>
      var from := if start.From? then NodesIn(Meaning(env, start.left, c)) else {c.item};
      NodeSet(set i, y | i in from && y in PassingAll(env, preds, Selection(env.d, a, t, i), IsReverse(a)) :: y)
    case Root => NodeSet(if c.item == NOWHERE then {} else {Item(0, NONE)})
    case Id(_) => NodeSet({})
    case Count(l) => Of(N(Fin(|NodesIn(Meaning(env, l, c))| as real)))
    case Call(f, args) => Of(StandardCall(env, f, c.item, Converteds(env, f, args, 0, c)))
    case Translate(l, from, to) =>
      Of(S(StandardTranslate(StringOf(env, Meaning(env, l, c)), StringOf(env, Meaning(env, from, c)), StringOf(env, Meaning(env, to, c)))))
    case TranslateTable(_, _) => Of(B(false))
    case CompareAttribute(_, _) => Of(B(false))
  }

  ghost function Converteds(env: Env, f: Function, args: Arguments, k: nat, c: Context): seq<Argument>
    requires Valid(env.d)
    decreases args, 0
  {
    match args
    case End => []
    case Arg(e, next) => [Converted(env, f, k, Meaning(env, e, c))] + Converteds(env, f, next, k + 1, c)
  }

  /** Section 2.4: a number is true if it is the position, any other value if its boolean is. */
  ghost predicate IsTrue(env: Env, e: Expr, c: Context)
    requires Valid(env.d)
    decreases e, 1
  {
    var v := Meaning(env, e, c);
    if v.Of? && v.v.N? then Same(v.v.n, Fin(c.position as real)) else BooleanOf(v)
  }

  /** The nodes of `s` of which the predicate is true, at their positions. */
  ghost function Passing(env: Env, e: Expr, s: set<Item>, reverse: bool): set<Item>
    requires Valid(env.d)
    decreases e, 2
  {
    set y | y in s && IsTrue(env, e, Context(y, ProximityPosition(s, y, reverse), |s|))
  }

  ghost function PassingAll(env: Env, preds: Predicates, s: set<Item>, reverse: bool): set<Item>
    requires Valid(env.d)
    decreases preds
  {
    match preds
    case NoMore => s
    case Pred(_, e, next) => PassingAll(env, next, Passing(env, e, s, reverse), reverse)
  }
}
