// XPath 1.0 expressions as the parser builds them, and their evaluation.
//
// One evaluator serves three readings. `Program` is the code: node sets are raw sequences with an order
// tag, built with the short-cut modes (all, any, first), the `once` flags, the classified predicates and the
// removal of duplicates by address. `Full` has no short cuts: node sets are computed in full and listed in
// document order, and a predicate is always tried on every node; its comparisons are those of the code.
// `Standard` is full evaluation as XPath 1.0 has it where the code does not: the comparisons are those of its
// section 3.4, a document has no nodes for declarations and document types (section 5), and strings are made
// of characters (section 3.6), where the code counts and compares bytes.
module XPath {

  import opened Documents

  datatype Type = NodeSetType | NumberType | StringType | BooleanType

  /** Numbers; the rounding of doubles is left to the library functions of the environment. */
  datatype Number = NaN | MinusInfinity | PlusInfinity | Fin(v: real)

  datatype Scalar = B(b: bool) | N(n: Number) | S(s: string)

  datatype Function =
    | Add | Subtract | Multiply | Divide | Mod | Negate
    | LocalName0 | LocalName1 | NamespaceUri0 | NamespaceUri1 | Name0 | Name1 | String0 | String1
    | Concat | StartsWith | Contains | SubstringBefore | SubstringAfter | Substring2 | Substring3
    | StringLength0 | StringLength1 | NormalizeSpace0 | NormalizeSpace1
    | Boolean | Not | True | False | Lang | Number0 | Number1 | Sum | Floor | Ceiling | Round

  datatype Relation = Eq | Ne | Lt | Gt | Le | Ge

  datatype PredicateTest = Default | PosInv | Constant | ConstantOne

  datatype Expr =
    | Text(s: string)
    | Num(n: Number)
    | Variable(name: string, ty: Type)
    | Position
    | Last
    | Or(left: Expr, right: Expr)
    | And(left: Expr, right: Expr)
    | Compare(op: Relation, left: Expr, right: Expr)
    | Union(left: Expr, right: Expr)
    | Filter(left: Expr, test: PredicateTest, right: Expr)
    | Step(start: Start, axis: Axis, nodeTest: NodeTest, preds: Predicates)
    | Root
    | Id(left: Expr)
    | Count(left: Expr)
    | Call(f: Function, args: Arguments)
    | Translate(left: Expr, from: Expr, to: Expr)
    | TranslateTable(left: Expr, table: seq<nat>)
    | CompareAttribute(attribute: string, right: Expr)

  datatype Start = FromContext | From(left: Expr)

  datatype Predicates = NoMore | Pred(test: PredicateTest, right: Expr, next: Predicates)

  datatype Arguments = End | Arg(e: Expr, next: Arguments)

  function Returns(f: Function): Type {
    match f
    case Add | Subtract | Multiply | Divide | Mod | Negate => NumberType
    case StringLength0 | StringLength1 | Number0 | Number1 | Sum | Floor | Ceiling | Round => NumberType
    case StartsWith | Contains | Boolean | Not | True | False | Lang => BooleanType
    case _ => StringType
  }

  function TypeOf(e: Expr): Type {
    match e
    case Text(_) => StringType
    case Num(_) => NumberType
    case Variable(_, ty) => ty
    case Position => NumberType
    case Last => NumberType
    case Or(_, _) => BooleanType
    case And(_, _) => BooleanType
    case Compare(_, _, _) => BooleanType
    case Count(_) => NumberType
    case Call(f, _) => Returns(f)
    case Translate(_, _, _) => StringType
    case TranslateTable(_, _) => StringType
    case CompareAttribute(_, _) => BooleanType
    case Union(_, _) => NodeSetType
    case Filter(_, _, _) => NodeSetType
    case Step(_, _, _, _) => NodeSetType
    case Root => NodeSetType
    case Id(_) => NodeSetType
  }

  /** How a library function takes its arguments. */
  datatype ArgumentKind = AsNumber | AsString | AsBoolean | FirstNode | AllNodes

  function KindOf(f: Function, k: nat): ArgumentKind {
    match f
    case Add | Subtract | Multiply | Divide | Mod | Negate | Floor | Ceiling | Round | Number1 => AsNumber
    case LocalName1 | NamespaceUri1 | Name1 => FirstNode
    case Sum => AllNodes
    case Boolean | Not => AsBoolean
    case Substring2 | Substring3 => if k == 0 then AsString else AsNumber
    case _ => AsString
  }

  datatype Argument = NumberArg(n: Number) | StringArg(s: string) | BooleanArg(b: bool) | NodeArg(i: Item) | NodesArg(m: multiset<Item>)

  // ---------------------------------------------------------------- node sets

  datatype Order = Sorted | Reversed | Unsorted

  datatype Raw = Raw(nodes: seq<Item>, order: Order)

  datatype Mode = All | Any | First

  /** The null node, which a query may be started on. */
  const NOWHERE := Item(NONE, NONE)

  function Items(s: seq<Item>): set<Item> { set i | i in s }

  predicate NoRepeats(s: seq<Item>) { forall j, k | 0 <= j < k < |s| :: s[j] != s[k] }

  function Reverse(s: seq<Item>): seq<Item> { if s == [] then [] else Reverse(s[1..]) + [s[0]] }

  /** The items of `s` that stand at node `x`, the node first and then its attributes up to number `a`. */
  function ListAt(s: set<Item>, x: int, a: int): seq<Item>
    decreases a + 1
  {
    if a < NONE then [] else ListAt(s, x, a - 1) + (if Item(x, a) in s then [Item(x, a)] else [])
  }

  function ListBelow(d: Doc, s: set<Item>, n: nat): seq<Item>
    requires n <= |d.attributes|
  {
    if n == 0 then [] else ListBelow(d, s, n - 1) + ListAt(s, n - 1, |d.attributes[n - 1]| - 1)
  }

  /** A set of items in document order. */
  function Listing(d: Doc, s: set<Item>): seq<Item> { ListBelow(d, s, |d.attributes|) }

  /** `xpath_get_order`: looks at neighbours only. */
  function OrderOf(s: seq<Item>): Order {
    if |s| < 2 then Sorted
    else if exists k | 0 < k < |s| - 1 :: Before(s[k], s[k + 1]) != Before(s[0], s[1]) then Unsorted
    else if Before(s[0], s[1]) then Sorted
    else Reversed
  }

  /** `sort_do`. */
  function SortDo(d: Doc, r: Raw): Raw {
    var order := if r.order.Unsorted? then OrderOf(r.nodes) else r.order;
    match order
    case Sorted => Raw(r.nodes, Sorted)
    case Reversed => Raw(Reverse(r.nodes), Sorted)
    case Unsorted => Raw(Listing(d, Items(r.nodes)), Sorted)
  }

  function LeastOf(s: seq<Item>): Item
    requires s != []
  {
    if |s| == 1 then s[0]
    else
      var m := LeastOf(s[..|s| - 1]);
      if Before(s[|s| - 1], m) then s[|s| - 1] else m
  }

  /** `xpath_first`. */
  function FirstOf(r: Raw): Item {
    if r.nodes == [] then NOWHERE
    else match r.order
      case Sorted => r.nodes[0]
      case Reversed => r.nodes[|r.nodes| - 1]
      case Unsorted => LeastOf(r.nodes)
  }

  predicate EvalOnce(order: Order, mode: Mode) {
    if order.Sorted? then !mode.All? else mode.Any?
  }

  // ---------------------------------------------------------------- the environment

  /** The document, the variables, and the library the query runs with. `dedupe` is the removal of
      duplicates through sorting by address. */
  datatype Env = Env(
    d: Doc,
    numberVar: string -> Number,
    stringVar: string -> string,
    booleanVar: string -> bool,
    setVar: string -> Raw,
    lib: (Function, Item, seq<Argument>) -> Scalar,
    stringValue: Item -> string,
    toNumber: string -> Number,
    toText: Number -> string,
    dedupe: seq<Item> -> seq<Item>)

  predicate Somewhere(d: Doc, i: Item)
    requires Valid(d)
  {
    i == NOWHERE || HasItem(d, i)
  }

  predicate AllThere(d: Doc, s: seq<Item>)
    requires Valid(d)
  {
    forall k | 0 <= k < |s| :: HasItem(d, s[k])
  }

  /** A node set that is what its tag says: each item once, in the order given if any. */
  predicate Proper(d: Doc, r: Raw)
    requires Valid(d)
  {
    && AllThere(d, r.nodes)
    && NoRepeats(r.nodes)
    && (r.order.Sorted? ==> InOrder(r.nodes))
    && (r.order.Reversed? ==> InReverse(r.nodes))
  }

  predicate Fits(ty: Type, v: Scalar) {
    match ty
    case NumberType => v.N?
    case StringType => v.S?
    case BooleanType => v.B?
    case NodeSetType => false
  }

  /** The library returns values of its types, variables hold proper node sets, the string value of an
      attribute is its value, and `dedupe` keeps each item once. */
  ghost predicate GoodLibrary(env: Env)
    requires Valid(env.d)
  {
    && (forall f, i, args :: Fits(Returns(f), env.lib(f, i, args)))
    && (forall name :: Proper(env.d, env.setVar(name)))
    && (forall i | HasItem(env.d, i) && i.attr != NONE :: env.stringValue(i) == env.d.attributes[i.node][i.attr].value)
    && (forall s :: NoRepeats(env.dedupe(s)) && Items(env.dedupe(s)) == Items(s))
  }

  ghost predicate Good(env: Env) { Valid(env.d) && GoodLibrary(env) }

  // ---------------------------------------------------------------- conversions and comparisons

  function ToBoolean(v: Scalar): bool {
    match v
    case B(b) => b
    case N(n) => !n.NaN? && n != Fin(0.0)
    case S(s) => s != ""
  }

  function ToNumber(env: Env, v: Scalar): Number {
    match v
    case B(b) => Fin(if b then 1.0 else 0.0)
    case N(n) => n
    case S(s) => env.toNumber(s)
  }

  function ToText(env: Env, v: Scalar): string {
    match v
    case B(b) => if b then "true" else "false"
    case N(n) => env.toText(n)
    case S(s) => s
  }

  predicate NumberEq(a: Number, b: Number) { !a.NaN? && a == b }

  predicate NumberLt(a: Number, b: Number) {
    if a.NaN? || b.NaN? then false
    else if a.Fin? && b.Fin? then a.v < b.v
    else a != b && (a.MinusInfinity? || b.PlusInfinity?)
  }

  /** What a comparison sees of an operand: a value, or the string values of a node set. */
  datatype Operand = Value(v: Scalar) | Strings(s: set<string>)

  predicate Equals(env: Env, op: Relation, a: Operand, b: Operand) {
    match (a, b)
    case (Value(x), Value(y)) =>
      if x.B? || y.B? then (ToBoolean(x) == ToBoolean(y)) == op.Eq?
      else if x.N? || y.N? then NumberEq(ToNumber(env, x), ToNumber(env, y)) == op.Eq?
      else (x == y) == op.Eq?
    case (Strings(p), Strings(q)) => exists x, y | x in p && y in q :: (x == y) == op.Eq?
    case (Value(x), Strings(q)) => EqualsSome(env, op, x, q)
    case (Strings(p), Value(y)) => EqualsSome(env, op, y, p)
  }

  predicate EqualsSome(env: Env, op: Relation, x: Scalar, q: set<string>) {
    match x
    case B(b) => (b == (q != {})) == op.Eq?
    case N(n) => exists y | y in q :: NumberEq(n, env.toNumber(y)) == op.Eq?
    case S(s) => exists y | y in q :: (s == y) == op.Eq?
  }

  predicate NumberBelow(orEqual: bool, a: Number, b: Number) { NumberLt(a, b) || (orEqual && NumberEq(a, b)) }

  /** `compare_rel` with `less` or `less_equal`. */
  predicate Below(env: Env, orEqual: bool, a: Operand, b: Operand) {
    match (a, b)
    case (Value(x), Value(y)) => NumberBelow(orEqual, ToNumber(env, x), ToNumber(env, y))
    case (Strings(p), Strings(q)) =>
      exists x, y | x in p && y in q :: NumberBelow(orEqual, env.toNumber(x), env.toNumber(y))
    case (Value(x), Strings(q)) => exists y | y in q :: NumberBelow(orEqual, ToNumber(env, x), env.toNumber(y))
    case (Strings(p), Value(y)) => exists x | x in p :: NumberBelow(orEqual, env.toNumber(x), ToNumber(env, y))
  }

  predicate Compares(env: Env, op: Relation, a: Operand, b: Operand) {
    match op
    case Eq => Equals(env, op, a, b)
    case Ne => Equals(env, op, a, b)
    case Lt => Below(env, false, a, b)
    case Gt => Below(env, false, b, a)
    case Le => Below(env, true, a, b)
    case Ge => Below(env, true, b, a)
  }

  /** An operand as section 3.4 of XPath 1.0 compares it with `other`: next to a boolean, a node set is made
      a boolean itself, whether it has nodes. */
  function Meant(a: Operand, other: Operand): Operand {
    if a.Strings? && other.Value? && other.v.B? then Value(B(a.s != {})) else a
  }

  predicate StandardCompares(env: Env, op: Relation, a: Operand, b: Operand) {
    Compares(env, op, Meant(a, b), Meant(b, a))
  }

  // ---------------------------------------------------------------- translate

  /** The place of the first `c` in `s`, or its length. */
  function Find(s: string, c: char): (p: nat)
    ensures p <= |s| && (p < |s| ==> s[p] == c)
    ensures c !in s[..p]
  {
    if s == "" || s[0] == c then 0
    else
      var q := Find(s[1..], c);
      assert s[..q + 1] == [s[0]] + s[1..][..q];
      q + 1
  }

  /** `translate`: a character of `from` becomes its counterpart in `to`, or goes when there is none. */
  function TranslateText(s: string, from: string, to: string): string {
    if s == "" then ""
    else
      var p := Find(from, s[0]);
      (if p >= |from| then [s[0]] else if p < |to| then [to[p]] else "") + TranslateText(s[1..], from, to)
  }

  /** `translate_table`: code 128 stands for a character to be skipped. */
  function ByTable(s: string, table: seq<nat>): string {
    if s == "" then ""
    else
      var c := s[0] as int;
      (if c < 128 && c < |table|
       then (if table[c] >= 128 then "" else [table[c] as char])
       else [s[0]]) + ByTable(s[1..], table)
  }

  /** The first attribute of `x` with this name, from number `k` on. */
  function FindAttribute(d: Doc, x: int, name: string, k: nat): int
    requires Valid(d) && d.Has(x) && k <= |d.attributes[x]|
    decreases |d.attributes[x]| - k
  {
    if k == |d.attributes[x]| then NONE
    else if d.attributes[x][k].name == name then k
    else FindAttribute(d, x, name, k + 1)
  }

  predicate AttributeEquals(d: Doc, i: Item, name: string, value: string)
    requires Valid(d)
  {
    HasItem(d, i) && i.attr == NONE &&
    var k := FindAttribute(d, i.node, name, 0);
    0 <= k < |d.attributes[i.node]| && d.attributes[i.node][k].value == value && IsXPathAttribute(name)
  }

  // ---------------------------------------------------------------- characters

  /** 10xxxxxx, a byte that continues a character. */
  predicate Continues(c: char) { 0x80 <= c as int < 0xC0 }

  function CharacterEnd(s: string, k: nat): (e: nat)
    requires k <= |s|
    ensures k <= e <= |s|
    decreases |s| - k
  {
    if k < |s| && Continues(s[k]) then CharacterEnd(s, k + 1) else k
  }

  /** The length of the character that `s` starts with: a byte from 0xC0 on takes the bytes that continue it. */
  function CharacterLength(s: string): (n: nat)
    requires s != ""
    ensures 1 <= n <= |s|
  {
    if s[0] as int >= 0xC0 then CharacterEnd(s, 1) else 1
  }

  /** The characters of a text in UTF-8, each with its bytes. */
  function Characters(s: string): seq<string> {
    if s == "" then [] else [s[..CharacterLength(s)]] + Characters(s[CharacterLength(s)..])
  }

  function Join(us: seq<string>): string { if us == [] then "" else us[0] + Join(us[1..]) }

  /** The place of the first `u` in `us`, or its length. */
  function FindUnit(us: seq<string>, u: string): (p: nat)
    ensures p <= |us|
  {
    if us == [] || us[0] == u then 0 else FindUnit(us[1..], u) + 1
  }

  /** Section 4.2 of XPath 1.0, `translate`: a character of `from` becomes its counterpart in `to`, or goes when
      there is none. */
  function TranslateUnits(us: seq<string>, from: seq<string>, to: seq<string>): seq<string> {
    if us == [] then []
    else
      var p := FindUnit(from, us[0]);
      (if p >= |from| then [us[0]] else if p < |to| then [to[p]] else []) + TranslateUnits(us[1..], from, to)
  }

  function StandardTranslate(s: string, from: string, to: string): string {
    Join(TranslateUnits(Characters(s), Characters(from), Characters(to)))
  }

  /** `round_nearest`. */
  function RoundNearest(n: Number): Number { if n.Fin? then Fin((n.v + 0.5).Floor as real) else n }

  function Plus(a: Number, b: Number): Number {
    if a.NaN? || b.NaN? then NaN
    else if a.Fin? && b.Fin? then Fin(a.v + b.v)
    else if a.Fin? then b
    else if b.Fin? || a == b then a
    else NaN
  }

  /** The characters, numbered from `k` on, whose numbers are at least `first` and less than `last`. */
  function PickUnits(us: seq<string>, k: nat, first: Number, last: Number): seq<string> {
    if us == [] then []
    else
      (if NumberBelow(true, first, Fin(k as real)) && NumberLt(Fin(k as real), last) then [us[0]] else [])
      + PickUnits(us[1..], k + 1, first, last)
  }

  /** Section 4.2 of XPath 1.0, `substring`. */
  function StandardSubstring(s: string, first: Number, last: Number): string {
    Join(PickUnits(Characters(s), 1, first, last))
  }

  /** The functions that number the characters of a string. */
  predicate CountsCharacters(f: Function) { f.StringLength0? || f.StringLength1? || f.Substring2? || f.Substring3? }

  /** A library function as XPath 1.0 has it: the one of the program, unless it numbers characters. */
  function StandardCall(env: Env, f: Function, i: Item, args: seq<Argument>): Scalar {
    if f.StringLength0? then N(Fin(|Characters(env.stringValue(i))| as real))
    else if f.StringLength1? && |args| == 1 && args[0].StringArg? then N(Fin(|Characters(args[0].s)| as real))
    else if f.Substring2? && |args| == 2 && args[0].StringArg? && args[1].NumberArg? then
      S(StandardSubstring(args[0].s, RoundNearest(args[1].n), PlusInfinity))
    else if f.Substring3? && |args| == 3 && args[0].StringArg? && args[1].NumberArg? && args[2].NumberArg? then
      S(StandardSubstring(args[0].s, RoundNearest(args[1].n), Plus(RoundNearest(args[1].n), RoundNearest(args[2].n))))
    else env.lib(f, i, args)
  }

  // ---------------------------------------------------------------- evaluation

  datatype Reading = Program | Full | Standard

  datatype Context = Context(item: Item, position: nat, size: nat)

  /** What `step_fill` selects from `i`. A name test on the attribute axis stops at the first attribute of
      that name. */
  function StepItems(d: Doc, a: Axis, t: NodeTest, i: Item): seq<Item>
    requires Valid(d)
  {
    if HasItem(d, i) then Limit(AxisItems(d, a, i, t), a.AttributeAxis? && t.TestName?) else []
  }

  /** XPath 1.0 has no declaration or document type nodes, and no attributes of such. */
  predicate IsXPathNode(d: Doc, i: Item)
    requires Valid(d)
  {
    HasItem(d, i) ==> !d.kind[i.node].OtherNode?
  }

  function XPathNodes(d: Doc, s: seq<Item>): seq<Item>
    requires Valid(d)
  {
    if s == [] then [] else (if IsXPathNode(d, s[0]) then [s[0]] else []) + XPathNodes(d, s[1..])
  }

  /** What axis and node test select from `i`. */
  function StepNodes(d: Doc, reading: Reading, a: Axis, t: NodeTest, i: Item): seq<Item>
    requires Valid(d)
  {
    if reading.Standard? then XPathNodes(d, StepItems(d, a, t, i)) else StepItems(d, a, t, i)
  }

  /** `apply_predicate_number_const`. */
  function PickConstant(n: Number, s: seq<Item>): seq<Item> {
    if n.Fin? && 1.0 <= n.v <= |s| as real && n.v == n.v.Floor as real then [s[n.v.Floor - 1]] else []
  }

  function AsBool(env: Env, reading: Reading, e: Expr, c: Context): bool
    requires Valid(env.d)
    decreases e, 1
  {
    if TypeOf(e).NodeSetType? then Nodes(env, reading, e, c, Any).nodes != [] else ToBoolean(Native(env, reading, e, c))
  }

  function AsText(env: Env, reading: Reading, e: Expr, c: Context): string
    requires Valid(env.d)
    decreases e, 1
  {
    if TypeOf(e).NodeSetType? then
      var ns := Nodes(env, reading, e, c, First);
      if ns.nodes == [] then "" else env.stringValue(FirstOf(ns))
    else ToText(env, Native(env, reading, e, c))
  }

  function AsNum(env: Env, reading: Reading, e: Expr, c: Context): Number
    requires Valid(env.d)
    decreases e, 2
  {
    if TypeOf(e).NodeSetType? then env.toNumber(AsText(env, reading, e, c)) else ToNumber(env, Native(env, reading, e, c))
  }

  function AsOperand(env: Env, reading: Reading, e: Expr, c: Context, mode: Mode): Operand
    requires Valid(env.d)
    decreases e, 1
  {
    if TypeOf(e).NodeSetType? then
      var ns := Nodes(env, reading, e, c, mode).nodes;
      Strings(set k | 0 <= k < |ns| :: env.stringValue(ns[k]))
    else Value(Native(env, reading, e, c))
  }

  /** A node set compared for equality with a boolean is only asked whether it is empty. */
  function OperandMode(op: Relation, other: Expr): Mode {
    if (op.Eq? || op.Ne?) && TypeOf(other).BooleanType? then Any else All
  }

  function ArgumentValue(env: Env, reading: Reading, kind: ArgumentKind, e: Expr, c: Context): Argument
    requires Valid(env.d)
    decreases e, 3
  {
    match kind
    case AsNumber => NumberArg(AsNum(env, reading, e, c))
    case AsString => StringArg(AsText(env, reading, e, c))
    case AsBoolean => BooleanArg(AsBool(env, reading, e, c))
    case FirstNode => NodeArg(FirstOf(Nodes(env, reading, e, c, First)))
    case AllNodes => NodesArg(multiset(Nodes(env, reading, e, c, All).nodes))
  }

  function ArgumentValues(env: Env, reading: Reading, f: Function, args: Arguments, k: nat, c: Context): seq<Argument>
    requires Valid(env.d)
    decreases args, 0
  {
    match args
    case End => []
    case Arg(e, next) =>
      [ArgumentValue(env, reading, KindOf(f, k), e, c)] + ArgumentValues(env, reading, f, next, k + 1, c)
  }

  /** The value of an expression that is not a node set. */
  function Native(env: Env, reading: Reading, e: Expr, c: Context): Scalar
    requires Valid(env.d)
    decreases e, 0
  {
    match e
    case Text(s) => S(s)
    case Num(n) => N(n)
    case Variable(name, ty) =>
      (match ty
       case NumberType => N(env.numberVar(name))
       case StringType => S(env.stringVar(name))
       case _ => B(env.booleanVar(name)))
    case Position => N(Fin(c.position as real))
    case Last => N(Fin(c.size as real))
    case Or(l, r) => B(AsBool(env, reading, l, c) || AsBool(env, reading, r, c))
    case And(l, r) => B(AsBool(env, reading, l, c) && AsBool(env, reading, r, c))
    case Compare(op, l, r) =>
      var a, b := AsOperand(env, reading, l, c, OperandMode(op, r)), AsOperand(env, reading, r, c, OperandMode(op, l));
      B(if reading.Standard? then StandardCompares(env, op, a, b) else Compares(env, op, a, b))
    case Count(l) => N(Fin(|Nodes(env, reading, l, c, All).nodes| as real))
    case Call(f, args) =>
      var values := ArgumentValues(env, reading, f, args, 0, c);
      if reading.Standard? then StandardCall(env, f, c.item, values) else env.lib(f, c.item, values)
    case Translate(l, from, to) =>
      var s, u, v := AsText(env, reading, l, c), AsText(env, reading, from, c), AsText(env, reading, to, c);
      S(if reading.Standard? then StandardTranslate(s, u, v) else TranslateText(s, u, v))
    case TranslateTable(l, table) => S(ByTable(AsText(env, reading, l, c), table))
    case CompareAttribute(name, r) => B(AttributeEquals(env.d, c.item, name, AsText(env, reading, r, c)))
    case Union(_, _) => B(false)
    case Filter(_, _, _) => B(false)
    case Step(_, _, _, _) => B(false)
    case Root => B(false)
    case Id(_) => B(false)
  }

  /** Whether a predicate holds: a number is compared with the position. */
  function Holds(env: Env, reading: Reading, e: Expr, c: Context): bool
    requires Valid(env.d)
    decreases e, 3
  {
    if TypeOf(e).NumberType? then NumberEq(AsNum(env, reading, e, c), Fin(c.position as real)) else AsBool(env, reading, e, c)
  }

  /** One predicate on the nodes from number `k` on. */
  function Keep(env: Env, reading: Reading, e: Expr, s: seq<Item>, k: nat, once: bool): seq<Item>
    requires Valid(env.d) && k <= |s|
    decreases e, 4, |s| - k
  {
    if k == |s| then []
    else if !Holds(env, reading, e, Context(s[k], k + 1, |s|)) then Keep(env, reading, e, s, k + 1, once)
    else if once then [s[k]]
    else [s[k]] + Keep(env, reading, e, s, k + 1, once)
  }

  /** `apply_predicate`. */
  function ApplyPredicate(env: Env, reading: Reading, test: PredicateTest, e: Expr, s: seq<Item>, once: bool): seq<Item>
    requires Valid(env.d)
    decreases e, 5
  {
    if s == [] then []
    else if reading.Program? && (test.Constant? || test.ConstantOne?) then PickConstant(AsNum(env, reading, e, Context(NOWHERE, 1, |s|)), s)
    else Keep(env, reading, e, s, 0, once)
  }

  /** `apply_predicates`: only the last one may stop at its first hit. */
  function ApplyPredicates(env: Env, reading: Reading, preds: Predicates, s: seq<Item>, lastOnce: bool): seq<Item>
    requires Valid(env.d)
    decreases preds, 0
  {
    match preds
    case NoMore => s
    case Pred(test, e, next) =>
      ApplyPredicates(env, reading, next, ApplyPredicate(env, reading, test, e, s, next.NoMore? && lastOnce), lastOnce)
  }

  /** The step on the first `n` of the nodes `s`. */
  function StepLoop(env: Env, step: Expr, s: Raw, n: nat, mode: Mode): Raw
    requires Valid(env.d) && step.Step? && n <= |s.nodes|
    decreases step.preds, 1, n
  {
    if n == 0 then Raw([], s.order)
    else
      var sofar := StepLoop(env, step, s, n - 1, mode);
      var order := if !step.axis.Self? && sofar.nodes != [] then Unsorted else sofar.order;
      var found := Limit(StepItems(env.d, step.axis, step.nodeTest, s.nodes[n - 1]), StepOnce(step, mode));
      Raw(sofar.nodes + ApplyPredicates(env, Program, step.preds, found, EvalOnce(order, mode)), order)
  }

  function AxisOrder(a: Axis): Order { if IsReverse(a) then Reversed else Sorted }

  /** The walk may stop at its first node. */
  predicate StepOnce(step: Expr, mode: Mode)
    requires step.Step?
  {
    || (step.axis.AttributeAxis? && step.nodeTest.TestName?)
    || (step.preds.NoMore? && EvalOnce(AxisOrder(step.axis), mode))
    || (step.preds.Pred? && step.preds.next.NoMore? && step.preds.test.ConstantOne?)
  }

  /** `step_do` on the nodes of `s`. */
  function StepDo(env: Env, step: Expr, s: Raw, mode: Mode): Raw
    requires Valid(env.d) && step.Step?
    decreases step.preds, 2
  {
    var ns := StepLoop(env, step, s, |s.nodes|, mode);
    if !step.axis.Child? && !step.axis.AttributeAxis? && !step.axis.Self? && ns.order.Unsorted?
    then Raw(env.dedupe(ns.nodes), Unsorted) else ns
  }

  /** The nodes a step means: those it selects from the first `n` of the nodes `s`. */
  function StepSet(env: Env, reading: Reading, step: Expr, s: seq<Item>, n: nat): set<Item>
    requires Valid(env.d) && step.Step? && n <= |s|
    decreases step.preds, 1, n
  {
    if n == 0 then {}
    else StepSet(env, reading, step, s, n - 1)
         + Items(ApplyPredicates(env, reading, step.preds, StepNodes(env.d, reading, step.axis, step.nodeTest, s[n - 1]), false))
  }

  function RootOf(i: Item): seq<Item> { if i == NOWHERE then [] else [Item(0, NONE)] }

  /** The value of an expression that is a node set. */
  function Nodes(env: Env, reading: Reading, e: Expr, c: Context, mode: Mode): Raw
    requires Valid(env.d)
    decreases e, 0
  {
    match e
    case Union(l, r) =>
      if !reading.Program? then
        Raw(Listing(env.d, Items(Nodes(env, reading, l, c, All).nodes) + Items(Nodes(env, reading, r, c, All).nodes)), Sorted)
      else
        Raw(env.dedupe(Nodes(env, reading, r, c, mode).nodes + Nodes(env, reading, l, c, mode).nodes), Unsorted)
    case Filter(l, test, r) =>
      if !reading.Program? then
        Raw(Keep(env, reading, r, Nodes(env, reading, l, c, All).nodes, 0, false), Sorted)
      else
        var ns := Nodes(env, reading, l, c, if test.ConstantOne? then First else All);
        var sorted := if test.PosInv? then ns else SortDo(env.d, ns);
        Raw(ApplyPredicate(env, reading, test, r, sorted.nodes, EvalOnce(sorted.order, mode)), sorted.order)
    case Step(start, a, t, preds) =>
      if !reading.Program? then
        var s := if start.From? then Nodes(env, reading, start.left, c, All).nodes else [c.item];
        Raw(Listing(env.d, StepSet(env, reading, e, s, |s|)), Sorted)
      else if a.NamespaceAxis? then Raw([], Unsorted)
      else
        var ns := if start.From? then Nodes(env, reading, start.left, c, All) else Raw([c.item], Sorted);
        StepDo(env, e, Raw(ns.nodes, if a.Self? then ns.order else AxisOrder(a)), mode)
    case Root => Raw(RootOf(c.item), Sorted)
    case Variable(name, _) =>
      if !reading.Program? then Raw(Listing(env.d, Items(env.setVar(name).nodes)), Sorted) else env.setVar(name)
    case _ => Raw([], if !reading.Program? then Sorted else Unsorted)
  }

  // ---------------------------------------------------------------- in place

  /** `apply_predicate_boolean` and `apply_predicate_number`: the nodes from `first` on are filtered within the
      array, and those kept end at `last`. */
  method ApplyPredicateInPlace(env: Env, e: Expr, ns: array<Item>, first: nat, end: nat, once: bool) returns (last: nat)
    requires Valid(env.d) && first <= end <= ns.Length
    modifies ns
    ensures first <= last <= end
    ensures ns[first..last] == Keep(env, Program, e, old(ns[first..end]), 0, once)
    ensures ns[..first] == old(ns[..first])
  {
    hide Holds, Linked;
    ghost var s := ns[first..end];
    ghost var kept: seq<Item> := [];
    last := first;
    var it := first;
    while it < end
      invariant first <= last <= it <= end && last - first == |kept|
      invariant forall k | it <= k < end :: ns[k] == s[k - first]
      invariant forall k | 0 <= k < first :: ns[k] == old(ns[k])
      invariant forall k | 0 <= k < |kept| :: ns[first + k] == kept[k]
      invariant kept + Keep(env, Program, e, s, it - first, once) == Keep(env, Program, e, s, 0, once)
    {
      if Holds(env, Program, e, Context(ns[it], it - first + 1, end - first)) {
        ns[last] := ns[it];
        last := last + 1;
        kept := kept + [s[it - first]];
        if once { break; }
      }
      it := it + 1;
    }
    assert ns[first..last] == kept;
  }
}
