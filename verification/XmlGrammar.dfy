// The documents that the parser accepts, as a grammar over their text: a derivation is the text in its parts, with every
// end tag spelled with the name of its own element. It uses no function of the parser but what a piece of raw text
// stands for (XmlReferences, and the line ends of section 2.11).
module XmlGrammar {

  import opened XmlText
  import opened XmlReferences
  import P = XmlParser
  import D = Documents

  /** An attribute: the space before its name, the space around its equals sign, its quotes and what is between them. */
  datatype WrittenAttribute =
    WrittenAttribute(before: string, name: string, left: string, right: string, quote: char, raw: string)

  /** A piece of an ignored section of a document type declaration. */
  datatype Mark = OpenMark | CloseMark | Other(c: char)

  /** A piece of a document type declaration. */
  datatype Token =
    | OpenGroup | CloseGroup | Plain(c: char) | Quoted(quote: char, raw: string)
    | Embedded(raw: string) | Remark(raw: string) | Ignored(marks: seq<Mark>)

  datatype Part =
    | Chars(raw: string)
    | Section(raw: string)
    | Comment(raw: string)
    | Instruction(raw: string)
    | Doctype(tokens: seq<Token>)
    | Tagged(name: string, attributes: seq<WrittenAttribute>, space: string, content: Content)

  /** An element has one tag, or content and an end tag with some space in it. */
  datatype Content = OneTag | Content(parts: seq<Part>, space: string)

  // ---------------------------------------------------------------- the text of a derivation

  function SpellAttribute(a: WrittenAttribute): string {
    a.before + a.name + a.left + "=" + a.right + [a.quote] + a.raw + [a.quote]
  }

  function SpellAttributes(a: seq<WrittenAttribute>): string {
    if a == [] then "" else SpellAttribute(a[0]) + SpellAttributes(a[1..])
  }

  function SpellMark(m: Mark): string {
    match m
    case OpenMark => "<!["
    case CloseMark => "]]>"
    case Other(c) => [c]
  }

  function SpellMarks(ms: seq<Mark>): string { if ms == [] then "" else SpellMark(ms[0]) + SpellMarks(ms[1..]) }

  function SpellToken(t: Token): string {
    match t
    case OpenGroup => "<!"
    case CloseGroup => ">"
    case Plain(c) => [c]
    case Quoted(quote, raw) => [quote] + raw + [quote]
    case Embedded(raw) => "<?" + raw + "?>"
    case Remark(raw) => "<!--" + raw + "-->"
    case Ignored(marks) => "<![" + SpellMarks(marks) + "]]>"
  }

  function SpellTokens(ts: seq<Token>): string { if ts == [] then "" else SpellToken(ts[0]) + SpellTokens(ts[1..]) }

  function Spell(p: Part): string {
    match p
    case Chars(raw) => raw
    case Section(raw) => "<![CDATA[" + raw + "]]>"
    case Comment(raw) => "<!--" + raw + "-->"
    case Instruction(raw) => "<?" + raw + "?>"
    case Doctype(tokens) => "<!" + SpellTokens(tokens) + ">"
    case Tagged(name, attributes, space, OneTag) => "<" + name + SpellAttributes(attributes) + space + "/>"
    case Tagged(name, attributes, space, Content(parts, inEnd)) =>
      "<" + name + SpellAttributes(attributes) + space + ">" + SpellAll(parts) + "</" + name + inEnd + ">"
  }

  function SpellAll(ps: seq<Part>): string { if ps == [] then "" else Spell(ps[0]) + SpellAll(ps[1..]) }

  // ---------------------------------------------------------------- which derivations there are

  /** `w` stands in `s` at `k`. */
  predicate StandsAt(s: string, k: nat, w: string) { k + |w| <= |s| && forall j | 0 <= j < |w| :: s[k + j] == w[j] }

  /** `end` ends what starts with `raw`: it does not stand before. */
  predicate EndsAt(raw: string, end: string) { forall k | 0 <= k < |raw| :: !StandsAt(raw + end, k, end) }

  predicate GoodAttribute(a: WrittenAttribute) {
    && a.before != "" && AllSpace(a.before) && IsName(a.name) && AllSpace(a.left) && AllSpace(a.right)
    && (a.quote == '"' || a.quote == '\'') && a.quote !in a.raw
  }

  /** Ignored sections are nested. */
  predicate GoodMarks(ms: seq<Mark>, depth: nat) {
    if ms == [] then depth == 0
    else match ms[0]
      case OpenMark => GoodMarks(ms[1..], depth + 1)
      case CloseMark => depth > 0 && GoodMarks(ms[1..], depth - 1)
      case Other(_) =>
        !Starts(SpellMarks(ms) + "]]>", "<![") && !Starts(SpellMarks(ms) + "]]>", "]]>") && GoodMarks(ms[1..], depth)
  }

  /** Declarations are nested; what is quoted, a comment or a processing instruction is whole. */
  predicate GoodTokens(ts: seq<Token>, depth: nat) {
    if ts == [] then depth == 0
    else match ts[0]
      case OpenGroup =>
        var rest := SpellTokens(ts[1..]) + ">";
        rest[0] != '-' && rest[0] != '[' && GoodTokens(ts[1..], depth + 1)
      case CloseGroup => depth > 0 && GoodTokens(ts[1..], depth - 1)
      case Plain(c) => c != '<' && c != '>' && c != '"' && c != '\'' && GoodTokens(ts[1..], depth)
      case Quoted(quote, raw) => (quote == '"' || quote == '\'') && quote !in raw && GoodTokens(ts[1..], depth)
      case Embedded(raw) => EndsAt(raw, "?>") && GoodTokens(ts[1..], depth)
      case Remark(raw) => EndsAt(raw, "-->") && GoodTokens(ts[1..], depth)
      case Ignored(marks) => GoodMarks(marks, 0) && GoodTokens(ts[1..], depth)
  }

  /** A part of the document itself (`top`) or of an element. Text that stands together is one part. */
  predicate GoodPart(p: Part, top: bool) {
    match p
    case Chars(raw) => raw != "" && '<' !in raw
    case Section(raw) => EndsAt(raw, "]]>")
    case Comment(raw) => EndsAt(raw, "-->")
    case Instruction(raw) => raw != "" && IsStartSymbol(raw[0]) && EndsAt(raw, "?>")
    case Doctype(tokens) => top && Starts(SpellTokens(tokens), "DOCTYPE") && GoodTokens(tokens, 0)
    case Tagged(name, attributes, space, content) =>
      && IsName(name) && (forall k | 0 <= k < |attributes| :: GoodAttribute(attributes[k])) && AllSpace(space)
      && (content.Content? ==> GoodParts(content.parts, false) && AllSpace(content.space))
  }

  predicate GoodParts(ps: seq<Part>, top: bool) {
    ps != [] ==> GoodPart(ps[0], top) && GoodParts(ps[1..], top) && (ps[0].Chars? && |ps| > 1 ==> !ps[1].Chars?)
  }

  // ---------------------------------------------------------------- the tree of a derivation

  function TextMode(o: P.Options): AttributeMode { if o.eol then Eol else Simple }

  ghost function AttributesOf(o: P.Options, a: seq<WrittenAttribute>): seq<D.Attribute> {
    if a == [] then []
    else [D.Attribute(a[0].name, P.CString(Meant(a[0].raw, P.ModeOf(o))))] + AttributesOf(o, a[1..])
  }

  /** The nodes of a part. Comments, processing instructions and document types are skipped, and so is all text outside
      the elements and, unless white space is kept, text that is nothing but white space. */
  ghost function NodesOf(o: P.Options, p: Part, top: bool): seq<P.Node> {
    match p
    case Chars(raw) => if top || (!o.ws && AllSpace(raw)) then [] else [P.Pcdata(P.CString(Meant(raw, TextMode(o))))]
    case Section(raw) => [P.Cdata(P.Text(o, raw))]
    case Tagged(name, attributes, _, OneTag) => [P.Element(name, AttributesOf(o, attributes), [])]
    case Tagged(name, attributes, _, Content(parts, _)) =>
      [P.Element(name, AttributesOf(o, attributes), NodesOfAll(o, parts, false))]
    case _ => []
  }

  ghost function NodesOfAll(o: P.Options, ps: seq<Part>, top: bool): seq<P.Node> {
    if ps == [] then [] else NodesOf(o, ps[0], top) + NodesOfAll(o, ps[1..], top)
  }

  // ---------------------------------------------------------------- what is left to be read

  ghost predicate IsLast(o: P.Options, stack: seq<P.Frame>, rest: string, children: seq<P.Node>, parts: seq<Part>)
    requires stack != []
  {
    GoodParts(parts, true) && rest == SpellAll(parts) && children == stack[0].children + NodesOfAll(o, parts, true)
  }

  /** The rest of the innermost element, and what comes after it. */
  ghost predicate IsRest(stack: seq<P.Frame>, rest: string, parts: seq<Part>, space: string, after: string)
    requires stack != []
  {
    && GoodParts(parts, false) && AllSpace(space)
    && rest == SpellAll(parts) + "</" + stack[|stack| - 1].name + space + ">" + after
  }

  ghost function Closed(o: P.Options, stack: seq<P.Frame>, parts: seq<Part>): (r: seq<P.Frame>)
    requires |stack| > 1
    ensures |r| == |stack| - 1
  {
    P.Pop(P.AddNodes(stack, NodesOfAll(o, parts, false)))
  }

  /** The rest of the text completes the open elements, and the document then has these children. */
  ghost predicate Completes(o: P.Options, stack: seq<P.Frame>, rest: string, children: seq<P.Node>)
    requires stack != []
    decreases |stack|
  {
    if |stack| == 1 then exists parts :: IsLast(o, stack, rest, children, parts)
    else exists parts, space, after ::
           IsRest(stack, rest, parts, space, after) && Completes(o, Closed(o, stack, parts), after, children)
  }

  lemma SpellIsSome(p: Part, top: bool)
    requires GoodPart(p, top)
    ensures Spell(p) != "" && (p.Chars? <==> Spell(p)[0] != '<')
  {
    hide SpellAttributes, SpellTokens, SpellAll, GoodTokens;
  }

  /** Text is not followed by text. */
  lemma NoTextAfter(ps: seq<Part>, top: bool, tail: string)
    requires GoodParts(ps, top) && (SpellAll(ps) + tail == "" || (SpellAll(ps) + tail)[0] == '<')
    ensures ps != [] ==> !ps[0].Chars?
  {
    if ps != [] {
      SpellIsSome(ps[0], top);
      assert (SpellAll(ps) + tail)[0] == Spell(ps[0])[0];
    }
  }

  /** One part more. */
  lemma PartBefore(o: P.Options, stack: seq<P.Frame>, p: Part, rest: string, children: seq<P.Node>)
    requires stack != [] && GoodPart(p, |stack| == 1)
    requires p.Chars? ==> rest == "" || rest[0] == '<'
    requires Completes(o, P.AddNodes(stack, NodesOf(o, p, |stack| == 1)), rest, children)
    ensures Completes(o, stack, Spell(p) + rest, children)
  {
    hide Spell, NodesOf, GoodPart, IsRest, IsLast, P.AddNodes;
    var more := P.AddNodes(stack, NodesOf(o, p, |stack| == 1));
    assert |more| == |stack| by { SameHeight(stack, NodesOf(o, p, |stack| == 1)); }
    if |stack| == 1 {
      var parts :| IsLast(o, more, rest, children, parts);
      LastPart(o, stack, p, rest, children, parts);
    } else {
      var parts, space, after :| IsRest(more, rest, parts, space, after) && Completes(o, Closed(o, more, parts), after, children);
      InnerPart(o, stack, p, rest, parts, space, after);
    }
  }

  lemma SameHeight(stack: seq<P.Frame>, ns: seq<P.Node>)
    requires stack != []
    ensures |P.AddNodes(stack, ns)| == |stack| && P.AddNodes(stack, ns)[|stack| - 1].name == stack[|stack| - 1].name
  {
  }

  lemma LastPart(o: P.Options, stack: seq<P.Frame>, p: Part, rest: string, children: seq<P.Node>, parts: seq<Part>)
    requires |stack| == 1 && GoodPart(p, true) && (p.Chars? ==> rest == "" || rest[0] == '<')
    requires IsLast(o, P.AddNodes(stack, NodesOf(o, p, true)), rest, children, parts)
    ensures IsLast(o, stack, Spell(p) + rest, children, [p] + parts)
  {
    hide Spell, NodesOf, GoodPart;
    assert rest + "" == rest;
    if p.Chars? { NoTextAfter(parts, true, ""); }
    assert ([p] + parts)[1..] == parts;
  }

  lemma InnerPart(
      o: P.Options, stack: seq<P.Frame>, p: Part, rest: string, parts: seq<Part>, space: string, after: string)
    requires |stack| > 1 && GoodPart(p, false) && (p.Chars? ==> rest == "" || rest[0] == '<')
    requires IsRest(P.AddNodes(stack, NodesOf(o, p, false)), rest, parts, space, after)
    ensures IsRest(stack, Spell(p) + rest, [p] + parts, space, after)
    ensures Closed(o, stack, [p] + parts) == Closed(o, P.AddNodes(stack, NodesOf(o, p, false)), parts)
  {
    hide Spell, NodesOf, GoodPart, P.AddNodes, P.Pop;
    SameHeight(stack, NodesOf(o, p, false));
    RestStarts(P.AddNodes(stack, NodesOf(o, p, false)), rest, parts, space, after, p);
    assert ([p] + parts)[1..] == parts;
    P.AddNodesTwice(stack, NodesOf(o, p, false), NodesOfAll(o, parts, false));
    var tail := "</" + stack[|stack| - 1].name + space + ">" + after;
    assert rest == SpellAll(parts) + tail && SpellAll([p] + parts) == Spell(p) + SpellAll(parts);
  }

  lemma RestStarts(stack: seq<P.Frame>, rest: string, parts: seq<Part>, space: string, after: string, p: Part)
    requires stack != [] && IsRest(stack, rest, parts, space, after) && (p.Chars? ==> rest == "" || rest[0] == '<')
    ensures p.Chars? && parts != [] ==> !parts[0].Chars?
  {
    if p.Chars? {
      var tail := "</" + stack[|stack| - 1].name + space + ">" + after;
      assert SpellAll(parts) + tail == rest;
      NoTextAfter(parts, false, tail);
    }
  }

  lemma CompletesBy(
      o: P.Options, stack: seq<P.Frame>, rest: string, parts: seq<Part>, space: string, after: string, children: seq<P.Node>)
    requires |stack| > 1 && IsRest(stack, rest, parts, space, after) && Completes(o, Closed(o, stack, parts), after, children)
    ensures Completes(o, stack, rest, children)
  {
    hide IsRest, Closed;
  }

  lemma NoContent(stack: seq<P.Frame>, space: string, after: string)
    requires stack != [] && AllSpace(space)
    ensures IsRest(stack, "</" + stack[|stack| - 1].name + space + ">" + after, [], space, after)
  {
    var end := "</" + stack[|stack| - 1].name + space + ">" + after;
    assert SpellAll([]) + "</" == "</";
  }

  /** An end tag. */
  lemma EndTagBefore(o: P.Options, stack: seq<P.Frame>, space: string, after: string, children: seq<P.Node>)
    requires |stack| > 1 && AllSpace(space) && Completes(o, P.Pop(stack), after, children)
    ensures Completes(o, stack, "</" + stack[|stack| - 1].name + space + ">" + after, children)
  {
    hide P.Pop, Completes, IsRest;
    NoContent(stack, space, after);
    P.AddNodesTwice(stack, [], []);
    assert NodesOfAll(o, [], false) == [];
    CompletesBy(o, stack, "</" + stack[|stack| - 1].name + space + ">" + after, [], space, after, children);
  }

  /** What the start tag of an element spells, up to its `>`. */
  function SpellStart(name: string, attributes: seq<WrittenAttribute>, space: string): string {
    "<" + name + SpellAttributes(attributes) + space
  }

  /** A start tag whose element is completed later. */
  lemma StartTagBefore(
      o: P.Options, stack: seq<P.Frame>, name: string, attributes: seq<WrittenAttribute>, space: string, rest: string,
      children: seq<P.Node>)
    requires stack != [] && IsName(name) && AllSpace(space)
    requires forall k | 0 <= k < |attributes| :: GoodAttribute(attributes[k])
    requires Completes(o, stack + [P.Frame(name, AttributesOf(o, attributes), [])], rest, children)
    ensures Completes(o, stack, SpellStart(name, attributes, space) + ">" + rest, children)
  {
    var open := stack + [P.Frame(name, AttributesOf(o, attributes), [])];
    var parts, inEnd, after :| IsRest(open, rest, parts, inEnd, after) && Completes(o, Closed(o, open, parts), after, children);
    hide IsName, GoodAttribute, AttributesOf, SpellAll, SpellAttributes, GoodParts, Completes, Closed, P.AddNodes;
    var p := Tagged(name, attributes, space, Content(parts, inEnd));
    assert GoodPart(p, |stack| == 1) && rest == SpellAll(parts) + "</" + name + inEnd + ">" + after;
    hide IsRest, GoodPart;
    OpenedIsClosed(o, stack, name, attributes, parts);
    assert NodesOf(o, p, |stack| == 1) == [P.Element(name, AttributesOf(o, attributes), NodesOfAll(o, parts, false))];
    hide NodesOf;
    PartBefore(o, stack, p, after, children);
    SpellElement(name, attributes, space, parts, inEnd, after);
  }

  lemma SpellElement(
      name: string, attributes: seq<WrittenAttribute>, space: string, parts: seq<Part>, inEnd: string, after: string)
    ensures SpellStart(name, attributes, space) + ">" + (SpellAll(parts) + "</" + name + inEnd + ">" + after)
         == Spell(Tagged(name, attributes, space, Content(parts, inEnd))) + after
  {
    hide SpellAll, SpellAttributes;
  }

  lemma OpenedIsClosed(o: P.Options, stack: seq<P.Frame>, name: string, attributes: seq<WrittenAttribute>, parts: seq<Part>)
    requires stack != []
    ensures Closed(o, stack + [P.Frame(name, AttributesOf(o, attributes), [])], parts)
         == P.AddNodes(stack, [P.Element(name, AttributesOf(o, attributes), NodesOfAll(o, parts, false))])
  {
    hide AttributesOf, NodesOfAll;
    var children := NodesOfAll(o, parts, false);
    var open := stack + [P.Frame(name, AttributesOf(o, attributes), [])];
    assert [] + children == children;
    var full := P.AddNodes(open, children);
    assert full[..|full| - 1] == stack;
  }

  /** An element of one tag. */
  lemma OneTagBefore(
      o: P.Options, stack: seq<P.Frame>, name: string, attributes: seq<WrittenAttribute>, space: string, rest: string,
      children: seq<P.Node>)
    requires stack != [] && IsName(name) && AllSpace(space)
    requires forall k | 0 <= k < |attributes| :: GoodAttribute(attributes[k])
    requires Completes(o, P.Pop(stack + [P.Frame(name, AttributesOf(o, attributes), [])]), rest, children)
    ensures Completes(o, stack, SpellStart(name, attributes, space) + "/>" + rest, children)
  {
    hide IsName, GoodAttribute, AttributesOf, SpellAll, SpellAttributes, GoodParts, Completes;
    var p := Tagged(name, attributes, space, OneTag);
    var open := stack + [P.Frame(name, AttributesOf(o, attributes), [])];
    assert open[..|open| - 1] == stack;
    assert P.Pop(open) == P.AddNodes(stack, [P.Element(name, AttributesOf(o, attributes), [])]);
    PartBefore(o, stack, p, rest, children);
    assert Spell(p) == SpellStart(name, attributes, space) + "/>";
  }

  /** At the end nothing is left, or some text outside the elements. */
  lemma NothingLeft(o: P.Options, stack: seq<P.Frame>, rest: string)
    requires |stack| == 1 && '<' !in rest
    ensures Completes(o, stack, rest, stack[0].children)
  {
    if rest == "" {
      assert IsLast(o, stack, rest, stack[0].children, []);
    } else {
      TextLeft(o, rest);
      hide SpellAll, NodesOfAll, GoodParts;
      assert IsLast(o, stack, rest, stack[0].children, [Chars(rest)]);
    }
  }

  lemma TextLeft(o: P.Options, rest: string)
    requires rest != "" && '<' !in rest
    ensures SpellAll([Chars(rest)]) == rest && NodesOfAll(o, [Chars(rest)], true) == [] && GoodParts([Chars(rest)], true)
  {
    var parts := [Chars(rest)];
    assert parts[1..] == [];
    assert NodesOfAll(o, parts, true) == NodesOf(o, parts[0], true) + NodesOfAll(o, [], true);
    assert SpellAll(parts) == rest + SpellAll([]);
  }
}
