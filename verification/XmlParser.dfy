// The XML parser on the text of a buffer, with the flags parse_cdata and parse_escapes and any of parse_eol,
// parse_wconv_attribute and parse_ws_pcdata.
//
// Besides the tree a parse yields the places in the buffer that the name and value pointers of its nodes
// and attributes are set to, in the order in which these are made.
//
// The program keeps the last byte of its input apart and puts a NUL in its place; a test against the end
// of a construct then asks for that byte as well. Decoding in place is the subject of the module InPlace.
module XmlParser {

  import opened XmlText
  import D = Documents

  type Attribute = D.Attribute

  datatype Node =
    | Element(name: string, attributes: seq<Attribute>, children: seq<Node>)
    | Pcdata(value: string)
    | Cdata(value: string)

  datatype Status =
    | UnrecognizedTag | BadPi | BadComment | BadCdata | BadDoctype | BadStartElement | BadAttribute | BadEndElement
    | EndElementMismatch | NoDocumentElement

  /** The nodes of the document, and the places of the name of every element, of the name and the value of every
      attribute, and of the text of every other node. */
  datatype Outcome = Parsed(children: seq<Node>, places: seq<nat>) | Failed(status: Status)

  /** A name, value or text has been found at `p` before the rest of the outcome. */
  function Place(p: nat, o: Outcome): Outcome {
    if o.Parsed? then Parsed(o.children, [p] + o.places) else o
  }

  /** The outcome without the places. */
  function Bare(o: Outcome): Outcome { if o.Parsed? then Parsed(o.children, []) else o }

  datatype Options = Options(eol: bool, wconv: bool, ws: bool)

  /** parse_default. */
  const DEFAULT := Options(true, true, false)

  /** An element whose end has not been read. The first frame of a stack is the document. */
  datatype Frame = Frame(name: string, attributes: seq<Attribute>, children: seq<Node>)

  /** The input without its last byte, and that byte. */
  datatype Source = Source(t: string, last: char, options: Options)

  /** `get_strconv_attribute`, without parse_wnorm_attribute. */
  function ModeOf(o: Options): AttributeMode { if o.wconv then Wconv else if o.eol then Eol else Simple }

  // ---------------------------------------------------------------- scanning

  function SkipSymbols(t: string, s: nat): (n: nat)
    requires s <= |t|
    ensures s <= n <= |t| && !IsSymbol(At(t, n)) && forall k | s <= k < n :: IsSymbol(t[k])
    decreases |t| - s
  {
    if s < |t| && IsSymbol(t[s]) then SkipSymbols(t, s + 1) else s
  }

  /** PUGI__ENDSWITH. */
  predicate Ends(src: Source, p: nat, c: char) { At(src.t, p) == c || (At(src.t, p) == NUL && src.last == c) }

  /** `w` stands at `p`; its last byte may be the one kept apart. */
  predicate Stands(src: Source, p: nat, w: string, loose: bool) {
    forall k | 0 <= k < |w| :: At(src.t, p + k) == w[k] || (loose && k == |w| - 1 && Ends(src, p + k, w[k]))
  }

  /** PUGI__SCANFOR: the first place where `w` stands, or the end of the text. */
  function ScanFor(src: Source, p: nat, w: string, loose: bool): (q: nat)
    requires p <= |src.t|
    ensures p <= q <= |src.t| && (At(src.t, q) == NUL || Stands(src, q, w, loose))
    ensures forall k | p <= k < q :: src.t[k] != NUL && !Stands(src, k, w, loose)
    decreases |src.t| - p
  {
    if At(src.t, p) == NUL || Stands(src, p, w, loose) then p else ScanFor(src, p + 1, w, loose)
  }

  /** Steps over `w` where it was found, or over what there is of it. */
  function StepOver(src: Source, p: nat, w: string): nat
    requires w != ""
  {
    if At(src.t, p + |w| - 1) == w[|w| - 1] then p + |w| else p + |w| - 1
  }

  /** The place after a `>` at `p`, or `p` where that is the byte kept apart. */
  function Past(src: Source, p: nat): nat { if At(src.t, p) == '>' then p + 1 else p }

  /** A C string ends at its first NUL. */
  function CString(s: string): string {
    if s == "" || s[0] == NUL then "" else [s[0]] + CString(s[1..])
  }

  // ---------------------------------------------------------------- the stack

  function AddNode(stack: seq<Frame>, n: Node): seq<Frame>
    requires stack != []
  {
    var top := stack[|stack| - 1];
    stack[|stack| - 1 := Frame(top.name, top.attributes, top.children + [n])]
  }

  /** The innermost element gets more children. */
  function AddNodes(stack: seq<Frame>, ns: seq<Node>): seq<Frame>
    requires stack != []
  {
    var top := stack[|stack| - 1];
    stack[|stack| - 1 := Frame(top.name, top.attributes, top.children + ns)]
  }

  lemma AddNodesTwice(stack: seq<Frame>, a: seq<Node>, b: seq<Node>)
    requires stack != []
    ensures AddNodes(AddNodes(stack, a), b) == AddNodes(stack, a + b)
    ensures AddNodes(stack, []) == stack
    ensures forall n :: AddNode(stack, n) == AddNodes(stack, [n])
  {
    var top := stack[|stack| - 1];
    assert top.children + [] == top.children;
    assert top.children + a + b == top.children + (a + b);
  }

  function AddAttribute(stack: seq<Frame>, name: string, value: string): seq<Frame>
    requires stack != []
  {
    var top := stack[|stack| - 1];
    stack[|stack| - 1 := Frame(top.name, top.attributes + [D.Attribute(name, value)], top.children)]
  }

  /** Closes the innermost element. */
  function Pop(stack: seq<Frame>): seq<Frame>
    requires |stack| > 1
  {
    var top := stack[|stack| - 1];
    AddNode(stack[..|stack| - 1], Element(top.name, top.attributes, top.children))
  }

  function Finish(stack: seq<Frame>): Outcome
    requires stack != []
  {
    if |stack| > 1 then Failed(EndElementMismatch) else Parsed(stack[0].children, [])
  }

  // ---------------------------------------------------------------- document type declarations

  datatype Scan = To(p: nat) | Bad

  /** `parse_doctype_primitive`. */
  function DoctypePrimitive(src: Source, s: nat): (r: Scan)
    requires s < |src.t|
    ensures r.To? ==> s < r.p <= |src.t|
  {
    var c := src.t[s];
    if c == '"' || c == '\'' then Over(src, s + 1, [c])
    else if Stands(src, s, "<?", false) then Over(src, s + 2, "?>")
    else if Stands(src, s, "<!--", false) then Over(src, s + 4, "-->")
    else Bad
  }

  /** To after the first `w` from `p` on. */
  function Over(src: Source, p: nat, w: string): (r: Scan)
    requires w != ""
    ensures r.To? && NulFree(w) ==> p < r.p <= |src.t|
  {
    if p > |src.t| then Bad
    else
      var q := ScanFor(src, p, w, false);
      if At(src.t, q) == NUL then Bad
      else
        assert NulFree(w) ==> At(src.t, q + (|w| - 1)) == w[|w| - 1] && w[|w| - 1] in w;
        To(q + |w|)
  }

  /** `parse_doctype_ignore`, after its opening. */
  function DoctypeIgnore(src: Source, s: nat, depth: nat): (r: Scan)
    ensures r.To? ==> s < r.p <= |src.t|
    decreases |src.t| - s
  {
    if At(src.t, s) == NUL then Bad
    else if Stands(src, s, "<![", false) then
      assert At(src.t, s + 2) == "<!["[2];
      DoctypeIgnore(src, s + 3, depth + 1)
    else if Stands(src, s, "]]>", false) then
      assert At(src.t, s + 2) == "]]>"[2];
      if depth == 0 then To(s + 3) else DoctypeIgnore(src, s + 3, depth - 1)
    else DoctypeIgnore(src, s + 1, depth)
  }

  /** `parse_doctype_group`, after its opening: to the closing `>`, or to the end where that was the last byte. */
  function DoctypeGroup(src: Source, s: nat, depth: nat): (r: Scan)
    requires s <= |src.t|
    ensures r.To? ==> s <= r.p <= |src.t|
    decreases |src.t| - s
  {
    var c := At(src.t, s);
    if c == NUL then (if depth != 0 || src.last != '>' then Bad else To(s))
    else if c == '<' && At(src.t, s + 1) == '!' && At(src.t, s + 2) != '-' then
      if At(src.t, s + 2) == '[' then
        var r := DoctypeIgnore(src, s + 3, 0);
        if r.To? then DoctypeGroup(src, r.p, depth) else Bad
      else DoctypeGroup(src, s + 2, depth + 1)
    else if c == '<' || c == '"' || c == '\'' then
      var r := DoctypePrimitive(src, s);
      if r.To? then DoctypeGroup(src, r.p, depth) else Bad
    else if c == '>' then (if depth == 0 then To(s) else DoctypeGroup(src, s + 1, depth - 1))
    else DoctypeGroup(src, s + 1, depth)
  }

  // ---------------------------------------------------------------- parse_tree

  /** The loop of `parse_tree`, at place `s`. */
  function Parse(src: Source, s: nat, stack: seq<Frame>): Outcome
    requires s <= |src.t| && stack != []
    decreases |src.t| - s, 0
  {
    var c := At(src.t, s);
    if c == NUL then Finish(stack)
    else if c == '<' then Tag(src, s + 1, stack)
    else if !src.options.ws && EndsSpace(src.t, s) then Parse(src, SkipSpaces(src.t, s), stack)
    else if |stack| > 1 then
      PcdataAdvances(src.t, s, src.options.eol);
      var r := XmlText.Pcdata(src.t, s, src.options.eol, true);
      var next := AddNode(stack, Pcdata(CString(r.text)));
      Place(s, if At(src.t, r.next) == NUL then Finish(next) else Tag(src, r.next, next))
    else
      var p := ScanFor(src, s, "<", false);
      if At(src.t, p) == NUL then Finish(stack) else Tag(src, p + 1, stack)
  }

  /** Only white space stands at `s` before the next tag or the end. */
  predicate EndsSpace(t: string, s: nat)
    requires s <= |t|
  {
    At(t, SkipSpaces(t, s)) == '<' || At(t, SkipSpaces(t, s)) == NUL
  }

  lemma {:induction false} PcdataAdvances(t: string, s: nat, eol: bool)
    requires s < |t| && t[s] != NUL
    ensures s < XmlText.Pcdata(t, s, eol, true).next <= |t|
    decreases |t| - s
  {
    ReferenceShortens(t, s);
    var next := if t[s] == '&' then Reference(t, s).next else if eol && t[s] == '\r' then LineEnd(t, s) else s + 1;
    if t[s] != '<' && next < |t| && t[next] != NUL { PcdataAdvances(t, next, eol); }
  }

  /** After a `<`. */
  function Tag(src: Source, s: nat, stack: seq<Frame>): Outcome
    requires s <= |src.t| && stack != []
    decreases |src.t| - s, 1
  {
    var c := At(src.t, s);
    if IsStartSymbol(c) then
      var p := SkipSymbols(src.t, s);
      var open := stack + [Frame(src.t[s..p], [], [])];
      var ch := At(src.t, p);
      Place(s,
        if ch == '>' then Parse(src, p + 1, open)
        else if IsSpace(ch) then Attributes(src, p + 1, open)
        else if ch == '/' then
          if !Ends(src, p + 1, '>') then Failed(BadStartElement)
          else Parse(src, if At(src.t, p + 1) == '>' then p + 2 else p + 1, Pop(open))
        else if ch == NUL && src.last == '>' then Parse(src, p, open)
        else Failed(BadStartElement))
    else if c == '/' then CloseTag(src, s + 1, stack)
    else if c == '?' then Question(src, s + 1, stack)
    else if c == '!' then Exclamation(src, s + 1, stack)
    else if c == NUL && src.last == '?' then Failed(BadPi)
    else Failed(UnrecognizedTag)
  }

  datatype NamedValue = NamedValue(name: string, value: string, next: nat) | Malformed

  /** Where the value of the attribute whose name starts at `p` starts, after its quote. */
  function ValueAt(t: string, p: nat): nat
    requires p <= |t|
  {
    var q := SkipSymbols(t, p);
    var eq := if IsSpace(At(t, q)) then SkipSpaces(t, q + 1) else q;
    if eq < |t| then SkipSpaces(t, eq + 1) + 1 else p
  }

  /** The attribute whose name starts at `p`. */
  function ReadAttribute(t: string, p: nat, mode: AttributeMode): (r: NamedValue)
    requires p <= |t|
    ensures r.NamedValue? ==> p < r.next <= |t|
  {
    var q := SkipSymbols(t, p);
    var eq := if IsSpace(At(t, q)) then SkipSpaces(t, q + 1) else q;
    if At(t, eq) != '=' then Malformed
    else
      var v := SkipSpaces(t, eq + 1);
      var quote := At(t, v);
      if quote != '"' && quote != '\'' then Malformed
      else
        var value := AttributeFrom(t, v + 1, quote, mode, true);
        if value.Unterminated? then Malformed
        else
          AttributeAdvances(t, v + 1, quote, mode);
          if IsStartSymbol(At(t, value.next)) then Malformed
          else NamedValue(t[p..q], CString(value.text), value.next)
  }

  /** The attributes of a start tag. */
  function Attributes(src: Source, s: nat, stack: seq<Frame>): Outcome
    requires s <= |src.t| && |stack| > 1
    decreases |src.t| - s, 1
  {
    var p := SkipSpaces(src.t, s);
    var c := At(src.t, p);
    if IsStartSymbol(c) then
      var a := ReadAttribute(src.t, p, ModeOf(src.options));
      if a.Malformed? then Failed(BadAttribute)
      else Place(p, Place(ValueAt(src.t, p), Attributes(src, a.next, AddAttribute(stack, a.name, a.value))))
    else if c == '/' then
      if At(src.t, p + 1) == '>' then Parse(src, p + 2, Pop(stack))
      else if At(src.t, p + 1) == NUL && src.last == '>' then Parse(src, p + 1, Pop(stack))
      else Failed(BadStartElement)
    else if c == '>' then Parse(src, p + 1, stack)
    else if c == NUL && src.last == '>' then Parse(src, p, stack)
    else Failed(BadStartElement)
  }

  lemma {:induction false} AttributeAdvances(t: string, s: nat, quote: char, mode: AttributeMode)
    requires s <= |t|
    ensures var v := AttributeFrom(t, s, quote, mode, true); v.Value? ==> s < v.next <= |t|
    decreases |t| - s
  {
    hide Reference;
    if s < |t| {
      ReferenceShortens(t, s);
      if t[s] != quote && Converts(t[s], mode) {
        AttributeAdvances(t, Converted(t, s, mode).next, quote, mode);
      } else if t[s] != quote && t[s] == '&' {
        AttributeAdvances(t, Reference(t, s).next, quote, mode);
      } else if t[s] != quote && t[s] != NUL {
        AttributeAdvances(t, s + 1, quote, mode);
      }
    }
  }

  /** After `</`. */
  function CloseTag(src: Source, s: nat, stack: seq<Frame>): Outcome
    requires s <= |src.t| && stack != []
    decreases |src.t| - s, 1
  {
    var q := SkipSymbols(src.t, s);
    var w, name := src.t[s..q], stack[|stack| - 1].name;
    if |stack| == 1 then Failed(EndElementMismatch)
    else if w != name then
      if At(src.t, q) == NUL && name == w + [src.last] then Failed(BadEndElement) else Failed(EndElementMismatch)
    else
      var e := SkipSpaces(src.t, q);
      if At(src.t, e) == NUL then (if src.last != '>' then Failed(BadEndElement) else Parse(src, e, Pop(stack)))
      else if At(src.t, e) != '>' then Failed(BadEndElement)
      else Parse(src, e + 1, Pop(stack))
  }

  /** After `<?`: processing instructions and declarations are skipped. */
  function Question(src: Source, s: nat, stack: seq<Frame>): Outcome
    requires s <= |src.t| && stack != []
    decreases |src.t| - s, 1
  {
    if !IsStartSymbol(At(src.t, s)) then Failed(BadPi)
    else
      var p := SkipSymbols(src.t, s);
      if At(src.t, p) == NUL then Failed(BadPi)
      else
        var q := ScanFor(src, p, "?>", true);
        if At(src.t, q) == NUL then Failed(BadPi)
        else
          LooseEnd(src, q, "?>");
          Parse(src, StepOver(src, q, "?>"), stack)
  }

  /** XML 1.0, section 2.11: a carriage return, with the line feed after it if any, is a line feed. */
  function LineEnds(s: string): string {
    if s == "" then ""
    else if s[0] != '\r' then [s[0]] + LineEnds(s[1..])
    else "\n" + LineEnds(if |s| > 1 && s[1] == '\n' then s[2..] else s[1..])
  }

  /** The text of a node, as it is read. */
  function Text(o: Options, s: string): string { if o.eol then LineEnds(s) else s }

  /** The CDATA section whose text starts at `s`. */
  function ReadSection(src: Source, s: nat): (r: NamedValue)
    requires s <= |src.t|
    ensures r.NamedValue? ==> s < r.next <= |src.t|
  {
    var q := ScanFor(src, s, "]]>", true);
    if At(src.t, q) == NUL then Malformed
    else
      LooseEnd(src, q, "]]>");
      NamedValue("", Text(src.options, src.t[s..q]), StepOver(src, q, "]]>"))
  }

  /** After `<!`: comments and document type declarations are skipped. */
  function Exclamation(src: Source, s: nat, stack: seq<Frame>): Outcome
    requires s <= |src.t| && stack != []
    decreases |src.t| - s, 1
  {
    var c := At(src.t, s);
    if c == '-' then
      if At(src.t, s + 1) != '-' then Failed(BadComment)
      else
        var q := ScanFor(src, s + 2, "-->", true);
        if At(src.t, q) == NUL then Failed(BadComment)
        else
          LooseEnd(src, q, "-->");
          Parse(src, StepOver(src, q, "-->"), stack)
    else if c == '[' then
      if !Stands(src, s, "[CDATA[", false) then Failed(BadCdata)
      else
        assert At(src.t, s + 6) == "[CDATA["[6];
        var r := ReadSection(src, s + 7);
        if r.Malformed? then Failed(BadCdata)
        else Place(s + 7, Parse(src, r.next, AddNode(stack, Cdata(r.value))))
    else if Stands(src, s, "DOCTYPE", true) then
      if |stack| > 1 then Failed(BadDoctype)
      else
        var r := DoctypeGroup(src, s, 0);
        if r.Bad? then Failed(BadDoctype)
        else Parse(src, if At(src.t, r.p) == NUL then r.p else r.p + 1, stack)
    else if c == NUL && src.last == '-' then Failed(BadComment)
    else if c == NUL && src.last == '[' then Failed(BadCdata)
    else Failed(UnrecognizedTag)
  }

  /** Stepping over an end that was found stays within the text. */
  lemma LooseEnd(src: Source, q: nat, w: string)
    requires |w| >= 2 && NulFree(w) && Stands(src, q, w, true)
    ensures q + |w| - 1 <= |src.t| && q < StepOver(src, q, w) <= |src.t|
  {
    var k := |w| - 2;
    assert w[k] in w && w[k + 1] in w;
    assert At(src.t, q + k) == w[k];
  }

  // ---------------------------------------------------------------- parse

  predicate HasElement(ns: seq<Node>) { exists k | 0 <= k < |ns| :: ns[k].Element? }

  /** `parse`: the input as a whole. */
  function ParseDocument(o: Options, text: string): Outcome {
    if text == "" then Failed(NoDocumentElement)
    else
      var src := Source(text[..|text| - 1], text[|text| - 1], o);
      var bom := |src.t| >= 3 && src.t[0] as int == 0xEF && src.t[1] as int == 0xBB && src.t[2] as int == 0xBF;
      var r := Parse(src, if bom then 3 else 0, [Frame("", [], [])]);
      if r.Failed? then r
      else if src.last == '<' then Failed(UnrecognizedTag)
      else if !HasElement(r.children) then Failed(NoDocumentElement)
      else r
  }
}
