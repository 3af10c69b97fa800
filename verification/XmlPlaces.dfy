// Where a parse leaves the strings of the document: every name, value and text stands in the buffer, in
// document order, from left to right.
module XmlPlaces {

  import opened XmlText
  import opened XmlParser
  import D = Documents

  // ---------------------------------------------------------------- what stands at the places

  /** The strings that point into the buffer. */
  datatype Mark = NameMark(s: string) | ValueMark(s: string) | PcdataMark(s: string) | CdataMark(s: string)

  function AttributeMarks(a: seq<Attribute>): seq<Mark> {
    if a == [] then []
    else AttributeMarks(a[..|a| - 1]) + [NameMark(a[|a| - 1].name), ValueMark(a[|a| - 1].value)]
  }

  /** The strings of a tree in document order: an element, its attributes, its children. */
  function Marks(n: Node): (ms: seq<Mark>)
    ensures ms != []
  {
    match n
    case Element(name, attributes, children) => [NameMark(name)] + AttributeMarks(attributes) + MarksAll(children)
    case Pcdata(value) => [PcdataMark(value)]
    case Cdata(value) => [CdataMark(value)]
  }

  function MarksAll(ns: seq<Node>): seq<Mark> {
    if ns == [] then [] else MarksAll(ns[..|ns| - 1]) + Marks(ns[|ns| - 1])
  }

  function FrameMarks(f: Frame, root: bool): seq<Mark> {
    (if root then [] else [NameMark(f.name)] + AttributeMarks(f.attributes)) + MarksAll(f.children)
  }

  /** The strings of what has been read so far. */
  function OpenMarks(stack: seq<Frame>): seq<Mark> {
    if stack == [] then [] else OpenMarks(stack[..|stack| - 1]) + FrameMarks(stack[|stack| - 1], |stack| == 1)
  }

  /** The string stands at `p`, in the form in which the buffer had it. */
  predicate Stood(src: Source, p: nat, m: Mark) {
    p <= |src.t| &&
    match m
    case NameMark(s) => s == src.t[p..SkipSymbols(src.t, p)]
    case ValueMark(s) =>
      p > 0 && var v := AttributeFrom(src.t, p, src.t[p - 1], ModeOf(src.options), true); v.Value? && s == CString(v.text)
    case PcdataMark(s) => s == CString(XmlText.Pcdata(src.t, p, src.options.eol, true).text)
    case CdataMark(s) => ReadSection(src, p).NamedValue? && s == ReadSection(src, p).value
  }

  /** The strings stand at the places, from `from` on and from left to right. */
  predicate Located(src: Source, from: nat, places: seq<nat>, ms: seq<Mark>) {
    && |places| == |ms|
    && (forall k | 0 <= k < |places| :: from <= places[k] && Stood(src, places[k], ms[k]))
    && (forall j, k | 0 <= j < k < |places| :: places[j] < places[k])
  }

  /** What the parse from `from` on found, after the strings `before`. */
  ghost predicate Found(src: Source, from: nat, before: seq<Mark>, r: Outcome) {
    r.Parsed? ==> exists ms :: MarksAll(r.children) == before + ms && Located(src, from, r.places, ms)
  }

  // ---------------------------------------------------------------- the stack

  lemma {:induction false} AddNodeMarks(stack: seq<Frame>, n: Node)
    requires stack != []
    ensures AddNode(stack, n) != [] && OpenMarks(AddNode(stack, n)) == OpenMarks(stack) + Marks(n)
  {
    var top, now := stack[|stack| - 1], AddNode(stack, n);
    assert now[..|now| - 1] == stack[..|stack| - 1];
    var c := top.children + [n];
    assert c[..|c| - 1] == top.children;
  }

  lemma {:induction false} AddAttributeMarks(stack: seq<Frame>, name: string, value: string)
    requires |stack| > 1 && stack[|stack| - 1].children == []
    ensures AddAttribute(stack, name, value) != []
    ensures OpenMarks(AddAttribute(stack, name, value)) == OpenMarks(stack) + [NameMark(name)] + [ValueMark(value)]
  {
    var top, now := stack[|stack| - 1], AddAttribute(stack, name, value);
    assert now[..|now| - 1] == stack[..|stack| - 1];
    var a := top.attributes + [D.Attribute(name, value)];
    assert a[..|a| - 1] == top.attributes;
  }

  lemma {:induction false} PushMarks(stack: seq<Frame>, name: string)
    requires stack != []
    ensures OpenMarks(stack + [Frame(name, [], [])]) == OpenMarks(stack) + [NameMark(name)]
  {
    var now := stack + [Frame(name, [], [])];
    assert now[..|now| - 1] == stack;
  }

  lemma {:induction false} PopMarks(stack: seq<Frame>)
    requires |stack| > 1
    ensures Pop(stack) != [] && OpenMarks(Pop(stack)) == OpenMarks(stack)
  {
    var top, rest := stack[|stack| - 1], stack[..|stack| - 1];
    AddNodeMarks(rest, Element(top.name, top.attributes, top.children));
  }

  lemma {:induction false} FinishFinds(src: Source, from: nat, stack: seq<Frame>)
    requires stack != []
    ensures Found(src, from, OpenMarks(stack), Finish(stack))
  {
    if |stack| == 1 {
      assert OpenMarks(stack[..0]) == [];
      var ms: seq<Mark> := [];
      assert MarksAll(stack[0].children) == OpenMarks(stack) + ms && Located(src, from, [], ms);
    }
  }

  lemma NothingFound(src: Source, from: nat, before: seq<Mark>, r: Outcome)
    requires r.Failed?
    ensures Found(src, from, before, r)
  {}

  // ---------------------------------------------------------------- one more place

  lemma {:induction false} FoundFrom(src: Source, from: nat, later: nat, before: seq<Mark>, r: Outcome)
    requires from <= later && Found(src, later, before, r)
    ensures Found(src, from, before, r)
  {
    if r.Parsed? {
      var ms :| MarksAll(r.children) == before + ms && Located(src, later, r.places, ms);
      assert Located(src, from, r.places, ms);
    }
  }

  lemma {:induction false} PlaceFound(src: Source, p: nat, later: nat, before: seq<Mark>, m: Mark, r: Outcome)
    requires p < later && Stood(src, p, m) && Found(src, later, before + [m], r)
    ensures Found(src, p, before, Place(p, r))
  {
    hide Stood;
    if r.Parsed? {
      var ms :| MarksAll(r.children) == before + [m] + ms && Located(src, later, r.places, ms);
      assert before + [m] + ms == before + ([m] + ms);
      assert Located(src, p, [p] + r.places, [m] + ms);
    }
  }

  // ---------------------------------------------------------------- the parser

  lemma {:induction false} ParseFinds(src: Source, s: nat, stack: seq<Frame>)
    requires s <= |src.t| && stack != []
    ensures Found(src, s, OpenMarks(stack), Parse(src, s, stack))
    decreases |src.t| - s, 1
  {
    hide Found, OpenMarks, Finish, AddNode, Tag, SkipSpaces, EndsSpace, ScanFor;
    var c := At(src.t, s);
    if c == NUL {
      FinishFinds(src, s, stack);
    } else if c == '<' {
      TagFinds(src, s + 1, stack);
      FoundFrom(src, s, s + 1, OpenMarks(stack), Tag(src, s + 1, stack));
    } else if !src.options.ws && EndsSpace(src.t, s) {
      SpaceFinds(src, s, stack);
    } else if |stack| > 1 {
      PcdataFinds(src, s, stack);
    } else {
      var p := ScanFor(src, s, "<", false);
      if At(src.t, p) == NUL {
        FinishFinds(src, s, stack);
      } else {
        TagFinds(src, p + 1, stack);
        FoundFrom(src, s, p + 1, OpenMarks(stack), Tag(src, p + 1, stack));
      }
    }
  }

  lemma SpaceMoves(src: Source, s: nat)
    requires s < |src.t| && EndsSpace(src.t, s) && src.t[s] != '<' && src.t[s] != NUL
    ensures s < SkipSpaces(src.t, s) <= |src.t|
  {}

  lemma {:induction false} SpaceFinds(src: Source, s: nat, stack: seq<Frame>)
    requires s < |src.t| && stack != [] && EndsSpace(src.t, s) && src.t[s] != '<' && src.t[s] != NUL
    ensures Found(src, s, OpenMarks(stack), Parse(src, SkipSpaces(src.t, s), stack))
    decreases |src.t| - s, 0
  {
    hide Found, OpenMarks, Parse, EndsSpace, SkipSpaces;
    SpaceMoves(src, s);
    var p := SkipSpaces(src.t, s);
    ParseFinds(src, p, stack);
    FoundFrom(src, s, p, OpenMarks(stack), Parse(src, p, stack));
  }

  lemma {:induction false} PcdataFinds(src: Source, s: nat, stack: seq<Frame>)
    requires s < |src.t| && stack != [] && src.t[s] != NUL
    ensures var r := XmlText.Pcdata(src.t, s, src.options.eol, true);
            && s < r.next <= |src.t|
            && var next := AddNode(stack, Pcdata(CString(r.text)));
               Found(src, s, OpenMarks(stack), Place(s, if At(src.t, r.next) == NUL then Finish(next) else Tag(src, r.next, next)))
    decreases |src.t| - s, 0
  {
    hide Found, OpenMarks, Finish, AddNode, Tag, CString, Place, XmlText.Pcdata;
    PcdataAdvances(src.t, s, src.options.eol);
    var r := XmlText.Pcdata(src.t, s, src.options.eol, true);
    var n := Pcdata(CString(r.text));
    var next := AddNode(stack, n);
    AddNodeMarks(stack, n);
    assert Marks(n) == [PcdataMark(CString(r.text))];
    if At(src.t, r.next) == NUL { FinishFinds(src, r.next, next); } else { TagFinds(src, r.next, next); }
    PlaceFound(src, s, r.next, OpenMarks(stack), PcdataMark(CString(r.text)),
               if At(src.t, r.next) == NUL then Finish(next) else Tag(src, r.next, next));
  }

  lemma {:induction false} TagFinds(src: Source, s: nat, stack: seq<Frame>)
    requires s <= |src.t| && stack != []
    ensures Found(src, s, OpenMarks(stack), Tag(src, s, stack))
    decreases |src.t| - s, 3
  {
    hide Found, OpenMarks, Located, CloseTag, Question, Exclamation;
    var c := At(src.t, s);
    if IsStartSymbol(c) {
      StartFinds(src, s, stack);
    } else if c == '/' {
      CloseFinds(src, s + 1, stack);
      FoundFrom(src, s, s + 1, OpenMarks(stack), CloseTag(src, s + 1, stack));
    } else if c == '?' {
      QuestionFinds(src, s + 1, stack);
      FoundFrom(src, s, s + 1, OpenMarks(stack), Question(src, s + 1, stack));
    } else if c == '!' {
      ExclamationFinds(src, s + 1, stack);
      FoundFrom(src, s, s + 1, OpenMarks(stack), Exclamation(src, s + 1, stack));
    } else {
      NothingFound(src, s, OpenMarks(stack), Tag(src, s, stack));
    }
  }

  lemma {:induction false} StartFinds(src: Source, s: nat, stack: seq<Frame>)
    requires s <= |src.t| && stack != [] && IsStartSymbol(At(src.t, s))
    ensures Found(src, s, OpenMarks(stack), Tag(src, s, stack))
    decreases |src.t| - s, 0
  {
    hide Found, OpenMarks, Parse, Attributes, Ends, Pop, IsStartSymbol, SkipSymbols, Place;
    var p := SkipSymbols(src.t, s);
    SymbolsMove(src.t, s);
    var name := src.t[s..p];
    var open, ch := stack + [Frame(name, [], [])], At(src.t, p);
    AfterName(src, p, open);
    PushMarks(stack, name);
    PopMarks(open);
    var r := if ch == '>' then Parse(src, p + 1, open)
             else if IsSpace(ch) then Attributes(src, p + 1, open)
             else if ch == '/' then
               if !Ends(src, p + 1, '>') then Failed(BadStartElement)
               else Parse(src, if At(src.t, p + 1) == '>' then p + 2 else p + 1, Pop(open))
             else if ch == NUL && src.last == '>' then Parse(src, p, open)
             else Failed(BadStartElement);
    PlaceFound(src, s, p, OpenMarks(stack), NameMark(name), r);
  }

  lemma SymbolsMove(t: string, s: nat)
    requires s <= |t| && IsStartSymbol(At(t, s))
    ensures s < SkipSymbols(t, s) <= |t|
  {}

  /** After the name of an element that has just been opened. */
  lemma {:induction false} AfterName(src: Source, p: nat, open: seq<Frame>)
    requires p <= |src.t| && |open| > 1 && open[|open| - 1].children == []
    ensures var ch := At(src.t, p);
            Found(src, p, OpenMarks(open),
                  if ch == '>' then Parse(src, p + 1, open)
                  else if IsSpace(ch) then Attributes(src, p + 1, open)
                  else if ch == '/' then
                    if !Ends(src, p + 1, '>') then Failed(BadStartElement)
                    else Parse(src, if At(src.t, p + 1) == '>' then p + 2 else p + 1, Pop(open))
                  else if ch == NUL && src.last == '>' then Parse(src, p, open)
                  else Failed(BadStartElement))
    decreases |src.t| - p, 3
  {
    hide OpenMarks, Parse, Attributes, Pop, Located;
    var ch := At(src.t, p);
    if ch == '>' {
      GoesOn(src, p, p + 1, open);
    } else if IsSpace(ch) {
      AttributesFind(src, p + 1, open);
      FoundFrom(src, p, p + 1, OpenMarks(open), Attributes(src, p + 1, open));
    } else if ch == '/' {
      PopMarks(open);
      if Ends(src, p + 1, '>') { GoesOn(src, p, if At(src.t, p + 1) == '>' then p + 2 else p + 1, Pop(open)); }
    } else if ch == NUL && src.last == '>' {
      GoesOn(src, p, p, open);
    }
  }

  /** The loop goes on at `next`. */
  lemma {:induction false} GoesOn(src: Source, from: nat, next: nat, stack: seq<Frame>)
    requires from <= next <= |src.t| && stack != []
    ensures Found(src, from, OpenMarks(stack), Parse(src, next, stack))
    decreases |src.t| - next, 2
  {
    hide Found, OpenMarks, Parse;
    ParseFinds(src, next, stack);
    FoundFrom(src, from, next, OpenMarks(stack), Parse(src, next, stack));
  }

  /** The name and the value of an attribute stand where they were read. */
  lemma AttributeStood(src: Source, p: nat)
    requires p <= |src.t|
    ensures var a, v := ReadAttribute(src.t, p, ModeOf(src.options)), ValueAt(src.t, p);
            a.NamedValue? ==>
              p < v < a.next <= |src.t| && Stood(src, p, NameMark(a.name)) && Stood(src, v, ValueMark(a.value))
  {
    hide AttributeFrom, CString;
    var v := ValueAt(src.t, p);
    if ReadAttribute(src.t, p, ModeOf(src.options)).NamedValue? {
      AttributeAdvances(src.t, v, src.t[v - 1], ModeOf(src.options));
    }
  }

  lemma {:induction false} AttributesFind(src: Source, s: nat, stack: seq<Frame>)
    requires s <= |src.t| && |stack| > 1 && stack[|stack| - 1].children == []
    ensures Found(src, s, OpenMarks(stack), Attributes(src, s, stack))
    decreases |src.t| - s, 3
  {
    hide OpenMarks, Parse, Pop, Located, ReadAttribute, ValueAt, Stood, Place;
    var p := SkipSpaces(src.t, s);
    var c := At(src.t, p);
    if IsStartSymbol(c) {
      var a := ReadAttribute(src.t, p, ModeOf(src.options));
      if a.NamedValue? { AttributeFinds(src, s, p, a, stack); }
    } else if c == '/' {
      PopMarks(stack);
      if At(src.t, p + 1) == '>' { GoesOn(src, s, p + 2, Pop(stack)); }
      else if At(src.t, p + 1) == NUL && src.last == '>' { GoesOn(src, s, p + 1, Pop(stack)); }
    } else if c == '>' {
      GoesOn(src, s, p + 1, stack);
    } else if c == NUL && src.last == '>' {
      GoesOn(src, s, p, stack);
    }
  }

  lemma {:induction false} AttributeFinds(src: Source, s: nat, p: nat, a: NamedValue, stack: seq<Frame>)
    requires s <= p <= |src.t| && |stack| > 1 && stack[|stack| - 1].children == []
    requires a.NamedValue? && a == ReadAttribute(src.t, p, ModeOf(src.options))
    ensures Found(src, s, OpenMarks(stack),
                  Place(p, Place(ValueAt(src.t, p), Attributes(src, a.next, AddAttribute(stack, a.name, a.value)))))
    decreases |src.t| - p, 0
  {
    hide Found, OpenMarks, Attributes, ReadAttribute, ValueAt, Stood, Place;
    var v, before, m := ValueAt(src.t, p), OpenMarks(stack), NameMark(a.name);
    AttributeStood(src, p);
    AddAttributeMarks(stack, a.name, a.value);
    var next := AddAttribute(stack, a.name, a.value);
    AttributesFind(src, a.next, next);
    var r := Attributes(src, a.next, next);
    PlaceFound(src, v, a.next, before + [m], ValueMark(a.value), r);
    PlaceFound(src, p, v, before, m, Place(v, r));
    FoundFrom(src, s, p, before, Place(p, Place(v, r)));
  }

  lemma {:induction false} CloseFinds(src: Source, s: nat, stack: seq<Frame>)
    requires s <= |src.t| && stack != []
    ensures Found(src, s, OpenMarks(stack), CloseTag(src, s, stack))
    decreases |src.t| - s, 3
  {
    hide OpenMarks, Parse, Pop, Located;
    var e := SkipSpaces(src.t, SkipSymbols(src.t, s));
    if |stack| > 1 {
      PopMarks(stack);
      GoesOn(src, s, if At(src.t, e) == '>' then e + 1 else e, Pop(stack));
    }
  }

  lemma {:induction false} QuestionFinds(src: Source, s: nat, stack: seq<Frame>)
    requires s <= |src.t| && stack != []
    ensures Found(src, s, OpenMarks(stack), Question(src, s, stack))
    decreases |src.t| - s, 3
  {
    hide OpenMarks, Parse, Located, Stands, StepOver;
    var q := ScanFor(src, SkipSymbols(src.t, s), "?>", true);
    if Question(src, s, stack).Parsed? {
      LooseEnd(src, q, "?>");
      GoesOn(src, s, StepOver(src, q, "?>"), stack);
    }
  }

  lemma {:induction false} ExclamationFinds(src: Source, s: nat, stack: seq<Frame>)
    requires s <= |src.t| && stack != []
    ensures Found(src, s, OpenMarks(stack), Exclamation(src, s, stack))
    decreases |src.t| - s, 3
  {
    hide OpenMarks, Parse, Located, Stands, StepOver, ReadSection, DoctypeGroup, Place, AddNode, Stood;
    if Exclamation(src, s, stack).Parsed? {
      if At(src.t, s) == '-' {
        var q := ScanFor(src, s + 2, "-->", true);
        LooseEnd(src, q, "-->");
        GoesOn(src, s, StepOver(src, q, "-->"), stack);
      } else if At(src.t, s) == '[' {
        SectionFinds(src, s, s + 7, stack);
      } else {
        var r := DoctypeGroup(src, s, 0);
        GoesOn(src, s, if At(src.t, r.p) == NUL then r.p else r.p + 1, stack);
      }
    }
  }

  lemma {:induction false} SectionFinds(src: Source, from: nat, s: nat, stack: seq<Frame>)
    requires from <= s <= |src.t| && stack != [] && ReadSection(src, s).NamedValue?
    ensures var r := ReadSection(src, s);
            Found(src, from, OpenMarks(stack), Place(s, Parse(src, r.next, AddNode(stack, Cdata(r.value)))))
    decreases |src.t| - s, 1
  {
    hide Found, OpenMarks, Parse, ReadSection, Place, AddNode;
    var r, before := ReadSection(src, s), OpenMarks(stack);
    var next, m := AddNode(stack, Cdata(r.value)), CdataMark(r.value);
    AddNodeMarks(stack, Cdata(r.value));
    assert Marks(Cdata(r.value)) == [m];
    ParseFinds(src, r.next, next);
    PlaceFound(src, s, r.next, before, m, Parse(src, r.next, next));
    FoundFrom(src, from, s, before, Place(s, Parse(src, r.next, next)));
  }

  // ---------------------------------------------------------------- the whole input

  /** Every string of a parsed document stands in the buffer, at a place of its own: they are in document order
      from left to right. */
  lemma ParsedInOrder(o: Options, text: string)
    requires ParseDocument(o, text).Parsed?
    ensures var r := ParseDocument(o, text);
            Located(Source(text[..|text| - 1], text[|text| - 1], o), 0, r.places, MarksAll(r.children))
  {
    hide Located, Parse;
    var src := Source(text[..|text| - 1], text[|text| - 1], o);
    var bom := |src.t| >= 3 && src.t[0] as int == 0xEF && src.t[1] as int == 0xBB && src.t[2] as int == 0xBF;
    var s, stack := if bom then 3 else 0, [Frame("", [], [])];
    ParseFinds(src, s, stack);
    assert OpenMarks(stack[..0]) == [];
    assert OpenMarks(stack) == [];
    FoundFrom(src, 0, s, [], Parse(src, s, stack));
    var r := ParseDocument(o, text);
    var ms :| MarksAll(r.children) == [] + ms && Located(src, 0, r.places, ms);
    assert [] + ms == ms;
  }
}
