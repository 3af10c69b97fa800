// Printing a tree raw and parsing it again.
module XmlRoundTrip {

  import opened XmlText
  import opened XmlParser
  import D = Documents

  // ---------------------------------------------------------------- the printer

  function PrintAttributes(a: seq<Attribute>): string {
    if a == [] then "" else " " + a[0].name + "=\"" + Escape(a[0].value, true) + "\"" + PrintAttributes(a[1..])
  }

  /** `]]>` stands at `k`. */
  predicate IsEnd(s: string, k: int) { 0 <= k && k + 3 <= |s| && s[k] == ']' && s[k + 1] == ']' && s[k + 2] == '>' }

  /** Where `]]>` first stands in `s`, or its length. */
  function FindEnd(s: string): (q: nat)
    ensures q == |s| || IsEnd(s, q)
    ensures forall k | 0 <= k < q :: !IsEnd(s, k)
  {
    if s == "" || IsEnd(s, 0) then 0
    else
      var q := FindEnd(s[1..]);
      assert forall k | 0 < k <= q :: IsEnd(s, k) == IsEnd(s[1..], k - 1);
      q + 1
  }

  /** The sections a CDATA text is printed in: `]]>` is cut after its brackets. */
  function Sections(s: string): seq<string>
    decreases |s|
  {
    var q := FindEnd(s);
    if q == |s| then [s] else [s[..q + 2]] + Sections(s[q + 2..])
  }

  function PrintSections(sections: seq<string>): string {
    if sections == [] then "" else "<![CDATA[" + sections[0] + "]]>" + PrintSections(sections[1..])
  }

  /** `node_output` with the flags format_raw and format_no_declaration. */
  function Print(n: Node): string {
    match n
    case Element(name, attributes, children) =>
      "<" + name + PrintAttributes(attributes)
      + (if children == [] then "/>" else ">" + PrintAll(children) + "</" + name + ">")
    case Pcdata(value) => Escape(value, false)
    case Cdata(value) => PrintSections(Sections(value))
  }

  function PrintAll(ns: seq<Node>): string {
    if ns == [] then "" else Print(ns[0]) + PrintAll(ns[1..])
  }

  // ---------------------------------------------------------------- what a tree becomes

  /** The text of the character data that `ns` starts with, and the number of nodes it is in. */
  function LeadingText(ns: seq<Node>): string {
    if ns != [] && ns[0].Pcdata? then ns[0].value + LeadingText(ns[1..]) else ""
  }

  function LeadingCount(ns: seq<Node>): (k: nat)
    ensures k <= |ns| && (k < |ns| ==> !ns[k].Pcdata?)
    ensures ns != [] && ns[0].Pcdata? ==> 0 < k
  {
    if ns != [] && ns[0].Pcdata? then 1 + LeadingCount(ns[1..]) else 0
  }

  function CdataNodes(o: Options, sections: seq<string>): seq<Node> {
    if sections == [] then [] else [Cdata(Text(o, sections[0]))] + CdataNodes(o, sections[1..])
  }

  /** Character data that the parser makes no node for. */
  predicate Dropped(o: Options, text: string) { text == "" || (!o.ws && AllSpace(text)) }

  /** The node of character data that stands together, if there is one. */
  function TextNode(o: Options, text: string): seq<Node> {
    if Dropped(o, text) then [] else [Pcdata(Text(o, text))]
  }

  /** A tab in an attribute value becomes a space (XML 1.0, section 3.3.3). */
  function Tabs(s: string): string {
    if s == "" then "" else [if s[0] == '\t' then ' ' else s[0]] + Tabs(s[1..])
  }

  /** An attribute as it is read: its line ends were written as references. */
  function ReadBack(o: Options, a: Attribute): Attribute {
    D.Attribute(a.name, if o.wconv then Tabs(a.value) else a.value)
  }

  function ReadBackAll(o: Options, a: seq<Attribute>): seq<Attribute> {
    if a == [] then [] else [ReadBack(o, a[0])] + ReadBackAll(o, a[1..])
  }

  /** What parsing a printed node gives: neighbouring character data is one node, empty character data none
      and, unless white space is kept, neither is white space; a CDATA text is the nodes of its sections; line
      ends and tabs are converted as the options say. */
  function Normal(o: Options, n: Node): seq<Node> {
    match n
    case Element(name, attributes, children) =>
      [Element(name, ReadBackAll(o, attributes), NormalAll(o, children))]
    case Pcdata(value) => TextNode(o, value)
    case Cdata(value) => CdataNodes(o, Sections(value))
  }

  function NormalAll(o: Options, ns: seq<Node>): seq<Node> {
    if ns == [] then []
    else if ns[0].Pcdata? then TextNode(o, LeadingText(ns)) + NormalAll(o, ns[LeadingCount(ns)..])
    else Normal(o, ns[0]) + NormalAll(o, ns[1..])
  }

  /** Names are names, and no text holds a NUL. */
  predicate Printable(n: Node) {
    match n
    case Element(name, attributes, children) =>
      && IsName(name)
      && (forall k | 0 <= k < |attributes| :: IsName(attributes[k].name) && NulFree(attributes[k].value))
      && (forall k | 0 <= k < |children| :: Printable(children[k]))
    case Pcdata(value) => NulFree(value)
    case Cdata(value) => NulFree(value)
  }

  // ---------------------------------------------------------------- text in the source

  /** `w` is in the text at `s`. */
  predicate Inside(t: string, s: nat, w: string) { s + |w| <= |t| && t[s..s + |w|] == w }

  lemma InsideAt(t: string, s: nat, w: string, k: nat)
    requires Inside(t, s, w) && k < |w|
    ensures At(t, s + k) == w[k] && s + k < |t|
  {
    assert t[s..s + |w|][k] == t[s + k];
  }

  lemma InsideParts(t: string, s: nat, u: string, v: string)
    requires Inside(t, s, u + v)
    ensures Inside(t, s, u) && Inside(t, s + |u|, v)
  {
    assert t[s..s + |u|] == (u + v)[..|u|];
    assert t[s + |u|..s + |u| + |v|] == (u + v)[|u|..];
  }

  // ---------------------------------------------------------------- references

  lemma TwoDigits(t: string, s: nat, c: char)
    requires c as int < 32
    requires Inside(t, s, ['&', '#', (c as int / 10 + 48) as char, (c as int % 10 + 48) as char, ';'])
    ensures Reference(t, s) == Ref([c], s + 5)
  {
    var w := ['&', '#', (c as int / 10 + 48) as char, (c as int % 10 + 48) as char, ';'];
    InsideAt(t, s, w, 0);
    InsideAt(t, s, w, 1);
    InsideAt(t, s, w, 2);
    InsideAt(t, s, w, 3);
    InsideAt(t, s, w, 4);
    var d, e := c as int / 10, c as int % 10;
    assert Digits(t, s, s + 4, 10 * d + e, false) == Ref(Utf8(10 * d + e), s + 5);
    assert Digits(t, s, s + 3, d, false) == Digits(t, s, s + 4, 10 * d + e, false);
    assert Digits(t, s, s + 2, 0, false) == Digits(t, s, s + 3, d, false);
  }

  lemma EntityStands(t: string, s: nat, p: nat, w: string, c: char)
    requires s < p && Inside(t, p, w)
    ensures Entity(t, s, p, w, c) == Ref([c], p + |w|)
  {
    WordMatches(t, p, w);
  }

  lemma {:induction false} WordMatches(t: string, p: nat, w: string)
    requires Inside(t, p, w)
    ensures Matched(t, p, w) == |w|
    decreases |w|
  {
    if w != "" {
      InsideAt(t, p, w, 0);
      InsideParts(t, p, [w[0]], w[1..]) by { assert [w[0]] + w[1..] == w; }
      WordMatches(t, p + 1, w[1..]);
    }
  }

  /** A named escape: its first bytes `head` lead to the entity, the rest `w` is matched. */
  lemma NamedEscape(t: string, s: nat, head: string, w: string, c: char)
    requires |head| >= 2 && Inside(t, s, head + w)
    ensures Inside(t, s, head) && Entity(t, s, s + |head|, w, c) == Ref([c], s + |head| + |w|)
    ensures At(t, s) == head[0] && At(t, s + 1) == head[1] && (|head| == 3 ==> At(t, s + 2) == head[2])
  {
    hide Entity, Inside;
    InsideParts(t, s, head, w);
    EntityStands(t, s, s + |head|, w, c);
    InsideAt(t, s, head, 0);
    InsideAt(t, s, head, 1);
    if |head| == 3 { InsideAt(t, s, head, 2); }
  }

  /** The parser reads an escape as the character it was written for. */
  lemma EscapeReads(t: string, s: nat, c: char, attribute: bool)
    requires IsSpecial(c, attribute) && Inside(t, s, EscapeChar(c, attribute))
    ensures At(t, s) == '&' && Reference(t, s) == Ref([c], s + |EscapeChar(c, attribute)|)
  {
    hide Entity, CharacterReference, Inside;
    var w := EscapeChar(c, attribute);
    if c == '&' {
      assert w == "&am" + "p;";
      NamedEscape(t, s, "&am", "p;", '&');
    } else if c == '<' {
      assert w == "&l" + "t;";
      NamedEscape(t, s, "&l", "t;", '<');
    } else if c == '>' {
      assert w == "&g" + "t;";
      NamedEscape(t, s, "&g", "t;", '>');
    } else if c == '"' {
      assert w == "&q" + "uot;";
      NamedEscape(t, s, "&q", "uot;", '"');
    } else {
      InsideAt(t, s, w, 0);
      TwoDigits(t, s, c);
    }
  }

  lemma PlainChar(c: char, attribute: bool)
    requires !IsSpecial(c, attribute)
    ensures EscapeChar(c, attribute) == [c] && c != '&' && c != '<' && (attribute ==> c != '"')
  {
  }

  lemma EscapeNotEmpty(c: char, attribute: bool)
    ensures EscapeChar(c, attribute) != "" && EscapeChar(c, attribute)[0] != '<' && (c != NUL ==> EscapeChar(c, attribute)[0] != NUL)
    ensures attribute ==> EscapeChar(c, attribute)[0] != '"'
  {
  }

  /** What the decoder makes of a byte that is printed as it is. */
  lemma PlainReads(t: string, s: nat, c: char, mode: AttributeMode)
    requires s < |t| && t[s] == c && !IsSpecial(c, true) && !mode.Wnorm?
    ensures Converts(c, mode) ==> mode.Wconv? && (c == ' ' || c == '\t') && Converted(t, s, mode) == Ref(" ", s + 1)
    ensures !Converts(c, mode) && mode.Wconv? ==> c != '\t'
  {
  }

  lemma LineEndsAreSpecial(c: char)
    ensures c == '\r' || c == '\n' ==> IsSpecial(c, true)
    ensures !IsSpecial('\t', true) && !IsSpecial(' ', true)
  {
  }

  /** The character that is read for one that was printed in an attribute value. */
  function CharBack(c: char, mode: AttributeMode): char { if mode.Wconv? && c == '\t' then ' ' else c }

  /** One printed character at `s` is read as one character. */
  lemma AttributeStep(t: string, s: nat, c: char, mode: AttributeMode)
    requires c != NUL && Inside(t, s, EscapeChar(c, true)) && !mode.Wnorm?
    ensures s + |EscapeChar(c, true)| <= |t|
    ensures AttributeFrom(t, s, '"', mode, true)
         == Prepend([CharBack(c, mode)], AttributeFrom(t, s + |EscapeChar(c, true)|, '"', mode, true))
  {
    hide Reference, EscapeChar, IsSpecial, Converted;
    var e := EscapeChar(c, true);
    EscapeNotEmpty(c, true);
    InsideAt(t, s, e, 0);
    if IsSpecial(c, true) {
      EscapeReads(t, s, c, true);
      LineEndsAreSpecial(c);
      AmpersandStays(mode);
    } else {
      PlainChar(c, true);
      PlainReads(t, s, c, mode);
    }
  }

  lemma AmpersandStays(mode: AttributeMode)
    ensures !Converts('&', mode)
  {
  }

  /** Decoding a printed attribute value gives the value, with spaces for its tabs where they are converted:
      its line ends were written as references. */
  lemma {:induction false} AttributeDecodes(t: string, s: nat, v: string, mode: AttributeMode)
    requires NulFree(v) && Inside(t, s, Escape(v, true) + "\"") && !mode.Wnorm?
    ensures AttributeFrom(t, s, '"', mode, true)
         == Value(if mode.Wconv? then Tabs(v) else v, s + |Escape(v, true)| + 1)
    decreases |v|
  {
    hide Reference, Inside, EscapeChar, IsSpecial, Converted, Converts;
    if v == "" {
      InsideAt(t, s, Escape(v, true) + "\"", 0);
    } else {
      var c, e := v[0], EscapeChar(v[0], true);
      assert Escape(v, true) + "\"" == e + (Escape(v[1..], true) + "\"");
      InsideParts(t, s, e, Escape(v[1..], true) + "\"");
      assert [c] + v[1..] == v && c in v;
      AttributeStep(t, s, c, mode);
      hide AttributeFrom;
      AttributeDecodes(t, s + |e|, v[1..], mode);
    }
  }

  /** One printed character that is no line end to convert is read as one character. */
  lemma PcdataStep(t: string, s: nat, c: char, eol: bool)
    requires c != NUL && Inside(t, s, EscapeChar(c, false)) && !(eol && c == '\r')
    ensures s + |EscapeChar(c, false)| <= |t|
    ensures var rest := XmlText.Pcdata(t, s + |EscapeChar(c, false)|, eol, true);
            XmlText.Pcdata(t, s, eol, true) == Ref([c] + rest.text, rest.next)
  {
    hide Reference, EscapeChar, IsSpecial;
    EscapeNotEmpty(c, false);
    InsideAt(t, s, EscapeChar(c, false), 0);
    if IsSpecial(c, false) { EscapeReads(t, s, c, false); } else { PlainChar(c, false); }
  }

  lemma TextOfRest(o: Options, v: string)
    requires v != "" && !(o.eol && v[0] == '\r')
    ensures Text(o, v) == [v[0]] + Text(o, v[1..])
  {
    assert [v[0]] + v[1..] == v;
  }

  /** Decoding printed character data, up to the next tag, gives the data, with its line ends normalised
      where they are converted. */
  lemma {:induction false} PcdataDecodes(t: string, s: nat, v: string, o: Options)
    requires NulFree(v) && Inside(t, s, Escape(v, false) + "<")
    ensures XmlText.Pcdata(t, s, o.eol, true) == Ref(Text(o, v), s + |Escape(v, false)| + 1)
    decreases |v|
  {
    hide Reference, Inside, EscapeChar, IsSpecial;
    if v == "" {
      InsideAt(t, s, Escape(v, false) + "<", 0);
    } else if o.eol && v[0] == '\r' {
      ReturnDecodes(t, s, v, o);
    } else {
      var c, e := v[0], EscapeChar(v[0], false);
      assert Escape(v, false) + "<" == e + (Escape(v[1..], false) + "<");
      InsideParts(t, s, e, Escape(v[1..], false) + "<");
      assert c in v && forall k | 0 <= k < |v[1..]| :: v[1..][k] in v;
      PcdataStep(t, s, c, o.eol);
      TextOfRest(o, v);
      hide Text, LineEnds, XmlText.Pcdata;
      PcdataDecodes(t, s + |e|, v[1..], o);
    }
  }

  lemma {:induction false} ReturnDecodes(t: string, s: nat, v: string, o: Options)
    requires NulFree(v) && Inside(t, s, Escape(v, false) + "<") && v != "" && v[0] == '\r' && o.eol
    ensures XmlText.Pcdata(t, s, true, true) == Ref(LineEnds(v), s + |Escape(v, false)| + 1)
    decreases |v|, 0
  {
    hide Reference, Inside;
    var rest := Escape(v[1..], false) + "<";
    assert Escape(v, false) + "<" == "\r" + rest;
    InsideParts(t, s, "\r", rest);
    InsideAt(t, s, "\r", 0);
    InsideAt(t, s + 1, rest, 0);
    if |v| > 1 && v[1] == '\n' {
      assert rest == "\n" + (Escape(v[1..][1..], false) + "<");
      assert v[1..][1..] == v[2..];
      InsideParts(t, s + 1, "\n", Escape(v[2..], false) + "<");
      PcdataDecodes(t, s + 2, v[2..], o);
    } else {
      NoLineFeed(v[1..]);
      PcdataDecodes(t, s + 1, v[1..], o);
    }
  }

  lemma NoLineFeed(v: string)
    requires v == "" || v[0] != '\n'
    ensures (Escape(v, false) + "<")[0] != '\n'
  {
    if v != "" { EscapeNotEmpty(v[0], false); }
  }

  // ---------------------------------------------------------------- CDATA sections

  lemma ScanForStops(src: Source, p: nat, w: string, loose: bool, q: nat)
    requires p <= q < |src.t| && w != "" && Stands(src, q, w, loose)
    requires forall k | p <= k <= q :: src.t[k] != NUL
    requires forall k | p <= k < q :: !Stands(src, k, w, loose)
    ensures ScanFor(src, p, w, loose) == q
  {
    var r := ScanFor(src, p, w, loose);
    assert r <= q;
  }

  /** A section is cut where no `]]>` is inside it. */
  predicate Cut(section: string) { NulFree(section) && forall k | 0 <= k < |section| :: !IsEnd(section, k) }

  /** A section with its end after it has `]]>` only there. */
  lemma SectionEnd(section: string, k: nat)
    requires Cut(section) && k < |section|
    ensures !IsEnd(section + "]]>", k)
  {
    var w := section + "]]>";
    assert forall j | 0 <= j < |section| :: w[j] == section[j];
    assert w[|section|] == ']' && w[|section| + 1] == ']';
    assert !IsEnd(section, k);
  }

  /** The parser finds the end of a printed section. */
  lemma SectionScans(src: Source, s: nat, section: string)
    requires Cut(section) && Inside(src.t, s, section + "]]>")
    ensures ScanFor(src, s, "]]>", true) == s + |section|
  {
    var w, end := section + "]]>", s + |section|;
    InsideAt(src.t, s, w, |section|);
    InsideAt(src.t, s, w, |section| + 1);
    InsideAt(src.t, s, w, |section| + 2);
    forall k | s <= k <= end ensures src.t[k] != NUL {
      InsideAt(src.t, s, w, k - s);
      assert k < end ==> section[k - s] in section;
    }
    forall k | s <= k < end ensures !Stands(src, k, "]]>", true) {
      InsideAt(src.t, s, w, k - s);
      InsideAt(src.t, s, w, k - s + 1);
      InsideAt(src.t, s, w, k - s + 2);
      SectionEnd(section, k - s);
      ThreeBytes(src, k, "]]>");
    }
    ScanForStops(src, s, "]]>", true, end);
  }

  lemma ThreeBytes(src: Source, k: nat, w: string)
    requires |w| == 3 && k + 2 < |src.t| && src.t[k] != NUL && src.t[k + 1] != NUL && src.t[k + 2] != NUL
    ensures Stands(src, k, w, true) <==> src.t[k] == w[0] && src.t[k + 1] == w[1] && src.t[k + 2] == w[2]
  {
    if Stands(src, k, w, true) { assert At(src.t, k + 0) == w[0] && At(src.t, k + 1) == w[1]; }
  }

  /** A printed section is read as its text. */
  lemma SectionReads(src: Source, s: nat, section: string)
    requires Cut(section) && Inside(src.t, s, section + "]]>")
    ensures s + |section| + 3 <= |src.t|
    ensures ReadSection(src, s) == NamedValue("", Text(src.options, section), s + |section| + 3)
  {
    hide ScanFor, Cut, Inside;
    SectionScans(src, s, section);
    OpenFits(src.t, s, section + "]]>");
    InsideParts(src.t, s, section, "]]>");
    InsideAt(src.t, s + |section|, "]]>", 0);
    InsideAt(src.t, s + |section|, "]]>", 2);
    InsideText(src.t, s, section);
  }

  lemma InsideText(t: string, s: nat, w: string)
    requires Inside(t, s, w)
    ensures s + |w| <= |t| && t[s..s + |w|] == w
  {
  }

  lemma CdataOpens(src: Source, s: nat)
    requires Inside(src.t, s, "<![CDATA[")
    ensures At(src.t, s) == '<' && At(src.t, s + 1) == '!' && At(src.t, s + 2) == '[' && Stands(src, s + 2, "[CDATA[", false)
  {
    var open := "<![CDATA[";
    InsideAt(src.t, s, open, 0);
    InsideAt(src.t, s, open, 1);
    forall k: nat | k < 7 ensures At(src.t, s + 2 + k) == "[CDATA["[k] { InsideAt(src.t, s, open, k + 2); }
    assert At(src.t, s + 2 + 0) == "[CDATA["[0];
  }

  lemma CdataExclaims(src: Source, s: nat, section: string, value: string, stack: seq<Frame>)
    requires stack != [] && s + 7 <= |src.t| && At(src.t, s) == '[' && Stands(src, s, "[CDATA[", false)
    requires s + 7 + |section| + 3 <= |src.t| && ReadSection(src, s + 7) == NamedValue("", value, s + 7 + |section| + 3)
    ensures Bare(Exclamation(src, s, stack)) == Bare(Parse(src, s + 7 + |section| + 3, AddNode(stack, Cdata(value))))
  {
    hide Parse, ReadSection, AddNode, Stands, ScanFor, DoctypeGroup;
  }

  /** A printed section is parsed as one CDATA node. */
  lemma SectionParses(src: Source, s: nat, section: string, stack: seq<Frame>)
    requires stack != [] && Cut(section) && Inside(src.t, s, "<![CDATA[" + section + "]]>")
    ensures s + 9 + |section| + 3 <= |src.t|
    ensures Bare(Parse(src, s, stack)) == Bare(Parse(src, s + 9 + |section| + 3, AddNode(stack, Cdata(Text(src.options, section)))))
  {
    hide Attributes, ScanFor, Exclamation, CloseTag, Question, Cut, Inside, AddNode, SkipSymbols, Stands;
    var open, rest := "<![CDATA[", section + "]]>";
    assert open + section + "]]>" == open + rest;
    InsideParts(src.t, s, open, rest);
    CdataOpens(src, s);
    SectionReads(src, s + 9, section);
    CdataExclaims(src, s + 2, section, Text(src.options, section), stack);
    assert Bare(Parse(src, s, stack)) == Bare(Tag(src, s + 1, stack));
    assert Bare(Tag(src, s + 1, stack)) == Bare(Exclamation(src, s + 2, stack));
  }

  lemma {:induction false} SectionsParse(src: Source, s: nat, sections: seq<string>, stack: seq<Frame>)
    requires stack != [] && Inside(src.t, s, PrintSections(sections)) && forall k | 0 <= k < |sections| :: Cut(sections[k])
    ensures Bare(Parse(src, s, stack)) == Bare(Parse(src, s + |PrintSections(sections)|, AddNodes(stack, CdataNodes(src.options, sections))))
    decreases |sections|
  {
    hide Parse, AddNode, Cut;
    AddNodesTwice(stack, [], []);
    if sections != [] {
      var first, rest := "<![CDATA[" + sections[0] + "]]>", PrintSections(sections[1..]);
      InsideParts(src.t, s, first, rest);
      SectionParses(src, s, sections[0], stack);
      var node := Cdata(Text(src.options, sections[0]));
      SectionsParse(src, s + |first|, sections[1..], AddNode(stack, node));
      AddNodesTwice(stack, [node], CdataNodes(src.options, sections[1..]));
    }
  }

  /** The sections of a text are cut right, and joined they are the text. */
  lemma {:induction false} SectionsJoin(s: string)
    ensures Joined(Sections(s)) == s
    ensures NulFree(s) ==> forall k | 0 <= k < |Sections(s)| :: Cut(Sections(s)[k])
    ensures FindEnd(s) == |s| ==> Sections(s) == [s]
    decreases |s|
  {
    var q := FindEnd(s);
    if q < |s| {
      var first := s[..q + 2];
      SectionsJoin(s[q + 2..]);
      assert first + s[q + 2..] == s;
      forall k | 0 <= k < |first| ensures !IsEnd(first, k) {
        assert IsEnd(first, k) ==> IsEnd(s, k) && k < q;
      }
    } else {
      assert s + "" == s;
    }
  }

  function Joined(sections: seq<string>): string {
    if sections == [] then "" else sections[0] + Joined(sections[1..])
  }

  // ---------------------------------------------------------------- tags

  /** A name followed by something else is read to its end. */
  lemma NameScans(t: string, s: nat, name: string, after: char)
    requires IsName(name) && !IsSymbol(after) && Inside(t, s, name) && At(t, s + |name|) == after
    ensures SkipSymbols(t, s) == s + |name| && t[s..s + |name|] == name && IsStartSymbol(At(t, s))
  {
    var n := SkipSymbols(t, s);
    InsideAt(t, s, name, 0);
    forall k | s <= k < s + |name| ensures IsSymbol(t[k]) { InsideAt(t, s, name, k - s); }
    assert n >= s + |name|;
  }

  lemma NoSpaces(t: string, s: nat)
    requires s <= |t| && !IsSpace(At(t, s))
    ensures SkipSpaces(t, s) == s
  {
  }

  lemma OneSpace(t: string, s: nat)
    requires At(t, s) == ' ' && !IsSpace(At(t, s + 1))
    ensures SkipSpaces(t, s) == s + 1
  {
    NoSpaces(t, s + 1);
  }

  lemma {:induction false} NulFreeString(v: string)
    requires NulFree(v)
    ensures CString(v) == v
  {
    if v != "" {
      assert v[0] in v;
      NulFreeString(v[1..]);
      assert v == [v[0]] + v[1..];
    }
  }

  predicate GoodAttribute(a: Attribute) { IsName(a.name) && NulFree(a.value) }

  lemma StartIsNoSpace(c: char)
    requires IsStartSymbol(c)
    ensures !IsSpace(c) && c != '/' && c != '>'
  {
  }

  function PrintAttribute(a: Attribute): string { " " + a.name + "=\"" + Escape(a.value, true) + "\"" }

  /** The space and the name of a printed attribute, as the parser scans them, and where the value starts. */
  predicate NameScanned(t: string, s: nat, name: string)
  {
    var p := s + 1 + |name|;
    && p + 2 <= |t|
    && SkipSpaces(t, s) == s + 1 && IsStartSymbol(At(t, s + 1))
    && SkipSymbols(t, s + 1) == p && t[s + 1..p] == name
    && At(t, p) == '=' && At(t, p + 1) == '"' && SkipSpaces(t, p + 1) == p + 1
  }

  lemma AttributeNameScans(t: string, s: nat, name: string)
    requires IsName(name) && Inside(t, s, " " + name) && Inside(t, s + 1 + |name|, "=\"")
    ensures NameScanned(t, s, name)
  {
    hide SkipSymbols, SkipSpaces, Inside, IsSymbol, IsName, IsSpace, IsStartSymbol;
    InsideParts(t, s, " ", name);
    InsideAt(t, s, " ", 0);
    InsideAt(t, s + 1 + |name|, "=\"", 0);
    InsideAt(t, s + 1 + |name|, "=\"", 1);
    Classes();
    NameScans(t, s + 1, name, '=');
    StartIsNoSpace(At(t, s + 1));
    OneSpace(t, s);
    NoSpaces(t, s + 1 + |name| + 1);
  }

  lemma Classes()
    ensures !IsSymbol('=') && !IsSpace('"') && !IsSpace('=') && !IsSymbol(' ') && !IsSymbol('/') && !IsSymbol('>')
    ensures !IsStartSymbol(' ') && !IsStartSymbol('/') && !IsStartSymbol('>') && !IsSpace('/') && !IsSpace('>')
  {
  }

  predicate AttributeScanned(t: string, s: nat, a: Attribute, o: Options)
  {
    var p, e := s + 1 + |a.name|, s + |PrintAttribute(a)|;
    && p + 2 < e <= |t| && NameScanned(t, s, a.name)
    && AttributeFrom(t, p + 2, '"', ModeOf(o), true) == Value(ReadBack(o, a).value, e)
    && CString(ReadBack(o, a).value) == ReadBack(o, a).value
  }

  lemma {:induction false} TabsNulFree(v: string)
    requires NulFree(v)
    ensures NulFree(Tabs(v))
  {
    if v != "" {
      assert v[0] in v;
      TabsNulFree(v[1..]);
    }
  }

  lemma AttributeScans(t: string, s: nat, a: Attribute, o: Options)
    requires GoodAttribute(a) && Inside(t, s, PrintAttribute(a))
    ensures AttributeScanned(t, s, a, o)
  {
    hide Escape, AttributeFrom, CString, SkipSymbols, SkipSpaces, Inside, IsSymbol, IsName, NulFree, NameScanned;
    var e, p := Escape(a.value, true), s + 1 + |a.name|;
    assert PrintAttribute(a) == (" " + a.name) + ("=\"" + (e + "\""));
    InsideParts(t, s, " " + a.name, "=\"" + (e + "\""));
    InsideParts(t, p, "=\"", e + "\"");
    InsideAt(t, p + 2, e + "\"", |e|);
    AttributeNameScans(t, s, a.name);
    AttributeDecodes(t, p + 2, a.value, ModeOf(o));
    TabsNulFree(a.value);
    NulFreeString(ReadBack(o, a).value);
  }

  /** One printed attribute, with what it is followed by. */
  lemma AttributeParses(src: Source, s: nat, a: Attribute, stack: seq<Frame>)
    requires |stack| > 1 && GoodAttribute(a) && Inside(src.t, s, PrintAttribute(a))
    requires !IsStartSymbol(At(src.t, s + |PrintAttribute(a)|))
    ensures s + |PrintAttribute(a)| <= |src.t|
    ensures Bare(Attributes(src, s, stack)) == Bare(Attributes(src, s + |PrintAttribute(a)|, AddAttribute(stack, a.name, ReadBack(src.options, a).value)))
  {
    hide Parse, ReadAttribute, ValueAt, ModeOf, ReadBack, SkipSymbols, SkipSpaces, Inside, GoodAttribute, AddAttribute, PrintAttribute;
    AttributeScans(src.t, s, a, src.options);
    AttributeReads(src.t, s, a, src.options);
    AttributeStart(src.t, s, a, src.options);
  }

  lemma AttributeStart(t: string, s: nat, a: Attribute, o: Options)
    requires AttributeScanned(t, s, a, o)
    ensures s < |t| && SkipSpaces(t, s) == s + 1 && IsStartSymbol(At(t, s + 1))
  {
  }

  lemma AttributeReads(t: string, s: nat, a: Attribute, o: Options)
    requires AttributeScanned(t, s, a, o) && !IsStartSymbol(At(t, s + |PrintAttribute(a)|))
    ensures s + |PrintAttribute(a)| <= |t|
    ensures ReadAttribute(t, s + 1, ModeOf(o)) == NamedValue(a.name, ReadBack(o, a).value, s + |PrintAttribute(a)|)
  {
    hide AttributeFrom, CString, SkipSymbols, SkipSpaces, PrintAttribute;
  }

  function AddAttributes(stack: seq<Frame>, a: seq<Attribute>): seq<Frame>
    requires stack != []
  {
    var top := stack[|stack| - 1];
    stack[|stack| - 1 := Frame(top.name, top.attributes + a, top.children)]
  }

  lemma AddAttributesTwice(stack: seq<Frame>, a: Attribute, b: seq<Attribute>)
    requires stack != []
    ensures AddAttributes(AddAttribute(stack, a.name, a.value), b) == AddAttributes(stack, [a] + b)
    ensures AddAttributes(stack, []) == stack
  {
    var top := stack[|stack| - 1];
    assert top.attributes + [] == top.attributes;
    assert top.attributes + [a] + b == top.attributes + ([a] + b);
  }

  lemma FirstAttribute(a: seq<Attribute>)
    requires a != []
    ensures PrintAttributes(a) == PrintAttribute(a[0]) + PrintAttributes(a[1..])
  {
  }

  /** Printed attributes are parsed one after the other; `end` is what stands after them. */
  lemma {:induction false} AttributesParse(src: Source, s: nat, a: seq<Attribute>, stack: seq<Frame>)
    requires |stack| > 1 && (forall k | 0 <= k < |a| :: GoodAttribute(a[k])) && Inside(src.t, s, PrintAttributes(a))
    requires !IsStartSymbol(At(src.t, s + |PrintAttributes(a)|))
    ensures Bare(Attributes(src, s, stack)) == Bare(Attributes(src, s + |PrintAttributes(a)|, AddAttributes(stack, ReadBackAll(src.options, a))))
    decreases |a|
  {
    hide Attributes, AddAttributes, Escape, GoodAttribute, PrintAttribute;
    AddAttributesTwice(stack, D.Attribute("", ""), []);
    if a != [] {
      var rest := PrintAttributes(a[1..]);
      FirstAttribute(a);
      InsideParts(src.t, s, PrintAttribute(a[0]), rest);
      if a[1..] != [] { InsideAt(src.t, s + |PrintAttribute(a[0])|, rest, 0); }
      AttributeParses(src, s, a[0], stack);
      var first := ReadBack(src.options, a[0]);
      AttributesParse(src, s + |PrintAttribute(a[0])|, a[1..], AddAttribute(stack, first.name, first.value));
      AddAttributesTwice(stack, first, ReadBackAll(src.options, a[1..]));
    }
  }

  // ---------------------------------------------------------------- elements

  function Open(name: string, attributes: seq<Attribute>): string { "<" + name + PrintAttributes(attributes) }

  /** What the parser does after the name of a start tag. */
  lemma TagName(src: Source, s: nat, name: string, stack: seq<Frame>)
    requires stack != [] && IsName(name) && Inside(src.t, s, "<" + name) && !IsSymbol(At(src.t, s + 1 + |name|))
    ensures var p, open := s + 1 + |name|, stack + [Frame(name, [], [])];
            p <= |src.t| &&
            Bare(Parse(src, s, stack)) ==
              (if At(src.t, p) == '>' then Bare(Parse(src, p + 1, open))
               else if IsSpace(At(src.t, p)) then Bare(Attributes(src, p + 1, open))
               else if At(src.t, p) == '/' then
                 if !Ends(src, p + 1, '>') then Failed(BadStartElement)
                 else Bare(Parse(src, if At(src.t, p + 1) == '>' then p + 2 else p + 1, Pop(open)))
               else if At(src.t, p) == NUL && src.last == '>' then Bare(Parse(src, p, open))
               else Failed(BadStartElement))
  {
    hide Attributes, SkipSymbols, Inside, IsSymbol, IsStartSymbol, IsName, Exclamation, Question, CloseTag, Pop, Place, Bare;
    InsideParts(src.t, s, "<", name);
    InsideAt(src.t, s, "<", 0);
    NameScans(src.t, s + 1, name, At(src.t, s + 1 + |name|));
    assert Parse(src, s, stack) == Tag(src, s + 1, stack);
    TagOpens(src, s + 1, name, stack);
  }

  lemma TagOpens(src: Source, s: nat, name: string, stack: seq<Frame>)
    requires s + |name| <= |src.t| && stack != [] && IsStartSymbol(At(src.t, s))
    requires SkipSymbols(src.t, s) == s + |name| && src.t[s..s + |name|] == name
    ensures var p, open := s + |name|, stack + [Frame(name, [], [])];
            Bare(Tag(src, s, stack)) ==
              (if At(src.t, p) == '>' then Bare(Parse(src, p + 1, open))
               else if IsSpace(At(src.t, p)) then Bare(Attributes(src, p + 1, open))
               else if At(src.t, p) == '/' then
                 if !Ends(src, p + 1, '>') then Failed(BadStartElement)
                 else Bare(Parse(src, if At(src.t, p + 1) == '>' then p + 2 else p + 1, Pop(open)))
               else if At(src.t, p) == NUL && src.last == '>' then Bare(Parse(src, p, open))
               else Failed(BadStartElement))
  {
    hide Parse, Attributes, SkipSymbols, IsSymbol, IsStartSymbol, Exclamation, Question, CloseTag, Pop;
  }

  lemma AttributesStart(src: Source, p: nat, stack: seq<Frame>)
    requires p < |src.t| && |stack| > 1 && IsSpace(src.t[p])
    ensures Bare(Attributes(src, p, stack)) == Bare(Attributes(src, p + 1, stack))
  {
  }

  /** After the attributes of a start tag. */
  lemma TagEnd(src: Source, p: nat, stack: seq<Frame>)
    requires p <= |src.t| && |stack| > 1
    ensures At(src.t, p) == '>' ==> Bare(Attributes(src, p, stack)) == Bare(Parse(src, p + 1, stack))
    ensures At(src.t, p) == '/' && Ends(src, p + 1, '>') ==> Bare(Attributes(src, p, stack)) == Bare(Parse(src, Past(src, p + 1), Pop(stack)))
  {
    hide Parse, Pop, ReadAttribute;
    Classes();
    if At(src.t, p) == '>' || At(src.t, p) == '/' { NoSpaces(src.t, p); }
  }

  lemma StartTag(src: Source, s: nat, name: string, attributes: seq<Attribute>, stack: seq<Frame>)
    requires stack != [] && IsName(name) && (forall k | 0 <= k < |attributes| :: GoodAttribute(attributes[k]))
    requires Inside(src.t, s, Open(name, attributes))
    ensures var p, open := s + |Open(name, attributes)|, stack + [Frame(name, ReadBackAll(src.options, attributes), [])];
            && p <= |src.t|
            && (At(src.t, p) == '>' ==> Bare(Parse(src, s, stack)) == Bare(Parse(src, p + 1, open)))
            && (At(src.t, p) == '/' && Ends(src, p + 1, '>') ==> Bare(Parse(src, s, stack)) == Bare(Parse(src, Past(src, p + 1), Pop(open))))
  {
    hide Parse, Attributes, Inside, IsSymbol, IsName, IsSpace, Pop, GoodAttribute;
    var p := s + |Open(name, attributes)|;
    InsideParts(src.t, s, "<" + name, PrintAttributes(attributes));
    OpenFits(src.t, s, Open(name, attributes));
    Classes();
    if At(src.t, p) == '>' || At(src.t, p) == '/' {
      var open := stack + [Frame(name, [], [])];
      var q := s + 1 + |name|;
      if attributes == [] {
        TagName(src, s, name, stack);
        assert !IsSpace(At(src.t, q));
      } else {
        InsideAt(src.t, q, PrintAttributes(attributes), 0);
        SpaceIsSpace();
        TagName(src, s, name, stack);
        AttributesStart(src, q, open);
        AttributesParse(src, q, attributes, open);
        OpenWithAttributes(stack, name, ReadBackAll(src.options, attributes));
        TagEnd(src, p, stack + [Frame(name, ReadBackAll(src.options, attributes), [])]);
      }
    }
  }

  lemma SpaceIsSpace()
    ensures IsSpace(' ')
  {
  }

  lemma OpenFits(t: string, s: nat, w: string)
    requires Inside(t, s, w)
    ensures s + |w| <= |t|
  {
  }

  lemma OpenWithAttributes(stack: seq<Frame>, name: string, attributes: seq<Attribute>)
    ensures AddAttributes(stack + [Frame(name, [], [])], attributes) == stack + [Frame(name, attributes, [])]
  {
    assert [] + attributes == attributes;
  }

  /** Closing an element that was opened on `stack` and has got its children. */
  lemma PopOpened(stack: seq<Frame>, name: string, attributes: seq<Attribute>, children: seq<Node>)
    requires stack != []
    ensures Pop(AddNodes(stack + [Frame(name, attributes, [])], children)) == AddNodes(stack, [Element(name, attributes, children)])
    ensures Pop(stack + [Frame(name, attributes, [])]) == AddNodes(stack, [Element(name, attributes, [])])
    ensures AddNodes(stack + [Frame(name, attributes, [])], children)[|stack|].name == name
  {
    var open := stack + [Frame(name, attributes, [])];
    assert open[..|stack|] == stack;
    assert [] + children == children;
    assert AddNodes(open, children)[..|stack|] == stack;
  }

  lemma CloseTagParses(src: Source, s: nat, name: string, stack: seq<Frame>)
    requires |stack| > 1 && IsName(name) && stack[|stack| - 1].name == name
    requires Inside(src.t, s, "</" + name) && Ends(src, s + 2 + |name|, '>')
    ensures s + 2 + |name| <= |src.t| && Bare(Parse(src, s, stack)) == Bare(Parse(src, Past(src, s + 2 + |name|), Pop(stack)))
  {
    hide Attributes, Inside, SkipSymbols, Exclamation, Question, Pop, IsName;
    InsideParts(src.t, s, "</", name);
    OpenFits(src.t, s, "</" + name);
    InsideAt(src.t, s, "</", 0);
    InsideAt(src.t, s, "</", 1);
    NameScans(src.t, s + 2, name, At(src.t, s + 2 + |name|));
    NoSpaces(src.t, s + 2 + |name|);
    assert Bare(Parse(src, s, stack)) == Bare(Tag(src, s + 1, stack));
    assert Bare(Tag(src, s + 1, stack)) == Bare(CloseTag(src, s + 2, stack));
  }

  // ---------------------------------------------------------------- children

  /** What comes after character data begins with a `<` and goes on. */
  lemma TagFollows(ns: seq<Node>)
    requires (forall k | 0 <= k < |ns| :: Printable(ns[k])) && (ns != [] ==> !ns[0].Pcdata?)
    ensures var w := PrintAll(ns) + "</"; |w| >= 2 && w[0] == '<' && w[1] != NUL
  {
    hide Print, Printable;
    if ns != [] { PrintStarts(ns[0]); }
  }

  lemma PrintStarts(n: Node)
    requires Printable(n) && !n.Pcdata?
    ensures |Print(n)| >= 2 && Print(n)[0] == '<' && Print(n)[1] != NUL
  {
    hide PrintAttributes, PrintAll, Escape, Sections, PrintSections;
    match n
    case Element(name, _, _) => assert Print(n)[1] == name[0];
    case Cdata(value) =>
      SectionsNotEmpty(value);
      SectionsStart(Sections(value));
  }

  lemma SectionsStart(sections: seq<string>)
    requires sections != []
    ensures |PrintSections(sections)| >= 2 && PrintSections(sections)[0] == '<' && PrintSections(sections)[1] == '!'
  {}

  lemma SectionsNotEmpty(s: string)
    ensures Sections(s) != []
  {
  }

  /** Character data that stands together is printed as one text. */
  lemma {:induction false} LeadingPrints(ns: seq<Node>)
    requires forall k | 0 <= k < |ns| :: Printable(ns[k])
    ensures PrintAll(ns) == Escape(LeadingText(ns), false) + PrintAll(ns[LeadingCount(ns)..])
    ensures NulFree(LeadingText(ns))
    decreases |ns|
  {
    if ns != [] && ns[0].Pcdata? {
      LeadingPrints(ns[1..]);
      EscapeJoins(ns[0].value, LeadingText(ns[1..]), false);
      assert ns[1..][LeadingCount(ns[1..])..] == ns[LeadingCount(ns)..];
    } else {
      assert ns[0..] == ns;
      assert "" + PrintAll(ns) == PrintAll(ns);
    }
  }

  lemma {:induction false} EscapeJoins(a: string, b: string, attribute: bool)
    ensures Escape(a + b, attribute) == Escape(a, attribute) + Escape(b, attribute)
    decreases |a|
  {
    if a == "" {
      assert a + b == b;
    } else {
      assert (a + b)[1..] == a[1..] + b;
      EscapeJoins(a[1..], b, attribute);
    }
  }

  /** White space is printed as it is, and skipped up to the next tag. */
  lemma {:induction false} SpaceSkips(t: string, s: nat, text: string)
    requires AllSpace(text) && Inside(t, s, Escape(text, false) + "<")
    ensures Escape(text, false) == text && SkipSpaces(t, s) == s + |text| && At(t, s + |text|) == '<'
    decreases |text|
  {
    hide Inside;
    InsideAt(t, s, Escape(text, false) + "<", 0);
    if text != "" {
      assert !IsSpecial(text[0], false) && [text[0]] + text[1..] == text;
      assert Escape(text, false) + "<" == [text[0]] + (Escape(text[1..], false) + "<");
      InsideParts(t, s, [text[0]], Escape(text[1..], false) + "<");
      SpaceSkips(t, s + 1, text[1..]);
    }
  }

  /** Where something else is printed, skipping white space stops at it. */
  lemma {:induction false} TextStops(t: string, s: nat, text: string)
    requires !AllSpace(text) && NulFree(text) && Inside(t, s, Escape(text, false) + "<") && s <= |t|
    ensures !EndsSpace(t, s)
    decreases |text|
  {
    hide Inside, EscapeChar;
    var e := EscapeChar(text[0], false);
    assert text[0] in text;
    EscapeNotEmpty(text[0], false);
    assert Escape(text, false) + "<" == e + (Escape(text[1..], false) + "<");
    InsideParts(t, s, e, Escape(text[1..], false) + "<");
    InsideAt(t, s, e, 0);
    FirstByte(text[0]);
    if IsSpace(text[0]) { TextStops(t, s + 1, text[1..]); }
  }

  lemma FirstByte(c: char)
    ensures IsSpace(c) ==> EscapeChar(c, false) == [c]
    ensures !IsSpace(c) && EscapeChar(c, false) != "" ==> !IsSpace(EscapeChar(c, false)[0])
  {
  }

  /** Character data before a tag is parsed as one node, or none. */
  lemma TextParses(src: Source, s: nat, text: string, stack: seq<Frame>)
    requires |stack| > 1 && text != "" && NulFree(text) && Inside(src.t, s, Escape(text, false) + "<")
    requires At(src.t, s + |Escape(text, false)| + 1) != NUL
    ensures s + |Escape(text, false)| <= |src.t|
    ensures Bare(Parse(src, s, stack))
         == Bare(Parse(src, s + |Escape(text, false)|, AddNodes(stack, TextNode(src.options, text))))
  {
    hide Tag, Inside, Escape, EscapeChar, NulFree, XmlText.Pcdata, CString, Text, SkipSpaces, AllSpace;
    var e := Escape(text, false);
    InsideParts(src.t, s, e, "<");
    InsideAt(src.t, s + |e|, "<", 0);
    FirstOfText(text);
    InsideAt(src.t, s, e, 0);
    AddNodesTwice(stack, [], []);
    if AllSpace(text) && !src.options.ws {
      SpaceSkips(src.t, s, text);
    } else {
      if !src.options.ws { TextStops(src.t, s, text); }
      PcdataDecodes(src.t, s, text, src.options);
      TextNulFree(src.options, text);
      NulFreeString(Text(src.options, text));
      assert AddNode(stack, Pcdata(Text(src.options, text))) == AddNodes(stack, [Pcdata(Text(src.options, text))]);
    }
  }

  lemma TextNulFree(o: Options, v: string)
    requires NulFree(v)
    ensures NulFree(Text(o, v))
  {
    if o.eol { LineEndsNulFree(v); }
  }

  lemma {:induction false} LineEndsNulFree(v: string)
    requires NulFree(v)
    ensures NulFree(LineEnds(v))
    decreases |v|
  {
    if v != "" {
      assert v[0] in v;
      LineEndsNulFree(if |v| > 1 && v[0] == '\r' && v[1] == '\n' then v[2..] else v[1..]);
    }
  }

  lemma FirstOfText(text: string)
    requires text != "" && NulFree(text)
    ensures Escape(text, false) != "" && Escape(text, false)[0] != '<' && Escape(text, false)[0] != NUL
  {
    EscapeNotEmpty(text[0], false);
    assert text[0] in text;
  }

  /** `w` is in the whole input at `s`; its last byte may be the one kept apart. */
  predicate Visible(src: Source, s: nat, w: string) { Inside(src.t + [src.last], s, w) }

  /** The place after `w`, in the text without the last byte. */
  function After(src: Source, p: nat): nat { if p <= |src.t| then p else |src.t| }

  lemma VisibleInside(src: Source, s: nat, u: string, v: string)
    requires Visible(src, s, u + v) && v != ""
    ensures Inside(src.t, s, u)
  {
    var whole := src.t + [src.last];
    InsideParts(whole, s, u, v);
    assert whole[s..s + |u|] == src.t[s..s + |u|];
  }

  /** A `>` at the end of what is visible ends a tag. */
  lemma VisibleEnd(src: Source, s: nat, u: string)
    requires Visible(src, s, u + ">")
    ensures s + |u| <= |src.t| && Ends(src, s + |u|, '>') && Past(src, s + |u|) == After(src, s + |u| + 1)
  {
    var whole := src.t + [src.last];
    InsideAt(whole, s, u + ">", |u|);
    assert s + |u| < |src.t| ==> whole[s + |u|] == src.t[s + |u|];
  }

  lemma PrintOfElement(n: Node)
    requires n.Element?
    ensures n.children == [] ==> Print(n) == Open(n.name, n.attributes) + "/" + ">"
    ensures n.children != [] ==>
              Print(n) == Open(n.name, n.attributes) + ">" + (PrintAll(n.children) + "</") + n.name + ">"
  {
    if n.children != [] {
      assert ">" + PrintAll(n.children) + "</" == ">" + (PrintAll(n.children) + "</");
    }
  }

  /** A printed element is parsed as one node, its children being what `NormalAll` says. */
  lemma {:induction false} ElementParses(src: Source, s: nat, n: Node, stack: seq<Frame>)
    requires stack != [] && n.Element? && Printable(n) && Visible(src, s, Print(n))
    ensures Bare(Parse(src, s, stack)) == Bare(Parse(src, After(src, s + |Print(n)|), AddNodes(stack, Normal(src.options, n))))
    decreases n, 1
  {
    hide Parse, Inside, Visible, Print, Ends, IsName, Pop, NormalAll, After, Past, AddNodes, Open;
    PrintOfElement(n);
    NormalOfElement(src.options, n);
    var head := Open(n.name, n.attributes);
    PopOpened(stack, n.name, ReadBackAll(src.options, n.attributes), NormalAll(src.options, n.children));
    assert forall k | 0 <= k < |n.attributes| :: GoodAttribute(n.attributes[k]);
    if n.children == [] {
      VisibleInside(src, s, head + "/", ">");
      VisibleEnd(src, s, head + "/");
      InsideParts(src.t, s, head, "/");
      InsideAt(src.t, s + |head|, "/", 0);
      StartTag(src, s, n.name, n.attributes, stack);
      assert s + |head + "/"| == s + |head| + 1;
    } else {
      ParentParses(src, s, n, stack);
    }
  }

  lemma {:induction false} ParentParses(src: Source, s: nat, n: Node, stack: seq<Frame>)
    requires stack != [] && n.Element? && Printable(n) && Visible(src, s, Print(n)) && n.children != []
    ensures Bare(Parse(src, s, stack)) == Bare(Parse(src, After(src, s + |Print(n)|), AddNodes(stack, Normal(src.options, n))))
    decreases n, 0
  {
    hide Parse, Inside, Visible, Print, PrintAll, Ends, IsName, Pop, NormalAll, After, Past, AddNodes, Open;
    PrintOfElement(n);
    var head, body := Open(n.name, n.attributes), PrintAll(n.children) + "</";
    var all := head + ">" + body + n.name;
    VisibleInside(src, s, all, ">");
    VisibleEnd(src, s, all);
    InsideParts(src.t, s, head + ">" + body, n.name);
    InsideParts(src.t, s, head + ">", body);
    InsideParts(src.t, s, head, ">");
    InsideAt(src.t, s + |head|, ">", 0);
    assert forall k | 0 <= k < |n.attributes| :: GoodAttribute(n.attributes[k]);
    StartTag(src, s, n.name, n.attributes, stack);
    var open := stack + [Frame(n.name, ReadBackAll(src.options, n.attributes), [])];
    ChildrenParse(src, s + |head| + 1, n.children, open);
    InsideParts(src.t, s + |head| + 1, PrintAll(n.children), "</");
    var c := s + |head| + 1 + |PrintAll(n.children)|;
    CloseInside(src.t, c, n.name);
    PopOpened(stack, n.name, ReadBackAll(src.options, n.attributes), NormalAll(src.options, n.children));
    NormalOfElement(src.options, n);
    SameHeight(open, NormalAll(src.options, n.children));
    CloseTagParses(src, c, n.name, AddNodes(open, NormalAll(src.options, n.children)));
    assert c + 2 + |n.name| == s + |all|;
  }

  lemma NormalOfElement(o: Options, n: Node)
    requires n.Element?
    ensures Normal(o, n) == [Element(n.name, ReadBackAll(o, n.attributes), NormalAll(o, n.children))]
    ensures n.children == [] ==> Normal(o, n) == [Element(n.name, ReadBackAll(o, n.attributes), [])]
  {
  }

  lemma SameHeight(stack: seq<Frame>, ns: seq<Node>)
    requires stack != []
    ensures |AddNodes(stack, ns)| == |stack|
  {
  }

  lemma CloseInside(t: string, c: nat, name: string)
    requires Inside(t, c, "</") && Inside(t, c + 2, name)
    ensures Inside(t, c, "</" + name)
  {
    assert t[c..c + 2 + |name|] == t[c..c + 2] + t[c + 2..c + 2 + |name|];
  }

  /** One printed child that is no character data. */
  lemma {:induction false} ChildParses(src: Source, s: nat, n: Node, stack: seq<Frame>)
    requires |stack| > 1 && Printable(n) && !n.Pcdata? && Inside(src.t, s, Print(n))
    ensures s + |Print(n)| <= |src.t|
    ensures Bare(Parse(src, s, stack)) == Bare(Parse(src, s + |Print(n)|, AddNodes(stack, Normal(src.options, n))))
    decreases n, 2
  {
    hide Parse, AddNodes, Cut, IsName, NulFree;
    OpenFits(src.t, s, Print(n));
    if n.Element? {
      InsideIsVisible(src, s, Print(n));
      ElementParses(src, s, n, stack);
    } else {
      SectionsJoin(n.value);
      SectionsParse(src, s, Sections(n.value), stack);
    }
  }

  lemma InsideIsVisible(src: Source, s: nat, w: string)
    requires Inside(src.t, s, w)
    ensures Visible(src, s, w)
  {
    assert (src.t + [src.last])[s..s + |w|] == src.t[s..s + |w|];
  }

  /** Printed children, split after the first. */
  lemma FirstChild(t: string, s: nat, ns: seq<Node>, o: Options)
    requires ns != [] && !ns[0].Pcdata? && Inside(t, s, PrintAll(ns) + "</")
    ensures Inside(t, s, Print(ns[0])) && Inside(t, s + |Print(ns[0])|, PrintAll(ns[1..]) + "</")
    ensures |PrintAll(ns)| == |Print(ns[0])| + |PrintAll(ns[1..])|
    ensures NormalAll(o, ns) == Normal(o, ns[0]) + NormalAll(o, ns[1..])
  {
    hide Inside, Print, Normal;
    assert PrintAll(ns) + "</" == Print(ns[0]) + (PrintAll(ns[1..]) + "</");
    InsideParts(t, s, Print(ns[0]), PrintAll(ns[1..]) + "</");
  }

  /** Printed children, split after the character data they start with. */
  lemma FirstText(t: string, s: nat, ns: seq<Node>, o: Options)
    requires (forall k | 0 <= k < |ns| :: Printable(ns[k])) && Inside(t, s, PrintAll(ns) + "</") && ns != [] && ns[0].Pcdata?
    ensures var text, rest := LeadingText(ns), ns[LeadingCount(ns)..];
            var e := Escape(text, false);
            && NulFree(text) && s + |e| <= |t| && Inside(t, s + |e|, PrintAll(rest) + "</")
            && |PrintAll(ns)| == |e| + |PrintAll(rest)|
            && (if text == "" then e == "" else Inside(t, s, e + "<") && At(t, s + |e| + 1) != NUL)
            && NormalAll(o, ns) == TextNode(o, text) + NormalAll(o, rest)
  {
    hide Inside, Print, PrintAll, Printable, Escape, LeadingText, NulFree, Normal;
    var text, rest := LeadingText(ns), ns[LeadingCount(ns)..];
    LeadingPrints(ns);
    TagFollows(rest);
    var e, after := Escape(text, false), PrintAll(rest) + "</";
    assert PrintAll(ns) + "</" == e + after;
    InsideParts(t, s, e, after);
    OpenFits(t, s + |e|, after);
    InsideAt(t, s + |e|, after, 0);
    InsideAt(t, s + |e|, after, 1);
    EmptyEscape(text);
    BeforeTag(t, s, e);
  }

  lemma NoChildren(src: Source, s: nat, stack: seq<Frame>)
    requires stack != [] && Inside(src.t, s, PrintAll([]) + "</")
    ensures s + |PrintAll([])| <= |src.t|
    ensures Bare(Parse(src, s, stack)) == Bare(Parse(src, s + |PrintAll([])|, AddNodes(stack, NormalAll(src.options, []))))
  {
    hide Parse;
    AddNodesTwice(stack, [], []);
  }

  /** What is parsed first of printed children: their leading character data, or the first of them. */
  lemma {:induction false} FirstParses(src: Source, s: nat, ns: seq<Node>, stack: seq<Frame>)
    returns (first: seq<Node>, n: nat, rest: seq<Node>)
    requires |stack| > 1 && (forall k | 0 <= k < |ns| :: Printable(ns[k])) && Inside(src.t, s, PrintAll(ns) + "</") && ns != []
    ensures rest == (if ns[0].Pcdata? then ns[LeadingCount(ns)..] else ns[1..]) && |rest| < |ns|
    ensures s + n <= |src.t| && Inside(src.t, s + n, PrintAll(rest) + "</") && |PrintAll(ns)| == n + |PrintAll(rest)|
    ensures NormalAll(src.options, ns) == first + NormalAll(src.options, rest)
    ensures Bare(Parse(src, s, stack)) == Bare(Parse(src, s + n, AddNodes(stack, first)))
    decreases ns, 0
  {
    hide Parse, Inside, Print, PrintAll, Printable, AddNodes, NormalAll, Normal;
    if ns[0].Pcdata? {
      rest := ns[LeadingCount(ns)..];
      first, n := LeadingParses(src, s, ns, stack);
    } else {
      first, n, rest := Normal(src.options, ns[0]), |Print(ns[0])|, ns[1..];
      FirstChild(src.t, s, ns, src.options);
      ChildParses(src, s, ns[0], stack);
    }
  }

  /** Printed children are parsed to their normal form. */
  lemma {:induction false} ChildrenParse(src: Source, s: nat, ns: seq<Node>, stack: seq<Frame>)
    requires |stack| > 1 && (forall k | 0 <= k < |ns| :: Printable(ns[k])) && Inside(src.t, s, PrintAll(ns) + "</")
    ensures s + |PrintAll(ns)| <= |src.t|
    ensures Bare(Parse(src, s, stack)) == Bare(Parse(src, s + |PrintAll(ns)|, AddNodes(stack, NormalAll(src.options, ns))))
    decreases ns, 1
  {
    hide Parse, Inside, PrintAll, Printable, AddNodes, NormalAll;
    if ns == [] {
      NoChildren(src, s, stack);
    } else {
      var first, n, rest := FirstParses(src, s, ns, stack);
      SameHeight(stack, first);
      ChildrenParse(src, s + n, rest, AddNodes(stack, first));
      AddNodesTwice(stack, first, NormalAll(src.options, rest));
    }
  }

  /** The character data that children start with. */
  lemma {:induction false} LeadingParses(src: Source, s: nat, ns: seq<Node>, stack: seq<Frame>) returns (first: seq<Node>, n: nat)
    requires |stack| > 1 && (forall k | 0 <= k < |ns| :: Printable(ns[k])) && Inside(src.t, s, PrintAll(ns) + "</")
    requires ns != [] && ns[0].Pcdata?
    ensures var rest := ns[LeadingCount(ns)..];
            && s + n <= |src.t| && Inside(src.t, s + n, PrintAll(rest) + "</") && |PrintAll(ns)| == n + |PrintAll(rest)|
            && NormalAll(src.options, ns) == first + NormalAll(src.options, rest)
            && Bare(Parse(src, s, stack)) == Bare(Parse(src, s + n, AddNodes(stack, first)))
  {
    hide Parse, Inside, Print, PrintAll, Printable, AddNodes, Escape, LeadingText, NulFree, NormalAll;
    var text := LeadingText(ns);
    FirstText(src.t, s, ns, src.options);
    first, n := TextNode(src.options, text), |Escape(text, false)|;
    AddNodesTwice(stack, [], []);
    if text != "" { TextParses(src, s, text, stack); }
  }

  lemma EmptyEscape(text: string)
    ensures text == "" ==> Escape(text, false) == ""
  {
  }

  lemma BeforeTag(t: string, s: nat, e: string)
    requires Inside(t, s, e) && At(t, s + |e|) == '<'
    ensures Inside(t, s, e + "<")
  {
    assert t[s..s + |e| + 1] == t[s..s + |e|] + [t[s + |e|]];
  }

  // ---------------------------------------------------------------- the round trip

  /** Parsing the raw print of any element gives its normal form, whatever the options and whatever its tree,
      with names that are names and texts without NUL. */
  lemma PrintThenParse(o: Options, n: Node)
    requires n.Element? && Printable(n)
    ensures Bare(ParseDocument(o, Print(n))) == Parsed(Normal(o, n), [])
  {
    hide Parse, Inside, IsName, Printable, Pop, NormalAll, PrintAll, Escape;
    var text := Print(n);
    PrintEnds(n);
    var src := Source(text[..|text| - 1], '>', o);
    assert src.t + [src.last] == text;
    WholeInside(text);
    var stack := [Frame("", [], [])];
    ElementParses(src, 0, n, stack);
    AtEnd(src, AddNodes(stack, Normal(o, n)));
    assert AddNodes(stack, Normal(o, n))[0].children == [] + Normal(o, n) == Normal(o, n);
    assert HasElement(Normal(o, n)) by { assert Normal(o, n)[0].Element?; }
  }

  lemma WholeInside(text: string)
    ensures Inside(text, 0, text)
  {
    assert text[0..|text|] == text;
  }

  lemma AtEnd(src: Source, stack: seq<Frame>)
    requires |stack| == 1
    ensures Bare(Parse(src, |src.t|, stack)) == Parsed(stack[0].children, [])
  {
  }

  lemma PrintEnds(n: Node)
    requires n.Element?
    ensures var w := Print(n); |w| >= 3 && w[|w| - 1] == '>' && w[0] == '<'
  {
  }

  // ---------------------------------------------------------------- when nothing changes

  /** The text is read as it was written: no line end in it is converted. */
  predicate Stable(o: Options, text: string) { o.eol ==> '\r' !in text }

  /** No attribute value has a tab that is converted, no character data is empty, dropped or beside other
      character data, no CDATA text has to be cut, and no text has a carriage return that is converted. */
  predicate Clean(o: Options, n: Node) {
    match n
    case Element(_, attributes, children) =>
      (o.wconv ==> forall k | 0 <= k < |attributes| :: '\t' !in attributes[k].value) && CleanAll(o, children)
    case Pcdata(value) => !Dropped(o, value) && Stable(o, value)
    case Cdata(value) => FindEnd(value) == |value| && Stable(o, value)
  }

  predicate CleanAll(o: Options, ns: seq<Node>) {
    ns != [] ==>
      && Clean(o, ns[0]) && CleanAll(o, ns[1..])
      && (|ns| > 1 && ns[0].Pcdata? ==> !ns[1].Pcdata?)
  }

  // Line ends and tabs.

  lemma {:induction false} NoReturns(v: string)
    ensures '\r' !in LineEnds(v)
    ensures '\r' !in v ==> LineEnds(v) == v
    decreases |v|
  {
    if v != "" {
      assert v == [v[0]] + v[1..];
      NoReturns(if |v| > 1 && v[0] == '\r' && v[1] == '\n' then v[2..] else v[1..]);
    }
  }

  lemma {:induction false} NoTabs(v: string)
    ensures '\t' !in Tabs(v)
    ensures '\t' !in v ==> Tabs(v) == v
  {
    if v != "" {
      assert v == [v[0]] + v[1..];
      NoTabs(v[1..]);
    }
  }

  lemma {:induction false} SpaceStaysSpace(v: string)
    ensures AllSpace(LineEnds(v)) <==> AllSpace(v)
    ensures LineEnds(v) == "" <==> v == ""
    decreases |v|
  {
    if v != "" {
      assert v == [v[0]] + v[1..];
      if v[0] == '\r' && |v| > 1 && v[1] == '\n' {
        SpaceStaysSpace(v[2..]);
        SpaceOfParts("\n", LineEnds(v[2..]));
        assert v == [v[0], v[1]] + v[2..];
        SpaceOfParts([v[0], v[1]], v[2..]);
      } else {
        SpaceStaysSpace(v[1..]);
        SpaceOfParts([v[0]], v[1..]);
        SpaceOfParts([if v[0] == '\r' then '\n' else v[0]], LineEnds(v[1..]));
      }
    }
  }

  lemma SpaceOfParts(a: string, b: string)
    ensures AllSpace(a + b) <==> AllSpace(a) && AllSpace(b)
  {
    assert forall k | 0 <= k < |a| :: (a + b)[k] == a[k];
    assert forall k | 0 <= k < |b| :: (a + b)[|a| + k] == b[k];
  }

  /** Converting line ends makes no `]]>`. */
  lemma {:induction false} LineEndsKeepEnds(v: string, k: nat)
    requires forall j | 0 <= j < |v| :: !IsEnd(v, j)
    ensures !IsEnd(LineEnds(v), k)
    decreases |v|
  {
    if v != "" {
      var rest := if |v| > 1 && v[0] == '\r' && v[1] == '\n' then v[2..] else v[1..];
      var n := |v| - |rest|;
      forall j | 0 <= j < |rest| ensures !IsEnd(rest, j) { assert !IsEnd(v, n + j); }
      if k > 0 {
        LineEndsKeepEnds(rest, k - 1);
      } else {
        Brackets(v);
        assert !IsEnd(v, 0);
      }
    }
  }

  lemma Brackets(v: string)
    ensures IsEnd(LineEnds(v), 0) ==> IsEnd(v, 0)
  {
    if |v| > 1 && v[0] == ']' && v[1] == ']' {
      assert LineEnds(v) == [v[0]] + LineEnds(v[1..]);
      assert LineEnds(v[1..]) == [v[1]] + LineEnds(v[1..][1..]);
      if |v| > 2 { assert LineEnds(v[1..][1..])[0] == if v[2] == '\r' then '\n' else v[2]; }
    } else if v != "" && v[0] == ']' {
      assert LineEnds(v) == [v[0]] + LineEnds(v[1..]);
      if |v| > 1 { assert LineEnds(v[1..])[0] == if v[1] == '\r' then '\n' else v[1]; }
    }
  }

  lemma TextIsStable(o: Options, v: string)
    ensures Stable(o, Text(o, v)) && (Stable(o, v) ==> Text(o, v) == v)
    ensures Dropped(o, Text(o, v)) <==> Dropped(o, v)
  {
    NoReturns(v);
    SpaceStaysSpace(v);
  }

  lemma CutStaysCut(o: Options, v: string)
    requires FindEnd(v) == |v|
    ensures FindEnd(Text(o, v)) == |Text(o, v)|
  {
    forall k: nat ensures !IsEnd(Text(o, v), k) {
      if o.eol { LineEndsKeepEnds(v, k); } else { assert IsEnd(v, k) ==> k < |v|; }
    }
  }

  // Normal forms are clean, and only clean trees are normal.

  lemma {:induction false} SectionsClean(o: Options, s: string)
    ensures CleanAll(o, CdataNodes(o, Sections(s)))
    ensures CdataNodes(o, Sections(s)) != [] && !CdataNodes(o, Sections(s))[0].Pcdata?
    decreases |s|
  {
    hide Text;
    var q := FindEnd(s);
    var first := if q < |s| then s[..q + 2] else s;
    assert forall k | 0 <= k < q :: IsEnd(first, k) ==> IsEnd(s, k);
    assert FindEnd(first) == |first|;
    CutStaysCut(o, first);
    TextIsStable(o, first);
    if q < |s| {
      SectionsClean(o, s[q + 2..]);
    } else {
      assert CdataNodes(o, [s]) == [Cdata(Text(o, s))] + CdataNodes(o, [s][1..]);
    }
  }

  lemma {:induction false} CleanJoins(o: Options, a: seq<Node>, b: seq<Node>)
    requires CleanAll(o, a) && CleanAll(o, b) && (a != [] && b != [] && a[|a| - 1].Pcdata? ==> !b[0].Pcdata?)
    ensures CleanAll(o, a + b)
    decreases |a|
  {
    hide Clean;
    if a == [] {
      assert a + b == b;
    } else {
      CleanJoins(o, a[1..], b);
      assert (a + b)[1..] == a[1..] + b;
    }
  }

  lemma {:induction false} ReadBackClean(o: Options, a: seq<Attribute>)
    requires o.wconv
    ensures forall k | 0 <= k < |ReadBackAll(o, a)| :: '\t' !in ReadBackAll(o, a)[k].value
  {
    if a != [] {
      NoTabs(a[0].value);
      ReadBackClean(o, a[1..]);
    }
  }

  lemma {:induction false} ReadBackSame(o: Options, a: seq<Attribute>)
    requires o.wconv ==> forall k | 0 <= k < |a| :: '\t' !in a[k].value
    ensures ReadBackAll(o, a) == a
  {
    if a != [] {
      NoTabs(a[0].value);
      ReadBackSame(o, a[1..]);
      assert [a[0]] + a[1..] == a;
    }
  }

  /** A normal form is clean. */
  lemma {:induction false} NormalIsClean(o: Options, n: Node)
    ensures CleanAll(o, Normal(o, n))
    ensures !n.Pcdata? ==> Normal(o, n) != [] && !Normal(o, n)[0].Pcdata? && !Normal(o, n)[|Normal(o, n)| - 1].Pcdata?
    decreases n
  {
    hide Text, Dropped, Stable, ReadBackAll;
    match n
    case Element(_, attributes, children) =>
      NormalAllIsClean(o, children);
      if o.wconv { ReadBackClean(o, attributes); }
      OneClean(o, Normal(o, n)[0]);
    case Pcdata(value) =>
      TextIsStable(o, value);
      if !Dropped(o, value) { OneClean(o, Pcdata(Text(o, value))); }
    case Cdata(value) =>
      SectionsClean(o, value);
      AllCdata(o, Sections(value), |CdataNodes(o, Sections(value))| - 1);
  }

  lemma {:induction false} AllCdata(o: Options, sections: seq<string>, k: nat)
    requires k < |CdataNodes(o, sections)|
    ensures CdataNodes(o, sections)[k].Cdata?
  {
    if k > 0 { AllCdata(o, sections[1..], k - 1); }
  }

  lemma OneClean(o: Options, n: Node)
    requires Clean(o, n)
    ensures CleanAll(o, [n])
  {
    hide Clean;
    assert CleanAll(o, []);
    assert [n][1..] == [];
  }

  lemma {:induction false} NormalAllIsClean(o: Options, ns: seq<Node>)
    ensures CleanAll(o, NormalAll(o, ns))
    ensures ns != [] && !ns[0].Pcdata? ==> NormalAll(o, ns) != [] && !NormalAll(o, ns)[0].Pcdata?
    decreases ns
  {
    hide Clean, Normal, TextNode;
    if ns != [] {
      if ns[0].Pcdata? {
        var rest := ns[LeadingCount(ns)..];
        NormalAllIsClean(o, rest);
        assert rest == [] ==> NormalAll(o, rest) == [];
        TextNodeClean(o, LeadingText(ns));
        CleanJoins(o, TextNode(o, LeadingText(ns)), NormalAll(o, rest));
      } else {
        NormalIsClean(o, ns[0]);
        NormalAllIsClean(o, ns[1..]);
        CleanJoins(o, Normal(o, ns[0]), NormalAll(o, ns[1..]));
      }
    }
  }

  lemma TextNodeClean(o: Options, text: string)
    ensures CleanAll(o, TextNode(o, text))
  {
    hide Text, Dropped, Stable;
    TextIsStable(o, text);
    if !Dropped(o, text) { OneClean(o, Pcdata(Text(o, text))); }
  }

  lemma {:induction false} CleanIsNormal(o: Options, n: Node)
    requires Clean(o, n)
    ensures Normal(o, n) == [n]
    decreases n
  {
    hide Text, Dropped, Stable, ReadBackAll;
    match n
    case Element(_, attributes, children) =>
      ReadBackSame(o, attributes);
      CleanAllIsNormal(o, children);
    case Pcdata(value) => TextIsStable(o, value);
    case Cdata(value) =>
      TextIsStable(o, value);
      assert Sections(value) == [value] && CdataNodes(o, []) == [];
      assert CdataNodes(o, [value]) == [Cdata(value)] + CdataNodes(o, [value][1..]);
  }

  lemma {:induction false} CleanAllIsNormal(o: Options, ns: seq<Node>)
    requires CleanAll(o, ns)
    ensures NormalAll(o, ns) == ns
    decreases ns
  {
    hide Text, Dropped, Stable;
    if ns != [] {
      CleanIsNormal(o, ns[0]);
      CleanAllIsNormal(o, ns[1..]);
      assert [ns[0]] + ns[1..] == ns;
      if ns[0].Pcdata? {
        assert LeadingText(ns[1..]) == "" && LeadingCount(ns[1..]) == 0;
        assert ns[0].value + "" == ns[0].value;
      }
    }
  }

  /** Printer and parser undo each other exactly on clean trees: under any of the options a printable element
      is parsed back to itself if and only if it is clean. */
  lemma RoundTripExactly(o: Options, n: Node)
    requires n.Element? && Printable(n)
    ensures Bare(ParseDocument(o, Print(n))) == Parsed([n], []) <==> Clean(o, n)
  {
    hide ParseDocument, Print, IsName, Clean, Normal;
    PrintThenParse(o, n);
    NormalIsClean(o, n);
    if Clean(o, n) { CleanIsNormal(o, n); }
    assert Normal(o, n) == [n] ==> CleanAll(o, [n]) && Clean(o, [n][0]);
  }

  // ---------------------------------------------------------------- under parse_default

  /** No attribute value has a tab, no text a carriage return, no character data is empty or only white space
      or beside other character data, and no CDATA text has `]]>`. */
  predicate SurvivesDefault(n: Node) {
    match n
    case Element(_, attributes, children) =>
      && (forall k | 0 <= k < |attributes| :: '\t' !in attributes[k].value)
      && (forall k | 0 <= k < |children| :: SurvivesDefault(children[k]))
      && (forall k | 0 < k < |children| :: !(children[k - 1].Pcdata? && children[k].Pcdata?))
    case Pcdata(value) => '\r' !in value && !AllSpace(value)
    case Cdata(value) => '\r' !in value && FindEnd(value) == |value|
  }

  lemma {:induction false} CleanEach(o: Options, ns: seq<Node>)
    ensures CleanAll(o, ns) <==>
      (forall k | 0 <= k < |ns| :: Clean(o, ns[k])) && (forall k | 0 < k < |ns| :: !(ns[k - 1].Pcdata? && ns[k].Pcdata?))
  {
    hide Clean;
    if ns != [] {
      CleanEach(o, ns[1..]);
      if CleanAll(o, ns) {
        forall k | 0 < k < |ns| ensures !(ns[k - 1].Pcdata? && ns[k].Pcdata?) {
          if k > 1 { assert ns[1..][k - 2] == ns[k - 1] && ns[1..][k - 1] == ns[k]; }
        }
      } else {
        assert forall k | 0 <= k < |ns| - 1 :: ns[1..][k] == ns[k + 1];
      }
    }
  }

  lemma {:induction false} SurvivorsAreClean(n: Node)
    ensures SurvivesDefault(n) <==> Clean(DEFAULT, n)
    decreases n
  {
    if n.Element? {
      CleanEach(DEFAULT, n.children);
      forall k | 0 <= k < |n.children| ensures SurvivesDefault(n.children[k]) <==> Clean(DEFAULT, n.children[k]) {
        SurvivorsAreClean(n.children[k]);
      }
    }
  }

  /** Under parse_default a printable element survives printing and parsing exactly when nothing in it is of a
      kind that the default options convert or drop. */
  lemma DefaultSurvives(n: Node)
    requires n.Element? && Printable(n)
    ensures Bare(ParseDocument(DEFAULT, Print(n))) == Parsed([n], []) <==> SurvivesDefault(n)
  {
    RoundTripExactly(DEFAULT, n);
    SurvivorsAreClean(n);
  }

  /** Character data of one space has no carriage return, and is lost all the same. */
  lemma SpaceIsLost()
    ensures var n := Element("a", [], [Pcdata(" ")]);
      Printable(n) && Bare(ParseDocument(DEFAULT, Print(n))) == Parsed([Element("a", [], [])], [])
  {
    var n := Element("a", [], [Pcdata(" ")]);
    assert Printable(n.children[0]) && IsName("a");
    PrintThenParse(DEFAULT, n);
    var ns := n.children;
    assert ns[1..] == [] && LeadingText(ns[1..]) == "" && LeadingText(ns) == " " + "";
    assert LeadingCount(ns) == 1 && NormalAll(DEFAULT, ns) == TextNode(DEFAULT, " ") + NormalAll(DEFAULT, ns[1..]);
    assert Dropped(DEFAULT, " ");
  }
}
