// Every text with a derivation in the grammar is accepted by the parser, which builds the tree of the derivation.
module XmlCompleteness {

  import opened XmlText
  import opened XmlReferences
  import opened XmlParser
  import opened XmlGrammar
  import opened XmlAcceptance
  import R = XmlRoundTrip
  import D = Documents

  // ---------------------------------------------------------------- reading what is spelled

  /** The place after `n` bytes; the last of them may be the one that is kept apart. */
  function Next(z: nat, s: nat, n: nat): nat { if s + n <= z then s + n else z }

  /** What is left at `s` is `w`, and then `after`. */
  predicate Reads(src: Source, z: nat, s: nat, w: string, after: string) {
    NulAt(src.t, z) && s <= z && Rest(src, z, s) == w + after
  }

  lemma RestBytes(src: Source, z: nat, s: nat, w: string, after: string)
    requires Reads(src, z, s, w, after)
    ensures s + |w| <= z + 1 && forall k | 0 <= k < |w| :: w[k] == if s + k < z then At(src.t, s + k) else src.last
    ensures s + |w| <= z ==> after == Rest(src, z, s + |w|) && src.t[s..s + |w|] == w
    ensures s + |w| == z + 1 ==> after == ""
    ensures Leaves(src, z, Next(z, s, |w|), after)
  {
    var rest := Rest(src, z, s);
    assert |rest| == z - s + 1;
    forall k | 0 <= k < |w| ensures w[k] == if s + k < z then At(src.t, s + k) else src.last { assert rest[k] == (w + after)[k]; }
    assert after == rest[|w|..];
    if s + |w| <= z {
      RestSplits(src, z, s, s + |w|);
      assert rest[..|w|] == src.t[s..s + |w|];
    }
  }

  /** A first part that is followed by something stands in the text itself. */
  lemma ReadsParts(src: Source, z: nat, s: nat, u: string, v: string, after: string)
    requires Reads(src, z, s, u + v, after) && v + after != ""
    ensures s + |u| <= z && src.t[s..s + |u|] == u && Reads(src, z, s + |u|, v, after)
    ensures forall k | 0 <= k < |u| :: At(src.t, s + k) == u[k] && u[k] != NUL
    ensures Next(z, s + |u|, |v|) == Next(z, s, |u + v|)
  {
    assert u + v + after == u + (v + after);
    RestBytes(src, z, s, u, v + after);
    forall k | 0 <= k < |u| ensures u[k] != NUL { assert u[k] == src.t[s + k]; }
  }

  lemma Greater(src: Source, z: nat, p: nat, after: string)
    requires Reads(src, z, p, ">", after)
    ensures Ends(src, p, '>') && Past(src, p) == Next(z, p, 1) && (p < z ==> At(src.t, p) == '>') && Leaves(src, z, Past(src, p), after)
    ensures At(src.t, p) == '>' || (At(src.t, p) == NUL && p == z && src.last == '>')
  {
    RestBytes(src, z, p, ">", after);
    assert ">"[0] == '>';
  }

  /** An end that is read is found, if it does not stand before. */
  lemma EndFound(src: Source, z: nat, s: nat, from: nat, raw: string, w: string, after: string)
    requires Reads(src, z, s, raw + w, after) && |w| >= 2 && NulFree(w) && EndsAt(raw, w) && s <= from <= s + |raw|
    requires forall k | s <= k < from :: !Stands(src, k, w, true)
    ensures s + |raw| <= z && src.t[s..s + |raw|] == raw
    ensures ScanFor(src, from, w, true) == s + |raw| && Stands(src, s + |raw|, w, true) && At(src.t, s + |raw|) != NUL
    ensures StepOver(src, s + |raw|, w) == Next(z, s, |raw + w|) <= |src.t|
  {
    hide Reads, EndsAt, StandsAt, StepOver, ScanFor, Stands;
    ReadsParts(src, z, s, raw, w, after);
    ReadsNul(src, z, s, raw + w, after);
    var q := s + |raw|;
    EndStands(src, z, q, w, after);
    EndsIs(raw, w);
    assert NulAt(src.t, z) by { ReadsIs(src, z, s, raw + w, after); }
    forall k | from <= k < q ensures !Stands(src, k, w, true) {
      if Stands(src, k, w, true) { NotBefore(src, z, s, q, raw, w, k - s); }
    }
    ScanStops(src, z, from, w, true);
  }

  lemma EndsIs(raw: string, w: string)
    requires EndsAt(raw, w)
    ensures forall k | 0 <= k < |raw| :: !StandsAt(raw + w, k, w)
  {
  }

  lemma ReadsIs(src: Source, z: nat, s: nat, w: string, after: string)
    requires Reads(src, z, s, w, after)
    ensures NulAt(src.t, z) && s <= z
  {
  }

  lemma EndStands(src: Source, z: nat, q: nat, w: string, after: string)
    requires Reads(src, z, q, w, after) && |w| >= 2 && NulFree(w)
    ensures Stands(src, q, w, true) && At(src.t, q) == w[0] != NUL && StepOver(src, q, w) == Next(z, q, |w|) <= |src.t|
    ensures q + |w| - 1 <= z && forall k | 0 <= k < |w| - 1 :: At(src.t, q + k) == w[k]
  {
    RestBytes(src, z, q, w, after);
    forall k | 0 <= k < |w| ensures w[k] != NUL { assert w[k] in w; }
    forall k | 0 <= k < |w| - 1 ensures At(src.t, q + k) == w[k] { }
  }

  lemma NotBefore(src: Source, z: nat, s: nat, q: nat, raw: string, w: string, k: nat)
    requires NulAt(src.t, z) && s <= q <= z && q == s + |raw| && src.t[s..q] == raw && |w| >= 2 && NulFree(w) && k < |raw|
    requires Stands(src, s + k, w, true) && q + |w| - 1 <= z && forall j | 0 <= j < |w| - 1 :: At(src.t, q + j) == w[j]
    ensures StandsAt(raw + w, k, w)
  {
    LooseStands(src, z, s + k, w);
    forall j | 0 <= j < |w| ensures (raw + w)[k + j] == w[j] {
      assert At(src.t, s + k + j) == w[j];
      if k + j < |raw| { assert raw[k + j] == src.t[s + k + j]; } else { assert At(src.t, q + (k + j - |raw|)) == w[k + j - |raw|]; }
    }
  }

  // ---------------------------------------------------------------- parts without children

  /** After the part comes nothing, or a tag. */
  predicate TagOrEnd(after: string, top: bool) {
    (after == "" && top) || (|after| > 2 && after[0] == '<')
  }

  /** The text part ends at the first `<`, or where the text does. */
  lemma TextEnds(src: Source, z: nat, s: nat, raw: string, after: string, top: bool)
    requires Reads(src, z, s, raw, after) && '<' !in raw && TagOrEnd(after, top)
    ensures var e := Next(z, s, |raw|);
            && s <= e <= z && (forall k | s <= k < e :: src.t[k] != '<' && src.t[k] != NUL)
            && (if after == "" then e == z else e == s + |raw| && e + 1 < z && At(src.t, e) == '<' && src.t[s..e] == raw)
  {
    RestBytes(src, z, s, raw, after);
    var e := Next(z, s, |raw|);
    forall k | s <= k < e ensures src.t[k] != '<' && src.t[k] != NUL {
      assert raw[k - s] == At(src.t, s + (k - s));
      assert raw[k - s] in raw;
    }
    if after != "" { assert Rest(src, z, e)[0] == '<' && |Rest(src, z, e)| == z - e + 1; }
  }

  lemma FirstTag(src: Source, z: nat, s: nat, e: nat)
    requires NulAt(src.t, z) && s <= e <= z && (At(src.t, e) == '<' || e == z)
    requires forall k | s <= k < e :: src.t[k] != '<' && src.t[k] != NUL
    ensures ScanFor(src, s, "<", false) == e
    ensures EndsSpace(src.t, s) ==> SkipSpaces(src.t, s) == e
  {
    TagAhead(src, z, s);
    SymbolsNotNul(src.t, z, s);
    assert !IsSpace(At(src.t, e)) && At(src.t, z) == NUL;
    var p := SkipSpaces(src.t, s);
    assert p <= e;
  }

  lemma CharsParse(src: Source, z: nat, s: nat, raw: string, after: string, stack: seq<Frame>)
    requires Reads(src, z, s, raw, after) && stack != [] && raw != "" && '<' !in raw && TagOrEnd(after, |stack| == 1)
    ensures Bare(Parse(src, s, stack))
         == Bare(Parse(src, Next(z, s, |raw|), AddNodes(stack, NodesOf(src.options, Chars(raw), |stack| == 1))))
  {
    hide XmlText.Pcdata, ScanFor, SkipSpaces, Tag, Meant, CString;
    var o, e, top := src.options, Next(z, s, |raw|), |stack| == 1;
    TextEnds(src, z, s, raw, after, top);
    FirstTag(src, z, s, e);
    AddNodesTwice(stack, [], []);
    if s < e {
      assert At(src.t, s) != NUL && At(src.t, s) != '<';
      if top {
        assert NodesOf(o, Chars(raw), top) == [];
      } else {
        InnerText(src, z, s, e, raw, stack);
      }
    }
  }

  lemma InnerText(src: Source, z: nat, s: nat, e: nat, raw: string, stack: seq<Frame>)
    requires NulAt(src.t, z) && s < e < z && e + 1 < z && At(src.t, e) == '<' && src.t[s..e] == raw && |stack| > 1
    requires forall k | s <= k < e :: src.t[k] != '<' && src.t[k] != NUL
    requires EndsSpace(src.t, s) ==> SkipSpaces(src.t, s) == e
    ensures Bare(Parse(src, s, stack)) == Bare(Parse(src, e, AddNodes(stack, NodesOf(src.options, Chars(raw), false))))
  {
    hide XmlText.Pcdata, ScanFor, SkipSpaces, Tag, Meant, CString, EndsSpace, AddNodes;
    var o := src.options;
    AddNodesTwice(stack, [], []);
    if AllSpace(raw) {
      SpaceReaches(src.t, s, e);
    } else if EndsSpace(src.t, s) {
      SpacesAreSpaces(src.t, s);
    }
    if !o.ws && AllSpace(raw) {
      assert NodesOf(o, Chars(raw), false) == [];
    } else {
      PcdataMeans(src.t, s, e, o.eol);
      assert NodesOf(o, Chars(raw), false) == [Pcdata(CString(Meant(raw, TextMode(o))))];
    }
  }

  /** The bytes of a word that starts what is left. */
  lemma WordRead(src: Source, z: nat, s: nat, u: string, v: string, after: string)
    requires Reads(src, z, s, u + v, after) && v + after != ""
    ensures Stands(src, s, u, false) && Stands(src, s, u, true) && s + |u| <= z && Reads(src, z, s + |u|, v, after)
  {
    ReadsParts(src, z, s, u, v, after);
  }

  lemma SectionParse(src: Source, z: nat, s: nat, raw: string, after: string, stack: seq<Frame>)
    requires Reads(src, z, s, Spell(Section(raw)), after) && stack != [] && EndsAt(raw, "]]>")
    ensures Bare(Parse(src, s, stack))
         == Bare(Parse(src, Next(z, s, |Spell(Section(raw))|), AddNodes(stack, [Cdata(Text(src.options, raw))])))
  {
    hide ScanFor, StepOver, EndsAt, Reads, Text, Stands, Parse, Exclamation, Bare;
    SectionRead2(src, z, s, raw, after);
    EndFound(src, z, s + 9, s + 9, raw, "]]>", after);
    AddNodesTwice(stack, [], []);
    ThroughTag(src, s, stack);
    SectionGoesOn(src, s + 2, stack, raw);
  }

  lemma SectionRead2(src: Source, z: nat, s: nat, raw: string, after: string)
    requires Reads(src, z, s, Spell(Section(raw)), after)
    ensures s + 9 <= z && Reads(src, z, s + 9, raw + "]]>", after) && At(src.t, s) == '<' && At(src.t, s + 1) == '!'
    ensures At(src.t, s + 2) == '[' && Stands(src, s + 2, "[CDATA[", false)
    ensures Next(z, s + 9, |raw + "]]>"|) == Next(z, s, |Spell(Section(raw))|)
  {
    hide Reads, Stands;
    var w := raw + "]]>";
    assert Spell(Section(raw)) == "<![CDATA[" + w;
    ReadsParts(src, z, s, "<![CDATA[", w, after);
    WordAt(src, s, "<![CDATA[", 2, "[CDATA[");
    assert "<![CDATA["[0] == '<' && "<![CDATA["[1] == '!' && "<![CDATA["[2] == '[';
  }

  lemma WordAt(src: Source, s: nat, w: string, k: nat, v: string)
    requires (forall j | 0 <= j < |w| :: At(src.t, s + j) == w[j]) && k + |v| <= |w| && w[k..k + |v|] == v
    ensures Stands(src, s + k, v, false)
  {
    forall j | 0 <= j < |v| ensures At(src.t, s + k + j) == v[j] {
      assert At(src.t, s + (k + j)) == w[k + j] && w[k..k + |v|][j] == w[k + j];
    }
  }

  lemma SectionGoesOn(src: Source, s: nat, stack: seq<Frame>, raw: string)
    requires s + 7 <= |src.t| && stack != [] && At(src.t, s) == '[' && Stands(src, s, "[CDATA[", false)
    requires var q := ScanFor(src, s + 7, "]]>", true);
             At(src.t, q) != NUL && src.t[s + 7..q] == raw && StepOver(src, q, "]]>") <= |src.t|
    ensures Bare(Exclamation(src, s, stack))
         == Bare(Parse(src, StepOver(src, ScanFor(src, s + 7, "]]>", true), "]]>"), AddNode(stack, Cdata(Text(src.options, raw)))))
  {
    hide Parse, ScanFor, StepOver, Text, AddNode, Stands;
  }

  lemma CommentParse(src: Source, z: nat, s: nat, raw: string, after: string, stack: seq<Frame>)
    requires Reads(src, z, s, Spell(Comment(raw)), after) && stack != [] && EndsAt(raw, "-->")
    ensures Bare(Parse(src, s, stack)) == Bare(Parse(src, Next(z, s, |Spell(Comment(raw))|), stack))
  {
    hide ScanFor, StepOver, EndsAt, Reads, Stands;
    var w := raw + "-->";
    assert Spell(Comment(raw)) == "<!--" + w;
    ReadsParts(src, z, s, "<!--", w, after);
    assert At(src.t, s) == '<' && At(src.t, s + 1) == '!' && At(src.t, s + 2) == '-' && At(src.t, s + 3) == '-' by {
      assert "<!--"[0] == '<' && "<!--"[1] == '!' && "<!--"[2] == '-' && "<!--"[3] == '-';
    }
    EndFound(src, z, s + 4, s + 4, raw, "-->", after);
    hide Parse;
    ThroughTag(src, s, stack);
  }

  lemma ThroughTag(src: Source, s: nat, stack: seq<Frame>)
    requires s + 1 < |src.t| && stack != [] && At(src.t, s) == '<'
    ensures At(src.t, s + 1) == '!' ==> Bare(Parse(src, s, stack)) == Bare(Exclamation(src, s + 2, stack))
    ensures At(src.t, s + 1) == '?' ==> Bare(Parse(src, s, stack)) == Bare(Question(src, s + 2, stack))
    ensures At(src.t, s + 1) == '/' ==> Bare(Parse(src, s, stack)) == Bare(CloseTag(src, s + 2, stack))
  {
    hide Exclamation, Question, CloseTag;
    assert Bare(Parse(src, s, stack)) == Bare(Tag(src, s + 1, stack));
  }

  lemma InstructionParse(src: Source, z: nat, s: nat, raw: string, after: string, stack: seq<Frame>)
    requires Reads(src, z, s, Spell(Instruction(raw)), after) && stack != []
    requires raw != "" && IsStartSymbol(raw[0]) && EndsAt(raw, "?>")
    ensures Bare(Parse(src, s, stack)) == Bare(Parse(src, Next(z, s, |Spell(Instruction(raw))|), stack))
  {
    hide ScanFor, StepOver, EndsAt, Reads, Stands, SkipSymbols, Parse, Question, IsStartSymbol;
    var w := raw + "?>";
    assert Spell(Instruction(raw)) == "<?" + w;
    ReadsParts(src, z, s, "<?", w, after);
    assert At(src.t, s) == '<' && At(src.t, s + 1) == '?' by { assert "<?"[0] == '<' && "<?"[1] == '?'; }
    ReadsParts(src, z, s + 2, raw, "?>", after);
    assert At(src.t, s + 2) == raw[0];
    var p := SkipSymbols(src.t, s + 2);
    SymbolsAreNoEnd(src, s + 2, p);
    SymbolsStop(src, z, s + 2, raw, after);
    EndFound(src, z, s + 2, p, raw, "?>", after);
    TargetEnds(src, z, s + 2, p, raw, after);
    ThroughTag(src, s, stack);
    QuestionGoesOn(src, s + 2, stack);
  }

  lemma QuestionGoesOn(src: Source, s: nat, stack: seq<Frame>)
    requires s <= |src.t| && stack != [] && IsStartSymbol(At(src.t, s)) && At(src.t, SkipSymbols(src.t, s)) != NUL
    requires var q := ScanFor(src, SkipSymbols(src.t, s), "?>", true); At(src.t, q) != NUL && StepOver(src, q, "?>") <= |src.t|
    ensures Question(src, s, stack) == Parse(src, StepOver(src, ScanFor(src, SkipSymbols(src.t, s), "?>", true), "?>"), stack)
  {
    hide Parse, ScanFor, StepOver, SkipSymbols, IsStartSymbol;
  }

  /** The target of an instruction ends within it. */
  lemma SymbolsStop(src: Source, z: nat, s: nat, raw: string, after: string)
    requires Reads(src, z, s, raw + "?>", after)
    ensures SkipSymbols(src.t, s) <= s + |raw|
  {
    ReadsParts(src, z, s, raw, "?>", after);
    RestBytes(src, z, s + |raw|, "?>", after);
    assert At(src.t, s + |raw|) == "?>"[0] || s + |raw| == z;
    assert !IsSymbol(At(src.t, s + |raw|));
  }

  lemma TargetEnds(src: Source, z: nat, s: nat, p: nat, raw: string, after: string)
    requires Reads(src, z, s, raw + "?>", after) && s <= p <= s + |raw|
    ensures At(src.t, p) != NUL
  {
    ReadsParts(src, z, s, raw, "?>", after);
    RestBytes(src, z, s + |raw|, "?>", after);
    assert "?>"[0] == '?' && |"?>"| == 2;
    if p < s + |raw| { assert At(src.t, s + (p - s)) == raw[p - s]; }
  }

  // ---------------------------------------------------------------- document types

  lemma {:induction false} MarksIgnored(src: Source, z: nat, s: nat, ms: seq<Mark>, depth: nat, after: string)
    requires Reads(src, z, s, SpellMarks(ms) + "]]>", after) && after != "" && GoodMarks(ms, depth)
    ensures DoctypeIgnore(src, s, depth) == To(s + |SpellMarks(ms) + "]]>"|) && s + |SpellMarks(ms) + "]]>"| <= z
    decreases |ms|
  {
    hide Reads, SpellMarks, Stands;
    var w := SpellMarks(ms) + "]]>";
    if ms == [] {
      NoMarks();
      assert w == "]]>" && "]]>" + "" == "]]>";
      WordRead(src, z, s, "]]>", "", after);
      WordRead1(src, s, "]]>");
    } else {
      var m, rest := ms[0], SpellMarks(ms[1..]) + "]]>";
      OneMark(m, ms[1..]);
      assert ms == [m] + ms[1..] && w == SpellMark(m) + rest;
      WordRead(src, z, s, SpellMark(m), rest, after);
      if m.OpenMark? {
        WordRead1(src, s, "<![");
        MarksIgnored(src, z, s + 3, ms[1..], depth + 1, after);
      } else if m.CloseMark? {
        WordRead1(src, s, "]]>");
        MarksIgnored(src, z, s + 3, ms[1..], depth - 1, after);
      } else {
        OtherRead(src, z, s, w, after);
        MarksIgnored(src, z, s + 1, ms[1..], depth, after);
      }
    }
  }

  lemma WordRead1(src: Source, s: nat, w: string)
    requires (w == "<![" || w == "]]>") && Stands(src, s, w, false)
    ensures At(src.t, s) == w[0] != NUL
    ensures w == "]]>" ==> !Stands(src, s, "<![", false)
  {
    assert At(src.t, s + 0) == w[0];
    assert "<!["[0] == '<' && "]]>"[0] == ']';
  }

  /** No mark starts here. */
  lemma OtherRead(src: Source, z: nat, s: nat, w: string, after: string)
    requires Reads(src, z, s, w, after) && after != "" && |w| >= 3 && !Starts(w, "<![") && !Starts(w, "]]>")
    ensures !Stands(src, s, "<![", false) && !Stands(src, s, "]]>", false) && At(src.t, s) != NUL
  {
    assert w + "" == w;
    ReadsParts(src, z, s, w, "", after);
    if Stands(src, s, "<![", false) { WordStarts(src, s, w, "<!["); }
    if Stands(src, s, "]]>", false) { WordStarts(src, s, w, "]]>"); }
    assert At(src.t, s + 0) == w[0];
  }

  lemma WordStarts(src: Source, s: nat, w: string, v: string)
    requires (forall k | 0 <= k < |w| :: At(src.t, s + k) == w[k]) && |v| <= |w| && Stands(src, s, v, false)
    ensures Starts(w, v)
  {
    forall k | 0 <= k < |v| ensures w[k] == v[k] { assert At(src.t, s + k) == v[k]; }
  }

  /** A strict end that is read is found. */
  lemma OverFound(src: Source, z: nat, s: nat, raw: string, w: string, after: string)
    requires Reads(src, z, s, raw + w, after) && after != "" && w in {"?>", "-->"} && EndsAt(raw, w)
    ensures Over(src, s, w) == To(s + |raw + w|) && s + |raw + w| <= z
  {
    hide Reads, EndsAt, StandsAt, ScanFor;
    ReadsIs(src, z, s, raw + w, after);
    EndsIs(raw, w);
    ReadsParts(src, z, s, raw, w, after);
    var q := s + |raw|;
    assert w + "" == w;
    WordRead(src, z, q, w, "", after);
    EndStands(src, z, q, w, after);
    forall k | s <= k < q ensures !Stands(src, k, w, false) {
      if Stands(src, k, w, false) {
        assert Stands(src, k, w, true);
        NotBefore(src, z, s, q, raw, w, k - s);
      }
    }
    hide Stands;
    ScanStops(src, z, s, w, false);
    assert ScanFor(src, s, w, false) == q;
  }

  lemma QuoteFound(src: Source, z: nat, s: nat, raw: string, quote: char, after: string)
    requires Reads(src, z, s, raw + [quote], after) && after != "" && (quote == '"' || quote == '\'') && quote !in raw
    ensures Over(src, s, [quote]) == To(s + |raw| + 1) && s + |raw| + 1 <= z
  {
    ReadsParts(src, z, s, raw, [quote], after);
    var q := s + |raw|;
    assert [quote] + "" == [quote];
    ReadsParts(src, z, q, [quote], "", after);
    assert At(src.t, q + 0) == [quote][0] && Stands(src, q, [quote], false);
    forall k | s <= k < q ensures !Stands(src, k, [quote], false) {
      assert At(src.t, s + (k - s)) == raw[k - s];
      assert raw[k - s] in raw;
      assert At(src.t, k + 0) != [quote][0];
    }
    ScanStops(src, z, s, [quote], false);
    assert ScanFor(src, s, [quote], false) == q;
  }

  lemma PrimitiveRead(src: Source, z: nat, s: nat, t: Token, rest: string, after: string)
    requires Reads(src, z, s, SpellToken(t) + rest, after) && rest != ""
    requires match t
             case Quoted(quote, raw) => (quote == '"' || quote == '\'') && quote !in raw
             case Embedded(raw) => EndsAt(raw, "?>")
             case Remark(raw) => EndsAt(raw, "-->")
             case _ => false
    ensures s < |src.t| && DoctypePrimitive(src, s) == To(s + |SpellToken(t)|) && Reads(src, z, s + |SpellToken(t)|, rest, after)
    ensures t.Quoted? ==> src.t[s] == t.quote
    ensures t.Embedded? || t.Remark? ==> src.t[s] == '<'
    ensures t.Embedded? ==> At(src.t, s + 1) == '?'
    ensures t.Remark? ==> At(src.t, s + 1) == '!' && At(src.t, s + 2) == '-'
  {
    hide Reads, Over, EndsAt, Stands;
    ReadsParts(src, z, s, SpellToken(t), rest, after);
    match t
    case Quoted(quote, raw) =>
      var w := raw + [quote];
      assert SpellToken(t) == [quote] + w && [quote] + w + rest == [quote] + (w + rest);
      ReadsParts(src, z, s, [quote], w + rest, after);
      ReadsJoin(src, z, s + 1, w, rest, after);
      QuoteFound(src, z, s + 1, raw, quote, rest + after);
      assert At(src.t, s + 0) == [quote][0];
    case Embedded(raw) =>
      var w := raw + "?>";
      assert SpellToken(t) == "<?" + w && "<?" + w + rest == "<?" + (w + rest);
      WordRead(src, z, s, "<?", w + rest, after);
      ReadsJoin(src, z, s + 2, w, rest, after);
      OverFound(src, z, s + 2, raw, "?>", rest + after);
      HeadBytes(src, s, "<?");
    case Remark(raw) =>
      var w := raw + "-->";
      assert SpellToken(t) == "<!--" + w && "<!--" + w + rest == "<!--" + (w + rest);
      WordRead(src, z, s, "<!--", w + rest, after);
      ReadsJoin(src, z, s + 4, w, rest, after);
      OverFound(src, z, s + 4, raw, "-->", rest + after);
      HeadBytes(src, s, "<!--");
  }

  lemma HeadBytes(src: Source, s: nat, w: string)
    requires (w == "<?" || w == "<!--") && Stands(src, s, w, false)
    ensures At(src.t, s) == '<' && s < |src.t| && src.t[s] == '<' && At(src.t, s + 1) == w[1]
    ensures w == "<!--" ==> At(src.t, s + 2) == '-' && !Stands(src, s, "<?", false)
  {
    assert At(src.t, s + 0) == w[0] && At(src.t, s + 1) == w[1];
    assert w == "<!--" ==> At(src.t, s + 2) == w[2];
    assert "<?"[1] == '?' && "<!--"[1] == '!' && "<!--"[0] == '<' && "<?"[0] == '<' && "<!--"[2] == '-';
  }

  lemma ReadsJoin(src: Source, z: nat, s: nat, w: string, rest: string, after: string)
    requires Reads(src, z, s, w + rest, after)
    ensures Reads(src, z, s, w, rest + after)
  {
    assert w + rest + after == w + (rest + after);
  }

  lemma IgnoredRead(src: Source, z: nat, s: nat, marks: seq<Mark>, rest: string, after: string)
    requires Reads(src, z, s, SpellToken(Ignored(marks)) + rest, after) && rest != "" && GoodMarks(marks, 0)
    ensures At(src.t, s) == '<' && At(src.t, s + 1) == '!' && At(src.t, s + 2) == '['
    ensures DoctypeIgnore(src, s + 3, 0) == To(s + |SpellToken(Ignored(marks))|)
  {
    hide Reads, SpellMarks, GoodMarks, DoctypeIgnore;
    var w := SpellMarks(marks) + "]]>";
    assert SpellToken(Ignored(marks)) == "<![" + w && "<![" + w + rest == "<![" + (w + rest);
    ReadsParts(src, z, s, "<![", w + rest, after);
    assert At(src.t, s + 0) == "<!["[0] && At(src.t, s + 1) == "<!["[1] && At(src.t, s + 2) == "<!["[2];
    ReadsJoin(src, z, s + 3, w, rest, after);
    MarksIgnored(src, z, s + 3, marks, 0, rest + after);
  }

  lemma GroupOpened(src: Source, z: nat, s: nat, rest: string, after: string)
    requires Reads(src, z, s, "<!" + rest, after) && rest != "" && rest[0] != '-' && rest[0] != '['
    ensures At(src.t, s) == '<' && At(src.t, s + 1) == '!' && At(src.t, s + 2) != '-' && At(src.t, s + 2) != '['
  {
    hide Reads;
    ReadsParts(src, z, s, "<!", rest, after);
    assert At(src.t, s + 0) == "<!"[0] && At(src.t, s + 1) == "<!"[1];
    RestBytes(src, z, s + 2, rest, after);
    assert rest[0] == if s + 2 < z then At(src.t, s + 2) else src.last;
    assert s + 2 >= z ==> At(src.t, s + 2) == NUL by { ReadsNul(src, z, s + 2, rest, after); }
  }

  lemma ReadsNul(src: Source, z: nat, s: nat, w: string, after: string)
    requires Reads(src, z, s, w, after)
    ensures At(src.t, z) == NUL && s <= z <= |src.t|
  {
  }

  function DepthAfter(t: Token, depth: nat): nat {
    if t.OpenGroup? then depth + 1 else if t.CloseGroup? && depth > 0 then depth - 1 else depth
  }

  lemma GoodToken(ts: seq<Token>, depth: nat)
    requires ts != [] && GoodTokens(ts, depth)
    ensures GoodTokens(ts[1..], DepthAfter(ts[0], depth)) && TokenFits(ts[0], SpellTokens(ts[1..]) + ">", depth)
  {
    hide SpellTokens, GoodMarks, EndsAt;
  }

  /** The token may stand before `rest`. */
  predicate TokenFits(t: Token, rest: string, depth: nat) {
    rest != "" &&
    match t
    case OpenGroup => rest[0] != '-' && rest[0] != '['
    case CloseGroup => depth > 0
    case Plain(c) => c != '<' && c != '>' && c != '"' && c != '\''
    case Quoted(quote, raw) => (quote == '"' || quote == '\'') && quote !in raw
    case Embedded(raw) => EndsAt(raw, "?>")
    case Remark(raw) => EndsAt(raw, "-->")
    case Ignored(marks) => GoodMarks(marks, 0)
  }

  /** One token is read. */
  lemma TokenRead(src: Source, z: nat, s: nat, t: Token, rest: string, depth: nat, after: string)
    requires Reads(src, z, s, SpellToken(t) + rest, after) && TokenFits(t, rest, depth)
    ensures s + |SpellToken(t)| <= z <= |src.t| && Reads(src, z, s + |SpellToken(t)|, rest, after)
    ensures DoctypeGroup(src, s, depth) == DoctypeGroup(src, s + |SpellToken(t)|, DepthAfter(t, depth))
  {
    hide Reads, Stands, DoctypePrimitive, DoctypeIgnore, EndsAt, GoodMarks, SpellMarks;
    ReadsParts(src, z, s, SpellToken(t), rest, after);
    ReadsNul(src, z, s + |SpellToken(t)|, rest, after);
    match t
    case OpenGroup => GroupOpened(src, z, s, rest, after);
    case CloseGroup => assert At(src.t, s + 0) == ">"[0];
    case Plain(c) => assert At(src.t, s + 0) == [c][0];
    case Ignored(marks) => IgnoredRead(src, z, s, marks, rest, after);
    case _ => PrimitiveRead(src, z, s, t, rest, after);
  }

  /** The declarations are read to the end of the document type. */
  lemma {:induction false} TokensRead(src: Source, z: nat, s: nat, ts: seq<Token>, depth: nat, after: string)
    requires Reads(src, z, s, SpellTokens(ts) + ">", after) && GoodTokens(ts, depth)
    ensures s + |SpellTokens(ts)| <= z <= |src.t| && DoctypeGroup(src, s, depth) == To(s + |SpellTokens(ts)|)
    decreases |ts|
  {
    hide Reads, SpellTokens, GoodTokens, TokenFits, SpellToken, DepthAfter;
    if ts == [] {
      NoTokens();
      assert "" + ">" == ">";
      Greater(src, z, s, after);
      ReadsNul(src, z, s, ">", after);
      assert depth == 0 by { NoDepth(depth); }
    } else {
      var t, rest := ts[0], SpellTokens(ts[1..]) + ">";
      hide DoctypeGroup;
      OneToken(t, ts[1..]);
      assert ts == [t] + ts[1..];
      assert SpellTokens(ts) + ">" == SpellToken(t) + rest;
      GoodToken(ts, depth);
      TokenRead(src, z, s, t, rest, depth, after);
      TokensRead(src, z, s + |SpellToken(t)|, ts[1..], DepthAfter(t, depth), after);
    }
  }

  lemma NoDepth(depth: nat)
    requires GoodTokens([], depth)
    ensures depth == 0
  {
  }

  lemma DoctypeParse(src: Source, z: nat, s: nat, ts: seq<Token>, after: string, stack: seq<Frame>)
    requires Reads(src, z, s, Spell(Doctype(ts)), after) && |stack| == 1
    requires Starts(SpellTokens(ts), "DOCTYPE") && GoodTokens(ts, 0)
    ensures Bare(Parse(src, s, stack)) == Bare(Parse(src, Next(z, s, |Spell(Doctype(ts))|), stack))
  {
    hide Reads, SpellTokens, GoodTokens, Parse, DoctypeGroup, Stands, Starts;
    var body := SpellTokens(ts);
    var w := body + ">";
    assert Spell(Doctype(ts)) == "<!" + w;
    ReadsParts(src, z, s, "<!", w, after);
    assert At(src.t, s + 0) == "<!"[0] && At(src.t, s + 1) == "<!"[1];
    TokensRead(src, z, s + 2, ts, 0, after);
    ReadsParts(src, z, s + 2, body, ">", after);
    Greater(src, z, s + 2 + |body|, after);
    WordIsThere(src, s + 2, body);
    ThroughTag(src, s, stack);
    TypeGoesOn(src, s + 2, stack);
  }

  lemma WordIsThere(src: Source, s: nat, body: string)
    requires Starts(body, "DOCTYPE") && forall k | 0 <= k < |body| :: At(src.t, s + k) == body[k]
    ensures Stands(src, s, "DOCTYPE", true) && At(src.t, s) == 'D'
  {
    forall k | 0 <= k < 7 ensures At(src.t, s + k) == "DOCTYPE"[k] { assert body[k] == "DOCTYPE"[k]; }
    assert At(src.t, s + 0) == "DOCTYPE"[0];
  }

  lemma TypeGoesOn(src: Source, s: nat, stack: seq<Frame>)
    requires s <= |src.t| && |stack| == 1 && At(src.t, s) == 'D' && Stands(src, s, "DOCTYPE", true)
    requires DoctypeGroup(src, s, 0).To? && Ends(src, DoctypeGroup(src, s, 0).p, '>')
    ensures Exclamation(src, s, stack) == Parse(src, Past(src, DoctypeGroup(src, s, 0).p), stack)
  {
    hide Parse, DoctypeGroup, Stands;
  }

  // ---------------------------------------------------------------- attributes

  /** Its name and equals sign, and its quotes. */
  function AfterBefore(w: WrittenAttribute): string { w.name + (w.left + ("=" + (w.right + QuotedValue(w)))) }

  function QuotedValue(w: WrittenAttribute): string { [w.quote] + (w.raw + [w.quote]) }

  lemma AttributeSpelling(w: WrittenAttribute)
    ensures SpellAttribute(w) == w.before + AfterBefore(w)
  {
    assert [w.quote] + w.raw + [w.quote] == QuotedValue(w);
    assert w.right + [w.quote] + w.raw + [w.quote] == w.right + QuotedValue(w);
  }

  lemma AttributeLength(w: WrittenAttribute)
    ensures |SpellAttribute(w)| == |w.before| + |w.name| + |w.left| + |w.right| + |w.raw| + 3
  {
  }

  lemma NamePieces(t: string, s: nat, w: WrittenAttribute)
    requires R.Inside(t, s, AfterBefore(w))
    ensures var q := s + |w.name|; var eq := q + |w.left|; var v := eq + 1 + |w.right|;
            && R.Inside(t, s, w.name) && R.Inside(t, q, w.left) && R.Inside(t, eq, "=") && R.Inside(t, eq + 1, w.right)
            && R.Inside(t, v, QuotedValue(w))
  {
    hide R.Inside;
    var q := s + |w.name|; var eq := q + |w.left|;
    R.InsideParts(t, s, w.name, w.left + ("=" + (w.right + QuotedValue(w))));
    R.InsideParts(t, q, w.left, "=" + (w.right + QuotedValue(w)));
    R.InsideParts(t, eq, "=", w.right + QuotedValue(w));
    R.InsideParts(t, eq + 1, w.right, QuotedValue(w));
  }

  lemma ValuePieces(t: string, v: nat, w: WrittenAttribute)
    requires R.Inside(t, v, QuotedValue(w))
    ensures var e := v + 1 + |w.raw|; e < |t| && t[v] == w.quote && t[v + 1..e] == w.raw && t[e] == w.quote
  {
    hide R.Inside;
    R.InsideParts(t, v, [w.quote], w.raw + [w.quote]);
    R.InsideParts(t, v + 1, w.raw, [w.quote]);
    PieceIs(t, v + 1, w.raw);
    R.InsideAt(t, v, [w.quote], 0);
    R.InsideAt(t, v + 1 + |w.raw|, [w.quote], 0);
  }

  /** Where the pieces of an attribute stand. */
  lemma AttributePieces(t: string, s: nat, w: WrittenAttribute)
    requires R.Inside(t, s, SpellAttribute(w))
    ensures var p := s + |w.before|; var q := p + |w.name|; var eq := q + |w.left|; var v := eq + 1 + |w.right|; var e := v + 1 + |w.raw|;
            && e + 1 == s + |SpellAttribute(w)| && e < |t|
            && t[s..p] == w.before && t[p..q] == w.name && t[q..eq] == w.left && t[eq] == '=' && t[eq + 1..v] == w.right
            && t[v] == w.quote && t[v + 1..e] == w.raw && t[e] == w.quote
  {
    hide R.Inside;
    var p := s + |w.before|; var q := p + |w.name|; var eq := q + |w.left|; var v := eq + 1 + |w.right|;
    hide SpellAttribute;
    AttributeSpelling(w);
    AttributeLength(w);
    R.InsideParts(t, s, w.before, AfterBefore(w));
    NamePieces(t, p, w);
    ValuePieces(t, v, w);
    hide AfterBefore, QuotedValue;
    PieceIs(t, s, w.before);
    PieceIs(t, p, w.name);
    PieceIs(t, q, w.left);
    PieceIs(t, eq + 1, w.right);
    R.InsideAt(t, eq, "=", 0);
  }

  lemma PieceIs(t: string, s: nat, w: string)
    requires R.Inside(t, s, w)
    ensures s + |w| <= |t| && t[s..s + |w|] == w
  {
  }

  lemma SpaceRun(t: string, s: nat, e: nat)
    requires s <= e <= |t| && AllSpace(t[s..e]) && !IsSpace(At(t, e))
    ensures SkipSpaces(t, s) == e && (s < e ==> IsSpace(At(t, s)) && SkipSpaces(t, s + 1) == e)
  {
    forall k | s <= k < e ensures IsSpace(t[k]) { assert t[s..e][k - s] == t[k]; }
    SkipTo(t, s, e);
  }

  lemma NameRun(t: string, s: nat, e: nat)
    requires s <= e <= |t| && IsName(t[s..e]) && !IsSymbol(At(t, e))
    ensures SkipSymbols(t, s) == e && s < e && IsStartSymbol(At(t, s))
  {
    R.NameScans(t, s, t[s..e], At(t, e));
  }

  lemma {:induction false} NameIsSymbols(c: char)
    ensures IsSpace(c) || c == '=' || c == '>' || c == '/' || c == NUL ==> !IsSymbol(c) && !IsStartSymbol(c)
    ensures IsStartSymbol(c) ==> !IsSpace(c)
  {
  }

  /** How far the parser gets in an attribute. */
  lemma AttributeScanned(t: string, s: nat, w: WrittenAttribute)
    requires R.Inside(t, s, SpellAttribute(w)) && GoodAttribute(w)
    ensures var p := s + |w.before|; var q := p + |w.name|; var eq := q + |w.left|; var v := eq + 1 + |w.right|;
            && v < |t| && SkipSpaces(t, s) == p && IsStartSymbol(At(t, p)) && SkipSymbols(t, p) == q && t[eq] == '='
            && eq == (if IsSpace(At(t, q)) then SkipSpaces(t, q + 1) else q) && SkipSpaces(t, eq + 1) == v && t[p..q] == w.name
  {
    hide SkipSymbols, SkipSpaces, IsStartSymbol, IsSymbol, IsName, AllSpace, IsSpace, R.Inside, SpellAttribute;
    AttributePieces(t, s, w);
    var p := s + |w.before|; var q := p + |w.name|; var eq := q + |w.left|; var v := eq + 1 + |w.right|;
    LeftRun(t, q, eq);
    NameIsSymbols(At(t, q));
    NameRun(t, p, q);
    NameIsSymbols(At(t, p));
    SpaceRun(t, s, p);
    QuoteIsNoSpace(w.quote);
    SpaceRun(t, eq + 1, v);
  }

  /** An attribute is read as it is written. */
  lemma AttributeRead2(t: string, z: nat, s: nat, w: WrittenAttribute, o: Options)
    requires NulAt(t, z) && s + |SpellAttribute(w)| <= z && R.Inside(t, s, SpellAttribute(w)) && GoodAttribute(w)
    requires !IsStartSymbol(At(t, s + |SpellAttribute(w)|))
    ensures var p := s + |w.before|;
            && SkipSpaces(t, s) == p && IsStartSymbol(At(t, p))
            && ReadAttribute(t, p, ModeOf(o)) == NamedValue(w.name, CString(Meant(w.raw, ModeOf(o))), s + |SpellAttribute(w)|)
  {
    var p := s + |w.before|; var q := p + |w.name|; var eq := q + |w.left|; var v := eq + 1 + |w.right|; var e := v + 1 + |w.raw|;
    hide SkipSymbols, SkipSpaces, IsStartSymbol, IsSpace, IsName, AllSpace, R.Inside, SpellAttribute, AttributeFrom, Meant, CString;
    AttributePieces(t, s, w);
    AttributeScanned(t, s, w);
    QuoteOfGood(w);
    hide GoodAttribute;
    RawEnds(t, z, v, e, w);
    ModesAre(o);
    AttributeMeans(t, v + 1, e, w.quote, ModeOf(o));
    hide *;
    ReadIs(t, p, q, eq, v, e, ModeOf(o), Meant(w.raw, ModeOf(o)));
  }

  lemma QuoteOfGood(w: WrittenAttribute)
    requires GoodAttribute(w)
    ensures (w.quote == '"' || w.quote == '\'') && w.quote !in w.raw
  {
  }

  lemma ReadIs(t: string, p: nat, q: nat, eq: nat, v: nat, e: nat, mode: AttributeMode, text: string)
    requires p <= q <= eq < v <= e < |t| && SkipSymbols(t, p) == q && t[eq] == '=' && (t[v] == '"' || t[v] == '\'')
    requires eq == (if IsSpace(At(t, q)) then SkipSpaces(t, q + 1) else q) && SkipSpaces(t, eq + 1) == v
    requires AttributeFrom(t, v + 1, t[v], mode, true) == Value(text, e + 1) && !IsStartSymbol(At(t, e + 1))
    ensures ReadAttribute(t, p, mode) == NamedValue(t[p..q], CString(text), e + 1)
  {
    hide AttributeFrom, CString, SkipSymbols, SkipSpaces, IsStartSymbol, IsSpace;
  }

  lemma QuoteIsNoSpace(c: char)
    ensures c == '"' || c == '\'' ==> !IsSpace(c)
    ensures !IsSpace('=')
  {
  }

  /** Left of the equals sign. */
  lemma LeftRun(t: string, q: nat, eq: nat)
    requires q <= eq < |t| && AllSpace(t[q..eq]) && t[eq] == '='
    ensures IsSpace(At(t, q)) || At(t, q) == '='
    ensures eq == if IsSpace(At(t, q)) then SkipSpaces(t, q + 1) else q
  {
    SpaceRun(t, q, eq);
  }

  lemma RawEnds(t: string, z: nat, v: nat, e: nat, w: WrittenAttribute)
    requires NulAt(t, z) && v + 1 <= e < z && t[v + 1..e] == w.raw && w.quote !in w.raw
    ensures forall k | v + 1 <= k < e :: t[k] != NUL && t[k] != w.quote
  {
    forall k | v + 1 <= k < e ensures t[k] != w.quote {
      assert t[v + 1..e][k - (v + 1)] == t[k];
      assert w.raw[k - (v + 1)] in w.raw;
    }
  }

  /** What may follow the attributes of a start tag. */
  predicate TagTail(tail: string, space: string) { AllSpace(space) && (tail == space + ">" || tail == space + "/>") }

  lemma TailStarts(src: Source, z: nat, p: nat, attributes: seq<WrittenAttribute>, space: string, tail: string, after: string)
    requires Reads(src, z, p, SpellAttributes(attributes) + tail, after) && TagTail(tail, space)
    requires forall k | 0 <= k < |attributes| :: GoodAttribute(attributes[k])
    ensures !IsStartSymbol(At(src.t, p))
  {
    hide SpellAttributes;
    var w := SpellAttributes(attributes) + tail;
    assert w[0] == '>' || w[0] == '/' || IsSpace(w[0]) by { TailByte(attributes, space, tail); }
    RestBytes(src, z, p, w, after);
    assert w[0] == if p + 0 < z then At(src.t, p + 0) else src.last;
    ReadsNul(src, z, p, w, after);
    NameIsSymbols(At(src.t, p));
  }

  lemma TailByte(attributes: seq<WrittenAttribute>, space: string, tail: string)
    requires TagTail(tail, space) && forall k | 0 <= k < |attributes| :: GoodAttribute(attributes[k])
    ensures var w := SpellAttributes(attributes) + tail; w != "" && (w[0] == '>' || w[0] == '/' || IsSpace(w[0]))
  {
    if attributes != [] {
      var a := attributes[0];
      assert SpellAttribute(a)[0] == a.before[0];
    }
  }

  lemma {:induction false} AttributesParse(
      src: Source, z: nat, s: nat, attributes: seq<WrittenAttribute>, space: string, tail: string, after: string, stack: seq<Frame>)
    requires Reads(src, z, s, SpellAttributes(attributes) + tail, after) && TagTail(tail, space) && |stack| > 1
    requires forall k | 0 <= k < |attributes| :: GoodAttribute(attributes[k])
    ensures s + |SpellAttributes(attributes)| <= z && Reads(src, z, s + |SpellAttributes(attributes)|, tail, after)
    ensures Bare(Attributes(src, s, stack))
         == Bare(Attributes(src, s + |SpellAttributes(attributes)|, R.AddAttributes(stack, AttributesOf(src.options, attributes))))
    decreases |attributes|
  {
    hide Reads, Attributes, SpellAttribute, GoodAttribute, Meant, CString, R.AddAttributes;
    R.AddAttributesTwice(stack, D.Attribute("", ""), []);
    if attributes == [] {
      assert "" + tail == tail;
      ReadsNul(src, z, s, tail, after);
    } else {
      var w, rest := attributes[0], SpellAttributes(attributes[1..]);
      assert SpellAttributes(attributes) + tail == SpellAttribute(w) + (rest + tail);
      assert rest + tail != "";
      ReadsParts(src, z, s, SpellAttribute(w), rest + tail, after);
      var next := s + |SpellAttribute(w)|;
      TailStarts(src, z, next, attributes[1..], space, tail, after);
      OneAttribute(src, z, s, w, stack, after);
      var value := CString(Meant(w.raw, ModeOf(src.options)));
      AttributesParse(src, z, next, attributes[1..], space, tail, after, AddAttribute(stack, w.name, value));
      R.AddAttributesTwice(stack, D.Attribute(w.name, value), AttributesOf(src.options, attributes[1..]));
    }
  }

  lemma OneAttribute(src: Source, z: nat, s: nat, w: WrittenAttribute, stack: seq<Frame>, after: string)
    requires NulAt(src.t, z) && s + |SpellAttribute(w)| <= z && src.t[s..s + |SpellAttribute(w)|] == SpellAttribute(w)
    requires GoodAttribute(w) && !IsStartSymbol(At(src.t, s + |SpellAttribute(w)|)) && |stack| > 1
    ensures Bare(Attributes(src, s, stack))
         == Bare(Attributes(src, s + |SpellAttribute(w)|, AddAttribute(stack, w.name, CString(Meant(w.raw, ModeOf(src.options))))))
  {
    hide Parse, SkipSpaces, ReadAttribute, Meant, CString, SpellAttribute, GoodAttribute, IsStartSymbol, AddAttribute, Pop, ValueAt, ModeOf;
    assert R.Inside(src.t, s, SpellAttribute(w));
    AttributeRead2(src.t, z, s, w, src.options);
  }

  // ---------------------------------------------------------------- tags

  function TagClose(one: bool): string { if one then "/>" else ">" }

  function Opened(stack: seq<Frame>, one: bool): seq<Frame>
    requires |stack| > 1
  {
    if one then Pop(stack) else stack
  }

  /** The end of a start tag, at `p`. */
  lemma CloseRead(src: Source, z: nat, p: nat, one: bool, after: string)
    requires Reads(src, z, p, TagClose(one), after)
    ensures p <= z <= |src.t| && Next(z, p, |TagClose(one)|) == Past(src, if one then p + 1 else p)
    ensures one ==> At(src.t, p) == '/' && Ends(src, p + 1, '>')
    ensures !one ==> At(src.t, p) == '>' || (At(src.t, p) == NUL && src.last == '>')
    ensures Ends(src, if one then p + 1 else p, '>')
  {
    ReadsNul(src, z, p, TagClose(one), after);
    if one {
      assert TagClose(one) == "/" + ">";
      ReadsParts(src, z, p, "/", ">", after);
      assert At(src.t, p + 0) == "/"[0];
      Greater(src, z, p + 1, after);
    } else {
      Greater(src, z, p, after);
    }
  }

  lemma TagEnds(src: Source, z: nat, p: nat, space: string, one: bool, after: string, stack: seq<Frame>)
    requires Reads(src, z, p, space + TagClose(one), after) && AllSpace(space) && |stack| > 1
    ensures p <= |src.t| && Next(z, p, |space + TagClose(one)|) <= |src.t|
    ensures Bare(Attributes(src, p, stack)) == Bare(Parse(src, Next(z, p, |space + TagClose(one)|), Opened(stack, one)))
  {
    hide Reads, Parse, ReadAttribute, Pop, SkipSpaces, IsStartSymbol, IsSpace;
    ReadsParts(src, z, p, space, TagClose(one), after);
    var e := p + |space|;
    CloseRead(src, z, e, one, after);
    NameIsSymbols(At(src.t, e));
    SlashIsNoSpace();
    SpaceRun(src.t, p, e);
  }

  lemma SlashIsNoSpace()
    ensures !IsSpace('/') && !IsSpace('>') && !IsSpace(NUL)
  {
  }

  lemma StartParse(
      src: Source, z: nat, s: nat, name: string, attributes: seq<WrittenAttribute>, space: string, one: bool, after: string,
      stack: seq<Frame>)
    requires Reads(src, z, s, SpellStart(name, attributes, space) + TagClose(one), after) && stack != []
    requires IsName(name) && AllSpace(space) && forall k | 0 <= k < |attributes| :: GoodAttribute(attributes[k])
    ensures var n := |SpellStart(name, attributes, space) + TagClose(one)|;
            && Next(z, s, n) <= |src.t|
            && Bare(Parse(src, s, stack))
            == Bare(Parse(src, Next(z, s, n), Opened(stack + [Frame(name, AttributesOf(src.options, attributes), [])], one)))
  {
    hide Reads, Parse, Attributes, SpellAttributes, AttributesOf, GoodAttribute, IsName, TagClose, Pop;
    var tail := space + TagClose(one);
    var rest := SpellAttributes(attributes) + tail;
    assert SpellStart(name, attributes, space) + TagClose(one) == ("<" + name) + rest;
    TailIs(space, one);
    ReadsParts(src, z, s, "<" + name, rest, after);
    var p := s + 1 + |name|;
    TailStarts(src, z, p, attributes, space, tail, after);
    AfterName(src, z, p, attributes, space, tail, after);
    ReadsNul(src, z, s, SpellStart(name, attributes, space) + TagClose(one), after);
    assert R.Inside(src.t, s, "<" + name);
    var open := stack + [Frame(name, [], [])];
    if IsSpace(At(src.t, p)) {
      R.TagName(src, s, name, stack);
      R.AttributesStart(src, p, open);
      AttributesParse(src, z, p, attributes, space, tail, after, open);
      R.OpenWithAttributes(stack, name, AttributesOf(src.options, attributes));
      TagEnds(src, z, p + |SpellAttributes(attributes)|, space, one, after, stack + [Frame(name, AttributesOf(src.options, attributes), [])]);
    } else {
      NoAttributeNoSpace(src, z, p, attributes, space, one, after, open);
      NoAttributes(src.options, name, space);
      BareTag(src, z, s, name, one, after, stack);
    }
  }

  lemma BareTag(src: Source, z: nat, s: nat, name: string, one: bool, after: string, stack: seq<Frame>)
    requires Reads(src, z, s + 1 + |name|, TagClose(one), after) && stack != [] && IsName(name)
    requires R.Inside(src.t, s, "<" + name) && !IsSymbol(At(src.t, s + 1 + |name|)) && !IsSpace(At(src.t, s + 1 + |name|))
    ensures var p := s + 1 + |name|;
            && Next(z, p, |TagClose(one)|) <= |src.t|
            && Bare(Parse(src, s, stack)) == Bare(Parse(src, Next(z, p, |TagClose(one)|), Opened(stack + [Frame(name, [], [])], one)))
  {
    hide Reads, Parse, Attributes, IsName, Pop, R.Inside, IsSymbol, IsSpace;
    R.TagName(src, s, name, stack);
    CloseRead(src, z, s + 1 + |name|, one, after);
  }

  lemma TailIs(space: string, one: bool)
    requires AllSpace(space)
    ensures TagTail(space + TagClose(one), space) && TagClose(one) != ""
  {
  }

  /** What stands right after the name. */
  lemma AfterName(src: Source, z: nat, p: nat, attributes: seq<WrittenAttribute>, space: string, tail: string, after: string)
    requires Reads(src, z, p, SpellAttributes(attributes) + tail, after) && TagTail(tail, space)
    requires forall k | 0 <= k < |attributes| :: GoodAttribute(attributes[k])
    ensures !IsSymbol(At(src.t, p))
  {
    hide SpellAttributes;
    var w := SpellAttributes(attributes) + tail;
    TailByte(attributes, space, tail);
    RestBytes(src, z, p, w, after);
    assert w[0] == if p + 0 < z then At(src.t, p + 0) else src.last;
    ReadsNul(src, z, p, w, after);
    NameIsSymbols(At(src.t, p));
  }

  /** A start tag that ends right after its name. */
  lemma NoAttributeNoSpace(
      src: Source, z: nat, p: nat, attributes: seq<WrittenAttribute>, space: string, one: bool, after: string, open: seq<Frame>)
    requires Reads(src, z, p, SpellAttributes(attributes) + (space + TagClose(one)), after) && AllSpace(space) && |open| > 1
    requires (forall k | 0 <= k < |attributes| :: GoodAttribute(attributes[k])) && !IsSpace(At(src.t, p))
    ensures attributes == [] && space == "" && Reads(src, z, p, TagClose(one), after)
  {
    hide SpellAttributes, Reads;
    if attributes != [] || space != "" { SpaceThere(src, z, p, attributes, space, one, after); }
    NothingSpelled();
    assert "" + ("" + TagClose(one)) == TagClose(one);
  }

  lemma SpaceThere(src: Source, z: nat, p: nat, attributes: seq<WrittenAttribute>, space: string, one: bool, after: string)
    requires Reads(src, z, p, SpellAttributes(attributes) + (space + TagClose(one)), after) && AllSpace(space)
    requires (forall k | 0 <= k < |attributes| :: GoodAttribute(attributes[k])) && (attributes != [] || space != "")
    ensures IsSpace(At(src.t, p))
  {
    hide SpellAttributes, Reads;
    var w := SpellAttributes(attributes) + (space + TagClose(one));
    FirstSpace(attributes, space, one);
    LongEnough(attributes, space, one);
    assert w == [w[0]] + w[1..];
    ReadsParts(src, z, p, [w[0]], w[1..], after);
    assert At(src.t, p + 0) == [w[0]][0];
  }

  lemma NothingSpelled()
    ensures SpellAttributes([]) == ""
  {
  }

  lemma FirstSpace(attributes: seq<WrittenAttribute>, space: string, one: bool)
    requires (attributes != [] || space != "") && AllSpace(space) && forall k | 0 <= k < |attributes| :: GoodAttribute(attributes[k])
    ensures var w := SpellAttributes(attributes) + (space + TagClose(one)); w != "" && IsSpace(w[0])
  {
    if attributes != [] { assert SpellAttribute(attributes[0])[0] == attributes[0].before[0]; }
  }

  lemma LongEnough(attributes: seq<WrittenAttribute>, space: string, one: bool)
    requires attributes != [] || space != ""
    ensures |SpellAttributes(attributes) + (space + TagClose(one))| > 1
  {
    if attributes != [] { assert |SpellAttribute(attributes[0])| > 1; }
  }

  /** How far the parser gets in an end tag. */
  lemma EndTagScanned(src: Source, z: nat, s: nat, name: string, space: string, after: string)
    requires Reads(src, z, s, ("</" + name) + (space + ">"), after) && IsName(name) && AllSpace(space)
    ensures var q := s + 2 + |name|; var e := q + |space|;
            && e <= |src.t| && At(src.t, s) == '<' && At(src.t, s + 1) == '/' && s + 1 < |src.t|
            && src.t[s + 2..q] == name && SkipSymbols(src.t, s + 2) == q && SkipSpaces(src.t, q) == e && Reads(src, z, e, ">", after)
            && (At(src.t, e) == '>' || (At(src.t, e) == NUL && src.last == '>'))
  {
    hide Reads, SkipSymbols, SkipSpaces, IsName, IsSpace, IsSymbol;
    ReadsParts(src, z, s, "</" + name, space + ">", after);
    ReadsNul(src, z, s, ("</" + name) + (space + ">"), after);
    assert At(src.t, s + 0) == ("</" + name)[0] && At(src.t, s + 1) == ("</" + name)[1];
    var q := s + 2 + |name|;
    assert src.t[s + 2..q] == name by { assert src.t[s..q][2..] == src.t[s + 2..q] && ("</" + name)[2..] == name; }
    ReadsParts(src, z, q, space, ">", after);
    var e := q + |space|;
    Greater(src, z, e, after);
    NameIsSymbols(At(src.t, e));
    SlashIsNoSpace();
    SpaceRun(src.t, q, e);
    NameIsSymbols(At(src.t, q));
    NameRun(src.t, s + 2, q);
  }

  function SpellEnd(name: string, space: string): string { "</" + name + space + ">" }

  lemma EndSplits(name: string, space: string)
    ensures SpellEnd(name, space) == ("</" + name) + (space + ">") && |SpellEnd(name, space)| == |name| + |space| + 3
  {
  }

  lemma EndTagParse(src: Source, z: nat, s: nat, name: string, space: string, after: string, stack: seq<Frame>)
    requires Reads(src, z, s, SpellEnd(name, space), after) && IsName(name) && AllSpace(space)
    requires |stack| > 1 && stack[|stack| - 1].name == name
    ensures Bare(Parse(src, s, stack)) == Bare(Parse(src, Next(z, s, |SpellEnd(name, space)|), Pop(stack)))
  {
    hide Reads, Parse, Pop, SkipSymbols, SkipSpaces, IsName, SpellEnd;
    EndSplits(name, space);
    EndTagScanned(src, z, s, name, space, after);
    var e := s + 2 + |name| + |space|;
    Greater(src, z, e, after);
    hide AllSpace, Ends;
    ThroughTag(src, s, stack);
    CloseGoesOn(src, s + 2, stack, name, e);
  }

  lemma CloseGoesOn(src: Source, s: nat, stack: seq<Frame>, name: string, e: nat)
    requires |stack| > 1 && stack[|stack| - 1].name == name && s + |name| <= e <= |src.t| && src.t[s..s + |name|] == name
    requires SkipSymbols(src.t, s) == s + |name| && SkipSpaces(src.t, s + |name|) == e
    requires At(src.t, e) == '>' || (At(src.t, e) == NUL && src.last == '>')
    ensures CloseTag(src, s, stack) == Parse(src, Past(src, e), Pop(stack))
  {
    hide Parse, Pop, SkipSymbols, SkipSpaces, Tag, Attributes, Question, Exclamation, Finish, IsName, IsSymbol, IsSpace;
    var q := SkipSymbols(src.t, s);
    assert src.t[s..q] == name && SkipSpaces(src.t, q) == e;
  }

  // ---------------------------------------------------------------- documents

  lemma NoTextIsTag(p: Part, top: bool)
    requires GoodPart(p, top) && !p.Chars?
    ensures |Spell(p)| > 2 && Spell(p)[0] == '<'
  {
    hide SpellAttributes, SpellTokens, SpellAll, GoodTokens;
  }

  /** What follows the first part. */
  lemma AfterFirst(ps: seq<Part>, top: bool, after: string)
    requires ps != [] && GoodParts(ps, top) && TagOrEnd(after, top)
    ensures ps[0].Chars? ==> TagOrEnd(SpellAll(ps[1..]) + after, top)
  {
    hide Spell, GoodPart;
    if ps[0].Chars? {
      if |ps| > 1 {
        NoTextIsTag(ps[1], top);
        assert (SpellAll(ps[1..]) + after)[0] == Spell(ps[1])[0];
      } else {
        assert "" + after == after;
      }
    }
  }

  /** The parts are read, and make the nodes of the derivation. */
  lemma {:induction false} PartsParse(src: Source, z: nat, s: nat, ps: seq<Part>, after: string, stack: seq<Frame>)
    requires Reads(src, z, s, SpellAll(ps), after) && stack != [] && GoodParts(ps, |stack| == 1) && TagOrEnd(after, |stack| == 1)
    ensures Next(z, s, |SpellAll(ps)|) <= |src.t|
    ensures Bare(Parse(src, s, stack))
         == Bare(Parse(src, Next(z, s, |SpellAll(ps)|), AddNodes(stack, NodesOfAll(src.options, ps, |stack| == 1))))
    decreases ps
  {
    hide Reads, Parse, Spell, GoodPart, NodesOf, AddNodes, TagOrEnd;
    AddNodesTwice(stack, [], []);
    if ps == [] {
      ReadsNul(src, z, s, "", after);
    } else {
      var rest := SpellAll(ps[1..]);
      var nodes := NodesOf(src.options, ps[0], |stack| == 1);
      AfterFirst(ps, |stack| == 1, after);
      ReadsJoin(src, z, s, Spell(ps[0]), rest, after);
      PartParse(src, z, s, ps[0], rest + after, stack);
      SameStack(stack, nodes);
      if rest + after == "" {
        NothingAfter(ps, |stack| == 1);
        assert Spell(ps[0]) + "" == Spell(ps[0]) && nodes + [] == nodes;
        assert NodesOfAll(src.options, ps[1..], |stack| == 1) == [];
      } else {
        ReadsParts(src, z, s, Spell(ps[0]), rest, after);
        PartsParse(src, z, s + |Spell(ps[0])|, ps[1..], after, AddNodes(stack, nodes));
      }
      AddNodesTwice(stack, nodes, NodesOfAll(src.options, ps[1..], |stack| == 1));
    }
  }

  lemma SameStack(stack: seq<Frame>, ns: seq<Node>)
    requires stack != []
    ensures |AddNodes(stack, ns)| == |stack| && AddNodes(stack, ns)[|stack| - 1].name == stack[|stack| - 1].name
  {
  }

  lemma NothingAfter(ps: seq<Part>, top: bool)
    requires ps != [] && GoodParts(ps, top) && SpellAll(ps[1..]) == ""
    ensures ps[1..] == []
  {
    if ps[1..] != [] { SpellIsSome(ps[1], top); }
  }

  lemma {:induction false} PartParse(src: Source, z: nat, s: nat, p: Part, after: string, stack: seq<Frame>)
    requires Reads(src, z, s, Spell(p), after) && stack != [] && GoodPart(p, |stack| == 1)
    requires p.Chars? ==> TagOrEnd(after, |stack| == 1)
    ensures Next(z, s, |Spell(p)|) <= |src.t|
    ensures Bare(Parse(src, s, stack)) == Bare(Parse(src, Next(z, s, |Spell(p)|), AddNodes(stack, NodesOf(src.options, p, |stack| == 1))))
    decreases p, 1
  {
    hide Reads, Parse, AddNodes, SpellAttributes, SpellTokens, SpellAll, GoodTokens, EndsAt, IsName, IsStartSymbol;
    ReadsNul(src, z, s, Spell(p), after);
    AddNodesTwice(stack, [], []);
    match p
    case Chars(raw) => CharsParse(src, z, s, raw, after, stack);
    case Section(raw) => SectionParse(src, z, s, raw, after, stack);
    case Comment(raw) => CommentParse(src, z, s, raw, after, stack);
    case Instruction(raw) => InstructionParse(src, z, s, raw, after, stack);
    case Doctype(tokens) => DoctypeParse(src, z, s, tokens, after, stack);
    case Tagged(_, _, _, _) => ElementParse(src, z, s, p, after, stack);
  }

  lemma {:induction false} ElementParse(src: Source, z: nat, s: nat, p: Part, after: string, stack: seq<Frame>)
    requires Reads(src, z, s, Spell(p), after) && stack != [] && p.Tagged? && GoodPart(p, |stack| == 1)
    ensures Bare(Parse(src, s, stack)) == Bare(Parse(src, Next(z, s, |Spell(p)|), AddNodes(stack, NodesOf(src.options, p, |stack| == 1))))
    decreases p, 0
  {
    hide Reads, Parse, AddNodes, SpellAttributes, SpellAll, IsName, GoodAttribute, Pop;
    var o := src.options;
    var open := stack + [Frame(p.name, AttributesOf(o, p.attributes), [])];
    if p.content.OneTag? {
      assert Spell(p) == SpellStart(p.name, p.attributes, p.space) + TagClose(true);
      StartParse(src, z, s, p.name, p.attributes, p.space, true, after, stack);
      R.PopOpened(stack, p.name, AttributesOf(o, p.attributes), []);
    } else {
      PairParse(src, z, s, p, after, stack);
    }
  }

  function PairStart(p: Part): string
    requires p.Tagged?
  {
    SpellStart(p.name, p.attributes, p.space) + TagClose(false)
  }

  function PairBody(p: Part): string
    requires p.Tagged? && p.content.Content?
  {
    SpellAll(p.content.parts) + SpellEnd(p.name, p.content.space)
  }

  lemma {:induction false} PairParse(src: Source, z: nat, s: nat, p: Part, after: string, stack: seq<Frame>)
    requires Reads(src, z, s, Spell(p), after) && stack != [] && p.Tagged? && p.content.Content? && GoodPart(p, |stack| == 1)
    ensures Bare(Parse(src, s, stack)) == Bare(Parse(src, Next(z, s, |Spell(p)|), AddNodes(stack, NodesOf(src.options, p, |stack| == 1))))
    decreases p.content, 1
  {
    hide Reads, Parse, AddNodes, IsName, GoodAttribute, Spell, GoodPart, GoodParts, PairBody, PairStart, AllSpace, NodesOf;
    PairIsGood(p, |stack| == 1);
    PairSpells(p);
    ReadsParts(src, z, s, PairStart(p), PairBody(p), after);
    ReadsJoin(src, z, s, PairStart(p), PairBody(p), after);
    PairStarts(src, z, s, p, PairBody(p) + after, stack);
    BodyParse(src, z, s + |PairStart(p)|, p, after, stack);
  }

  lemma PairIsGood(p: Part, top: bool)
    requires p.Tagged? && p.content.Content? && GoodPart(p, top)
    ensures IsName(p.name) && AllSpace(p.space) && GoodParts(p.content.parts, false) && AllSpace(p.content.space)
    ensures forall k | 0 <= k < |p.attributes| :: GoodAttribute(p.attributes[k])
    ensures PairBody(p) != ""
  {
    hide GoodParts, IsName, GoodAttribute, SpellAll;
  }

  lemma PairStarts(src: Source, z: nat, s: nat, p: Part, after: string, stack: seq<Frame>)
    requires p.Tagged? && Reads(src, z, s, PairStart(p), after) && stack != []
    requires IsName(p.name) && AllSpace(p.space) && forall k | 0 <= k < |p.attributes| :: GoodAttribute(p.attributes[k])
    ensures Next(z, s, |PairStart(p)|) <= |src.t|
    ensures Bare(Parse(src, s, stack))
         == Bare(Parse(src, Next(z, s, |PairStart(p)|), stack + [Frame(p.name, AttributesOf(src.options, p.attributes), [])]))
  {
    hide Reads, Parse, IsName, GoodAttribute, SpellStart, TagClose, AllSpace, AttributesOf;
    StartParse(src, z, s, p.name, p.attributes, p.space, false, after, stack);
  }

  /** The parse goes on at `next`, with another stack. */
  ghost predicate GoesOn(src: Source, s: nat, stack: seq<Frame>, next: nat, later: seq<Frame>) {
    && s <= |src.t| && next <= |src.t| && stack != [] && later != []
    && Bare(Parse(src, s, stack)) == Bare(Parse(src, next, later))
  }

  lemma GoesOnTwice(src: Source, s: nat, stack: seq<Frame>, n: nat, mid: seq<Frame>, next: nat, later: seq<Frame>)
    requires GoesOn(src, s, stack, n, mid) && GoesOn(src, n, mid, next, later)
    ensures GoesOn(src, s, stack, next, later)
  {
    hide Parse, Bare;
  }

  /** The content and the end tag of an element that has been opened. */
  lemma {:induction false} BodyParse(src: Source, z: nat, s: nat, p: Part, after: string, stack: seq<Frame>)
    requires p.Tagged? && p.content.Content? && IsName(p.name) && GoodParts(p.content.parts, false) && AllSpace(p.content.space)
    requires Reads(src, z, s, PairBody(p), after) && stack != []
    ensures GoesOn(src, s, stack + [Frame(p.name, AttributesOf(src.options, p.attributes), [])],
                   Next(z, s, |PairBody(p)|), AddNodes(stack, NodesOf(src.options, p, |stack| == 1)))
    decreases p.content, 0, 1
  {
    hide *;
    var o := src.options;
    var open := stack + [Frame(p.name, AttributesOf(o, p.attributes), [])];
    var ns := NodesOfAll(o, p.content.parts, false);
    NodesOfPair(o, p, |stack| == 1);
    ContentParse(src, z, s, p, after, open);
    SameStack(open, ns);
    R.PopOpened(stack, p.name, AttributesOf(o, p.attributes), ns);
    var c := s + |SpellAll(p.content.parts)|;
    EndTagGoesOn(src, z, c, p.name, p.content.space, after, AddNodes(open, ns));
    GoesOnTwice(src, s, open, c, AddNodes(open, ns), Next(z, s, |PairBody(p)|), Pop(AddNodes(open, ns)));
  }

  lemma EndTagGoesOn(src: Source, z: nat, s: nat, name: string, space: string, after: string, stack: seq<Frame>)
    requires Reads(src, z, s, SpellEnd(name, space), after) && IsName(name) && AllSpace(space)
    requires |stack| > 1 && stack[|stack| - 1].name == name
    ensures GoesOn(src, s, stack, Next(z, s, |SpellEnd(name, space)|), Pop(stack))
  {
    hide Reads, Parse, IsName, SpellEnd, AllSpace;
    EndTagParse(src, z, s, name, space, after, stack);
    ReadsNul(src, z, s, SpellEnd(name, space), after);
  }

  lemma NodesOfPair(o: Options, p: Part, top: bool)
    requires p.Tagged? && p.content.Content?
    ensures NodesOf(o, p, top) == [Element(p.name, AttributesOf(o, p.attributes), NodesOfAll(o, p.content.parts, false))]
  {
    hide AttributesOf, NodesOfAll;
  }

  lemma {:induction false} ContentParse(src: Source, z: nat, s: nat, p: Part, after: string, open: seq<Frame>)
    requires p.Tagged? && p.content.Content? && GoodParts(p.content.parts, false) && Reads(src, z, s, PairBody(p), after) && |open| > 1
    ensures var c := s + |SpellAll(p.content.parts)|;
            && Reads(src, z, c, SpellEnd(p.name, p.content.space), after)
            && Next(z, s, |PairBody(p)|) == Next(z, c, |SpellEnd(p.name, p.content.space)|)
            && GoesOn(src, s, open, c, AddNodes(open, NodesOfAll(src.options, p.content.parts, false)))
    decreases p.content, 0, 0
  {
    var inner, end := SpellAll(p.content.parts), SpellEnd(p.name, p.content.space);
    EndIsTag(p.name, p.content.space, after);
    hide Reads, Parse, AddNodes, SpellAll, SpellEnd, GoodParts, TagOrEnd, NodesOfAll;
    ReadsNul(src, z, s, inner + end, after);
    ReadsJoin(src, z, s, inner, end, after);
    PartsParse(src, z, s, p.content.parts, end + after, open);
    ReadsParts(src, z, s, inner, end, after);
    SameStack(open, NodesOfAll(src.options, p.content.parts, false));
  }

  lemma EndIsTag(name: string, space: string, after: string)
    ensures TagOrEnd(SpellEnd(name, space) + after, false) && SpellEnd(name, space) != ""
  {
  }

  lemma PairSpells(p: Part)
    requires p.Tagged? && p.content.Content?
    ensures Spell(p) == PairStart(p) + PairBody(p)
  {
    hide SpellAttributes, SpellAll;
  }

  lemma {:induction false} LastByte(ps: seq<Part>, top: bool)
    requires GoodParts(ps, top) && ps != []
    ensures var w := SpellAll(ps); w != "" && w[|w| - 1] != '<'
    decreases |ps|
  {
    var w, rest := SpellAll(ps), SpellAll(ps[1..]);
    LastByteOf(ps[0], top);
    hide Spell, GoodPart;
    if ps[1..] == [] {
      assert Spell(ps[0]) + "" == Spell(ps[0]);
    } else {
      LastByte(ps[1..], top);
      assert w[|w| - 1] == rest[|rest| - 1];
    }
  }

  lemma LastByteOf(p: Part, top: bool)
    requires GoodPart(p, top)
    ensures Spell(p) != "" && Spell(p)[|Spell(p)| - 1] != '<'
  {
    hide SpellAttributes, SpellTokens, SpellAll, GoodTokens;
    if p.Chars? { assert p.raw[|p.raw| - 1] in p.raw; }
  }

  /** The start of a document. */
  lemma Beginning(o: Options, text: string, w: string)
    requires text != "" && Seen(text) == Bom(text) + w
    ensures var src := Source(text[..|text| - 1], text[|text| - 1], o);
            var z := |CString(src.t)|;
            && z <= |src.t| && Reads(src, z, |Bom(text)|, w, "") && w != "" && src.last == w[|w| - 1]
            && Next(z, |Bom(text)|, |w|) == z && At(src.t, z) == NUL
  {
    hide CString;
    var src := Source(text[..|text| - 1], text[|text| - 1], o);
    CStringEnds(src.t);
    var z := |CString(src.t)|;
    BomIsText(text, z);
    assert Seen(text)[|Bom(text)|..] == w && w + "" == w;
    assert Seen(text)[|Bom(text)|..] == Rest(src, z, |Bom(text)|);
  }

  /** A text is accepted with the tree of its derivation, if that has an element. */
  lemma DerivedIsAccepted(o: Options, text: string, parts: seq<Part>)
    requires text != "" && Seen(text) == Bom(text) + SpellAll(parts) && GoodParts(parts, true)
    ensures var ns := NodesOfAll(o, parts, true);
            Bare(ParseDocument(o, text)) == if HasElement(ns) then Parsed(ns, []) else Failed(NoDocumentElement)
  {
    hide SpellAll, GoodParts, NodesOfAll, CString, Parse, Seen;
    Beginning(o, text, SpellAll(parts));
    var src := Source(text[..|text| - 1], text[|text| - 1], o);
    var z, bom := |CString(src.t)|, |Bom(text)|;
    var stack := [Frame("", [], [])];
    var ns := NodesOfAll(o, parts, true);
    assert parts != [] by { if parts == [] { NothingSpelledAtAll(); } }
    LastByte(parts, true);
    PartsParse(src, z, bom, parts, "", stack);
    assert [] + ns == ns;
    AtTheEnd(src, z, AddNodes(stack, ns));
    CStringEnds(src.t);
    BomIsText(text, z);
  }

  lemma NothingSpelledAtAll()
    ensures SpellAll([]) == ""
  {
  }

  lemma AtTheEnd(src: Source, z: nat, stack: seq<Frame>)
    requires z <= |src.t| && At(src.t, z) == NUL && |stack| == 1
    ensures Parse(src, z, stack) == Parsed(stack[0].children, [])
  {
  }

  /** The text has this derivation, with an element. */
  ghost predicate IsDerivation(o: Options, text: string, parts: seq<Part>) {
    text != "" && Seen(text) == Bom(text) + SpellAll(parts) && GoodParts(parts, true) && HasElement(NodesOfAll(o, parts, true))
  }

  /** The parser accepts exactly the texts of the grammar, and it builds the tree of the derivation, whichever it is. */
  lemma AcceptsExactly(o: Options, text: string)
    ensures ParseDocument(o, text).Parsed? <==> exists parts :: IsDerivation(o, text, parts)
    ensures forall parts :: IsDerivation(o, text, parts) ==> ParseDocument(o, text).children == NodesOfAll(o, parts, true)
  {
    hide ParseDocument, SpellAll, GoodParts, NodesOfAll, Seen, Bom;
    if ParseDocument(o, text).Parsed? {
      var parts := AcceptedIsDerived(o, text);
      assert IsDerivation(o, text, parts);
    }
    forall parts | IsDerivation(o, text, parts)
      ensures ParseDocument(o, text).Parsed? && ParseDocument(o, text).children == NodesOfAll(o, parts, true)
    {
      DerivedIsAccepted(o, text, parts);
    }
  }

  // ---------------------------------------------------------------- end tags of another name

  predicate AllSymbols(s: string) { forall k | 0 <= k < |s| :: IsSymbol(s[k]) }

  lemma SymbolRun(t: string, s: nat, e: nat)
    requires s <= e <= |t| && AllSymbols(t[s..e]) && !IsSymbol(At(t, e))
    ensures SkipSymbols(t, s) == e
  {
    forall k | s <= k < e ensures IsSymbol(t[k]) { assert t[s..e][k - s] == t[k]; }
  }

  /** An end tag of another name than that of the innermost element ends the parse. */
  lemma OtherEndTag(src: Source, z: nat, s: nat, other: string, tail: string, after: string, stack: seq<Frame>)
    requires Reads(src, z, s, "</" + other + tail, after) && |stack| > 1 && IsName(stack[|stack| - 1].name)
    requires AllSymbols(other) && other != stack[|stack| - 1].name && tail != "" && !IsSymbol(tail[0])
    ensures Bare(Parse(src, s, stack)) == Failed(EndElementMismatch)
  {
    hide Reads, Parse, SkipSymbols, IsSymbol;
    assert "</" + other + tail == ("</" + other) + tail;
    ReadsParts(src, z, s, "</" + other, tail, after);
    assert At(src.t, s + 0) == ("</" + other)[0] && At(src.t, s + 1) == ("</" + other)[1];
    var q := s + 2 + |other|;
    assert src.t[s + 2..q] == other by { assert src.t[s..q][2..] == src.t[s + 2..q] && ("</" + other)[2..] == other; }
    RestBytes(src, z, q, tail, after);
    ReadsNul(src, z, q, tail, after);
    assert tail[0] == if q + 0 < z then At(src.t, q + 0) else src.last;
    NameIsSymbols(At(src.t, q));
    SymbolRun(src.t, s + 2, q);
    ThroughTag(src, s, stack);
    var name := stack[|stack| - 1].name;
    assert At(src.t, q) == NUL ==> src.last == tail[0] || q < z;
    assert At(src.t, q) == NUL && name == other + [src.last] ==> q < z by {
      if name == other + [src.last] { assert name[|name| - 1] == src.last && IsSymbol(name[|name| - 1]); }
    }
    assert q < z ==> At(src.t, q) != NUL by { NoNulBefore(src, z, q, tail, after); }
  }

  lemma NoNulBefore(src: Source, z: nat, s: nat, w: string, after: string)
    requires Reads(src, z, s, w, after)
    ensures s < z ==> At(src.t, s) != NUL
  {
  }

  /** An element that is open: what comes before it in its parent, and its start tag. */
  datatype Level = Level(before: seq<Part>, name: string, attributes: seq<WrittenAttribute>, space: string)

  function SpellOpen(l: Level): string { SpellStart(l.name, l.attributes, l.space) + ">" }

  function SpellLevel(l: Level): string { SpellAll(l.before) + SpellOpen(l) }

  function SpellLevels(ls: seq<Level>): string { if ls == [] then "" else SpellLevel(ls[0]) + SpellLevels(ls[1..]) }

  /** The stack after the level has been read. */
  ghost function WithLevel(o: Options, stack: seq<Frame>, l: Level): (r: seq<Frame>)
    requires stack != []
    ensures |r| == |stack| + 1 && r[|r| - 1].name == l.name
  {
    AddNodes(stack, NodesOfAll(o, l.before, |stack| == 1)) + [Frame(l.name, AttributesOf(o, l.attributes), [])]
  }

  predicate GoodLevel(l: Level, top: bool) {
    && GoodParts(l.before, top) && IsName(l.name) && AllSpace(l.space)
    && forall k | 0 <= k < |l.attributes| :: GoodAttribute(l.attributes[k])
  }

  predicate GoodLevels(ls: seq<Level>, top: bool) { ls != [] ==> GoodLevel(ls[0], top) && GoodLevels(ls[1..], false) }

  lemma StartsTag(name: string, attributes: seq<WrittenAttribute>, space: string, body: string)
    requires |body| > 1
    ensures forall top :: TagOrEnd(SpellStart(name, attributes, space) + ">" + body, top)
  {
    hide SpellAttributes;
  }

  /** The innermost open element has some content, and then an end tag of another name. */
  lemma {:induction false} ContentMismatch(
      src: Source, z: nat, s: nat, stack: seq<Frame>, content: seq<Part>, other: string, tail: string)
    requires Reads(src, z, s, SpellAll(content) + ("</" + other + tail), "") && |stack| > 1 && GoodParts(content, false)
    requires IsName(stack[|stack| - 1].name) && AllSymbols(other) && other != stack[|stack| - 1].name && tail != "" && !IsSymbol(tail[0])
    ensures s <= |src.t| && Bare(Parse(src, s, stack)) == Failed(EndElementMismatch)
  {
    var end := "</" + other + tail;
    EndBefore(SpellAll(content), end);
    hide *;
    BeforeParse(src, z, s, stack, content, end);
    SameStack(stack, NodesOfAll(src.options, content, false));
    OtherEndTag(src, z, s + |SpellAll(content)|, other, tail, "", AddNodes(stack, NodesOfAll(src.options, content, false)));
  }

  lemma EndBefore(inner: string, end: string)
    requires |end| > 2 && end[0] == '<'
    ensures TagOrEnd(end, false) && end != ""
  {
  }

  lemma LevelSplits(l: Level, rest: string)
    requires |rest| > 1
    ensures SpellLevel(l) + rest == SpellAll(l.before) + (SpellOpen(l) + rest) && |SpellLevel(l)| == |SpellAll(l.before)| + |SpellOpen(l)|
    ensures forall top :: TagOrEnd(SpellOpen(l) + rest, top)
  {
    hide SpellAll, SpellStart;
    StartsTag(l.name, l.attributes, l.space, rest);
  }

  /** One element is opened. */
  lemma {:induction false} LevelParse(src: Source, z: nat, s: nat, stack: seq<Frame>, l: Level, rest: string)
    requires Reads(src, z, s, SpellLevel(l) + rest, "") && stack != [] && GoodLevel(l, |stack| == 1) && |rest| > 1
    ensures s + |SpellLevel(l)| <= z <= |src.t| && Reads(src, z, s + |SpellLevel(l)|, rest, "")
    ensures Bare(Parse(src, s, stack)) == Bare(Parse(src, s + |SpellLevel(l)|, WithLevel(src.options, stack, l)))
  {
    hide SpellAll, GoodParts, Parse, SpellOpen, Reads, AttributesOf, IsName, GoodAttribute, AddNodes, TagOrEnd, SpellLevel;
    LevelSplits(l, rest);
    BeforeParse(src, z, s, stack, l.before, SpellOpen(l) + rest);
    SameStack(stack, NodesOfAll(src.options, l.before, |stack| == 1));
    OpenParse(src, z, s + |SpellAll(l.before)|, AddNodes(stack, NodesOfAll(src.options, l.before, |stack| == 1)), l, rest);
  }

  lemma {:induction false} BeforeParse(src: Source, z: nat, s: nat, stack: seq<Frame>, before: seq<Part>, rest: string)
    requires Reads(src, z, s, SpellAll(before) + rest, "") && stack != [] && GoodParts(before, |stack| == 1)
    requires rest != "" && TagOrEnd(rest, |stack| == 1)
    ensures s + |SpellAll(before)| <= z <= |src.t| && Reads(src, z, s + |SpellAll(before)|, rest, "")
    ensures Bare(Parse(src, s, stack))
         == Bare(Parse(src, s + |SpellAll(before)|, AddNodes(stack, NodesOfAll(src.options, before, |stack| == 1))))
  {
    hide SpellAll, GoodParts, Parse, Reads, AddNodes, TagOrEnd;
    assert rest + "" == rest;
    ReadsNul(src, z, s, SpellAll(before) + rest, "");
    ReadsJoin(src, z, s, SpellAll(before), rest, "");
    PartsParse(src, z, s, before, rest, stack);
    ReadsParts(src, z, s, SpellAll(before), rest, "");
  }

  lemma OpenParse(src: Source, z: nat, s: nat, stack: seq<Frame>, l: Level, rest: string)
    requires Reads(src, z, s, SpellOpen(l) + rest, "") && stack != [] && rest != ""
    requires IsName(l.name) && AllSpace(l.space) && forall k | 0 <= k < |l.attributes| :: GoodAttribute(l.attributes[k])
    ensures s + |SpellOpen(l)| <= z <= |src.t| && Reads(src, z, s + |SpellOpen(l)|, rest, "")
    ensures Bare(Parse(src, s, stack))
         == Bare(Parse(src, s + |SpellOpen(l)|, stack + [Frame(l.name, AttributesOf(src.options, l.attributes), [])]))
  {
    assert TagClose(false) == ">" && rest + "" == rest;
    hide Parse, SpellStart, Reads, AttributesOf, IsName, GoodAttribute;
    ReadsNul(src, z, s, SpellOpen(l) + rest, "");
    ReadsParts(src, z, s, SpellOpen(l), rest, "");
    ReadsJoin(src, z, s, SpellOpen(l), rest, "");
    StartParse(src, z, s, l.name, l.attributes, l.space, false, rest, stack);
  }

  /** The innermost open element has another name. */
  predicate OtherName(stack: seq<Frame>, ls: seq<Level>, other: string)
    requires stack != []
  {
    if ls == [] then |stack| > 1 && IsName(stack[|stack| - 1].name) && other != stack[|stack| - 1].name
    else other != ls[|ls| - 1].name
  }

  lemma OtherNameInside(o: Options, stack: seq<Frame>, ls: seq<Level>, other: string)
    requires stack != [] && ls != [] && OtherName(stack, ls, other) && IsName(ls[0].name)
    ensures OtherName(WithLevel(o, stack, ls[0]), ls[1..], other)
  {
    hide IsName;
  }

  lemma {:induction false} LevelsMismatch(
      src: Source, z: nat, s: nat, stack: seq<Frame>, ls: seq<Level>, content: seq<Part>, other: string, tail: string, body: string)
    requires body == SpellAll(content) + ("</" + other + tail) && Reads(src, z, s, SpellLevels(ls) + body, "") && stack != []
    requires GoodLevels(ls, |stack| == 1) && GoodParts(content, false) && OtherName(stack, ls, other)
    requires AllSymbols(other) && tail != "" && !IsSymbol(tail[0])
    ensures s <= |src.t| && Bare(Parse(src, s, stack)) == Failed(EndElementMismatch)
    decreases |ls|
  {
    hide SpellAll, GoodParts, Parse, Reads, AllSymbols, IsSymbol, IsName, SpellLevel, WithLevel, GoodLevels, GoodLevel, Bare;
    if ls == [] {
      assert "" + body == body;
      ContentMismatch(src, z, s, stack, content, other, tail);
    } else {
      LongBody(SpellAll(content), other, tail);
      hide SpellLevels;
      LevelsSpell(ls, body);
      FirstLevel(ls, |stack| == 1);
      OtherNameInside(src.options, stack, ls, other);
      ReadsNul(src, z, s, SpellLevels(ls) + body, "");
      hide OtherName;
      LevelParse(src, z, s, stack, ls[0], SpellLevels(ls[1..]) + body);
      LevelsMismatch(src, z, s + |SpellLevel(ls[0])|, WithLevel(src.options, stack, ls[0]), ls[1..], content, other, tail, body);
    }
  }

  lemma LongBody(inner: string, other: string, tail: string)
    ensures |inner + ("</" + other + tail)| > 1
  {
  }

  lemma FirstLevel(ls: seq<Level>, top: bool)
    requires ls != [] && GoodLevels(ls, top)
    ensures GoodLevel(ls[0], top) && IsName(ls[0].name) && GoodLevels(ls[1..], false)
    ensures if ls[1..] == [] then ls[0] == ls[|ls| - 1] else ls[1..][|ls[1..]| - 1] == ls[|ls| - 1]
  {
  }

  lemma LevelsSpell(ls: seq<Level>, body: string)
    requires ls != []
    ensures SpellLevels(ls) + body == SpellLevel(ls[0]) + (SpellLevels(ls[1..]) + body)
  {
    hide SpellLevel;
  }

  /** Only the name of the innermost element ends it: whatever elements are open, whatever is in them and whatever comes
      after, a text in which an element is to end under another name is not accepted, and the status says so. */
  lemma MismatchIsFound(o: Options, text: string, ls: seq<Level>, content: seq<Part>, other: string, tail: string)
    requires text != "" && Seen(text) == Bom(text) + (SpellLevels(ls) + (SpellAll(content) + ("</" + other + tail)))
    requires ls != [] && GoodLevels(ls, true) && GoodParts(content, false)
    requires AllSymbols(other) && other != ls[|ls| - 1].name && tail != "" && !IsSymbol(tail[0])
    ensures ParseDocument(o, text) == Failed(EndElementMismatch)
  {
    hide SpellAll, GoodParts, CString, Parse, Seen, SpellLevels, GoodLevels, AllSymbols, IsSymbol, Reads;
    Beginning(o, text, SpellLevels(ls) + (SpellAll(content) + ("</" + other + tail)));
    var src := Source(text[..|text| - 1], text[|text| - 1], o);
    CStringEnds(src.t);
    BomIsText(text, |CString(src.t)|);
    LevelsMismatch(src, |CString(src.t)|, |Bom(text)|, [Frame("", [], [])], ls, content, other, tail,
                   SpellAll(content) + ("</" + other + tail));
  }

  /** An element as it is printed, but for the name `other` in its end tag. */
  function PrintedOtherwise(n: Node, other: string): string
    requires n.Element?
  {
    R.Open(n.name, n.attributes) + ">" + (R.PrintAll(n.children) + "</") + other + ">"
  }

  /** A printed element whose end tag has another name is refused for it. */
  lemma PrintedMismatch(o: Options, n: Node, other: string)
    requires n.Element? && R.Printable(n) && AllSymbols(other) && other != n.name
    ensures n.children != [] ==> PrintedOtherwise(n, n.name) == R.Print(n)
    ensures ParseDocument(o, PrintedOtherwise(n, other)) == Failed(EndElementMismatch)
  {
    if n.children != [] { R.PrintOfElement(n); }
    var t := R.Open(n.name, n.attributes) + ">" + (R.PrintAll(n.children) + "</") + other;
    assert PrintedOtherwise(n, other) == t + ">" && (t + ">")[..|t + ">"| - 1] == t;
    R.WholeInside(t);
    hide R.Print, R.PrintAll, R.Open, Parse, R.Printable, AllSymbols;
    PrintedFails(Source(t, '>', o), n, other);
  }

  lemma PrintedFails(src: Source, n: Node, other: string)
    requires n.Element? && R.Printable(n) && AllSymbols(other) && other != n.name && src.last == '>'
    requires R.Inside(src.t, 0, R.Open(n.name, n.attributes) + ">" + (R.PrintAll(n.children) + "</") + other)
    requires |src.t| == |R.Open(n.name, n.attributes) + ">" + (R.PrintAll(n.children) + "</") + other|
    ensures src.t != "" && src.t[0] == '<' && Bare(Parse(src, 0, [Frame("", [], [])])) == Failed(EndElementMismatch)
  {
    hide *;
    var head, inner := R.Open(n.name, n.attributes), R.PrintAll(n.children) + "</";
    assert |head + ">"| == |head| + 1 && |inner| == |R.PrintAll(n.children)| + 2;
    R.InsideParts(src.t, 0, head + ">" + inner, other);
    R.InsideParts(src.t, 0, head + ">", inner);
    R.InsideParts(src.t, 0, head, ">");
    R.InsideAt(src.t, |head|, ">", 0);
    R.InsideParts(src.t, |head| + 1, R.PrintAll(n.children), "</");
    NoMark(n, src.t);
    PrintableParts(n);
    PrintedRest(src, n, other);
  }

  lemma PrintedRest(src: Source, n: Node, other: string)
    requires n.Element? && IsName(n.name) && (forall k | 0 <= k < |n.attributes| :: R.GoodAttribute(n.attributes[k]))
    requires (forall k | 0 <= k < |n.children| :: R.Printable(n.children[k])) && AllSymbols(other) && other != n.name && src.last == '>'
    requires var p := |R.Open(n.name, n.attributes)|; var c := p + 1 + |R.PrintAll(n.children)|;
             && R.Inside(src.t, 0, R.Open(n.name, n.attributes)) && At(src.t, p) == '>' && c + 2 + |other| == |src.t|
             && R.Inside(src.t, p + 1, R.PrintAll(n.children) + "</") && R.Inside(src.t, c, "</") && R.Inside(src.t, c + 2, other)
    ensures Bare(Parse(src, 0, [Frame("", [], [])])) == Failed(EndElementMismatch)
  {
    hide *;
    var p := |R.Open(n.name, n.attributes)|;
    var stack := [Frame("", [], [])];
    var open := stack + [Frame(n.name, R.ReadBackAll(src.options, n.attributes), [])];
    R.StartTag(src, 0, n.name, n.attributes, stack);
    R.ChildrenParse(src, p + 1, n.children, open);
    SameStack(open, R.NormalAll(src.options, n.children));
    LastMismatch(src, p + 1 + |R.PrintAll(n.children)|, n.name, other, AddNodes(open, R.NormalAll(src.options, n.children)));
  }

  lemma PrintableParts(n: Node)
    requires n.Element? && R.Printable(n)
    ensures IsName(n.name) && (forall k | 0 <= k < |n.attributes| :: R.GoodAttribute(n.attributes[k]))
    ensures forall k | 0 <= k < |n.children| :: R.Printable(n.children[k])
  {
  }

  /** A printed element does not start with a byte order mark. */
  lemma NoMark(n: Node, t: string)
    requires n.Element? && R.Inside(t, 0, R.Open(n.name, n.attributes))
    ensures t != "" && t[0] == '<'
  {
    R.InsideAt(t, 0, R.Open(n.name, n.attributes), 0);
  }

  lemma LastMismatch(src: Source, c: nat, name: string, other: string, stack: seq<Frame>)
    requires R.Inside(src.t, c, "</") && R.Inside(src.t, c + 2, other) && |src.t| == c + 2 + |other| && src.last == '>'
    requires |stack| > 1 && stack[|stack| - 1].name == name && IsName(name) && AllSymbols(other) && other != name
    ensures Bare(Parse(src, c, stack)) == Failed(EndElementMismatch)
  {
    hide Parse, SkipSymbols, IsSymbol;
    R.InsideAt(src.t, c, "</", 0);
    R.InsideAt(src.t, c, "</", 1);
    assert src.t[c + 2..c + 2 + |other|] == other;
    NameIsSymbols(NUL);
    NameIsSymbols('>');
    SymbolRun(src.t, c + 2, c + 2 + |other|);
    ThroughTag(src, c, stack);
    var longer := other + ['>'];
    assert IsSymbol(name[|name| - 1]) && longer[|longer| - 1] == '>';
  }
}
