// Every text that the parser accepts has a derivation in the grammar, with the tree that the parser builds.
module XmlAcceptance {

  import opened XmlText
  import opened XmlReferences
  import opened XmlParser
  import opened XmlGrammar
  import D = Documents

  // ---------------------------------------------------------------- what is read, and what is left

  /** The text ends for the parser at its first NUL. */
  predicate NulAt(t: string, z: nat) { z <= |t| && At(t, z) == NUL && forall k | 0 <= k < z :: t[k] != NUL }

  /** What is left at `s`, with the byte that is kept apart. */
  function Rest(src: Source, z: nat, s: nat): string
    requires s <= z <= |src.t|
  {
    src.t[s..z] + [src.last]
  }

  /** What is left at `s`; at the end, the byte that is kept apart may have been read. */
  predicate Leaves(src: Source, z: nat, s: nat, after: string)
    requires z <= |src.t|
  {
    s <= z && (after == Rest(src, z, s) || (s == z && after == ""))
  }

  lemma RestSplits(src: Source, z: nat, s: nat, e: nat)
    requires s <= e <= z <= |src.t|
    ensures Rest(src, z, s) == src.t[s..e] + Rest(src, z, e)
  {
    assert src.t[s..z] == src.t[s..e] + src.t[e..z];
  }

  /** What comes after the `>` at `p`. */
  function AfterGreater(src: Source, z: nat, p: nat): string
    requires NulAt(src.t, z) && p <= z
  {
    if At(src.t, p) == '>' then Rest(src, z, p + 1) else ""
  }

  lemma GreaterLeaves(src: Source, z: nat, p: nat)
    requires NulAt(src.t, z) && p <= z && Ends(src, p, '>')
    ensures Leaves(src, z, Past(src, p), AfterGreater(src, z, p))
    ensures Rest(src, z, p) == ">" + AfterGreater(src, z, p)
  {
    if At(src.t, p) == '>' {
      RestSplits(src, z, p, p + 1);
      assert src.t[p..p + 1] == ">";
    } else {
      assert p == z && src.t[z..z] == "";
    }
  }

  /** What comes after the end `w` of a construct at `q`. */
  function AfterOver(src: Source, z: nat, q: nat, w: string): string
    requires NulAt(src.t, z) && q <= z && |w| >= 2 && NulFree(w) && Stands(src, q, w, true)
  {
    LooseStands(src, z, q, w);
    if At(src.t, q + |w| - 1) == w[|w| - 1] then Rest(src, z, q + |w|) else ""
  }

  /** Only the last byte of an end can be the one that is kept apart. */
  lemma LooseStands(src: Source, z: nat, q: nat, w: string)
    requires NulAt(src.t, z) && q <= z && |w| >= 2 && NulFree(w) && Stands(src, q, w, true)
    ensures q + |w| - 1 <= z && forall k | 0 <= k < |w| - 1 :: At(src.t, q + k) == w[k] && q + k < z
    ensures At(src.t, q + |w| - 1) == w[|w| - 1] ==> q + |w| <= z
    ensures At(src.t, q + |w| - 1) != w[|w| - 1] ==> q + |w| - 1 == z && src.last == w[|w| - 1]
  {
    forall k | 0 <= k < |w| ensures w[k] != NUL { assert w[k] in w; }
    var m := |w| - 1;
    assert At(src.t, q + m) == w[m] || Ends(src, q + m, w[m]);
    forall k | 0 <= k < m ensures At(src.t, q + k) == w[k] && q + k < z {
      NotPastNul(src, z, q, w, k);
    }
    assert At(src.t, q + (m - 1)) == w[m - 1];
  }

  lemma {:induction false} NotPastNul(src: Source, z: nat, q: nat, w: string, k: nat)
    requires NulAt(src.t, z) && q <= z && |w| >= 2 && (forall j | 0 <= j < |w| :: w[j] != NUL) && Stands(src, q, w, true) && k < |w| - 1
    ensures At(src.t, q + k) == w[k] && q + k < z
  {
    if k > 0 { NotPastNul(src, z, q, w, k - 1); }
    assert At(src.t, q + k) == w[k];
  }

  lemma OverLeaves(src: Source, z: nat, q: nat, w: string)
    requires NulAt(src.t, z) && q <= z && |w| >= 2 && NulFree(w) && Stands(src, q, w, true)
    ensures Leaves(src, z, StepOver(src, q, w), AfterOver(src, z, q, w))
    ensures Rest(src, z, q) == w + AfterOver(src, z, q, w)
  {
    LooseStands(src, z, q, w);
    var rest := Rest(src, z, q);
    forall k | 0 <= k < |w| ensures rest[k] == w[k] {
      if k < |w| - 1 { assert At(src.t, q + k) == w[k]; }
    }
    assert rest[..|w|] == w;
    if At(src.t, q + |w| - 1) == w[|w| - 1] { assert rest[|w|..] == Rest(src, z, q + |w|); } else { assert rest[|w|..] == ""; }
  }

  /** Where the scan found the end, it does not stand before. */
  lemma EndsWhereFound(src: Source, z: nat, s: nat, from: nat, q: nat, w: string)
    requires NulAt(src.t, z) && s <= from <= q <= z && |w| >= 2 && NulFree(w) && Stands(src, q, w, true)
    requires forall k | s <= k < q :: !Stands(src, k, w, true)
    ensures EndsAt(src.t[s..q], w)
  {
    LooseStands(src, z, q, w);
    var raw := src.t[s..q];
    forall k | 0 <= k < |raw| ensures !StandsAt(raw + w, k, w) {
      if StandsAt(raw + w, k, w) { StoodBefore(src, s, q, w, k); }
    }
  }

  lemma StoodBefore(src: Source, s: nat, q: nat, w: string, k: nat)
    requires s <= q <= |src.t| && |w| >= 2 && forall j | 0 <= j < |w| - 1 :: At(src.t, q + j) == w[j]
    requires k < q - s && StandsAt(src.t[s..q] + w, k, w)
    ensures Stands(src, s + k, w, false) && Stands(src, s + k, w, true)
  {
    var raw := src.t[s..q];
    forall j | 0 <= j < |w| ensures At(src.t, s + k + j) == w[j] {
      assert (raw + w)[k + j] == w[j];
      if k + j >= |raw| { assert At(src.t, q + (k + j - |raw|)) == w[k + j - |raw|]; }
    }
  }

  lemma SymbolsNotNul(t: string, z: nat, s: nat)
    requires NulAt(t, z) && s <= z
    ensures SkipSymbols(t, s) <= z && SkipSpaces(t, s) <= z
  {
    assert !IsSymbol(At(t, z)) && !IsSpace(At(t, z));
  }

  /** Where a scan stops. */
  lemma ScanStops(src: Source, z: nat, p: nat, w: string, loose: bool)
    requires NulAt(src.t, z) && p <= z
    ensures var q := ScanFor(src, p, w, loose); q <= z && (At(src.t, q) == NUL ==> q == z)
  {
    assert At(src.t, z) == NUL;
  }

  /** The name of a tag. */
  lemma NameIsName(t: string, z: nat, s: nat)
    requires NulAt(t, z) && s <= z && IsStartSymbol(At(t, s))
    ensures s < SkipSymbols(t, s) <= z && IsName(t[s..SkipSymbols(t, s)])
  {
    SymbolsNotNul(t, z, s);
    var p := SkipSymbols(t, s);
    assert forall k | 0 <= k < p - s :: t[s..p][k] == t[s + k];
  }

  lemma SpacesAreSpaces(t: string, s: nat)
    requires s <= |t|
    ensures AllSpace(t[s..SkipSpaces(t, s)])
  {
    var p := SkipSpaces(t, s);
    assert forall k | 0 <= k < p - s :: t[s..p][k] == t[s + k];
  }

  // ---------------------------------------------------------------- attributes

  /** The first quote from `s` on, or the end. */
  function QuoteFrom(t: string, s: nat, quote: char): (e: nat)
    requires s <= |t|
    ensures s <= e <= |t| && (At(t, e) == NUL || At(t, e) == quote) && forall k | s <= k < e :: t[k] != NUL && t[k] != quote
    decreases |t| - s
  {
    if At(t, s) == NUL || At(t, s) == quote then s else QuoteFrom(t, s + 1, quote)
  }

  lemma QuoteNotNul(t: string, z: nat, s: nat, quote: char)
    requires NulAt(t, z) && s <= z
    ensures QuoteFrom(t, s, quote) <= z
  {
    assert At(t, z) == NUL;
  }

  lemma ModesAre(o: Options)
    ensures !ModeOf(o).Wnorm?
  {
  }

  /** The attribute whose name starts at `p`: its equals sign is at `eq`, and its quotes are at `v` and `e`. */
  predicate AttributeAt(t: string, p: nat, q: nat, eq: nat, v: nat, e: nat) {
    && p < q <= eq < v < e < |t| && t[eq] == '=' && t[v] == t[e] && (t[v] == '"' || t[v] == '\'')
    && IsName(t[p..q]) && AllSpace(t[q..eq]) && AllSpace(t[eq + 1..v]) && forall k | v < k < e :: t[k] != t[v]
  }

  function EqualsAt(t: string, p: nat): (eq: nat)
    requires p <= |t|
    ensures SkipSymbols(t, p) <= eq <= |t|
  {
    var q := SkipSymbols(t, p);
    if IsSpace(At(t, q)) then SkipSpaces(t, q + 1) else q
  }

  /** How the attribute was read. */
  lemma AttributeRead(t: string, p: nat, mode: AttributeMode)
    requires p <= |t| && ReadAttribute(t, p, mode).NamedValue?
    ensures EqualsAt(t, p) < |t| && t[EqualsAt(t, p)] == '='
    ensures var v := SkipSpaces(t, EqualsAt(t, p) + 1); v < |t| && (t[v] == '"' || t[v] == '\'')
    ensures var a, v := ReadAttribute(t, p, mode), SkipSpaces(t, EqualsAt(t, p) + 1);
            var value := AttributeFrom(t, v + 1, t[v], mode, true);
            && value.Value? && a.next == value.next && !IsStartSymbol(At(t, a.next))
            && a.name == t[p..SkipSymbols(t, p)] && a.value == CString(value.text)
  {
    hide AttributeFrom, CString, SkipSymbols, SkipSpaces;
  }

  lemma AttributeStarts(t: string, z: nat, p: nat, o: Options) returns (q: nat, eq: nat, v: nat)
    requires NulAt(t, z) && p <= z && IsStartSymbol(At(t, p)) && ReadAttribute(t, p, ModeOf(o)).NamedValue?
    ensures q == SkipSymbols(t, p) && v == SkipSpaces(t, EqualsAt(t, p) + 1)
    ensures p < q <= eq < v < z && t[eq] == '=' && (t[v] == '"' || t[v] == '\'')
    ensures IsName(t[p..q]) && AllSpace(t[q..eq]) && AllSpace(t[eq + 1..v])
  {
    hide AttributeFrom, CString, Meant, SkipSymbols, SkipSpaces, IsStartSymbol, IsSymbol, IsName, AllSpace, ReadAttribute;
    AttributeRead(t, p, ModeOf(o));
    NameIsName(t, z, p);
    q := SkipSymbols(t, p);
    LeftSpace(t, z, q);
    eq := EqualsAt(t, p);
    assert At(t, z) == NUL && eq <= z;
    SymbolsNotNul(t, z, eq + 1);
    SpacesAreSpaces(t, eq + 1);
    v := SkipSpaces(t, eq + 1);
  }

  lemma AttributePlaces(t: string, z: nat, p: nat, o: Options) returns (q: nat, eq: nat, v: nat, e: nat)
    requires NulAt(t, z) && p <= z && IsStartSymbol(At(t, p)) && ReadAttribute(t, p, ModeOf(o)).NamedValue?
    ensures AttributeAt(t, p, q, eq, v, e) && e < z
    ensures var a := ReadAttribute(t, p, ModeOf(o));
            a.next == e + 1 && !IsStartSymbol(At(t, e + 1)) && a.name == t[p..q] && a.value == CString(Meant(t[v + 1..e], ModeOf(o)))
  {
    hide AttributeFrom, CString, Meant, SkipSymbols, SkipSpaces, IsStartSymbol, IsSymbol, IsName, AllSpace, ReadAttribute, EqualsAt;
    AttributeRead(t, p, ModeOf(o));
    q, eq, v := AttributeStarts(t, z, p, o);
    e := QuoteFrom(t, v + 1, t[v]);
    QuoteNotNul(t, z, v + 1, t[v]);
    AttributeMeans(t, v + 1, e, t[v], ModeOf(o));
  }

  /** The attribute that was read, as it is written after the space `before`. */
  lemma AttributeIsWritten(t: string, z: nat, p: nat, o: Options, before: string) returns (w: WrittenAttribute)
    requires NulAt(t, z) && p <= z && IsStartSymbol(At(t, p)) && ReadAttribute(t, p, ModeOf(o)).NamedValue?
    requires before != "" && AllSpace(before)
    ensures var a := ReadAttribute(t, p, ModeOf(o));
            && GoodAttribute(w) && p < a.next <= z && before + t[p..a.next] == SpellAttribute(w)
            && !IsStartSymbol(At(t, a.next))
            && a.name == w.name && a.value == CString(Meant(w.raw, ModeOf(o)))
  {
    hide ReadAttribute, CString, Meant, IsStartSymbol, IsName, AllSpace, SpellAttribute;
    var q, eq, v, e := AttributePlaces(t, z, p, o);
    w := WrittenAttribute(before, t[p..q], t[q..eq], t[eq + 1..v], t[v], t[v + 1..e]);
    assert t[v] !in t[v + 1..e] by {
      var raw := t[v + 1..e];
      forall k | 0 <= k < |raw| ensures raw[k] != t[v] { assert raw[k] == t[v + 1 + k]; }
    }
    AttributeSpells(t, p, q, eq, v, e, before);
  }

  lemma LeftSpace(t: string, z: nat, q: nat)
    requires NulAt(t, z) && q <= z
    ensures var eq := if IsSpace(At(t, q)) then SkipSpaces(t, q + 1) else q; q <= eq <= z && AllSpace(t[q..eq])
  {
    SymbolsNotNul(t, z, q);
    SpacesAreSpaces(t, q);
    if IsSpace(At(t, q)) { assert SkipSpaces(t, q) == SkipSpaces(t, q + 1); }
  }

  lemma AttributeSpells(t: string, p: nat, q: nat, eq: nat, v: nat, e: nat, before: string)
    requires p <= q <= eq < v <= v + 1 <= e < |t| && t[eq] == '=' && t[v] == t[e]
    ensures before + t[p..e + 1]
         == SpellAttribute(WrittenAttribute(before, t[p..q], t[q..eq], t[eq + 1..v], t[v], t[v + 1..e]))
  {
    OnePiece(before, t, p, q, eq);
    OneMore(before, t, p, eq);
    OnePiece(before, t, p, eq + 1, v);
    OneMore(before, t, p, v);
    OnePiece(before, t, p, v + 1, e);
    OneMore(before, t, p, e);
  }

  lemma OnePiece(before: string, t: string, p: nat, q: nat, r: nat)
    requires p <= q <= r <= |t|
    ensures before + t[p..q] + t[q..r] == before + t[p..r]
  {
    assert t[p..q] + t[q..r] == t[p..r];
    Regrouped(before, t[p..q], t[q..r]);
  }

  lemma OneMore(before: string, t: string, p: nat, q: nat)
    requires p <= q < |t|
    ensures before + t[p..q] + [t[q]] == before + t[p..q + 1]
  {
    assert t[p..q] + [t[q]] == t[p..q + 1];
    Regrouped(before, t[p..q], [t[q]]);
  }

  lemma Regrouped(a: string, b: string, c: string)
    ensures a + b + c == a + (b + c)
  {
  }

  // ---------------------------------------------------------------- the parser

  /** If the parse ends well, `text` completes the open elements. */
  ghost predicate Derives(o: Options, stack: seq<Frame>, text: string, r: Outcome)
    requires stack != []
  {
    r.Parsed? ==> Completes(o, stack, text, r.children)
  }

  lemma {:induction false} ParseDerives(src: Source, z: nat, s: nat, stack: seq<Frame>, after: string)
    requires NulAt(src.t, z) && src.last != '<' && stack != [] && Leaves(src, z, s, after)
    ensures Derives(src.options, stack, after, Parse(src, s, stack))
    decreases |src.t| - s, 1
  {
    hide Completes, ScanFor, SkipSpaces, EndsSpace, XmlText.Pcdata, Tag;
    var c := At(src.t, s);
    if c == NUL {
      if |stack| == 1 {
        assert s == z && src.t[z..z] == "";
        NothingLeft(src.options, stack, after);
      }
    } else if c == '<' {
      TagDerives(src, z, s + 1, stack);
      RestSplits(src, z, s, s + 1);
      assert src.t[s..s + 1] == "<";
    } else if !src.options.ws && EndsSpace(src.t, s) {
      SpaceDerives(src, z, s, stack);
    } else if |stack| > 1 {
      PcdataDerives(src, z, s, stack);
    } else {
      OutsideDerives(src, z, s, stack);
    }
  }

  /** Nothing but text until the end. */
  lemma OnlyText(src: Source, z: nat, s: nat, stack: seq<Frame>)
    requires NulAt(src.t, z) && s <= z && src.last != '<' && stack != [] && forall k | s <= k < z :: src.t[k] != '<'
    ensures Derives(src.options, stack, Rest(src, z, s), Finish(stack))
  {
    if |stack| == 1 {
      forall k | 0 <= k < |Rest(src, z, s)| ensures Rest(src, z, s)[k] != '<' { }
      NothingLeft(src.options, stack, Rest(src, z, s));
    }
  }

  /** White space between tags is no node. */
  lemma {:induction false} SpaceDerives(src: Source, z: nat, s: nat, stack: seq<Frame>)
    requires NulAt(src.t, z) && src.last != '<' && stack != [] && s < z && src.t[s] != '<'
    requires !src.options.ws && EndsSpace(src.t, s)
    ensures Derives(src.options, stack, Rest(src, z, s), Parse(src, SkipSpaces(src.t, s), stack))
    decreases |src.t| - s, 0
  {
    hide Completes, SkipSpaces, Spell;
    var p := SkipSpaces(src.t, s);
    SymbolsNotNul(src.t, z, s);
    SpacesAreSpaces(src.t, s);
    RestSplits(src, z, s, p);
    assert p > s;
    if At(src.t, p) == NUL {
      OnlyText(src, z, s, stack);
    } else {
      ParseDerives(src, z, p, stack, Rest(src, z, p));
      AddNodesTwice(stack, [], []);
      assert NodesOf(src.options, Chars(src.t[s..p]), |stack| == 1) == [];
      if Parse(src, p, stack).Parsed? {
        TextBefore(src, z, s, p, stack, Parse(src, p, stack).children);
      }
    }
  }

  lemma TextBefore(src: Source, z: nat, s: nat, p: nat, stack: seq<Frame>, children: seq<Node>)
    requires s < p < z <= |src.t| && src.t[p] == '<' && stack != [] && forall k | s <= k < p :: src.t[k] != '<'
    requires Completes(src.options, AddNodes(stack, NodesOf(src.options, Chars(src.t[s..p]), |stack| == 1)), Rest(src, z, p), children)
    ensures Completes(src.options, stack, Rest(src, z, s), children)
  {
    hide Completes, NodesOf;
    RestSplits(src, z, s, p);
    var raw := src.t[s..p];
    forall k | 0 <= k < |raw| ensures raw[k] != '<' { assert raw[k] == src.t[s + k]; }
    PartBefore(src.options, stack, Chars(raw), Rest(src, z, p), children);
  }

  /** Text that is not all white space keeps the skipping of white space from reaching the next tag. */
  lemma SpaceReaches(t: string, s: nat, e: nat)
    requires s <= e <= |t| && (At(t, e) == '<' || At(t, e) == NUL) && AllSpace(t[s..e])
    ensures EndsSpace(t, s)
  {
    forall k | s <= k < e ensures IsSpace(t[k]) { assert t[s..e][k - s] == t[k]; }
    SkipTo(t, s, e);
  }

  lemma {:induction false} SkipTo(t: string, s: nat, e: nat)
    requires s <= e <= |t| && !IsSpace(At(t, e)) && forall k | s <= k < e :: IsSpace(t[k])
    ensures SkipSpaces(t, s) == e
    decreases e - s
  {
    if s < e { SkipTo(t, s + 1, e); }
  }

  /** The first `<` from `s` on, or the end. */
  lemma TagAhead(src: Source, z: nat, s: nat)
    requires NulAt(src.t, z) && s <= z
    ensures var e := ScanFor(src, s, "<", false);
            && s <= e <= z && (At(src.t, e) == '<' || (At(src.t, e) == NUL && e == z))
            && forall k | s <= k < e :: src.t[k] != '<' && src.t[k] != NUL
  {
    ScanStops(src, z, s, "<", false);
    var e := ScanFor(src, s, "<", false);
    forall k | s <= k < e ensures src.t[k] != '<' { assert !Stands(src, k, "<", false); }
    if At(src.t, e) != NUL { assert Stands(src, e, "<", false) && At(src.t, e + 0) == "<"[0]; }
  }

  /** Character data within an element. */
  lemma {:induction false} PcdataDerives(src: Source, z: nat, s: nat, stack: seq<Frame>)
    requires NulAt(src.t, z) && src.last != '<' && |stack| > 1 && s < z && src.t[s] != '<'
    requires src.options.ws || !EndsSpace(src.t, s)
    ensures s < XmlText.Pcdata(src.t, s, src.options.eol, true).next <= |src.t|
    ensures var r := XmlText.Pcdata(src.t, s, src.options.eol, true);
            var next := AddNode(stack, Pcdata(CString(r.text)));
            Derives(src.options, stack, Rest(src, z, s),
                    Place(s, if At(src.t, r.next) == NUL then Finish(next) else Tag(src, r.next, next)))
    decreases |src.t| - s, 0
  {
    hide Completes, Tag, CString, XmlText.Pcdata, ScanFor, EndsSpace, Meant;
    TagAhead(src, z, s);
    var o, e := src.options, ScanFor(src, s, "<", false);
    PcdataMeans(src.t, s, e, o.eol);
    var r := XmlText.Pcdata(src.t, s, o.eol, true);
    var raw := src.t[s..e];
    var n := Pcdata(CString(Meant(raw, TextMode(o))));
    var next := AddNode(stack, n);
    if At(src.t, e) == '<' && At(src.t, r.next) != NUL {
      if !o.ws && AllSpace(raw) { SpaceReaches(src.t, s, e); }
      assert NodesOf(o, Chars(raw), false) == [n] && AddNodes(stack, [n]) == next;
      TagDerives(src, z, e + 1, next);
      RestSplits(src, z, e, e + 1);
      assert src.t[e..e + 1] == "<";
      var result := Tag(src, e + 1, next);
      if result.Parsed? { TextBefore(src, z, s, e, stack, result.children); }
    }
  }

  lemma LessAt(t: string, p: nat)
    requires p < |t| && t[p] == '<'
    ensures t[p..p + 1] == "<"
  {
  }

  /** Text outside the elements. */
  lemma {:induction false} OutsideDerives(src: Source, z: nat, s: nat, stack: seq<Frame>)
    requires NulAt(src.t, z) && src.last != '<' && |stack| == 1 && s < z && src.t[s] != '<'
    ensures var p := ScanFor(src, s, "<", false);
            Derives(src.options, stack, Rest(src, z, s), if At(src.t, p) == NUL then Finish(stack) else Tag(src, p + 1, stack))
    decreases |src.t| - s, 0
  {
    hide Completes, Tag, ScanFor, Meant;
    TagAhead(src, z, s);
    var p := ScanFor(src, s, "<", false);
    if At(src.t, p) == NUL {
      OnlyText(src, z, s, stack);
    } else {
      TagDerives(src, z, p + 1, stack);
      RestSplits(src, z, p, p + 1);
      LessAt(src.t, p);
      AddNodesTwice(stack, [], []);
      assert NodesOf(src.options, Chars(src.t[s..p]), true) == [];
      var result := Tag(src, p + 1, stack);
      if result.Parsed? { TextBefore(src, z, s, p, stack, result.children); }
    }
  }

  /** After a `<`. */
  lemma {:induction false} TagDerives(src: Source, z: nat, s: nat, stack: seq<Frame>)
    requires NulAt(src.t, z) && src.last != '<' && stack != [] && s <= z
    ensures Derives(src.options, stack, "<" + Rest(src, z, s), Tag(src, s, stack))
    decreases |src.t| - s, 4
  {
    hide Completes, CloseTag, Question, Exclamation, Rest;
    var c := At(src.t, s);
    if IsStartSymbol(c) {
      StartDerives(src, z, s, stack);
    } else if c == '/' {
      CloseDerives(src, z, s + 1, stack);
      OneByte(src, z, s, "<");
      assert "<" + ['/'] == "</";
    } else if c == '?' {
      QuestionDerives(src, z, s + 1, stack);
      OneByte(src, z, s, "<");
      assert "<" + ['?'] == "<?";
    } else if c == '!' {
      ExclamationDerives(src, z, s + 1, stack);
      OneByte(src, z, s, "<");
      assert "<" + ['!'] == "<!";
    }
  }

  lemma RestStep(src: Source, z: nat, s: nat)
    requires s < z <= |src.t|
    ensures Rest(src, z, s) == [src.t[s]] + Rest(src, z, s + 1)
  {
    RestSplits(src, z, s, s + 1);
    assert src.t[s..s + 1] == [src.t[s]];
  }

  lemma OneByte(src: Source, z: nat, s: nat, head: string)
    requires s < z <= |src.t|
    ensures head + Rest(src, z, s) == head + [src.t[s]] + Rest(src, z, s + 1)
  {
    RestSplits(src, z, s, s + 1);
    assert src.t[s..s + 1] == [src.t[s]];
  }

  /** A start tag that ends, and what comes after it. */
  lemma {:induction false} OpenDerives(
      src: Source, z: nat, next: nat, after: string, stack: seq<Frame>, name: string, attributes: seq<WrittenAttribute>, space: string)
    requires NulAt(src.t, z) && src.last != '<' && stack != [] && Leaves(src, z, next, after)
    requires IsName(name) && AllSpace(space) && forall k | 0 <= k < |attributes| :: GoodAttribute(attributes[k])
    ensures var open := stack + [Frame(name, AttributesOf(src.options, attributes), [])];
            Derives(src.options, stack, SpellStart(name, attributes, space) + ">" + after, Parse(src, next, open))
    decreases |src.t| - next, 2
  {
    hide Completes, Parse, AttributesOf, SpellStart, GoodAttribute;
    var open := stack + [Frame(name, AttributesOf(src.options, attributes), [])];
    ParseDerives(src, z, next, open, after);
    var r := Parse(src, next, open);
    if r.Parsed? { StartTagBefore(src.options, stack, name, attributes, space, after, r.children); }
  }

  lemma {:induction false} EmptyDerives(
      src: Source, z: nat, next: nat, after: string, stack: seq<Frame>, name: string, attributes: seq<WrittenAttribute>, space: string)
    requires NulAt(src.t, z) && src.last != '<' && stack != [] && Leaves(src, z, next, after)
    requires IsName(name) && AllSpace(space) && forall k | 0 <= k < |attributes| :: GoodAttribute(attributes[k])
    ensures var open := stack + [Frame(name, AttributesOf(src.options, attributes), [])];
            Pop(open) != [] && Derives(src.options, stack, SpellStart(name, attributes, space) + "/>" + after, Parse(src, next, Pop(open)))
    decreases |src.t| - next, 2
  {
    hide Completes, Parse, AttributesOf, SpellStart, GoodAttribute;
    var open := stack + [Frame(name, AttributesOf(src.options, attributes), [])];
    ParseDerives(src, z, next, Pop(open), after);
    var r := Parse(src, next, Pop(open));
    if r.Parsed? { OneTagBefore(src.options, stack, name, attributes, space, after, r.children); }
  }

  lemma NoAttributes(o: Options, name: string, space: string)
    ensures AttributesOf(o, []) == [] && SpellStart(name, [], space) == "<" + name + space
  {
    assert SpellAttributes([]) == "" && "<" + name + "" == "<" + name;
  }

  /** What a start tag spells, followed by the rest. */
  lemma StartSpells(src: Source, z: nat, s: nat, p: nat, tail: string, after: string)
    requires s <= p <= z <= |src.t| && Rest(src, z, p) == tail + after
    ensures "<" + Rest(src, z, s) == "<" + src.t[s..p] + "" + tail + after
  {
    RestSplits(src, z, s, p);
  }

  /** The name of a start tag, and what follows it. */
  lemma {:induction false} StartDerives(src: Source, z: nat, s: nat, stack: seq<Frame>)
    requires NulAt(src.t, z) && src.last != '<' && stack != [] && s <= z && IsStartSymbol(At(src.t, s))
    ensures Derives(src.options, stack, "<" + Rest(src, z, s), Tag(src, s, stack))
    decreases |src.t| - s, 3
  {
    hide Completes, Parse, Attributes, Rest, SpellStart, AttributesOf, SkipSymbols, IsStartSymbol, IsName;
    NameIsName(src.t, z, s);
    var p := SkipSymbols(src.t, s);
    var name, ch := src.t[s..p], At(src.t, p);
    NoAttributes(src.options, name, "");
    if ch == '>' || (ch == NUL && src.last == '>') {
      GreaterLeaves(src, z, p);
      StartSpells(src, z, s, p, ">", AfterGreater(src, z, p));
      OpenDerives(src, z, Past(src, p), AfterGreater(src, z, p), stack, name, [], "");
    } else if IsSpace(ch) {
      AttributesDerive(src, z, p + 1, stack, name, [], [ch]);
      NoAttributes(src.options, name, [ch]);
      RestStep(src, z, p);
      StartSpells(src, z, s, p, [ch], Rest(src, z, p + 1));
      assert "<" + name + "" + [ch] == "<" + name + [ch];
    } else if ch == '/' && Ends(src, p + 1, '>') {
      GreaterLeaves(src, z, p + 1);
      RestStep(src, z, p);
      assert [src.t[p]] + (">" + AfterGreater(src, z, p + 1)) == "/>" + AfterGreater(src, z, p + 1);
      StartSpells(src, z, s, p, "/>", AfterGreater(src, z, p + 1));
      EmptyDerives(src, z, Past(src, p + 1), AfterGreater(src, z, p + 1), stack, name, [], "");
    }
  }

  lemma {:induction false} MoreAttributes(o: Options, done: seq<WrittenAttribute>, w: WrittenAttribute)
    ensures SpellAttributes(done + [w]) == SpellAttributes(done) + SpellAttribute(w)
    ensures AttributesOf(o, done + [w]) == AttributesOf(o, done) + [D.Attribute(w.name, CString(Meant(w.raw, ModeOf(o))))]
  {
    hide SpellAttribute, Meant, CString;
    if done != [] {
      MoreAttributes(o, done[1..], w);
      assert (done + [w])[1..] == done[1..] + [w];
    } else {
      assert done + [w] == [w] && [w][1..] == [];
      assert SpellAttributes([w]) == SpellAttribute(w) + "";
    }
  }

  lemma AttributeAdded(o: Options, stack: seq<Frame>, name: string, done: seq<WrittenAttribute>, w: WrittenAttribute, value: string)
    requires value == CString(Meant(w.raw, ModeOf(o)))
    ensures AddAttribute(stack + [Frame(name, AttributesOf(o, done), [])], w.name, value)
         == stack + [Frame(name, AttributesOf(o, done + [w]), [])]
  {
    MoreAttributes(o, done, w);
  }

  /** The rest of a start tag, after its name and the attributes `done`. */
  lemma {:induction false} AttributesDerive(
      src: Source, z: nat, s: nat, stack: seq<Frame>, name: string, done: seq<WrittenAttribute>, lead: string)
    requires NulAt(src.t, z) && src.last != '<' && stack != [] && s <= z && IsName(name) && AllSpace(lead)
    requires (forall k | 0 <= k < |done| :: GoodAttribute(done[k])) && (lead != "" || !IsStartSymbol(At(src.t, s)))
    ensures Derives(src.options, stack, SpellStart(name, done, lead) + Rest(src, z, s),
                    Attributes(src, s, stack + [Frame(name, AttributesOf(src.options, done), [])]))
    decreases |src.t| - s, 3
  {
    hide Completes, Parse, Rest, SpellStart, AttributesOf, SkipSpaces, IsStartSymbol, IsName, GoodAttribute, ReadAttribute;
    SymbolsNotNul(src.t, z, s);
    SpacesAreSpaces(src.t, s);
    var p := SkipSpaces(src.t, s);
    var c, space := At(src.t, p), lead + src.t[s..p];
    SpaceMoves(src, z, s, p, name, done, lead);
    if IsStartSymbol(c) {
      assert space != "" by { if p == s { assert lead != ""; } }
      AttributeDerives(src, z, p, stack, name, done, space);
    } else if c == '>' || (c == NUL && src.last == '>') {
      GreaterLeaves(src, z, p);
      OpenDerives(src, z, Past(src, p), AfterGreater(src, z, p), stack, name, done, space);
      assert SpellStart(name, done, space) + (">" + AfterGreater(src, z, p)) == SpellStart(name, done, space) + ">" + AfterGreater(src, z, p);
    } else if c == '/' && Ends(src, p + 1, '>') {
      GreaterLeaves(src, z, p + 1);
      RestStep(src, z, p);
      EmptyDerives(src, z, Past(src, p + 1), AfterGreater(src, z, p + 1), stack, name, done, space);
      SlashSpells(SpellStart(name, done, space), AfterGreater(src, z, p + 1));
    }
  }

  lemma SlashSpells(head: string, after: string)
    ensures head + (['/'] + (">" + after)) == head + "/>" + after
  {
  }

  lemma SpaceMoves(src: Source, z: nat, s: nat, p: nat, name: string, done: seq<WrittenAttribute>, lead: string)
    requires s <= p <= z <= |src.t| && AllSpace(lead) && AllSpace(src.t[s..p])
    ensures SpellStart(name, done, lead) + Rest(src, z, s) == SpellStart(name, done, lead + src.t[s..p]) + Rest(src, z, p)
    ensures AllSpace(lead + src.t[s..p])
  {
    RestSplits(src, z, s, p);
    hide SpellAttributes;
  }

  lemma AttributeSpelled(name: string, done: seq<WrittenAttribute>, w: WrittenAttribute, space: string, body: string, rest: string)
    requires space + body == SpellAttribute(w)
    requires SpellAttributes(done + [w]) == SpellAttributes(done) + SpellAttribute(w)
    ensures SpellStart(name, done, space) + (body + rest) == SpellStart(name, done + [w], "") + rest
  {
    hide SpellAttributes, SpellAttribute;
    var head := "<" + name + SpellAttributes(done);
    assert head + space + (body + rest) == head + (space + body) + rest;
    assert "<" + name + (SpellAttributes(done) + SpellAttribute(w)) + "" == head + SpellAttribute(w);
  }

  /** One attribute after the space `space`. */
  lemma {:induction false} AttributeDerives(
      src: Source, z: nat, p: nat, stack: seq<Frame>, name: string, done: seq<WrittenAttribute>, space: string)
    requires NulAt(src.t, z) && src.last != '<' && stack != [] && p <= z && IsName(name) && space != "" && AllSpace(space)
    requires (forall k | 0 <= k < |done| :: GoodAttribute(done[k])) && IsStartSymbol(At(src.t, p))
    ensures var a := ReadAttribute(src.t, p, ModeOf(src.options));
            var open := stack + [Frame(name, AttributesOf(src.options, done), [])];
            a.NamedValue? ==>
              Derives(src.options, stack, SpellStart(name, done, space) + Rest(src, z, p),
                      Attributes(src, a.next, AddAttribute(open, a.name, a.value)))
    decreases |src.t| - p, 0
  {
    hide Completes, Attributes, Rest, SpellAttributes, AttributesOf, SkipSpaces, IsStartSymbol, IsName, ReadAttribute, SpellAttribute,
         GoodAttribute, AddAttribute, CString, Meant;
    var a := ReadAttribute(src.t, p, ModeOf(src.options));
    if a.NamedValue? {
      var w := AttributeIsWritten(src.t, z, p, src.options, space);
      AttributeAdded(src.options, stack, name, done, w, a.value);
      AttributesDerive(src, z, a.next, stack, name, done + [w], "");
      MoreAttributes(src.options, done, w);
      RestSplits(src, z, p, a.next);
      AttributeSpelled(name, done, w, space, src.t[p..a.next], Rest(src, z, a.next));
    }
  }

  lemma PopLeaves(stack: seq<Frame>)
    requires |stack| > 1
    ensures Pop(stack) != []
  {
  }

  /** After `</`. */
  lemma {:induction false} CloseDerives(src: Source, z: nat, s: nat, stack: seq<Frame>)
    requires NulAt(src.t, z) && src.last != '<' && stack != [] && s <= z
    ensures Derives(src.options, stack, "</" + Rest(src, z, s), CloseTag(src, s, stack))
    decreases |src.t| - s, 3
  {
    hide Completes, Parse, Rest, SkipSymbols, SkipSpaces, Pop;
    SymbolsNotNul(src.t, z, s);
    var q := SkipSymbols(src.t, s);
    SymbolsNotNul(src.t, z, q);
    SpacesAreSpaces(src.t, q);
    var e := SkipSpaces(src.t, q);
    if CloseTag(src, s, stack).Parsed? {
      assert Ends(src, e, '>') && src.t[s..q] == stack[|stack| - 1].name && |stack| > 1;
      GreaterLeaves(src, z, e);
      var after := AfterGreater(src, z, e);
      assert Pop(stack) != [] by { PopLeaves(stack); }
      ParseDerives(src, z, Past(src, e), Pop(stack), after);
      EndTagBefore(src.options, stack, src.t[q..e], after, CloseTag(src, s, stack).children);
      RestSplits(src, z, s, q);
      RestSplits(src, z, q, e);
      assert "</" + (src.t[s..q] + (src.t[q..e] + (">" + after))) == "</" + src.t[s..q] + src.t[q..e] + ">" + after;
    }
  }

  /** A part that makes no node, and what comes after it. */
  lemma {:induction false} SkippedDerives(src: Source, z: nat, next: nat, after: string, stack: seq<Frame>, p: Part)
    requires NulAt(src.t, z) && src.last != '<' && stack != [] && Leaves(src, z, next, after)
    requires GoodPart(p, |stack| == 1) && (p.Comment? || p.Instruction? || p.Doctype?)
    ensures Derives(src.options, stack, Spell(p) + after, Parse(src, next, stack))
    decreases |src.t| - next, 2
  {
    hide Completes, Parse, GoodPart, Spell;
    ParseDerives(src, z, next, stack, after);
    AddNodesTwice(stack, [], []);
    var r := Parse(src, next, stack);
    if r.Parsed? { PartBefore(src.options, stack, p, after, r.children); }
  }

  /** After `<?`. */
  lemma {:induction false} QuestionDerives(src: Source, z: nat, s: nat, stack: seq<Frame>)
    requires NulAt(src.t, z) && src.last != '<' && stack != [] && s <= z
    ensures Derives(src.options, stack, "<?" + Rest(src, z, s), Question(src, s, stack))
    decreases |src.t| - s, 3
  {
    hide Completes, Parse, Rest, SkipSymbols, ScanFor, Stands, StepOver, EndsAt;
    if Question(src, s, stack).Parsed? {
      SymbolsNotNul(src.t, z, s);
      var p := SkipSymbols(src.t, s);
      ScanStops(src, z, p, "?>", true);
      var q := ScanFor(src, p, "?>", true);
      SymbolsAreNoEnd(src, s, p);
      LooseEnd(src, q, "?>");
      OverLeaves(src, z, q, "?>");
      EndsWhereFound(src, z, s, p, q, "?>");
      var raw, after := src.t[s..q], AfterOver(src, z, q, "?>");
      assert raw != "" && raw[0] == src.t[s] by { assert s < p; }
      SkippedDerives(src, z, StepOver(src, q, "?>"), after, stack, Instruction(raw));
      RestSplits(src, z, s, q);
      InstructionSpells(raw, after);
    }
  }

  lemma InstructionSpells(raw: string, after: string)
    ensures "<?" + (raw + ("?>" + after)) == Spell(Instruction(raw)) + after
  {
  }

  lemma CommentSpells(raw: string, after: string)
    ensures "<!" + ("--" + (raw + ("-->" + after))) == Spell(Comment(raw)) + after
  {
    assert "<!" + "--" == "<!--";
  }

  lemma SymbolsAreNoEnd(src: Source, s: nat, p: nat)
    requires s <= |src.t| && p == SkipSymbols(src.t, s) && IsStartSymbol(At(src.t, s))
    ensures s < p && forall k | s <= k < p :: !Stands(src, k, "?>", true)
  {
    forall k | s <= k < p ensures !Stands(src, k, "?>", true) {
      assert IsSymbol(src.t[k]);
      assert At(src.t, k + 0) != "?>"[0];
    }
  }

  /** After `<!`. */
  lemma {:induction false} ExclamationDerives(src: Source, z: nat, s: nat, stack: seq<Frame>)
    requires NulAt(src.t, z) && src.last != '<' && stack != [] && s <= z
    ensures Derives(src.options, stack, "<!" + Rest(src, z, s), Exclamation(src, s, stack))
    decreases |src.t| - s, 4
  {
    hide Completes, Parse, Rest, ScanFor, Stands, StepOver, EndsAt, ReadSection, DoctypeGroup, Place;
    if Exclamation(src, s, stack).Parsed? {
      var c := At(src.t, s);
      if c == '-' {
        CommentDerives(src, z, s, stack);
      } else if c == '[' {
        SectionDerives(src, z, s, stack);
      } else {
        DoctypeDerives(src, z, s, stack);
      }
    }
  }

  lemma {:induction false} CommentDerives(src: Source, z: nat, s: nat, stack: seq<Frame>)
    requires NulAt(src.t, z) && src.last != '<' && stack != [] && s <= z && At(src.t, s) == '-'
    ensures Derives(src.options, stack, "<!" + Rest(src, z, s), Exclamation(src, s, stack))
    decreases |src.t| - s, 3
  {
    hide Completes, Parse, Rest, ScanFor, Stands, StepOver, EndsAt;
    if Exclamation(src, s, stack).Parsed? {
      assert At(src.t, s + 1) == '-' && s + 2 <= z;
      ScanStops(src, z, s + 2, "-->", true);
      var q := ScanFor(src, s + 2, "-->", true);
      LooseEnd(src, q, "-->");
      OverLeaves(src, z, q, "-->");
      EndsWhereFound(src, z, s + 2, s + 2, q, "-->");
      var raw, after := src.t[s + 2..q], AfterOver(src, z, q, "-->");
      SkippedDerives(src, z, StepOver(src, q, "-->"), after, stack, Comment(raw));
      RestSplits(src, z, s, s + 2);
      RestSplits(src, z, s + 2, q);
      assert src.t[s..s + 2] == "--";
      CommentSpells(raw, after);
    }
  }

  lemma {:induction false} SectionDerives(src: Source, z: nat, s: nat, stack: seq<Frame>)
    requires NulAt(src.t, z) && src.last != '<' && stack != [] && s <= z && At(src.t, s) == '['
    ensures Derives(src.options, stack, "<!" + Rest(src, z, s), Exclamation(src, s, stack))
    decreases |src.t| - s, 3
  {
    if Exclamation(src, s, stack).Parsed? {
      SectionRead(src, z, s, stack);
      hide Completes, Parse, Rest, ScanFor, StepOver, EndsAt, Text, Place, Exclamation, Stands;
      ScanStops(src, z, s + 7, "]]>", true);
      var q := ScanFor(src, s + 7, "]]>", true);
      LooseEnd(src, q, "]]>");
      OverLeaves(src, z, q, "]]>");
      EndsWhereFound(src, z, s + 7, s + 7, q, "]]>");
      var raw, after := src.t[s + 7..q], AfterOver(src, z, q, "]]>");
      SectionAdds(src, z, StepOver(src, q, "]]>"), after, stack, raw);
      RestSplits(src, z, s, s + 7);
      RestSplits(src, z, s + 7, q);
      SectionSpells(raw, after);
    }
  }

  lemma SectionSpells(raw: string, after: string)
    ensures "<!" + ("[CDATA[" + (raw + ("]]>" + after))) == Spell(Section(raw)) + after
  {
  }

  lemma SectionRead(src: Source, z: nat, s: nat, stack: seq<Frame>)
    requires NulAt(src.t, z) && stack != [] && s <= z && At(src.t, s) == '[' && Exclamation(src, s, stack).Parsed?
    ensures s + 7 <= z && src.t[s..s + 7] == "[CDATA["
    ensures var q := ScanFor(src, s + 7, "]]>", true);
            && Stands(src, q, "]]>", true) && StepOver(src, q, "]]>") <= |src.t|
            && var n := Cdata(Text(src.options, src.t[s + 7..q]));
               Exclamation(src, s, stack).children == Parse(src, StepOver(src, q, "]]>"), AddNode(stack, n)).children
    ensures Parse(src, StepOver(src, ScanFor(src, s + 7, "]]>", true), "]]>"),
                  AddNode(stack, Cdata(Text(src.options, src.t[s + 7..ScanFor(src, s + 7, "]]>", true)])))).Parsed?
  {
    WordStands(src, z, s, "[CDATA[");
    hide Parse, Text, ScanFor;
    LooseEnd(src, ScanFor(src, s + 7, "]]>", true), "]]>");
  }

  lemma WordStands(src: Source, z: nat, s: nat, w: string)
    requires NulAt(src.t, z) && s <= z && |w| >= 2 && NulFree(w) && Stands(src, s, w, false)
    ensures s + |w| <= z && src.t[s..s + |w|] == w
  {
    assert Stands(src, s, w, true);
    LooseStands(src, z, s, w);
    var m := |w| - 1;
    assert w[m] in w && At(src.t, s + m) == w[m];
    forall k | 0 <= k < |w| ensures src.t[s + k] == w[k] { assert At(src.t, s + k) == w[k]; }
  }

  lemma {:induction false} SectionAdds(src: Source, z: nat, next: nat, after: string, stack: seq<Frame>, raw: string)
    requires NulAt(src.t, z) && src.last != '<' && stack != [] && Leaves(src, z, next, after) && EndsAt(raw, "]]>")
    ensures Derives(src.options, stack, Spell(Section(raw)) + after, Parse(src, next, AddNode(stack, Cdata(Text(src.options, raw)))))
    decreases |src.t| - next, 2
  {
    hide Completes, Parse, Spell, EndsAt, Text;
    var n := Cdata(Text(src.options, raw));
    assert AddNode(stack, n) == AddNodes(stack, [n]);
    ParseDerives(src, z, next, AddNode(stack, n), after);
    var r := Parse(src, next, AddNode(stack, n));
    if r.Parsed? { PartBefore(src.options, stack, Section(raw), after, r.children); }
  }

  // ---------------------------------------------------------------- document types

  lemma OneMark(m: Mark, ms: seq<Mark>)
    ensures SpellMarks([m] + ms) == SpellMark(m) + SpellMarks(ms)
  {
    assert ([m] + ms)[1..] == ms;
  }

  lemma {:induction false} IgnoredIsMarks(src: Source, z: nat, s: nat, depth: nat) returns (ms: seq<Mark>)
    requires NulAt(src.t, z) && s <= z && DoctypeIgnore(src, s, depth).To?
    ensures var p := DoctypeIgnore(src, s, depth).p;
            s <= p <= z && src.t[s..p] == SpellMarks(ms) + "]]>" && GoodMarks(ms, depth)
    decreases |src.t| - s
  {
    hide SpellMarks, GoodMarks, Stands;
    var p := DoctypeIgnore(src, s, depth).p;
    if Stands(src, s, "<![", false) {
      WordStands(src, z, s, "<![");
      var rest := IgnoredIsMarks(src, z, s + 3, depth + 1);
      ms := [OpenMark] + rest;
      MarkSpells(src, s, s + 3, p, OpenMark, rest);
      MarkFirst(OpenMark, rest, depth);
    } else if Stands(src, s, "]]>", false) {
      WordStands(src, z, s, "]]>");
      if depth == 0 {
        ms := [];
        NoMarks();
      } else {
        var rest := IgnoredIsMarks(src, z, s + 3, depth - 1);
        ms := [CloseMark] + rest;
        MarkSpells(src, s, s + 3, p, CloseMark, rest);
        MarkFirst(CloseMark, rest, depth);
      }
    } else {
      var rest := IgnoredIsMarks(src, z, s + 1, depth);
      ms := [Other(src.t[s])] + rest;
      assert src.t[s..s + 1] == [src.t[s]];
      MarkSpells(src, s, s + 1, p, Other(src.t[s]), rest);
      NoWord(src, s, p, "<![");
      NoWord(src, s, p, "]]>");
      MarkFirst(Other(src.t[s]), rest, depth);
    }
  }

  lemma MarkSpells(src: Source, s: nat, n: nat, p: nat, m: Mark, rest: seq<Mark>)
    requires s <= n <= p <= |src.t| && src.t[s..n] == SpellMark(m) && src.t[n..p] == SpellMarks(rest) + "]]>"
    ensures src.t[s..p] == SpellMarks([m] + rest) + "]]>"
  {
    hide SpellMarks, SpellMark;
    OneMark(m, rest);
    assert src.t[s..p] == src.t[s..n] + src.t[n..p];
  }

  lemma NoMarks()
    ensures SpellMarks([]) == "" && GoodMarks([], 0)
  {
  }

  lemma MarkFirst(m: Mark, ms: seq<Mark>, depth: nat)
    requires match m
             case OpenMark => GoodMarks(ms, depth + 1)
             case CloseMark => depth > 0 && GoodMarks(ms, depth - 1)
             case Other(_) =>
               GoodMarks(ms, depth) && !Starts(SpellMarks([m] + ms) + "]]>", "<![") && !Starts(SpellMarks([m] + ms) + "]]>", "]]>")
    ensures GoodMarks([m] + ms, depth)
  {
    hide SpellMarks, Starts;
    assert ([m] + ms)[1..] == ms;
  }

  lemma WordThere(src: Source, s: nat, p: nat, w: string)
    requires s <= p <= |src.t| && Starts(src.t[s..p], w)
    ensures Stands(src, s, w, false)
  {
    forall k | 0 <= k < |w| ensures At(src.t, s + k) == w[k] { assert src.t[s..p][k] == w[k]; }
  }

  lemma NoWord(src: Source, s: nat, p: nat, w: string)
    requires s <= p <= |src.t| && !Stands(src, s, w, false)
    ensures !Starts(src.t[s..p], w)
  {
    hide Stands, Starts;
    if Starts(src.t[s..p], w) { WordThere(src, s, p, w); }
  }

  lemma OneToken(t: Token, ts: seq<Token>)
    ensures SpellTokens([t] + ts) == SpellToken(t) + SpellTokens(ts)
  {
    hide SpellToken;
    assert ([t] + ts)[1..] == ts;
  }

  /** Where an end was found, strictly. */
  lemma OverIs(src: Source, z: nat, s: nat, from: nat, w: string)
    requires NulAt(src.t, z) && from <= z && w in {"?>", "-->"} && Over(src, from, w).To?
    ensures var p := Over(src, from, w).p;
            from + |w| <= p <= z && src.t[from..p] == src.t[from..p - |w|] + w && EndsAt(src.t[from..p - |w|], w)
  {
    hide EndsAt, ScanFor;
    ScanStops(src, z, from, w, false);
    var q := ScanFor(src, from, w, false);
    WordStands(src, z, q, w);
    assert Stands(src, q, w, true);
    StrictEnds(src, z, from, q, w);
    assert src.t[from..q + |w|] == src.t[from..q] + src.t[q..q + |w|];
  }

  lemma StrictEnds(src: Source, z: nat, s: nat, q: nat, w: string)
    requires NulAt(src.t, z) && s <= q && |w| >= 2 && NulFree(w) && q + |w| <= z && Stands(src, q, w, false)
    requires forall k | s <= k < q :: !Stands(src, k, w, false)
    ensures EndsAt(src.t[s..q], w)
  {
    var raw := src.t[s..q];
    forall k | 0 <= k < |raw| ensures !StandsAt(raw + w, k, w) {
      if StandsAt(raw + w, k, w) { StoodBefore(src, s, q, w, k); }
    }
  }

  lemma QuotedIs(src: Source, z: nat, from: nat, quote: char)
    requires NulAt(src.t, z) && from <= z && (quote == '"' || quote == '\'') && Over(src, from, [quote]).To?
    ensures var p := Over(src, from, [quote]).p;
            from < p <= z && src.t[from..p] == src.t[from..p - 1] + [quote] && quote !in src.t[from..p - 1]
  {
    hide ScanFor;
    ScanStops(src, z, from, [quote], false);
    var q := ScanFor(src, from, [quote], false);
    assert Stands(src, q, [quote], false) && At(src.t, q + 0) == [quote][0];
    forall k | from <= k < q ensures src.t[k] != quote { assert !Stands(src, k, [quote], false); }
  }

  /** A quoted string, a processing instruction or a comment. */
  lemma PrimitiveIsToken(src: Source, z: nat, s: nat, depth: nat) returns (t: Token)
    requires NulAt(src.t, z) && s < z && DoctypePrimitive(src, s).To?
    ensures var p := DoctypePrimitive(src, s).p; s < p <= z && src.t[s..p] == SpellToken(t)
    ensures forall ts :: GoodTokens(ts, depth) ==> GoodTokens([t] + ts, depth)
  {
    hide Over, EndsAt, GoodTokens, Stands, SpellToken;
    var c, p := src.t[s], DoctypePrimitive(src, s).p;
    if c == '"' || c == '\'' {
      t := QuotedToken(src, z, s);
    } else if Stands(src, s, "<?", false) {
      t := EndedToken(src, z, s, "<?", "?>");
    } else {
      t := EndedToken(src, z, s, "<!--", "-->");
    }
    forall ts | GoodTokens(ts, depth) ensures GoodTokens([t] + ts, depth) { PrimitiveFirst(t, ts, depth); }
  }

  lemma QuotedToken(src: Source, z: nat, s: nat) returns (t: Token)
    requires NulAt(src.t, z) && s < z && (src.t[s] == '"' || src.t[s] == '\'') && Over(src, s + 1, [src.t[s]]).To?
    ensures var p := Over(src, s + 1, [src.t[s]]).p; s < p <= z && src.t[s..p] == SpellToken(t)
    ensures t.Quoted? && (t.quote == '"' || t.quote == '\'') && t.quote !in t.raw
  {
    hide Over;
    var c, p := src.t[s], Over(src, s + 1, [src.t[s]]).p;
    QuotedIs(src, z, s + 1, c);
    t := Quoted(c, src.t[s + 1..p - 1]);
    assert src.t[s..p] == [c] + src.t[s + 1..p];
  }

  lemma EndedToken(src: Source, z: nat, s: nat, head: string, w: string) returns (t: Token)
    requires NulAt(src.t, z) && s < z && ((head == "<?" && w == "?>") || (head == "<!--" && w == "-->"))
    requires Stands(src, s, head, false) && Over(src, s + |head|, w).To?
    ensures var p := Over(src, s + |head|, w).p; s < p <= z && src.t[s..p] == SpellToken(t)
    ensures if head == "<?" then t.Embedded? && EndsAt(t.raw, "?>") else t.Remark? && EndsAt(t.raw, "-->")
  {
    hide Over, EndsAt;
    WordStands(src, z, s, head);
    OverIs(src, z, s, s + |head|, w);
    var n := s + |head|;
    var p := Over(src, n, w).p;
    var raw := src.t[n..p - |w|];
    assert src.t[s..p] == src.t[s..n] + src.t[n..p];
    t := if head == "<?" then Embedded(raw) else Remark(raw);
    assert head + (raw + w) == head + raw + w;
  }

  lemma PrimitiveFirst(t: Token, ts: seq<Token>, depth: nat)
    requires match t
             case Quoted(quote, raw) => (quote == '"' || quote == '\'') && quote !in raw
             case Embedded(raw) => EndsAt(raw, "?>")
             case Remark(raw) => EndsAt(raw, "-->")
             case _ => false
    requires GoodTokens(ts, depth)
    ensures GoodTokens([t] + ts, depth)
  {
    hide EndsAt, SpellTokens;
    assert ([t] + ts)[1..] == ts;
  }

  lemma TokenSpells(src: Source, s: nat, n: nat, p: nat, t: Token, rest: seq<Token>)
    requires s <= n <= p <= |src.t| && src.t[s..n] == SpellToken(t) && src.t[n..p] == SpellTokens(rest)
    ensures src.t[s..p] == SpellTokens([t] + rest)
  {
    hide SpellTokens, SpellToken;
    OneToken(t, rest);
    assert src.t[s..p] == src.t[s..n] + src.t[n..p];
  }

  lemma Ignores(src: Source, z: nat, s: nat) returns (ms: seq<Mark>)
    requires NulAt(src.t, z) && s <= z && DoctypeIgnore(src, s + 3, 0).To?
    requires At(src.t, s) == '<' && At(src.t, s + 1) == '!' && At(src.t, s + 2) == '['
    ensures var p := DoctypeIgnore(src, s + 3, 0).p;
            s < p <= z && src.t[s..p] == SpellToken(Ignored(ms)) && GoodMarks(ms, 0)
  {
    hide DoctypeIgnore, SpellMarks, GoodMarks;
    assert At(src.t, z) == NUL;
    var p := DoctypeIgnore(src, s + 3, 0).p;
    ms := IgnoredIsMarks(src, z, s + 3, 0);
    assert src.t[s..s + 3] == "<![" && src.t[s..p] == src.t[s..s + 3] + src.t[s + 3..p];
  }

  /** The declarations of a document type, from `s` on, `depth` of them being open. */
  lemma {:induction false} GroupIsTokens(src: Source, z: nat, s: nat, depth: nat) returns (ts: seq<Token>)
    requires NulAt(src.t, z) && s <= z && DoctypeGroup(src, s, depth).To?
    ensures var p := DoctypeGroup(src, s, depth).p;
            s <= p <= z && Ends(src, p, '>') && src.t[s..p] == SpellTokens(ts) && GoodTokens(ts, depth)
    decreases |src.t| - s
  {
    hide SpellTokens, GoodTokens, DoctypePrimitive, DoctypeIgnore, GoodMarks, SpellMarks;
    var c, p := At(src.t, s), DoctypeGroup(src, s, depth).p;
    assert At(src.t, z) == NUL;
    if c == NUL || (c == '>' && depth == 0) {
      ts := [];
      NoTokens();
    } else if c == '<' && At(src.t, s + 1) == '!' && At(src.t, s + 2) != '-' {
      if At(src.t, s + 2) == '[' {
        var ms := Ignores(src, z, s);
        var n := DoctypeIgnore(src, s + 3, 0).p;
        var rest := GroupIsTokens(src, z, n, depth);
        ts := [Ignored(ms)] + rest;
        TokenSpells(src, s, n, p, Ignored(ms), rest);
        TokenFirst(Ignored(ms), rest, depth);
      } else {
        ts := OpensGroup(src, z, s, depth);
      }
    } else if c == '<' || c == '"' || c == '\'' {
      var t := PrimitiveIsToken(src, z, s, depth);
      var n := DoctypePrimitive(src, s).p;
      var rest := GroupIsTokens(src, z, n, depth);
      ts := [t] + rest;
      TokenSpells(src, s, n, p, t, rest);
    } else {
      var t := if c == '>' then CloseGroup else Plain(c);
      var rest := GroupIsTokens(src, z, s + 1, if c == '>' then depth - 1 else depth);
      ts := [t] + rest;
      assert src.t[s..s + 1] == [c];
      TokenSpells(src, s, s + 1, p, t, rest);
      TokenFirst(t, rest, depth);
    }
  }

  lemma {:induction false} OpensGroup(src: Source, z: nat, s: nat, depth: nat) returns (ts: seq<Token>)
    requires NulAt(src.t, z) && s <= z && DoctypeGroup(src, s, depth).To?
    requires At(src.t, s) == '<' && At(src.t, s + 1) == '!' && At(src.t, s + 2) != '-' && At(src.t, s + 2) != '['
    ensures var p := DoctypeGroup(src, s, depth).p;
            s <= p <= z && Ends(src, p, '>') && src.t[s..p] == SpellTokens(ts) && GoodTokens(ts, depth)
    decreases |src.t| - s, 0
  {
    hide SpellTokens, GoodTokens, DoctypePrimitive, DoctypeIgnore;
    var p := DoctypeGroup(src, s, depth).p;
    assert At(src.t, z) == NUL && s + 2 <= z;
    var rest := GroupIsTokens(src, z, s + 2, depth + 1);
    ts := [OpenGroup] + rest;
    GroupOpens(src, s, p, rest);
    TokenFirst(OpenGroup, rest, depth);
    assert src.t[s..s + 2] == "<!";
    TokenSpells(src, s, s + 2, p, OpenGroup, rest);
  }

  lemma NoTokens()
    ensures SpellTokens([]) == "" && GoodTokens([], 0)
  {
  }

  /** What follows the opening of a declaration. */
  lemma GroupOpens(src: Source, s: nat, p: nat, rest: seq<Token>)
    requires s + 2 <= p <= |src.t| && src.t[s + 2..p] == SpellTokens(rest) && Ends(src, p, '>')
    requires At(src.t, s + 2) != '-' && At(src.t, s + 2) != '['
    ensures var after := SpellTokens(rest) + ">"; after[0] != '-' && after[0] != '['
  {
    hide SpellTokens;
    if s + 2 < p { assert src.t[s + 2..p][0] == src.t[s + 2]; }
  }

  lemma TokenFirst(t: Token, ts: seq<Token>, depth: nat)
    requires match t
             case OpenGroup => (SpellTokens(ts) + ">")[0] != '-' && (SpellTokens(ts) + ">")[0] != '[' && GoodTokens(ts, depth + 1)
             case CloseGroup => depth > 0 && GoodTokens(ts, depth - 1)
             case Plain(c) => c != '<' && c != '>' && c != '"' && c != '\'' && GoodTokens(ts, depth)
             case Ignored(marks) => GoodMarks(marks, 0) && GoodTokens(ts, depth)
             case _ => false
    ensures GoodTokens([t] + ts, depth)
  {
    hide SpellTokens, GoodMarks;
    assert ([t] + ts)[1..] == ts;
  }

  lemma {:induction false} DoctypeDerives(src: Source, z: nat, s: nat, stack: seq<Frame>)
    requires NulAt(src.t, z) && src.last != '<' && stack != [] && s <= z && At(src.t, s) != '-' && At(src.t, s) != '['
    ensures Derives(src.options, stack, "<!" + Rest(src, z, s), Exclamation(src, s, stack))
    decreases |src.t| - s, 3
  {
    if Exclamation(src, s, stack).Parsed? {
      TypeRead(src, s, stack);
      hide Completes, Parse, Rest, DoctypeGroup, GoodTokens, SpellTokens, Exclamation, Stands;
      var r := DoctypeGroup(src, s, 0);
      var ts := GroupIsTokens(src, z, s, 0);
      GreaterLeaves(src, z, r.p);
      TypeNamed(src, z, s, r.p);
      var after := AfterGreater(src, z, r.p);
      SkippedDerives(src, z, Past(src, r.p), after, stack, Doctype(ts));
      RestSplits(src, z, s, r.p);
      TypeSpells(ts, after);
    }
  }

  lemma TypeSpells(ts: seq<Token>, after: string)
    ensures "<!" + (SpellTokens(ts) + (">" + after)) == Spell(Doctype(ts)) + after
  {
    hide SpellTokens;
  }

  lemma TypeRead(src: Source, s: nat, stack: seq<Frame>)
    requires s <= |src.t| && stack != [] && At(src.t, s) != '-' && At(src.t, s) != '[' && Exclamation(src, s, stack).Parsed?
    ensures |stack| == 1 && Stands(src, s, "DOCTYPE", true) && DoctypeGroup(src, s, 0).To? && DoctypeGroup(src, s, 0).p <= |src.t|
    ensures Ends(src, DoctypeGroup(src, s, 0).p, '>') ==>
              Exclamation(src, s, stack) == Parse(src, Past(src, DoctypeGroup(src, s, 0).p), stack)
  {
    hide Parse, DoctypeGroup, Stands;
  }

  /** The word `DOCTYPE` is there before the end. */
  lemma TypeNamed(src: Source, z: nat, s: nat, p: nat)
    requires NulAt(src.t, z) && s <= p <= z && Stands(src, s, "DOCTYPE", true) && Ends(src, p, '>')
    ensures Starts(src.t[s..p], "DOCTYPE")
  {
    if p - s < 7 { LetterStands(src, s, p - s); }
    forall k | 0 <= k < 7 ensures src.t[s..p][k] == "DOCTYPE"[k] { LetterStands(src, s, k); }
  }

  lemma LetterStands(src: Source, s: nat, k: nat)
    requires k < 7 && Stands(src, s, "DOCTYPE", true)
    ensures At(src.t, s + k) != '>' && (At(src.t, s + k) == "DOCTYPE"[k] || (At(src.t, s + k) == NUL && src.last == 'E'))
  {
    assert At(src.t, s + k) == "DOCTYPE"[k] || (k == 6 && Ends(src, s + k, "DOCTYPE"[k]));
  }

  // ---------------------------------------------------------------- the whole input

  /** What the parser sees of its input: what comes before its first NUL, and the last byte. */
  function Seen(text: string): string
    requires text != ""
  {
    CString(text[..|text| - 1]) + [text[|text| - 1]]
  }

  /** The byte order mark that a text may start with, which is skipped where more than its three bytes are read. */
  function Bom(text: string): string {
    if |text| > 3 && text[0] as int == 0xEF && text[1] as int == 0xBB && text[2] as int == 0xBF then text[..3] else ""
  }

  lemma {:induction false} CStringEnds(t: string)
    ensures NulAt(t, |CString(t)|) && CString(t) == t[..|CString(t)|]
  {
    if t != "" && t[0] != NUL {
      CStringEnds(t[1..]);
      var z := |CString(t[1..])|;
      assert t[1..][..z] == t[1..z + 1];
      forall k | 0 <= k < z + 1 ensures t[k] != NUL { if k > 0 { assert t[k] == t[1..][k - 1]; } }
      assert At(t, z + 1) == At(t[1..], z);
    }
  }

  /** Soundness: a text that the parser accepts is, as far as the parser sees it, the spelling of a derivation, in which
      every end tag repeats the name of its element, and its tree is the tree of the derivation. */
  lemma AcceptedIsDerived(o: Options, text: string) returns (parts: seq<Part>)
    requires ParseDocument(o, text).Parsed?
    ensures text != "" && Seen(text) == Bom(text) + SpellAll(parts) && GoodParts(parts, true)
    ensures ParseDocument(o, text).children == NodesOfAll(o, parts, true) && HasElement(NodesOfAll(o, parts, true))
  {
    hide Parse, SpellAll, GoodParts, NodesOfAll, CString;
    var src := Source(text[..|text| - 1], text[|text| - 1], o);
    var z, bom := |CString(src.t)|, |Bom(text)|;
    CStringEnds(src.t);
    BomIsText(text, z);
    var stack := [Frame("", [], [])];
    ParseDerives(src, z, bom, stack, Rest(src, z, bom));
    var r := Parse(src, bom, stack);
    parts :| IsLast(o, stack, Rest(src, z, bom), r.children, parts);
    assert [] + NodesOfAll(o, parts, true) == NodesOfAll(o, parts, true);
    assert src.t[..z] == src.t[..bom] + src.t[bom..z];
  }

  lemma BomIsText(text: string, z: nat)
    requires text != "" && NulAt(text[..|text| - 1], z)
    ensures |Bom(text)| <= z && text[..|text| - 1][..|Bom(text)|] == Bom(text)
    ensures var t := text[..|text| - 1];
            |Bom(text)| == if |t| >= 3 && t[0] as int == 0xEF && t[1] as int == 0xBB && t[2] as int == 0xBF then 3 else 0
  {
    var t := text[..|text| - 1];
    if Bom(text) != "" {
      assert t[0] == text[0] && t[1] == text[1] && t[2] == text[2];
      assert At(t, z) == NUL && z != 0 && z != 1 && z != 2;
    }
  }
}
