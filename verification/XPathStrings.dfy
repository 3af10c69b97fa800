// The string functions that number or compare single characters. The program takes bytes for characters: on
// ASCII this is what section 4.2 of XPath 1.0 says, and beyond ASCII it is not.
module XPathStrings {

  import opened XPath
  import X = XmlText
  import U = Transcoding

  predicate Ascii(s: string) { forall k | 0 <= k < |s| :: s[k] as int < 0x80 }

  /** The bytes of a string, each for itself. */
  function Singles(s: string): (us: seq<string>)
    ensures |us| == |s|
  {
    if s == "" then [] else [[s[0]]] + Singles(s[1..])
  }

  lemma AsciiRest(s: string)
    requires Ascii(s) && s != ""
    ensures Ascii(s[1..])
  {
    assert forall k | 0 <= k < |s[1..]| :: s[1..][k] == s[k + 1];
  }

  /** In ASCII every byte is a character. */
  lemma {:induction false} AsciiCharacters(s: string)
    requires Ascii(s)
    ensures Characters(s) == Singles(s)
  {
    if s != "" {
      AsciiRest(s);
      AsciiCharacters(s[1..]);
      assert s[..1] == [s[0]];
    }
  }

  // ---------------------------------------------------------------- characters of UTF-8

  lemma {:induction false} EndOfCharacter(s: string, k: nat, e: nat)
    requires k <= e <= |s| && (forall j | k <= j < e :: Continues(s[j])) && (e < |s| ==> !Continues(s[e]))
    ensures CharacterEnd(s, k) == e
    decreases e - k
  {
    if k < e { EndOfCharacter(s, k + 1, e); }
  }

  lemma CodeUnits(c: int)
    requires U.Scalar(c)
    ensures var u := X.Utf8(c);
            && 1 <= |u| && (|u| == 1 <==> c < 0x80) && !Continues(u[0]) && (|u| == 1 ==> u[0] as int < 0x80)
            && (|u| > 1 ==> u[0] as int >= 0xC0) && forall k | 1 <= k < |u| :: Continues(u[k])
  {
  }

  lemma FirstCharacter(c: int, rest: string)
    requires U.Scalar(c) && (rest != "" ==> !Continues(rest[0]))
    ensures X.Utf8(c) != "" && CharacterLength(X.Utf8(c) + rest) == |X.Utf8(c)|
  {
    CodeUnits(c);
    hide X.Utf8;
    var u := X.Utf8(c);
    if |u| > 1 { EndOfCharacter(u + rest, 1, |u|); }
  }

  lemma ScalarsRest(cs: seq<int>)
    requires U.Scalars(cs) && cs != []
    ensures U.Scalar(cs[0]) && U.Scalars(cs[1..])
  {
  }

  /** The characters of a text encoded in UTF-8 are its code points (RFC 3629, section 3). */
  lemma {:induction false} CharactersOfText(cs: seq<int>)
    requires U.Scalars(cs)
    ensures |Characters(U.Encode8(cs))| == |cs|
    ensures forall k | 0 <= k < |cs| :: Characters(U.Encode8(cs))[k] == X.Utf8(cs[k])
    ensures U.Encode8(cs) != "" ==> !Continues(U.Encode8(cs)[0])
  {
    hide CharacterLength, X.Utf8;
    if cs != [] {
      ScalarsRest(cs);
      CharactersOfText(cs[1..]);
      var u, rest := X.Utf8(cs[0]), U.Encode8(cs[1..]);
      FirstCharacter(cs[0], rest);
      CodeUnits(cs[0]);
      assert (u + rest)[..|u|] == u && (u + rest)[|u|..] == rest;
      assert forall k | 0 < k < |cs| :: cs[k] == cs[1..][k - 1];
    }
  }

  /** A text has as many bytes as characters if and only if it is ASCII. */
  lemma {:induction false} BytesOfText(cs: seq<int>)
    requires U.Scalars(cs)
    ensures |U.Encode8(cs)| >= |cs| && (|U.Encode8(cs)| == |cs| <==> forall k | 0 <= k < |cs| :: cs[k] < 0x80)
  {
    hide X.Utf8;
    if cs != [] {
      ScalarsRest(cs);
      BytesOfText(cs[1..]);
      CodeUnits(cs[0]);
      assert forall k | 0 < k < |cs| :: cs[k] == cs[1..][k - 1];
    }
  }

  // ---------------------------------------------------------------- translate

  lemma {:induction false} FindSingle(from: string, c: char)
    ensures FindUnit(Singles(from), [c]) == Find(from, c)
  {
    if from != "" { FindSingle(from[1..], c); }
  }

  lemma {:induction false} NoSuchSingle(from: string, u: string)
    requires |u| != 1
    ensures FindUnit(Singles(from), u) == |from|
  {
    if from != "" { NoSuchSingle(from[1..], u); }
  }

  lemma {:induction false} SingleAt(to: string, p: nat)
    requires p < |to|
    ensures Singles(to)[p] == [to[p]]
  {
    if p > 0 { SingleAt(to[1..], p - 1); }
  }

  lemma {:induction false} JoinParts(us: seq<string>, vs: seq<string>)
    ensures Join(us + vs) == Join(us) + Join(vs)
  {
    if us == [] {
      assert us + vs == vs;
    } else {
      assert (us + vs)[1..] == us[1..] + vs;
      JoinParts(us[1..], vs);
    }
  }

  lemma JoinOne(u: string)
    ensures Join([u]) == u
  {
    assert [u][1..] == [];
    assert Join([]) == "" && u + "" == u;
  }

  /** Bytes beyond ASCII stay when only ASCII is translated. */
  lemma {:induction false} BeyondStays(u: string, rest: string, from: string, to: string)
    requires Ascii(from) && forall k | 0 <= k < |u| :: u[k] as int >= 0x80
    ensures TranslateText(u + rest, from, to) == u + TranslateText(rest, from, to)
  {
    if u == "" {
      assert u + rest == rest;
    } else {
      assert (u + rest)[1..] == u[1..] + rest;
      BeyondStays(u[1..], rest, from, to);
      assert [u[0]] + u[1..] == u;
    }
  }

  lemma {:induction false} ContinuesUpTo(s: string, k: nat)
    requires k <= |s|
    ensures forall j | k <= j < CharacterEnd(s, k) :: Continues(s[j])
    decreases |s| - k
  {
    if k < |s| && Continues(s[k]) { ContinuesUpTo(s, k + 1); }
  }

  /** A character of more than one byte is beyond ASCII altogether. */
  lemma LongCharacter(s: string)
    requires s != "" && CharacterLength(s) > 1
    ensures forall k | 0 <= k < CharacterLength(s) :: s[..CharacterLength(s)][k] as int >= 0x80
  {
    ContinuesUpTo(s, 1);
  }

  /** What one character becomes. */
  function Translated(u: string, from: seq<string>, to: seq<string>): seq<string> {
    var p := FindUnit(from, u);
    if p >= |from| then [u] else if p < |to| then [to[p]] else []
  }

  lemma TranslateHead(u: string, us: seq<string>, from: seq<string>, to: seq<string>)
    ensures TranslateUnits([u] + us, from, to) == Translated(u, from, to) + TranslateUnits(us, from, to)
  {
    hide FindUnit;
    assert ([u] + us)[1..] == us;
  }

  lemma TranslateUnit(u: string, us: seq<string>, from: seq<string>, to: seq<string>)
    ensures var p := FindUnit(from, u);
            Join(TranslateUnits([u] + us, from, to))
              == (if p >= |from| then u else if p < |to| then to[p] else "") + Join(TranslateUnits(us, from, to))
  {
    hide FindUnit, TranslateUnits, Join;
    TranslateHead(u, us, from, to);
    JoinParts(Translated(u, from, to), TranslateUnits(us, from, to));
    var p := FindUnit(from, u);
    if p >= |from| { JoinOne(u); } else if p < |to| { JoinOne(to[p]); } else { JoinNone(); }
  }

  lemma JoinNone()
    ensures Join([]) == ""
  {
  }

  lemma TranslateStep(c: char, rest: string, from: string, to: string)
    ensures var p := Find(from, c);
            TranslateText([c] + rest, from, to)
              == (if p >= |from| then [c] else if p < |to| then [to[p]] else "") + TranslateText(rest, from, to)
  {
    hide Find;
    assert ([c] + rest)[1..] == rest;
  }

  lemma TranslateByte(c: char, rest: string, from: string, to: string)
    ensures var p := FindUnit(Singles(from), [c]);
            TranslateText([c] + rest, from, to)
              == (if p >= |from| then [c] else if p < |to| then Singles(to)[p] else "") + TranslateText(rest, from, to)
  {
    FindSingle(from, c);
    TranslateStep(c, rest, from, to);
    hide TranslateText, FindUnit, Find, Singles;
    if Find(from, c) < |to| { SingleAt(to, Find(from, c)); }
  }

  /** Translating ASCII to ASCII, byte by byte, is translating characters, in every text. */
  lemma {:induction false} AsciiTranslate(s: string, from: string, to: string)
    requires Ascii(from) && Ascii(to)
    ensures StandardTranslate(s, from, to) == TranslateText(s, from, to)
    decreases |s|
  {
    AsciiCharacters(from);
    AsciiCharacters(to);
    if s != "" {
      var n := CharacterLength(s);
      var u, rest := s[..n], s[n..];
      AsciiTranslate(rest, from, to);
      TranslateUnit(u, Characters(rest), Singles(from), Singles(to));
      assert s == u + rest && Characters(s) == [u] + Characters(rest);
      if n > 1 {
        LongCharacter(s);
        hide TranslateText, TranslateUnits;
        NoSuchSingle(from, u);
        BeyondStays(u, rest, from, to);
      } else {
        hide TranslateText, TranslateUnits;
        assert u == [s[0]];
        TranslateByte(s[0], rest, from, to);
      }
    }
  }

  lemma OneLetter(s: string)
    requires |s| == 2 && s[0] as int >= 0xC0 && Continues(s[1])
    ensures Characters(s) == [s]
  {
    EndOfCharacter(s, 1, 2);
    assert s[..2] == s && s[2..] == "";
  }

  /** "é" translated from "à" to "a" keeps its second byte: the two letters share the first. */
  lemma TranslateSplits()
    ensures var e, a := [0xC3 as char, 0xA9 as char], [0xC3 as char, 0xA0 as char];
            && e == U.Encode8([0xE9]) && a == U.Encode8([0xE0])
            && TranslateText(e, a, "a") == ['a', 0xA9 as char] && StandardTranslate(e, a, "a") == e
  {
    var e, a := [0xC3 as char, 0xA9 as char], [0xC3 as char, 0xA0 as char];
    assert U.Encode8([0xE9][1..]) == "" && U.Encode8([0xE0][1..]) == "";
    OneLetter(e);
    OneLetter(a);
    assert Find(a, e[0]) == 0 && Find(a, e[1]) == 2;
    assert e[1..] == [0xA9 as char] && e[1..][1..] == "";
    assert TranslateText(e[1..], a, "a") == [0xA9 as char] + "";
    TranslateUnit(e, [], [a], Characters("a"));
    assert [e] + [] == [e];
  }

  // ---------------------------------------------------------------- substring

  /** The program's `substring`, on bytes. With two arguments `last` is infinite, and its tests do not apply. */
  function SubstringBytes(s: string, first: Number, last: Number): string {
    var n := Fin((|s| + 1) as real);
    if first.NaN? || last.NaN? then ""
    else if NumberBelow(true, n, first) then ""
    else if NumberBelow(true, last, first) then ""
    else if NumberLt(last, Fin(1.0)) then ""
    else
      var pos := if NumberLt(first, Fin(1.0)) then 1 else first.v.Floor;
      var end := if NumberBelow(true, n, last) then |s| + 1 else last.v.Floor;
      if 1 <= pos <= end <= |s| + 1 then s[pos - 1..end - 1] else ""
  }

  predicate Integral(n: Number) { n.Fin? ==> n.v == n.v.Floor as real }

  /** How many of the numbers k, ..., k + n - 1 are less than `x`. */
  function NumbersBelow(x: Number, k: int, n: nat): nat {
    match x
    case NaN => 0
    case MinusInfinity => 0
    case PlusInfinity => n
    case Fin(v) => if v.Floor <= k then 0 else if v.Floor >= k + n then n else v.Floor - k
  }

  /** An integral number compared with an integer. */
  lemma AgainstInteger(x: Number, m: int)
    requires Integral(x)
    ensures NumberLt(x, Fin(m as real)) <==> x.MinusInfinity? || (x.Fin? && x.v.Floor < m)
    ensures NumberBelow(true, x, Fin(m as real)) <==> x.MinusInfinity? || (x.Fin? && x.v.Floor <= m)
    ensures NumberBelow(true, Fin(m as real), x) <==> x.PlusInfinity? || (x.Fin? && m <= x.v.Floor)
    ensures NumberLt(Fin(m as real), x) <==> x.PlusInfinity? || (x.Fin? && m < x.v.Floor)
  {
    if x.Fin? { assert x.v == x.v.Floor as real; }
  }

  lemma CountOn(x: Number, k: int, n: nat)
    requires n > 0
    ensures NumbersBelow(x, k, n) == if NumbersBelow(x, k, 1) == 0 then 0 else 1 + NumbersBelow(x, k + 1, n - 1)
    ensures NumbersBelow(x, k, 1) == 0 ==> NumbersBelow(x, k + 1, n - 1) == 0
    ensures NumbersBelow(x, k, 1) <= 1
  {
  }

  lemma {:induction false} PickedAre(s: string, k: nat, first: Number, last: Number)
    requires Integral(first) && Integral(last) && !first.NaN?
    ensures var lo, hi := NumbersBelow(first, k, |s|), NumbersBelow(last, k, |s|);
            lo <= |s| && hi <= |s| && Join(PickUnits(Singles(s), k, first, last)) == if lo <= hi then s[lo..hi] else ""
    decreases |s|
  {
    if s != "" {
      var rest := s[1..];
      PickedAre(rest, k + 1, first, last);
      CountOn(first, k, |s|);
      CountOn(last, k, |s|);
      var picks := NumberBelow(true, first, Fin(k as real)) && NumberLt(Fin(k as real), last);
      assert picks <==> NumbersBelow(first, k, 1) == 0 && NumbersBelow(last, k, 1) == 1 by {
        AgainstInteger(first, k);
        AgainstInteger(last, k);
      }
      PickHead(s, k, first, last, picks);
      hide NumbersBelow, PickUnits, NumberBelow, NumberLt, Singles, Integral, Join;
      SliceHead(s, rest, NumbersBelow(first, k, |s|), NumbersBelow(last, k, |s|),
                NumbersBelow(first, k + 1, |rest|), NumbersBelow(last, k + 1, |rest|), picks);
    }
  }

  lemma SliceHead(s: string, rest: string, lo: nat, hi: nat, lo': nat, hi': nat, picks: bool)
    requires s != "" && rest == s[1..] && lo' <= |rest| && hi' <= |rest| && (picks <==> lo == 0 && hi > 0)
    requires (lo == 0 && lo' == 0) || lo == lo' + 1
    requires (hi == 0 && hi' == 0) || hi == hi' + 1
    ensures lo <= |s| && hi <= |s|
    ensures (if picks then [s[0]] else "") + (if lo' <= hi' then rest[lo'..hi'] else "") == if lo <= hi then s[lo..hi] else ""
  {
  }

  lemma PickHead(s: string, k: nat, first: Number, last: Number, picks: bool)
    requires s != "" && picks == (NumberBelow(true, first, Fin(k as real)) && NumberLt(Fin(k as real), last))
    ensures Join(PickUnits(Singles(s), k, first, last))
         == (if picks then [s[0]] else "") + Join(PickUnits(Singles(s[1..]), k + 1, first, last))
  {
    var us := Singles(s);
    assert us[0] == [s[0]] && us[1..] == Singles(s[1..]);
    JoinParts(if picks then [us[0]] else [], PickUnits(us[1..], k + 1, first, last));
    JoinOne(us[0]);
  }

  lemma {:induction false} NothingPicked(us: seq<string>, k: nat, last: Number)
    ensures PickUnits(us, k, NaN, last) == []
  {
    if us != [] { NothingPicked(us[1..], k + 1, last); }
  }

  lemma BetweenIntegers(x: Number, y: Number)
    requires Integral(x) && Integral(y) && !x.NaN? && !y.NaN?
    ensures NumberBelow(true, x, y)
       <==> x.MinusInfinity? || y.PlusInfinity? || (x.Fin? && y.Fin? && x.v.Floor <= y.v.Floor)
  {
    assert x.Fin? ==> x.v == x.v.Floor as real;
    assert y.Fin? ==> y.v == y.v.Floor as real;
  }

  lemma BytesAre(s: string, first: Number, last: Number)
    requires Integral(first) && Integral(last) && !first.NaN?
    ensures var lo, hi := NumbersBelow(first, 1, |s|), NumbersBelow(last, 1, |s|);
            lo <= |s| && hi <= |s| && SubstringBytes(s, first, last) == if lo <= hi then s[lo..hi] else ""
  {
    hide NumberBelow, NumberLt;
    assert 1 as real == 1.0;
    AgainstInteger(first, |s| + 1);
    AgainstInteger(last, |s| + 1);
    AgainstInteger(first, 1);
    AgainstInteger(last, 1);
    if !last.NaN? { BetweenIntegers(last, first); }
    hide Integral;
  }

  /** The clamping of the program is what section 4.2 says, with bytes for characters. */
  lemma SubstringIsPicked(s: string, first: Number, last: Number)
    requires Integral(first) && Integral(last)
    ensures SubstringBytes(s, first, last) == Join(PickUnits(Singles(s), 1, first, last))
  {
    hide Singles, Integral;
    if first.NaN? {
      NothingPicked(Singles(s), 1, last);
    } else {
      PickedAre(s, 1, first, last);
      BytesAre(s, first, last);
      hide SubstringBytes, PickUnits, NumbersBelow;
    }
  }

  /** So on ASCII it is `substring`. */
  lemma AsciiSubstring(s: string, first: Number, last: Number)
    requires Ascii(s) && Integral(first) && Integral(last)
    ensures StandardSubstring(s, first, last) == SubstringBytes(s, first, last)
  {
    AsciiCharacters(s);
    SubstringIsPicked(s, first, last);
  }

  lemma RoundIsIntegral(a: Number, b: Number)
    ensures Integral(RoundNearest(a)) && Integral(Plus(RoundNearest(a), RoundNearest(b)))
  {
    if a.Fin? && b.Fin? {
      var x, y := (a.v + 0.5).Floor, (b.v + 0.5).Floor;
      assert x as real + y as real == (x + y) as real;
    }
  }
}
