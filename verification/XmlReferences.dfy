// What character data and attribute values stand for in XML 1.0, apart from the decoder: the references of sections
// 4.1 and 4.6, and the line ends and white space of sections 2.11 and 3.3.3. The decoder gives exactly this for every
// text; what is no reference stays as it is written.
module XmlReferences {

  import opened XmlText

  // ---------------------------------------------------------------- references

  const SMALL := "0123456789abcdef"
  const CAPITAL := "0123456789ABCDEF"

  /** The digit that stands at place `d` among the digits. */
  predicate IsDigitAt(c: char, d: int) { 0 <= d < 16 && (SMALL[d] == c || CAPITAL[d] == c) }

  ghost predicate IsDigitOf(c: char, base: nat) { exists d :: 0 <= d < base && IsDigitAt(c, d) }

  ghost function ValueOf(c: char): (d: nat)
    requires IsDigitOf(c, 16)
    ensures IsDigitAt(c, d)
  {
    var d: nat :| IsDigitAt(c, d);
    d
  }

  ghost predicate AllDigits(s: string, base: nat) { forall k | 0 <= k < |s| :: IsDigitOf(s[k], base) }

  lemma LastDigit(s: string, base: nat)
    requires s != "" && base <= 16 && AllDigits(s, base)
    ensures AllDigits(s[..|s| - 1], base) && IsDigitOf(s[|s| - 1], 16)
  {
    var c := s[|s| - 1];
    var d :| 0 <= d < base && IsDigitAt(c, d);
    hide IsDigitAt;
    assert 0 <= d < 16 && IsDigitAt(c, d);
  }

  function Times(n: nat, base: nat): nat { n * base }

  /** The number that digits stand for in base `base`. */
  ghost function NumberOf(s: string, base: nat): nat
    requires base <= 16 && AllDigits(s, base)
  {
    if s == "" then 0
    else
      LastDigit(s, base);
      Times(NumberOf(s[..|s| - 1], base), base) + ValueOf(s[|s| - 1])
  }

  /** Section 4.1: a character reference in decimal or hexadecimal digits. */
  ghost predicate IsNumeric(r: string, head: string, base: nat) {
    |head| + 1 < |r| && r[..|head|] == head && AllDigits(r[|head|..|r| - 1], base) && r[|r| - 1] == ';'
  }

  /** Section 4.6: the predefined entities. */
  function Named(r: string): string {
    if r == "&amp;" then "&"
    else if r == "&lt;" then "<"
    else if r == "&gt;" then ">"
    else if r == "&quot;" then "\""
    else if r == "&apos;" then "'"
    else ""
  }

  ghost predicate IsReference(r: string) { Named(r) != "" || IsNumeric(r, "&#", 10) || IsNumeric(r, "&#x", 16) }

  /** What a reference stands for; the program counts the code of a character modulo 2^32. */
  ghost function Referred(r: string): string
    requires IsReference(r)
  {
    if Named(r) != "" then Named(r)
    else if IsNumeric(r, "&#", 10) then Utf8(NumberOf(r[2..|r| - 1], 10) % WORD)
    else Utf8(NumberOf(r[3..|r| - 1], 16) % WORD)
  }

  /** A reference ends at the first semicolon. */
  function Semicolon(s: string): (n: nat)
    ensures n <= |s| && (n < |s| ==> s[n] == ';') && forall k | 0 <= k < n :: s[k] != ';'
  {
    if s == "" || s[0] == ';' then 0 else 1 + Semicolon(s[1..])
  }

  ghost predicate StartsReference(s: string) { Semicolon(s) < |s| && IsReference(s[..Semicolon(s) + 1]) }

  // ---------------------------------------------------------------- texts

  function AfterLineEnd(s: string): (r: string)
    requires s != ""
    ensures |r| < |s|
  {
    if s[0] == '\r' && |s| > 1 && s[1] == '\n' then s[2..] else s[1..]
  }

  function AfterSpaces(s: string): (r: string)
    ensures |r| <= |s| && (s != "" && IsSpace(s[0]) ==> |r| < |s|)
  {
    if s != "" && IsSpace(s[0]) then AfterSpaces(s[1..]) else s
  }

  /** What is written as `s` stands for, where line ends are made line feeds (Eol), white space is made spaces (Wconv), or
      stretches of white space are made one space (Wnorm). */
  ghost function Meant(s: string, mode: AttributeMode): string
    decreases |s|
  {
    if s == "" then ""
    else if StartsReference(s) then Referred(s[..Semicolon(s) + 1]) + Meant(s[Semicolon(s) + 1..], mode)
    else if mode.Eol? && s[0] == '\r' then "\n" + Meant(AfterLineEnd(s), mode)
    else if mode.Wconv? && IsSpace(s[0]) then " " + Meant(AfterLineEnd(s), mode)
    else if mode.Wnorm? && IsSpace(s[0]) then " " + Meant(AfterSpaces(s), mode)
    else [s[0]] + Meant(s[1..], mode)
  }

  // ---------------------------------------------------------------- digits

  lemma DigitAt(c: char, d: int)
    requires IsDigitAt(c, d)
    ensures Digit(c, true) == d && (d < 10 ==> Digit(c, false) == d) && (d >= 10 ==> Digit(c, false) == -1)
  {
    assert d == 0 || d == 1 || d == 2 || d == 3 || d == 4 || d == 5 || d == 6 || d == 7 || d == 8 || d == 9 || d == 10
        || d == 11 || d == 12 || d == 13 || d == 14 || d == 15;
  }

  lemma DigitIs(c: char, hex: bool)
    ensures Digit(c, hex) >= 0 <==> IsDigitOf(c, if hex then 16 else 10)
    ensures Digit(c, hex) >= 0 ==> IsDigitOf(c, 16) && ValueOf(c) == Digit(c, hex)
  {
    var d := Digit(c, hex);
    if d >= 0 {
      assert IsDigitAt(c, d) by {
        assert d == 0 || d == 1 || d == 2 || d == 3 || d == 4 || d == 5 || d == 6 || d == 7 || d == 8 || d == 9 || d == 10
            || d == 11 || d == 12 || d == 13 || d == 14 || d == 15;
      }
      DigitAt(c, ValueOf(c));
    }
    if IsDigitOf(c, if hex then 16 else 10) {
      var e :| 0 <= e < (if hex then 16 else 10) && IsDigitAt(c, e);
      DigitAt(c, e);
    }
  }

  // ---------------------------------------------------------------- the decoder reads references

  /** What ends character data or an attribute value; none of these occurs in a reference. */
  predicate Stops(c: char) { c == NUL || c == '<' || c == '"' || c == '\'' }

  /** Part of what is tried as a reference: never white space, an ampersand or a stop. */
  predicate Inert(c: char) { IsLetter(c) || IsDigit(c) || c == '#' }

  /** The reading `r` of the text between `s` and `e`: a reference, or a stretch that is kept as it is. */
  ghost predicate ReadsRight(t: string, s: nat, e: nat, r: Ref)
    requires s < e <= |t|
  {
    var raw := t[s..e];
    if StartsReference(raw) then r == Ref(Referred(raw[..Semicolon(raw) + 1]), s + Semicolon(raw) + 1)
    else s < r.next <= e && r.text == t[s..r.next] && forall k | s < k < r.next :: Inert(t[k])
  }

  lemma {:induction false} FirstSemicolon(s: string, n: nat)
    requires n < |s| && s[n] == ';' && forall k | 0 <= k < n :: s[k] != ';'
    ensures Semicolon(s) == n
  {
  }

  /** `w` is what `s` starts with. */
  predicate Starts(s: string, w: string) { |w| <= |s| && forall k | 0 <= k < |w| :: s[k] == w[k] }

  lemma StartsIs(s: string, w: string)
    ensures Starts(s, w) <==> |w| <= |s| && s[..|w|] == w
  {
    if |w| <= |s| && s[..|w|] == w {
      assert forall k | 0 <= k < |w| :: s[..|w|][k] == s[k];
    }
  }

  lemma OneName(s: string, w: string)
    requires IsName5(w) && Starts(s, w)
    ensures StartsReference(s) && Semicolon(s) == |w| - 1 && Referred(s[..|w|]) == Named(w)
  {
    StartsIs(s, w);
    FirstSemicolon(s, |w| - 1);
  }

  lemma NumericHead(r: string)
    ensures IsNumeric(r, "&#", 10) || IsNumeric(r, "&#x", 16) ==> |r| > 3 && r[0] == '&' && r[1] == '#'
    ensures IsNumeric(r, "&#x", 16) ==> |r| > 4 && r[2] == 'x'
  {
    StartsIs(r, "&#");
    StartsIs(r, "&#x");
  }

  /** Without a `#`, only the five names are references. */
  lemma OnlyNames(s: string)
    requires s != "" && s[0] == '&' && (|s| > 1 ==> s[1] != '#') && StartsReference(s)
    ensures Starts(s, "&amp;") || Starts(s, "&lt;") || Starts(s, "&gt;") || Starts(s, "&quot;") || Starts(s, "&apos;")
  {
    var r := s[..Semicolon(s) + 1];
    NumericHead(r);
    StartsIs(s, r);
  }

  lemma {:induction false} MatchedIs(t: string, p: nat, w: string)
    requires p <= |t|
    ensures forall k | 0 <= k < Matched(t, p, w) :: t[p + k] == w[k]
    ensures Matched(t, p, w) < |w| ==> p + Matched(t, p, w) == |t| || t[p + Matched(t, p, w)] != w[Matched(t, p, w)]
    decreases |w|
  {
    if w != "" && p < |t| && t[p] == w[0] { MatchedIs(t, p + 1, w[1..]); }
  }

  lemma NotPast(t: string, p: nat, n: nat, e: nat)
    requires p <= e <= |t| && p + n <= |t| && Stops(At(t, e)) && forall i | p <= i < p + n :: !Stops(At(t, i))
    ensures p + n <= e
  {
  }

  predicate IsName5(w: string) { w in {"&amp;", "&lt;", "&gt;", "&quot;", "&apos;"} }

  lemma NameLetters(w: string)
    requires IsName5(w)
    ensures |w| > 3 && |Named(w)| == 1 && w[|w| - 1] == ';'
    ensures forall k | 0 < k < |w| - 1 :: Inert(w[k])
    ensures forall k | 0 <= k < |w| :: !Stops(w[k])
  {
  }

  /** The rest `w` of a name is there: a reference. */
  lemma WholeName(t: string, s: nat, e: nat, full: string)
    requires IsName5(full) && s + |full| <= e <= |t| && Starts(t[s..e], full)
    ensures |Named(full)| == 1 && ReadsRight(t, s, e, Ref([Named(full)[0]], s + |full|))
  {
    NameLetters(full);
    OneName(t[s..e], full);
    assert [Named(full)[0]] == Named(full);
  }

  /** Only the first `n` bytes of a name are there. */
  lemma PartOfName(t: string, s: nat, e: nat, full: string, n: nat)
    requires IsName5(full) && 2 <= n < |full| && s + n <= e <= |t|
    requires forall k | 0 <= k < n :: t[s + k] == full[k]
    requires s + n == e || t[s + n] != full[n]
    requires forall other | IsName5(other) && other != full :: !Starts(t[s..e], other)
    ensures ReadsRight(t, s, e, Ref(t[s..s + n], s + n))
  {
    NameLetters(full);
    var raw := t[s..e];
    assert forall k | 0 <= k < n :: raw[k] == full[k];
    assert full[0] == '&' && full[1] != '#';
    assert !Starts(raw, full) by {
      if s + n < e { assert raw[n] == t[s + n]; }
    }
    assert !StartsReference(raw) by {
      if StartsReference(raw) { OnlyNames(raw); }
    }
    forall k | s < k < s + n ensures Inert(t[k]) { assert t[s + (k - s)] == full[k - s]; }
  }

  /** The rest `w` of a name after its beginning `head`. */
  lemma EntityReads(t: string, s: nat, e: nat, head: string, w: string)
    requires IsName5(head + w) && |head| >= 2 && |w| >= 2
    requires s + |head| <= e <= |t| && Stops(At(t, e)) && Starts(t[s..e], head)
    requires forall other | IsName5(other) && other != head + w :: !Starts(t[s..e], other)
    ensures |Named(head + w)| == 1 && ReadsRight(t, s, e, Entity(t, s, s + |head|, w, Named(head + w)[0]))
  {
    hide IsName5, Named, ReadsRight, Starts, Inert;
    var full, p := head + w, s + |head|;
    var n := Matched(t, p, w);
    NameLetters(full);
    MatchedIs(t, p, w);
    assert forall k | 0 <= k < |w| :: w[k] == full[|head| + k];
    forall i | p <= i < p + n ensures !Stops(At(t, i)) { assert t[p + (i - p)] == w[i - p]; }
    NotPast(t, p, n, e);
    HeadAndMore(t, s, e, head, w, n);
    if n == |w| {
      assert Starts(t[s..e], full) by { AllThere(t, s, e, full); }
      WholeName(t, s, e, full);
    } else {
      PartOfName(t, s, e, full, |head| + n);
    }
  }

  lemma HeadAndMore(t: string, s: nat, e: nat, head: string, w: string, n: nat)
    requires n <= |w| && s + |head| + n <= e <= |t| && Starts(t[s..e], head)
    requires forall k | 0 <= k < n :: t[s + |head| + k] == w[k]
    ensures forall k | 0 <= k < |head| + n :: t[s + k] == (head + w)[k]
  {
    forall k | 0 <= k < |head| + n ensures t[s + k] == (head + w)[k] {
      if k < |head| { assert t[s..e][k] == head[k]; } else { assert t[s + |head| + (k - |head|)] == w[k - |head|]; }
    }
  }

  lemma AllThere(t: string, s: nat, e: nat, w: string)
    requires s + |w| <= e <= |t| && forall k | 0 <= k < |w| :: t[s + k] == w[k]
    ensures Starts(t[s..e], w)
  {
  }

  // ---------------------------------------------------------------- character references

  lemma NumberOn(s: string, base: nat, c: char)
    requires base <= 16 && AllDigits(s, base) && IsDigitOf(c, base)
    ensures AllDigits(s + [c], base) && NumberOf(s + [c], base) == NumberOf(s, base) * base + ValueOf(c)
  {
    assert (s + [c])[..|s|] == s;
  }

  lemma CountOn(x: nat, base: nat, d: nat)
    requires base == 10 || base == 16
    ensures (base * (x % WORD) + d) % WORD == (x * base + d) % WORD
  {
    var q := x / WORD;
    assert x == q * WORD + x % WORD;
    assert x * base + d == (q * base) * WORD + (base * (x % WORD) + d);
    ModOn(base * (x % WORD) + d, q * base);
  }

  lemma ModOn(a: int, k: int)
    ensures (a + k * WORD) % WORD == a % WORD
  {
    var q := a / WORD;
    assert a + k * WORD == (q + k) * WORD + a % WORD;
  }

  /** The digits from `p` on, after those from `first` on that have been read. */
  lemma {:induction false} DigitsRead(t: string, s: nat, first: nat, p: nat, e: nat, code: int, hex: bool) returns (q: nat)
    requires s < first <= p <= e <= |t| && Stops(At(t, e)) && 0 <= code < WORD
    requires AllDigits(t[first..p], if hex then 16 else 10)
    requires code == NumberOf(t[first..p], if hex then 16 else 10) % WORD
    ensures p <= q <= e && AllDigits(t[first..q], if hex then 16 else 10) && !IsDigitOf(At(t, q), if hex then 16 else 10)
    ensures At(t, q) == ';' ==> q < e
    ensures Digits(t, s, p, code, hex)
         == if At(t, q) == ';' then Ref(Utf8(NumberOf(t[first..q], if hex then 16 else 10) % WORD), q + 1) else Ref(t[s..q], q)
    decreases e - p
  {
    hide IsDigitOf, ValueOf, NumberOf, Utf8, AllDigits;
    var base := if hex then 16 else 10;
    var c := At(t, p);
    DigitIs(c, hex);
    if p < e && Digit(c, hex) >= 0 {
      NumberOn(t[first..p], base, c);
      assert t[first..p] + [c] == t[first..p + 1];
      CountOn(NumberOf(t[first..p], base), base, Digit(c, hex));
      q := DigitsRead(t, s, first, p + 1, e, (base * code + Digit(c, hex)) % WORD, hex);
    } else {
      q := p;
      assert p == e ==> Digit(c, hex) < 0 && c != ';';
    }
  }

  function BaseOf(hex: bool): nat { if hex then 16 else 10 }

  function HeadOf(hex: bool): string { if hex then "&#x" else "&#" }

  lemma NoSemicolonDigit(c: char)
    ensures IsDigitOf(c, 16) || IsDigitOf(c, 10) ==> c != ';' && c != 'x' && Inert(c) && c != '&'
  {
    DigitIs(c, true);
    DigitIs(c, false);
  }

  /** With its head there and `m` the end of the digits, what `raw` starts with is a reference if there are digits and
      a semicolon after them. */
  lemma NumericReference(raw: string, hex: bool, m: nat)
    requires |HeadOf(hex)| <= m < |raw| && Starts(raw, HeadOf(hex)) && (!hex ==> raw[2] != 'x')
    requires AllDigits(raw[|HeadOf(hex)|..m], BaseOf(hex)) && raw[m] == ';' && |HeadOf(hex)| < m
    ensures StartsReference(raw) && Semicolon(raw) == m
    ensures Referred(raw[..m + 1]) == Utf8(NumberOf(raw[|HeadOf(hex)|..m], BaseOf(hex)) % WORD)
  {
    hide AllDigits, NumberOf, Utf8, IsDigitOf, Named;
    FirstAfterDigits(raw, hex, m);
    var r, h := raw[..m + 1], |HeadOf(hex)|;
    CutTwice(raw, h, m);
    StartsIs(raw, HeadOf(hex));
    assert r[..h] == raw[..h];
    assert r[..2] == "&#" by { assert r[..h][..2] == r[..2]; }
    assert hex ==> r[2] == HeadOf(hex)[2];
    NotBoth(r, hex);
  }

  lemma CutTwice(s: string, h: nat, m: nat)
    requires h <= m < |s|
    ensures s[..m + 1][h..|s[..m + 1]| - 1] == s[h..m]
  {
  }

  lemma FirstAfterDigits(raw: string, hex: bool, m: nat)
    requires |HeadOf(hex)| <= m < |raw| && Starts(raw, HeadOf(hex)) && raw[m] == ';'
    requires AllDigits(raw[|HeadOf(hex)|..m], BaseOf(hex))
    ensures Semicolon(raw) == m
  {
    hide IsDigitOf;
    var h := |HeadOf(hex)|;
    forall k | 0 <= k < m ensures raw[k] != ';' {
      if k < h { assert raw[k] == HeadOf(hex)[k]; }
      else {
        assert raw[k] == raw[h..m][k - h];
        NoSemicolonDigit(raw[k]);
      }
    }
    FirstSemicolon(raw, m);
  }

  lemma NotBoth(r: string, hex: bool)
    requires |r| > 3 && r[..2] == "&#" && (hex ==> r[2] == 'x') && (!hex ==> r[2] != 'x')
    ensures Named(r) == "" && (hex ==> !IsNumeric(r, "&#", 10)) && (!hex ==> !IsNumeric(r, "&#x", 16))
  {
    assert r[1] == r[..2][1];
    NoSemicolonDigit(r[2]);
    assert r[2] == r[2..|r| - 1][0];
    if !hex { StartsIs(r, "&#x"); }
  }

  lemma DigitsEnd(raw: string, h: nat, n: nat, m: nat, base: nat)
    requires (base == 10 || base == 16) && h <= m <= |raw| && h <= n < |raw| && raw[n] == ';'
    requires AllDigits(raw[h..m], base) && (m < |raw| ==> !IsDigitOf(raw[m], base)) && AllDigits(raw[h..n], base)
    ensures m == n
  {
    forall k | h <= k < n ensures IsDigitOf(raw[k], base) { assert raw[k] == raw[h..n][k - h]; }
    forall k | h <= k < m ensures raw[k] != ';' {
      assert raw[k] == raw[h..m][k - h];
      NoSemicolonDigit(raw[k]);
    }
  }

  /** And only then. */
  lemma NoNumericReference(raw: string, hex: bool, m: nat)
    requires |HeadOf(hex)| <= m <= |raw| && Starts(raw, HeadOf(hex)) && (!hex ==> |raw| > 2 ==> raw[2] != 'x')
    requires AllDigits(raw[|HeadOf(hex)|..m], BaseOf(hex)) && (m < |raw| ==> !IsDigitOf(raw[m], BaseOf(hex)))
    requires m == |HeadOf(hex)| || m == |raw| || raw[m] != ';'
    ensures !StartsReference(raw)
  {
    var h, n := |HeadOf(hex)|, Semicolon(raw);
    if n < |raw| {
      var r := raw[..n + 1];
      assert raw[0] == HeadOf(hex)[0] && raw[1] == HeadOf(hex)[1];
      assert hex ==> raw[2] == HeadOf(hex)[2];
      assert Named(r) == "" by { if n > 0 { assert r[1] == raw[1] || n < 1; } }
      OtherBase(r, hex);
      assert !IsNumeric(r, HeadOf(hex), BaseOf(hex)) by {
        if IsNumeric(r, HeadOf(hex), BaseOf(hex)) {
          assert r[h..|r| - 1] == raw[h..n];
          DigitsEnd(raw, h, n, m, BaseOf(hex));
        }
      }
    }
  }

  lemma OtherBase(r: string, hex: bool)
    requires |r| > 2 && r[0] == '&' && r[1] == '#' && (hex <==> r[2] == 'x')
    ensures hex ==> !IsNumeric(r, "&#", 10)
    ensures !hex ==> !IsNumeric(r, "&#x", 16)
  {
    StartsIs(r, "&#x");
    NoSemicolonDigit(r[2]);
    if |r| > 3 { assert r[2] == r[2..|r| - 1][0]; }
  }

  /** What the digits after the head give. */
  lemma DigitsRead1(t: string, s: nat, e: nat, hex: bool)
    requires s + |HeadOf(hex)| <= e <= |t| && Stops(At(t, e)) && Starts(t[s..e], HeadOf(hex))
    requires !hex ==> At(t, s + 2) != 'x'
    ensures At(t, s + |HeadOf(hex)|) == ';' ==> ReadsRight(t, s, e, Ref(t[s..s + |HeadOf(hex)|], s + |HeadOf(hex)|))
    ensures At(t, s + |HeadOf(hex)|) != ';' ==> ReadsRight(t, s, e, Digits(t, s, s + |HeadOf(hex)|, 0, hex))
  {
    hide Digits, StartsReference, Referred, AllDigits, NumberOf, Utf8, IsDigitOf, Semicolon;
    var raw, h := t[s..e], |HeadOf(hex)|;
    assert AllDigits("", BaseOf(hex)) && NumberOf("", BaseOf(hex)) == 0 by { NoDigits(hex); }
    assert t[s + h..s + h] == "";
    var q := DigitsRead(t, s, s + h, s + h, e, 0, hex);
    SliceOf(t, s, e, h, q - s);
    assert q < e ==> raw[q - s] == t[q];
    assert |raw| > 2 ==> raw[2] == t[s + 2];
    if At(t, q) == ';' && q > s + h {
      NumericReference(raw, hex, q - s);
    } else {
      NoNumericReference(raw, hex, q - s);
      DigitsInert(t, s, e, h, q, hex);
    }
  }

  lemma SliceOf(t: string, s: nat, e: nat, a: nat, b: nat)
    requires s <= e <= |t| && a <= b <= e - s
    ensures t[s..e][a..b] == t[s + a..s + b]
  {
    var u, v := t[s..e][a..b], t[s + a..s + b];
    assert |u| == |v| && forall k | 0 <= k < |u| :: u[k] == v[k];
  }

  lemma NoDigits(hex: bool)
    ensures AllDigits("", BaseOf(hex)) && NumberOf("", BaseOf(hex)) == 0
  {
  }

  lemma DigitsInert(t: string, s: nat, e: nat, h: nat, q: nat, hex: bool)
    requires h == |HeadOf(hex)| && s + h <= q <= e <= |t| && Starts(t[s..e], HeadOf(hex)) && AllDigits(t[s + h..q], BaseOf(hex))
    ensures forall k | s < k < q :: Inert(t[k])
  {
    forall k | s < k < q ensures Inert(t[k]) {
      if k < s + h {
        assert t[s..e][k - s] == HeadOf(hex)[k - s];
      } else {
        assert t[s + h..q][k - (s + h)] == t[k];
        NoSemicolonDigit(t[k]);
      }
    }
  }

  /** The decoder reads every reference as what it stands for, and nothing else as a reference. */
  lemma ReferenceReads(t: string, s: nat, e: nat)
    requires s < e <= |t| && t[s] == '&' && Stops(At(t, e))
    ensures ReadsRight(t, s, e, Reference(t, s))
  {
    hide Digits, StartsReference, Referred, Entity, IsName5, Named;
    var raw := t[s..e];
    assert raw[0] == '&' && forall k | 0 <= k < e - s :: raw[k] == t[s + k];
    var c := At(t, s + 1);
    if c == '#' {
      assert Starts(raw, "&#");
      if At(t, s + 2) == 'x' {
        assert Starts(raw, "&#x");
        DigitsRead1(t, s, e, true);
      } else {
        DigitsRead1(t, s, e, false);
      }
    } else if c == 'a' && At(t, s + 2) == 'm' {
      NamedReads(t, s, e, "&am", "p;", '&');
    } else if c == 'a' && At(t, s + 2) == 'p' {
      NamedReads(t, s, e, "&ap", "os;", '\'');
    } else if c == 'g' {
      NamedReads(t, s, e, "&g", "t;", '>');
    } else if c == 'l' {
      NamedReads(t, s, e, "&l", "t;", '<');
    } else if c == 'q' {
      NamedReads(t, s, e, "&q", "uot;", '"');
    } else {
      NothingReads(t, s, e);
    }
  }

  /** A name, cut where the decoder has told which name it can be. */
  predicate NameParts(head: string, w: string, c: char) {
    || (head == "&am" && w == "p;" && c == '&')
    || (head == "&ap" && w == "os;" && c == '\'')
    || (head == "&g" && w == "t;" && c == '>')
    || (head == "&l" && w == "t;" && c == '<')
    || (head == "&q" && w == "uot;" && c == '"')
  }

  lemma NamedReads(t: string, s: nat, e: nat, head: string, w: string, c: char)
    requires s < e <= |t| && Stops(At(t, e)) && NameParts(head, w, c)
    requires forall k | 0 <= k < |head| :: At(t, s + k) == head[k]
    ensures s + |head| <= e && ReadsRight(t, s, e, Entity(t, s, s + |head|, w, c))
  {
    assert At(t, s) == head[0] && At(t, s + 1) == head[1] && At(t, s + (|head| - 1)) == head[|head| - 1];
    assert s + 1 != e && s + (|head| - 1) != e;
    NameOfParts(head, w, c);
    AllThere(t, s, e, head);
    hide ReadsRight, Entity, Named, NameParts;
    forall other | IsName5(other) && other != head + w ensures !Starts(t[s..e], other) {
      OtherNames(head, w, c, other);
    }
    EntityReads(t, s, e, head, w);
  }

  lemma NameOfParts(head: string, w: string, c: char)
    requires NameParts(head, w, c)
    ensures IsName5(head + w) && Named(head + w) == [c] && |head| >= 2 && |w| >= 2
  {
    assert "&am" + "p;" == "&amp;" && "&ap" + "os;" == "&apos;" && "&g" + "t;" == "&gt;";
    assert "&l" + "t;" == "&lt;" && "&q" + "uot;" == "&quot;";
  }

  lemma OtherNames(head: string, w: string, c: char, other: string)
    requires NameParts(head, w, c) && IsName5(other) && other != head + w
    ensures exists k :: 0 <= k < |head| && k < |other| && other[k] != head[k]
  {
    var k := if |head| == 3 && other[1] == head[1] then 2 else 1;
    assert other[k] != head[k];
  }

  /** An ampersand before anything else is kept. */
  lemma NothingReads(t: string, s: nat, e: nat)
    requires s < e <= |t| && t[s] == '&' && Stops(At(t, e))
    requires var c := At(t, s + 1); c != '#' && c != 'g' && c != 'l' && c != 'q' && (c == 'a' ==> At(t, s + 2) != 'm' && At(t, s + 2) != 'p')
    ensures ReadsRight(t, s, e, Reference(t, s))
  {
    hide Entity, CharacterReference, StartsReference, Referred;
    var raw := t[s..e];
    assert raw[0] == t[s] && (|raw| > 1 ==> raw[1] == t[s + 1]) && (|raw| > 2 ==> raw[2] == t[s + 2]);
    assert !StartsReference(raw) by {
      if StartsReference(raw) { OnlyNames(raw); }
    }
  }

  // ---------------------------------------------------------------- the decoder gives what is meant

  lemma ReferenceStarts(s: string)
    ensures StartsReference(s) ==> s[0] == '&'
  {
    if StartsReference(s) {
      NumericHead(s[..Semicolon(s) + 1]);
    }
  }

  lemma MeantOne(s: string, mode: AttributeMode)
    requires s != "" && !StartsReference(s) && !(mode.Eol? && s[0] == '\r') && !((mode.Wconv? || mode.Wnorm?) && IsSpace(s[0]))
    ensures Meant(s, mode) == [s[0]] + Meant(s[1..], mode)
  {
    hide StartsReference;
  }

  /** What the decoder has tried as a reference in vain stands for itself. */
  lemma {:induction false} InertStays(s: string, n: nat, mode: AttributeMode)
    requires n <= |s| && (forall k | 0 < k < n :: Inert(s[k])) && (n > 0 ==> Inert(s[0]) || (s[0] == '&' && !StartsReference(s)))
    ensures Meant(s, mode) == s[..n] + Meant(s[n..], mode)
    decreases n
  {
    hide StartsReference, Meant;
    if n == 0 {
      assert s[0..] == s;
    } else {
      ReferenceStarts(s);
      MeantOne(s, mode);
      InertStays(s[1..], n - 1, mode);
      assert s[1..][n - 1..] == s[n..] && [s[0]] + s[1..][..n - 1] == s[..n];
    }
  }

  /** The decoder at an ampersand. */
  lemma MeantReference(t: string, s: nat, e: nat, mode: AttributeMode)
    requires s < e <= |t| && t[s] == '&' && Stops(At(t, e))
    ensures var r := Reference(t, s);
            s < r.next <= e && Meant(t[s..e], mode) == r.text + Meant(t[r.next..e], mode)
  {
    hide Reference, StartsReference, Referred, Meant;
    ReferenceReads(t, s, e);
    var r, raw := Reference(t, s), t[s..e];
    if StartsReference(raw) {
      MeantStart(raw, mode);
      assert raw[Semicolon(raw) + 1..] == t[r.next..e];
    } else {
      assert forall k | 0 < k < r.next - s :: raw[k] == t[s + k];
      InertStays(raw, r.next - s, mode);
      assert raw[..r.next - s] == t[s..r.next] && raw[r.next - s..] == t[r.next..e];
    }
  }

  lemma MeantStart(s: string, mode: AttributeMode)
    requires StartsReference(s)
    ensures Semicolon(s) < |s| && IsReference(s[..Semicolon(s) + 1])
    ensures Meant(s, mode) == Referred(s[..Semicolon(s) + 1]) + Meant(s[Semicolon(s) + 1..], mode)
  {
    hide Referred, IsReference, AfterLineEnd, AfterSpaces;
  }

  lemma MeantLineEnd(t: string, s: nat, e: nat, mode: AttributeMode)
    requires s < e <= |t| && Stops(At(t, e)) && ((mode.Eol? && t[s] == '\r') || (mode.Wconv? && IsSpace(t[s])))
    ensures LineEnd(t, s) <= e
    ensures Meant(t[s..e], mode) == (if mode.Eol? then "\n" else " ") + Meant(t[LineEnd(t, s)..e], mode)
  {
    hide StartsReference;
    var raw := t[s..e];
    assert raw[0] == t[s] && (|raw| > 1 ==> raw[1] == t[s + 1]);
    ReferenceStarts(raw);
    assert AfterLineEnd(raw) == t[LineEnd(t, s)..e];
  }

  lemma {:induction false} SpacesSkipped(t: string, s: nat, e: nat)
    requires s <= e <= |t| && !IsSpace(At(t, e))
    ensures SkipSpaces(t, s) <= e && AfterSpaces(t[s..e]) == t[SkipSpaces(t, s)..e]
    decreases e - s
  {
    if s < e && IsSpace(t[s]) {
      SpacesSkipped(t, s + 1, e);
      assert t[s..e][1..] == t[s + 1..e];
    }
  }

  lemma MeantSpaces(t: string, s: nat, e: nat)
    requires s < e <= |t| && Stops(At(t, e)) && IsSpace(t[s])
    ensures SkipSpaces(t, s + 1) <= e && Meant(t[s..e], Wnorm) == " " + Meant(t[SkipSpaces(t, s + 1)..e], Wnorm)
  {
    hide StartsReference;
    ReferenceStarts(t[s..e]);
    SpacesSkipped(t, s, e);
  }

  /** Character data stands for what XML 1.0 says. */
  lemma {:induction false} PcdataMeans(t: string, s: nat, e: nat, eol: bool)
    requires s <= e <= |t| && (At(t, e) == NUL || At(t, e) == '<') && forall k | s <= k < e :: t[k] != NUL && t[k] != '<'
    ensures Pcdata(t, s, eol, true) == Ref(Meant(t[s..e], if eol then Eol else Simple), if At(t, e) == '<' then e + 1 else e)
    decreases e - s
  {
    hide Reference, StartsReference, Meant;
    var mode := if eol then Eol else Simple;
    if s == e {
      assert t[s..e] == "" && Meant("", mode) == "" by { MeantNothing(mode); }
    } else if eol && t[s] == '\r' {
      MeantLineEnd(t, s, e, mode);
      PcdataMeans(t, LineEnd(t, s), e, eol);
    } else if t[s] == '&' {
      MeantReference(t, s, e, mode);
      PcdataMeans(t, Reference(t, s).next, e, eol);
    } else {
      assert t[s..e][0] == t[s] && t[s..e][1..] == t[s + 1..e];
      ReferenceStarts(t[s..e]);
      MeantOne(t[s..e], mode);
      PcdataMeans(t, s + 1, e, eol);
    }
  }

  lemma MeantNothing(mode: AttributeMode)
    ensures Meant("", mode) == ""
  {
  }

  /** So does an attribute value, up to its quote. */
  lemma {:induction false} AttributeMeans(t: string, s: nat, e: nat, quote: char, mode: AttributeMode)
    requires s <= e <= |t| && (quote == '"' || quote == '\'') && (At(t, e) == NUL || At(t, e) == quote)
    requires forall k | s <= k < e :: t[k] != NUL && t[k] != quote
    ensures AttributeFrom(t, s, quote, mode, true) == if At(t, e) == quote then Value(Meant(t[s..e], mode), e + 1) else Unterminated
    decreases e - s
  {
    hide Reference, StartsReference, Meant;
    if s == e {
      assert t[s..e] == "" && Meant("", mode) == "" by { MeantNothing(mode); }
    } else if Converts(t[s], mode) {
      if mode.Wnorm? { MeantSpaces(t, s, e); } else { MeantLineEnd(t, s, e, mode); }
      AttributeMeans(t, Converted(t, s, mode).next, e, quote, mode);
    } else if t[s] == '&' {
      MeantReference(t, s, e, mode);
      AttributeMeans(t, Reference(t, s).next, e, quote, mode);
    } else {
      assert t[s..e][0] == t[s] && t[s..e][1..] == t[s + 1..e];
      ReferenceStarts(t[s..e]);
      MeantOne(t[s..e], mode);
      AttributeMeans(t, s + 1, e, quote, mode);
    }
  }

  /** `w` without white space at its end. */
  predicate Trimmed(s: string, w: string) {
    s <= w && (forall k | |s| <= k < |w| :: IsSpace(w[k])) && (s == "" || !IsSpace(s[|s| - 1]))
  }

  lemma {:induction false} TrimEndTrims(w: string)
    ensures Trimmed(TrimEnd(w), w)
  {
    if w != "" && IsSpace(w[|w| - 1]) { TrimEndTrims(w[..|w| - 1]); }
  }

  /** A normalised value has no white space at its start and end, either. */
  lemma NormalizedMeans(t: string, s: nat, e: nat, quote: char)
    requires s <= e <= |t| && (quote == '"' || quote == '\'') && (At(t, e) == NUL || At(t, e) == quote)
    requires forall k | s <= k < e :: t[k] != NUL && t[k] != quote
    ensures var v := AttributeValue(t, s, quote, Wnorm, true);
            if At(t, e) == quote then v.Value? && v.next == e + 1 && Trimmed(v.text, Meant(AfterSpaces(t[s..e]), Wnorm))
            else v.Unterminated?
  {
    hide TrimEnd, Meant, AttributeFrom;
    SpacesSkipped(t, s, e);
    AttributeMeans(t, SkipSpaces(t, s), e, quote, Wnorm);
    TrimEndTrims(Meant(AfterSpaces(t[s..e]), Wnorm));
  }
}
