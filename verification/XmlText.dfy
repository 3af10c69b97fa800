// The text level of XML: character classes, the escapes the printer writes, and what the parser decodes.
//
// A buffer is a sequence of bytes, held as characters below 256, that ends at its first NUL; reading at or
// past the end gives NUL.
module XmlText {

  const NUL: char := '\0'

  function At(t: string, i: int): char { if 0 <= i < |t| then t[i] else NUL }

  // ---------------------------------------------------------------- character classes

  predicate IsSpace(c: char) { c == ' ' || c == '\t' || c == '\n' || c == '\r' }

  predicate AllSpace(s: string) { forall k | 0 <= k < |s| :: IsSpace(s[k]) }

  predicate IsDigit(c: char) { '0' <= c <= '9' }

  predicate IsLetter(c: char) { 'a' <= c <= 'z' || 'A' <= c <= 'Z' }

  /** ct_start_symbol. */
  predicate IsStartSymbol(c: char) { IsLetter(c) || c == '_' || c == ':' || c as int >= 128 }

  /** ct_symbol. */
  predicate IsSymbol(c: char) { IsStartSymbol(c) || IsDigit(c) || c == '-' || c == '.' }

  predicate IsName(s: string) { s != "" && IsStartSymbol(s[0]) && forall k | 0 <= k < |s| :: IsSymbol(s[k]) }

  predicate NulFree(s: string) { NUL !in s }

  // ---------------------------------------------------------------- the printer's escapes

  /** ctx_special_pcdata and ctx_special_attr. */
  predicate IsSpecial(c: char, attribute: bool) {
    || c == '&' || c == '<' || c == '>'
    || (attribute && c == '"')
    || (c as int < 32 && c != '\t' && (attribute || (c != '\n' && c != '\r')))
  }

  function EscapeChar(c: char, attribute: bool): string {
    if !IsSpecial(c, attribute) then [c]
    else if c == '&' then "&amp;"
    else if c == '<' then "&lt;"
    else if c == '>' then "&gt;"
    else if c == '"' then "&quot;"
    else ['&', '#', ((c as int % 32) / 10 + 48) as char, (c as int % 10 + 48) as char, ';']
  }

  /** What the printer makes of a text. */
  function Escape(s: string, attribute: bool): string {
    if s == "" then "" else EscapeChar(s[0], attribute) + Escape(s[1..], attribute)
  }

  // ---------------------------------------------------------------- references

  const WORD: int := 0x1_0000_0000

  /** `utf8_writer::any`: a byte is its value cut to eight bits. */
  function Utf8(code: int): string
    requires 0 <= code < WORD
  {
    if code < 0x80 then [code as char]
    else if code < 0x800 then [(0xC0 + code / 0x40) as char, (0x80 + code % 0x40) as char]
    else if code < 0x10000 then
      [(0xE0 + code / 0x1000) as char, (0x80 + code / 0x40 % 0x40) as char, (0x80 + code % 0x40) as char]
    else
      [Lead(code / 0x40000), (0x80 + code / 0x1000 % 0x40) as char, (0x80 + code / 0x40 % 0x40) as char, (0x80 + code % 0x40) as char]
  }

  /** `0xF0 | x` in eight bits. */
  function Lead(x: int): char
    requires 0 <= x
  {
    (0xF0 + x % 0x10) as char
  }

  /** The value of a digit in base `b`, or -1. */
  function Digit(c: char, hex: bool): int {
    if IsDigit(c) then c as int - 48
    else if hex && 'a' <= c <= 'f' then c as int - 87
    else if hex && 'A' <= c <= 'F' then c as int - 55
    else -1
  }

  /** A reference or the part of the text that failed to be one, and where reading goes on. */
  datatype Ref = Ref(text: string, next: nat)

  /** The digits of a character reference from `p` on; `code` is what has been read, in 32-bit arithmetic. */
  function Digits(t: string, s: nat, p: nat, code: int, hex: bool): Ref
    requires s < p <= |t| && 0 <= code < WORD
    decreases |t| - p
  {
    var d := Digit(At(t, p), hex);
    if p < |t| && d >= 0 then Digits(t, s, p + 1, ((if hex then 16 else 10) * code + d) % WORD, hex)
    else if At(t, p) == ';' then Ref(Utf8(code), p + 1)
    else Ref(t[s..p], p)
  }

  /** How much of `w` stands at `p`. */
  function Matched(t: string, p: nat, w: string): (n: nat)
    requires p <= |t|
    ensures n <= |w| && p + n <= |t|
    decreases |w|
  {
    if w != "" && p < |t| && t[p] == w[0] then 1 + Matched(t, p + 1, w[1..]) else 0
  }

  /** The rest `w` of an entity name, from `p` on. */
  function Entity(t: string, s: nat, p: nat, w: string, c: char): Ref
    requires s < p <= |t|
  {
    var n := Matched(t, p, w);
    if n == |w| then Ref([c], p + n) else Ref(t[s..p + n], p + n)
  }

  /** `&#` at place `s`. */
  function CharacterReference(t: string, s: nat): Ref
    requires s + 1 < |t|
  {
    if At(t, s + 2) == 'x' then
      if At(t, s + 3) == ';' then Ref(t[s..s + 3], s + 3) else Digits(t, s, s + 3, 0, true)
    else if At(t, s + 2) == ';' then Ref(t[s..s + 2], s + 2)
    else Digits(t, s, s + 2, 0, false)
  }

  /** `strconv_escape` at the `&` in place `s`: a reference that is not complete stays in the text. */
  function Reference(t: string, s: nat): Ref
    requires s < |t|
  {
    match At(t, s + 1)
    case '#' => CharacterReference(t, s)
    case 'a' =>
      if At(t, s + 2) == 'm' then Entity(t, s, s + 3, "p;", '&')
      else if At(t, s + 2) == 'p' then Entity(t, s, s + 3, "os;", '\'')
      else Ref(t[s..s + 2], s + 2)
    case 'g' => Entity(t, s, s + 2, "t;", '>')
    case 'l' => Entity(t, s, s + 2, "t;", '<')
    case 'q' => Entity(t, s, s + 2, "uot;", '"')
    case _ => Ref(t[s..s + 1], s + 1)
  }

  // ---------------------------------------------------------------- what the parser decodes

  /** A line end counts once when written as carriage return and line feed. */
  function LineEnd(t: string, s: nat): (n: nat)
    requires s < |t|
    ensures s < n <= |t|
  {
    if t[s] == '\r' && At(t, s + 1) == '\n' && s + 1 < |t| then s + 2 else s + 1
  }

  function SkipSpaces(t: string, s: nat): (n: nat)
    requires s <= |t|
    ensures s <= n <= |t| && !IsSpace(At(t, n))
    ensures forall k | s <= k < n :: IsSpace(t[k])
    decreases |t| - s
  {
    if s < |t| && IsSpace(t[s]) then SkipSpaces(t, s + 1) else s
  }

  function TrimEnd(s: string): string {
    if s != "" && IsSpace(s[|s| - 1]) then TrimEnd(s[..|s| - 1]) else s
  }

  lemma {:induction false} DigitsAreLonger(t: string, s: nat, p: nat, code: int, hex: bool)
    requires s + 3 <= p <= |t| && 0 <= code < WORD && (p > s + 3 || code < 0x80)
    ensures var r := Digits(t, s, p, code, hex); p <= r.next <= |t| && (r.text == t[s..r.next] || |r.text| < r.next - s)
    decreases |t| - p
  {
    var d := Digit(At(t, p), hex);
    if p < |t| && d >= 0 {
      DigitsAreLonger(t, s, p + 1, ((if hex then 16 else 10) * code + d) % WORD, hex);
    }
  }

  /** A reading that makes progress, and either keeps what is written or is shorter than it. */
  predicate Shortens(t: string, s: nat, r: Ref) {
    s < r.next <= |t| && (r.text == t[s..r.next] || |r.text| < r.next - s)
  }

  lemma CharacterReferenceShortens(t: string, s: nat)
    requires s + 1 < |t|
    ensures Shortens(t, s, CharacterReference(t, s))
  {
    hide Digits;
    if At(t, s + 2) == 'x' {
      DigitsAreLonger(t, s, s + 3, 0, true);
    } else if At(t, s + 2) != ';' {
      DecimalDigits(t, s);
    }
  }

  lemma DecimalDigits(t: string, s: nat)
    requires s + 1 < |t|
    ensures Shortens(t, s, Digits(t, s, s + 2, 0, false)) || At(t, s + 2) == ';'
  {
    var d := Digit(At(t, s + 2), false);
    if s + 2 < |t| && d >= 0 { DigitsAreLonger(t, s, s + 3, d, false); }
  }

  lemma EntityShortens(t: string, s: nat, p: nat, w: string, c: char)
    requires s + 2 <= p <= |t|
    ensures Shortens(t, s, Entity(t, s, p, w, c))
  {
  }

  /** Every reference is written with more bytes than it stands for. */
  lemma ReferenceShortens(t: string, s: nat)
    requires s < |t|
    ensures Shortens(t, s, Reference(t, s))
  {
    hide CharacterReference, Entity, Shortens;
    assert Shortens(t, s, Ref(t[s..s + 1], s + 1)) by { Kept(t, s, s + 1); }
    match At(t, s + 1)
    case '#' => CharacterReferenceShortens(t, s);
    case 'a' =>
      Kept(t, s, s + 2);
      if At(t, s + 2) == 'm' { EntityShortens(t, s, s + 3, "p;", '&'); }
      if At(t, s + 2) == 'p' { EntityShortens(t, s, s + 3, "os;", '\''); }
    case 'g' => EntityShortens(t, s, s + 2, "t;", '>');
    case 'l' => EntityShortens(t, s, s + 2, "t;", '<');
    case 'q' => EntityShortens(t, s, s + 2, "uot;", '"');
    case _ =>
  }

  lemma Kept(t: string, s: nat, p: nat)
    requires s < p <= |t|
    ensures Shortens(t, s, Ref(t[s..p], p))
  {
  }

  /** Character data from `s` on: it ends before the next tag or at the end of the text. */
  function Pcdata(t: string, s: nat, eol: bool, escapes: bool): (r: Ref)
    requires s <= |t|
    decreases |t| - s
  {
    var c := At(t, s);
    if c == NUL then Ref("", s)
    else if c == '<' then Ref("", s + 1)
    else if eol && c == '\r' then
      var rest := Pcdata(t, LineEnd(t, s), eol, escapes);
      Ref("\n" + rest.text, rest.next)
    else if escapes && c == '&' then
      ReferenceShortens(t, s);
      var ref := Reference(t, s);
      var rest := Pcdata(t, ref.next, eol, escapes);
      Ref(ref.text + rest.text, rest.next)
    else
      var rest := Pcdata(t, s + 1, eol, escapes);
      Ref([c] + rest.text, rest.next)
  }

  datatype AttributeMode = Simple | Eol | Wconv | Wnorm

  /** Whether white space is converted at `s`, to what, and where reading goes on. */
  predicate Converts(c: char, mode: AttributeMode) {
    match mode
    case Simple => false
    case Eol => c == '\r'
    case _ => IsSpace(c)
  }

  function Converted(t: string, s: nat, mode: AttributeMode): (r: Ref)
    requires s < |t|
    ensures s < r.next <= |t| && |r.text| == 1
  {
    match mode
    case Wnorm => Ref(" ", SkipSpaces(t, s + 1))
    case Wconv => Ref(" ", LineEnd(t, s))
    case _ => Ref("\n", LineEnd(t, s))
  }

  datatype Value = Value(text: string, next: nat) | Unterminated

  /** An attribute value from `s` on, up to its closing quote. */
  function AttributeFrom(t: string, s: nat, quote: char, mode: AttributeMode, escapes: bool): Value
    requires s <= |t|
    decreases |t| - s
  {
    var c := At(t, s);
    if c == quote && s < |t| then Value("", s + 1)
    else if s < |t| && Converts(c, mode) then
      var r := Converted(t, s, mode);
      Prepend(r.text, AttributeFrom(t, r.next, quote, mode, escapes))
    else if escapes && c == '&' then
      ReferenceShortens(t, s);
      var r := Reference(t, s);
      Prepend(r.text, AttributeFrom(t, r.next, quote, mode, escapes))
    else if c == NUL then Unterminated
    else Prepend([c], AttributeFrom(t, s + 1, quote, mode, escapes))
  }

  function Prepend(s: string, v: Value): Value { if v.Value? then Value(s + v.text, v.next) else v }

  /** An attribute value; normalisation also drops spaces at both ends. */
  function AttributeValue(t: string, s: nat, quote: char, mode: AttributeMode, escapes: bool): Value
    requires s <= |t|
  {
    if mode.Wnorm? then
      var v := AttributeFrom(t, SkipSpaces(t, s), quote, mode, escapes);
      if v.Value? then Value(TrimEnd(v.text), v.next) else v
    else AttributeFrom(t, s, quote, mode, escapes)
  }
}

// Decoding within the buffer: the text shrinks, and the gap this leaves is moved along behind the reader.
module InPlace {

  import opened XmlText

  class Gap {
    var end: int
    var size: nat

    constructor ()
      ensures end == -1 && size == 0
    {
      end, size := -1, 0;
    }

    /** Where the bytes after the gap start. */
    ghost function After(begin: nat): int
      reads this
    {
      if end == -1 then begin else end
    }

    /** The bytes from `begin` to the reader at `s`, without the gap, are `out`. */
    ghost predicate Holds(buf: array<char>, begin: nat, s: nat, out: string)
      reads this, buf
    {
      var e := After(begin);
      && begin + size <= e <= s <= buf.Length && (end == -1 <==> size == 0)
      && |out| + size == s - begin
      && (forall k | begin <= k < e - size :: buf[k] == out[k - begin])
      && (forall k | e <= k < s :: buf[k] == out[k - begin - size])
    }

    /** Collapses the gap there is, and opens one of `count` bytes at `s` that includes it. */
    method Push(buf: array<char>, ghost begin: nat, s: nat, count: nat, ghost out: string) returns (next: nat)
      requires Holds(buf, begin, s, out) && 0 < count <= buf.Length - s
      modifies this, buf
      ensures next == s + count && Holds(buf, begin, next, out)
      ensures forall k | 0 <= k < begin || s <= k < buf.Length :: buf[k] == old(buf[k])
    {
      if end != -1 {
        Move(buf, end - size, end, s - end);
      }
      next := s + count;
      end := next;
      size := size + count;
    }

    /** Closes the gap: the end of the text without it. */
    method Flush(buf: array<char>, ghost begin: nat, s: nat, ghost out: string) returns (e: nat)
      requires Holds(buf, begin, s, out)
      modifies buf
      ensures e == begin + |out| && e <= s && buf[begin..e] == out
      ensures forall k | 0 <= k < begin || s <= k < buf.Length :: buf[k] == old(buf[k])
    {
      if end != -1 {
        Move(buf, end - size, end, s - end);
        e := s - size;
      } else {
        e := s;
      }
    }
  }

  /** memmove to a lower place. */
  method Move(buf: array<char>, to: nat, from: nat, n: nat)
    requires to <= from && from + n <= buf.Length
    modifies buf
    ensures forall k | to <= k < to + n :: buf[k] == old(buf[..])[k - to + from]
    ensures forall k | 0 <= k < to || to + n <= k < buf.Length :: buf[k] == old(buf[k])
  {
    var i := 0;
    while i < n
      invariant 0 <= i <= n
      invariant forall k | 0 <= k < buf.Length && !(to <= k < to + i) :: buf[k] == old(buf[k])
      invariant forall k | to <= k < to + i :: buf[k] == old(buf[..])[k - to + from]
    {
      buf[to + i] := buf[from + i];
      i := i + 1;
    }
  }

  /** The buffer holds from `s` on what it held in `t`, which ends in NUL. */
  ghost predicate Unread(buf: array<char>, s: nat, t: string)
    reads buf
  {
    |t| == buf.Length && 0 < |t| && t[|t| - 1] == NUL && s <= |t| && forall k | s <= k < |t| :: buf[k] == t[k]
  }

  /** The digits of a character reference. */
  method ReadDigits(buf: array<char>, s: nat, from: nat, hex: bool, ghost t: string) returns (ok: bool, code: int, p: nat)
    requires Unread(buf, s, t) && s + 2 <= from < |t| && buf[from] != ';'
    ensures s < p < |t| && 0 <= code < WORD && (ok ==> |Utf8(code)| < p - s)
    ensures Digits(t, s, from, 0, hex) == if ok then Ref(Utf8(code), p) else Ref(t[s..p], p)
  {
    p, code := from, 0;
    while Digit(buf[p], hex) >= 0
      invariant from <= p < |t| && 0 <= code < WORD && (if p == from then code == 0 else p == from + 1 ==> code < 0x80)
      invariant Digits(t, s, from, 0, hex) == Digits(t, s, p, code, hex)
      decreases |t| - p
    {
      code := ((if hex then 16 else 10) * code + Digit(buf[p], hex)) % WORD;
      p := p + 1;
    }
    ok := buf[p] == ';';
    if ok { p := p + 1; }
  }

  /** The rest of an entity name, byte by byte. */
  method ReadWord(buf: array<char>, s: nat, from: nat, w: string, ghost t: string) returns (ok: bool, p: nat)
    requires Unread(buf, s, t) && s < from < |t| && NulFree(w)
    ensures p == from + Matched(t, from, w) && p < |t| && ok == (Matched(t, from, w) == |w|)
  {
    p := from;
    var k := 0;
    while k < |w| && buf[p] == w[k]
      invariant 0 <= k <= |w| && p == from + k < |t|
      invariant Matched(t, from, w) == k + Matched(t, p, w[k..])
      decreases |w| - k
    {
      assert w[k] in w && w[k..][1..] == w[k + 1..];
      k, p := k + 1, p + 1;
    }
    ok := k == |w|;
  }

  /** Reads a character reference. */
  method ReadCharacter(buf: array<char>, s: nat, ghost t: string) returns (ok: bool, code: int, next: nat)
    requires Unread(buf, s, t) && s + 1 < |t| && buf[s] == '&' && buf[s + 1] == '#'
    ensures s < next < |t| && 0 <= code < WORD && (ok ==> |Utf8(code)| < next - s)
    ensures CharacterReference(t, s) == if ok then Ref(Utf8(code), next) else Ref(t[s..next], next)
  {
    hide Utf8, Digits;
    next := s + 2;
    var hex := buf[next] == 'x';
    if hex { next := next + 1; }
    if buf[next] == ';' { return false, 0, next; }
    ok, code, next := ReadDigits(buf, s, next, hex, t);
  }

  /** The entity names, by what follows the `&`: the rest of the name and where it starts. */
  method EntityName(buf: array<char>, s: nat, ghost t: string) returns (word: string, c: char, next: nat)
    requires Unread(buf, s, t) && s < |t| && buf[s] == '&' && buf[s + 1] != '#'
    ensures s < next < |t| && (word != "" ==> NulFree(word) && s + 2 <= next)
    ensures Reference(t, s) == if word == "" then Ref(t[s..next], next) else Entity(t, s, next, word, c)
  {
    hide Entity;
    word, c, next := "", NUL, s + 1;
    if buf[s + 1] == 'a' {
      next := s + 2;
      if buf[next] == 'm' {
        word, c, next := "p;", '&', next + 1;
      } else if buf[next] == 'p' {
        word, c, next := "os;", '\'', next + 1;
      }
    } else if buf[s + 1] == 'g' {
      word, c, next := "t;", '>', s + 2;
    } else if buf[s + 1] == 'l' {
      word, c, next := "t;", '<', s + 2;
    } else if buf[s + 1] == 'q' {
      word, c, next := "uot;", '"', s + 2;
    }
  }

  /** Reads the reference at `s` without changing the buffer. */
  method ReadReference(buf: array<char>, s: nat, ghost t: string) returns (ok: bool, text: string, next: nat)
    requires Unread(buf, s, t) && s < |t| && buf[s] == '&'
    ensures s < next < |t| && Reference(t, s) == Ref(if ok then text else t[s..next], next)
    ensures ok ==> |text| < next - s
  {
    hide Utf8, CharacterReference;
    if buf[s + 1] == '#' {
      var code;
      ok, code, next := ReadCharacter(buf, s, t);
      text := Utf8(code);
    } else {
      var word, c;
      word, c, next := EntityName(buf, s, t);
      ok, text := false, "";
      if word != "" {
        ok, next := ReadWord(buf, s, next, word, t);
        text := [c];
      }
    }
  }

  lemma HoldsSkip(buf: array<char>, g: Gap, begin: nat, s: nat, next: nat, out: string)
    requires g.Holds(buf, begin, s, out) && s <= next <= buf.Length
    ensures g.Holds(buf, begin, next, out + buf[s..next])
  {
  }

  /** Writes one byte where the reader is, and steps over it. */
  method Put(buf: array<char>, g: Gap, ghost begin: nat, s: nat, c: char, ghost out: string) returns (next: nat)
    requires g.Holds(buf, begin, s, out) && s < buf.Length
    modifies buf
    ensures next == s + 1 && g.Holds(buf, begin, next, out + [c])
    ensures forall k | 0 <= k < begin || next <= k < buf.Length :: buf[k] == old(buf[k])
  {
    buf[s] := c;
    next := s + 1;
  }

  /** `strconv_escape`. */
  method StrconvEscape(buf: array<char>, g: Gap, ghost begin: nat, s: nat, ghost out: string, ghost t: string) returns (next: nat)
    requires g.Holds(buf, begin, s, out) && Unread(buf, s, t) && s < |t| && buf[s] == '&'
    modifies g, buf
    ensures s < next < |t| && next == Reference(t, s).next
    ensures g.Holds(buf, begin, next, out + Reference(t, s).text) && Unread(buf, next, t)
    ensures (forall k | 0 <= k < begin :: buf[k] == old(buf[k]))
  {
    ReferenceShortens(t, s);
    var ok, text;
    ok, text, next := ReadReference(buf, s, t);
    if !ok {
      HoldsSkip(buf, g, begin, s, next, out);
      assert buf[s..next] == t[s..next];
      return;
    }
    var w, k := s, 0;
    while k < |text|
      invariant 0 <= k <= |text| && w == s + k
      invariant g.Holds(buf, begin, w, out + text[..k])
      invariant forall k | next <= k < |t| :: buf[k] == t[k]
      invariant (forall k | 0 <= k < begin :: buf[k] == old(buf[k]))
    {
      assert text[..k + 1] == text[..k] + [text[k]];
      assert out + text[..k + 1] == (out + text[..k]) + [text[k]];
      w := Put(buf, g, begin, w, text[k], out + text[..k]);
      k := k + 1;
    }
    assert text[..|text|] == text;
    next := g.Push(buf, begin, w, next - w, out + text);
  }

  /** Writes `c` for a white space byte, or for a carriage return and line feed together. */
  method PutLineEnd(buf: array<char>, g: Gap, ghost begin: nat, s: nat, c: char, ghost out: string, ghost t: string) returns (next: nat)
    requires g.Holds(buf, begin, s, out) && Unread(buf, s, t) && s < |t| && buf[s] != NUL
    modifies g, buf
    ensures next == LineEnd(t, s) < |t| && g.Holds(buf, begin, next, out + [c]) && Unread(buf, next, t)
    ensures (forall k | 0 <= k < begin :: buf[k] == old(buf[k]))
  {
    var cr := buf[s] == '\r';
    next := Put(buf, g, begin, s, c, out);
    if cr && buf[next] == '\n' { next := g.Push(buf, begin, next, 1, out + [c]); }
  }

  lemma KeepByte(buf: array<char>, g: Gap, begin: nat, s: nat, out: string, t: string)
    requires g.Holds(buf, begin, s, out) && Unread(buf, s, t) && s < |t|
    ensures g.Holds(buf, begin, s + 1, out + [t[s]]) && Unread(buf, s + 1, t)
  {
    HoldsSkip(buf, g, begin, s, s + 1, out);
    assert buf[s..s + 1] == [t[s]];
  }

  /** How far the decoding of `t` from `s` has come: `out` is decoded, and the rest is at `r`. */
  ghost predicate PcdataUpTo(t: string, s: nat, r: nat, out: string, eol: bool, escapes: bool) {
    && s <= r <= |t|
    && Pcdata(t, s, eol, escapes) == Ref(out + Pcdata(t, r, eol, escapes).text, Pcdata(t, r, eol, escapes).next)
  }

  lemma PcdataStep(t: string, s: nat, r: nat, out: string, eol: bool, escapes: bool)
    requires PcdataUpTo(t, s, r, out, eol, escapes) && r < |t| && t[r] != '<' && t[r] != NUL
    ensures if eol && t[r] == '\r' then PcdataUpTo(t, s, LineEnd(t, r), out + "\n", eol, escapes)
            else if escapes && t[r] == '&' then
              Reference(t, r).next <= |t| && PcdataUpTo(t, s, Reference(t, r).next, out + Reference(t, r).text, eol, escapes)
            else PcdataUpTo(t, s, r + 1, out + [t[r]], eol, escapes)
  {
    hide Reference;
    ReferenceShortens(t, r);
    var rest := Pcdata(t, r, eol, escapes).text;
    if eol && t[r] == '\r' {
      assert out + rest == out + "\n" + Pcdata(t, LineEnd(t, r), eol, escapes).text;
    } else if escapes && t[r] == '&' {
      assert out + rest == out + Reference(t, r).text + Pcdata(t, Reference(t, r).next, eol, escapes).text;
    } else {
      assert out + rest == out + [t[r]] + Pcdata(t, r + 1, eol, escapes).text;
    }
  }

  /** The loop of `strconv_pcdata`, up to the byte that ends the text. */
  method DecodePcdata(buf: array<char>, g: Gap, s: nat, eol: bool, escapes: bool, ghost t: string) returns (r: nat, ghost out: string)
    requires s < buf.Length && g.Holds(buf, s, s, "") && Unread(buf, s, t)
    modifies g, buf
    ensures s <= r < |t| && (t[r] == '<' || t[r] == NUL)
    ensures g.Holds(buf, s, r, out) && Unread(buf, r, t) && PcdataUpTo(t, s, r, out, eol, escapes)
    ensures (forall k | 0 <= k < s :: buf[k] == old(buf[k]))
  {
    hide Pcdata, Reference, LineEnd, PcdataUpTo;
    out := "";
    r := s;
    PcdataStart(t, s, eol, escapes);
    while buf[r] != '<' && buf[r] != NUL
      invariant s <= r < |t| && g.Holds(buf, s, r, out) && Unread(buf, r, t)
      invariant (forall k | 0 <= k < s :: buf[k] == old(buf[k]))
      invariant PcdataUpTo(t, s, r, out, eol, escapes)
      decreases |t| - r
    {
      PcdataStep(t, s, r, out, eol, escapes);
      if eol && buf[r] == '\r' {
        r := PutLineEnd(buf, g, s, r, '\n', out, t);
        out := out + "\n";
      } else if escapes && buf[r] == '&' {
        ghost var text := Reference(t, r).text;
        r := StrconvEscape(buf, g, s, r, out, t);
        out := out + text;
      } else {
        KeepByte(buf, g, s, r, out, t);
        out := out + [t[r]];
        r := r + 1;
      }
    }
  }

  /** `strconv_pcdata`: decodes the text at `s` where it stands and ends it with NUL. */
  method StrconvPcdata(buf: array<char>, s: nat, trim: bool, eol: bool, escapes: bool) returns (next: nat)
    requires s < buf.Length && buf[buf.Length - 1] == NUL
    modifies buf
    ensures var r := Pcdata(old(buf[..]), s, eol, escapes);
            var text := if trim then TrimEnd(r.text) else r.text;
            && next == r.next <= buf.Length && s + |text| < buf.Length
            && buf[s..s + |text|] == text && buf[s + |text|] == NUL
    ensures forall k | 0 <= k < s || next <= k < buf.Length :: buf[k] == old(buf[k])
  {
    hide Pcdata, TrimEnd;
    ghost var t := buf[..];
    var g := new Gap();
    var r;
    ghost var out;
    r, out := DecodePcdata(buf, g, s, eol, escapes, t);
    PcdataEnd(t, r, eol, escapes);
    assert out + "" == out;
    next := if buf[r] == '<' then r + 1 else r;
    FinishText(buf, g, s, r, out, trim);
  }

  /** Closes the gap and ends the text with NUL, at or before the reader. */
  method FinishText(buf: array<char>, g: Gap, begin: nat, r: nat, ghost out: string, trim: bool)
    requires g.Holds(buf, begin, r, out) && r < buf.Length
    modifies buf
    ensures var text := if trim then TrimEnd(out) else out;
            begin + |text| <= r && buf[begin..begin + |text|] == text && buf[begin + |text|] == NUL
    ensures (forall k | 0 <= k < begin || r < k < buf.Length :: buf[k] == old(buf[k])) && buf[r] in {old(buf[r]), NUL}
  {
    hide TrimEnd;
    ghost var tail := buf[r..];
    var e := g.Flush(buf, begin, r, out);
    assert buf[r + 1..] == tail[1..];
    assert buf[r] == tail[0];
    if trim { e := TrimSpaces(buf, begin, e); }
    buf[e] := NUL;
  }

  lemma PcdataStart(t: string, s: nat, eol: bool, escapes: bool)
    requires s <= |t|
    ensures PcdataUpTo(t, s, s, "", eol, escapes)
  {
    assert "" + Pcdata(t, s, eol, escapes).text == Pcdata(t, s, eol, escapes).text;
  }

  lemma PcdataEnd(t: string, r: nat, eol: bool, escapes: bool)
    requires r < |t| && (t[r] == '<' || t[r] == NUL)
    ensures Pcdata(t, r, eol, escapes) == Ref("", if t[r] == '<' then r + 1 else r)
  {
  }

  /** Steps back over the spaces before `e`. */
  method TrimSpaces(buf: array<char>, begin: nat, e: nat) returns (end: nat)
    requires begin <= e <= buf.Length
    ensures begin <= end <= e && buf[begin..end] == TrimEnd(buf[begin..e])
  {
    end := e;
    while end > begin && IsSpace(buf[end - 1])
      invariant begin <= end <= e && TrimEnd(buf[begin..end]) == TrimEnd(buf[begin..e])
    {
      assert buf[begin..end][..end - begin - 1] == buf[begin..end - 1];
      end := end - 1;
    }
  }

  // ---------------------------------------------------------------- attribute values

  /** Writes one space for a run of them. */
  method PutSpace(buf: array<char>, g: Gap, ghost begin: nat, s: nat, ghost out: string, ghost t: string) returns (next: nat)
    requires g.Holds(buf, begin, s, out) && Unread(buf, s, t) && s < |t| && buf[s] != NUL
    modifies g, buf
    ensures next == SkipSpaces(t, s + 1) < |t| && g.Holds(buf, begin, next, out + " ") && Unread(buf, next, t)
    ensures (forall k | 0 <= k < begin :: buf[k] == old(buf[k]))
  {
    next := Put(buf, g, begin, s, ' ', out);
    var str := EndOfSpaces(buf, next, t);
    if str > next { next := g.Push(buf, begin, next, str - next, out + " "); }
  }

  method EndOfSpaces(buf: array<char>, s: nat, ghost t: string) returns (e: nat)
    requires Unread(buf, s, t) && s < |t|
    ensures e == SkipSpaces(t, s) < |t|
  {
    e := s;
    while IsSpace(buf[e])
      invariant s <= e < |t| && SkipSpaces(t, e) == SkipSpaces(t, s)
      decreases |t| - e
    {
      e := e + 1;
    }
  }

  ghost predicate AttributeUpTo(t: string, s: nat, r: nat, out: string, quote: char, mode: AttributeMode, escapes: bool) {
    && s <= r <= |t|
    && AttributeFrom(t, s, quote, mode, escapes) == Prepend(out, AttributeFrom(t, r, quote, mode, escapes))
  }

  lemma PrependTwice(a: string, b: string, v: Value)
    ensures Prepend(a, Prepend(b, v)) == Prepend(a + b, v)
    ensures Prepend("", v) == v
  {
    if v.Value? { assert a + (b + v.text) == a + b + v.text; assert "" + v.text == v.text; }
  }

  lemma AttributeStep(t: string, s: nat, r: nat, out: string, quote: char, mode: AttributeMode, escapes: bool)
    requires AttributeUpTo(t, s, r, out, quote, mode, escapes) && r < |t| && t[r] != quote && t[r] != NUL
    ensures if Converts(t[r], mode) then
              AttributeUpTo(t, s, Converted(t, r, mode).next, out + Converted(t, r, mode).text, quote, mode, escapes)
            else if escapes && t[r] == '&' then
              Reference(t, r).next <= |t| && AttributeUpTo(t, s, Reference(t, r).next, out + Reference(t, r).text, quote, mode, escapes)
            else AttributeUpTo(t, s, r + 1, out + [t[r]], quote, mode, escapes)
  {
    hide Reference, Converts, Converted, Prepend;
    ReferenceShortens(t, r);
    if Converts(t[r], mode) {
      var c := Converted(t, r, mode);
      PrependTwice(out, c.text, AttributeFrom(t, c.next, quote, mode, escapes));
    } else if escapes && t[r] == '&' {
      var c := Reference(t, r);
      PrependTwice(out, c.text, AttributeFrom(t, c.next, quote, mode, escapes));
    } else {
      PrependTwice(out, [t[r]], AttributeFrom(t, r + 1, quote, mode, escapes));
    }
  }

  /** The loop of the attribute decoders, up to the closing quote or the end of the text. */
  method DecodeAttribute(buf: array<char>, g: Gap, ghost begin: nat, s: nat, quote: char, mode: AttributeMode, escapes: bool, ghost t: string)
    returns (r: nat, ghost out: string)
    requires begin <= s < buf.Length && g.Holds(buf, begin, s, "") && Unread(buf, s, t) && quote != NUL
    modifies g, buf
    ensures s <= r < |t| && (t[r] == quote || t[r] == NUL)
    ensures g.Holds(buf, begin, r, out) && Unread(buf, r, t) && AttributeUpTo(t, s, r, out, quote, mode, escapes)
    ensures (forall k | 0 <= k < begin :: buf[k] == old(buf[k]))
  {
    hide AttributeFrom, Reference, LineEnd, AttributeUpTo;
    out := "";
    r := s;
    AttributeStart(t, s, quote, mode, escapes);
    while buf[r] != quote && buf[r] != NUL
      invariant s <= r < |t| && g.Holds(buf, begin, r, out) && Unread(buf, r, t)
      invariant (forall k | 0 <= k < begin :: buf[k] == old(buf[k]))
      invariant AttributeUpTo(t, s, r, out, quote, mode, escapes)
      decreases |t| - r
    {
      AttributeStep(t, s, r, out, quote, mode, escapes);
      if Converts(buf[r], mode) {
        if mode.Wnorm? {
          r := PutSpace(buf, g, begin, r, out, t);
          out := out + " ";
        } else {
          var c := if mode.Wconv? then ' ' else '\n';
          r := PutLineEnd(buf, g, begin, r, c, out, t);
          out := out + [c];
        }
      } else if escapes && buf[r] == '&' {
        ghost var text := Reference(t, r).text;
        r := StrconvEscape(buf, g, begin, r, out, t);
        out := out + text;
      } else {
        KeepByte(buf, g, begin, r, out, t);
        out := out + [t[r]];
        r := r + 1;
      }
    }
  }

  lemma AttributeStart(t: string, s: nat, quote: char, mode: AttributeMode, escapes: bool)
    requires s <= |t|
    ensures AttributeUpTo(t, s, s, "", quote, mode, escapes)
  {
    PrependTwice("", "", AttributeFrom(t, s, quote, mode, escapes));
  }

  lemma AttributeEnd(t: string, r: nat, quote: char, mode: AttributeMode, escapes: bool)
    requires r < |t| && (t[r] == quote || t[r] == NUL) && quote != NUL && quote != '&' && !IsSpace(quote)
    ensures AttributeFrom(t, r, quote, mode, escapes) == if t[r] == quote then Value("", r + 1) else Unterminated
  {
  }

  /** Closes the gap and ends the text with NUL, and puts NUL over the spaces before that. What stands before
      the text is no space, so this stops. */
  method FinishNormalized(buf: array<char>, g: Gap, begin: nat, r: nat, ghost out: string)
    requires g.Holds(buf, begin, r, out) && r < buf.Length && 0 < begin && !IsSpace(buf[begin - 1])
    modifies buf
    ensures begin + |TrimEnd(out)| <= r && buf[begin..begin + |TrimEnd(out)|] == TrimEnd(out) && buf[begin + |TrimEnd(out)|] == NUL
    ensures (forall k | 0 <= k < begin || r < k < buf.Length :: buf[k] == old(buf[k]))
  {
    ghost var first := buf[..begin];
    var str := g.Flush(buf, begin, r, out);
    assert buf[begin - 1] == buf[..begin][begin - 1] == first[begin - 1];
    buf[str] := NUL;
    while IsSpace(buf[str - 1])
      invariant begin <= str <= r && buf[str] == NUL
      invariant buf[..begin] == first && buf[begin - 1] == first[begin - 1]
      invariant buf[r + 1..] == old(buf[r + 1..])
      invariant TrimEnd(buf[begin..str]) == TrimEnd(out)
      decreases str
    {
      assert str > begin;
      assert buf[begin..str][..str - begin - 1] == buf[begin..str - 1];
      str := str - 1;
      ghost var rest := buf[begin..str];
      buf[str] := NUL;
      assert buf[begin..str] == rest;
    }
    assert str == begin || !IsSpace(buf[begin..str][str - begin - 1]);
  }

  /** Skips the leading spaces of a value to be normalised. */
  method StartOfValue(buf: array<char>, g: Gap, s: nat, mode: AttributeMode, ghost t: string) returns (start: nat)
    requires s < buf.Length && g.Holds(buf, s, s, "") && Unread(buf, s, t)
    modifies g, buf
    ensures start == (if mode.Wnorm? then SkipSpaces(t, s) else s) && s <= start < |t|
    ensures g.Holds(buf, s, start, "") && Unread(buf, start, t) && (forall k | 0 <= k < s :: buf[k] == old(buf[k]))
  {
    start := s;
    if mode.Wnorm? {
      start := EndOfSpaces(buf, s, t);
      if start > s { start := g.Push(buf, s, s, start - s, ""); }
    }
  }

  /** The attribute decoders: the value at `s`, just after its opening quote, is decoded where it stands and
      ended with NUL. */
  method StrconvAttribute(buf: array<char>, s: nat, quote: char, mode: AttributeMode, escapes: bool) returns (ok: bool, next: nat)
    requires 0 < s < buf.Length && buf[buf.Length - 1] == NUL
    requires (quote == '"' || quote == '\'') && buf[s - 1] == quote
    modifies buf
    ensures ok == AttributeValue(old(buf[..]), s, quote, mode, escapes).Value?
    ensures ok ==> var v := AttributeValue(old(buf[..]), s, quote, mode, escapes);
                   && next == v.next <= buf.Length && s + |v.text| < buf.Length
                   && buf[s..s + |v.text|] == v.text && buf[s + |v.text|] == NUL
                   && forall k | next <= k < buf.Length :: buf[k] == old(buf[k])
    ensures (forall k | 0 <= k < s :: buf[k] == old(buf[k]))
  {
    hide AttributeFrom, TrimEnd, SkipSpaces, Reference;
    ghost var t := buf[..];
    var g := new Gap();
    var start := StartOfValue(buf, g, s, mode, t);
    var r;
    ghost var out;
    r, out := DecodeAttribute(buf, g, s, start, quote, mode, escapes, t);
    AttributeEnd(t, r, quote, mode, escapes);
    assert out + "" == out;
    ok, next := buf[r] == quote, r + 1;
    assert buf[..s] == t[..s];
    assert buf[s - 1] == buf[..s][s - 1] == t[s - 1];
    if !ok { return; }
    if mode.Wnorm? { FinishNormalized(buf, g, s, r, out); } else { FinishText(buf, g, s, r, out, false); }
  }
}
