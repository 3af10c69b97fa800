// From UTF-8 to the encodings of the output, and from UTF-16 to UTF-8: the decoders with the writers and
// counters they drive.
//
// Bytes are characters below 256. Byte order and the other input encodings are not modelled.
module Transcoding {
  import opened XmlText

  datatype Encoding = Native | Utf16 | Utf32 | Latin1

  predicate Bytes(s: string) { forall i | 0 <= i < |s| :: s[i] as int < 256 }

  /** 10xxxxxx. */
  predicate Continues(c: char) { 0x80 <= c as int < 0xC0 }

  predicate ContinuesFrom(s: string, n: nat)
    requires n <= |s|
  {
    forall i | 1 <= i < n :: Continues(s[i])
  }

  function Low6(c: char): int { c as int % 0x40 }

  /** One round of the decoder: how many bytes it takes, and the code point, or none if the byte is
      dropped. `high` says that it came from four bytes. */
  datatype Taken = Taken(length: nat, code: int, good: bool, high: bool)

  function Take(s: string): (r: Taken)
    requires s != "" && Bytes(s)
    ensures 1 <= r.length <= |s| && r.length <= 4 && 0 <= r.code < 0x200000
    ensures !r.high ==> r.code < 0x10000
  {
    var lead := s[0] as int;
    if lead < 0x80 then Taken(1, lead, true, false)
    else if 0xC0 <= lead < 0xE0 && |s| >= 2 && ContinuesFrom(s, 2) then
      Taken(2, (lead - 0xC0) * 0x40 + Low6(s[1]), true, false)
    else if 0xE0 <= lead < 0xF0 && |s| >= 3 && ContinuesFrom(s, 3) then
      Taken(3, (lead - 0xE0) * 0x1000 + Low6(s[1]) * 0x40 + Low6(s[2]), true, false)
    else if 0xF0 <= lead < 0xF8 && |s| >= 4 && ContinuesFrom(s, 4) then
      Taken(4, (lead - 0xF0) * 0x40000 + Low6(s[1]) * 0x1000 + Low6(s[2]) * 0x40 + Low6(s[3]), true, true)
    else Taken(1, 0, false, false)
  }

  /** What the writer of an encoding makes of a code point, in units of that encoding. */
  function Units(e: Encoding, code: int, high: bool): seq<int>
    requires 0 <= code < 0x200000
  {
    match e
    case Native => []
    case Utf32 => [code]
    case Latin1 => [if high || code > 255 then '?' as int else code]
    case Utf16 =>
      if !high then [code % 0x10000]
      else
        var c := (code - 0x10000) % WORD;
        [(0xD800 + c / 0x400) % 0x10000, 0xDC00 + c % 0x400]
  }

  function TakenUnits(e: Encoding, t: Taken): seq<int>
    requires 0 <= t.code < 0x200000
  {
    if t.good then Units(e, t.code, t.high) else []
  }

  /** utf8_decoder::process. */
  function Convert(e: Encoding, s: string): seq<int>
    requires Bytes(s)
  {
    if s == "" then [] else TakenUnits(e, Take(s)) + Convert(e, s[Take(s).length..])
  }

  /** What a text becomes on output; UTF-8 is written as it is. */
  function Output(e: Encoding, s: string): seq<int>
    requires Bytes(s)
  {
    if e.Native? then seq(|s|, i requires 0 <= i < |s| => s[i] as int) else Convert(e, s)
  }

  /** A sequence of complete characters. */
  predicate Whole(s: string)
    requires Bytes(s)
  {
    s == "" || (Take(s).good && Whole(s[Take(s).length..]))
  }

  // ---------------------------------------------------------------- cutting between characters

  lemma TakeOfPrefix(a: string, b: string)
    requires Bytes(a) && Bytes(b) && a != "" && Take(a).good
    ensures Bytes(a + b) && Take(a + b) == Take(a)
  {}

  /** Converting one character at a time. */
  lemma ConvertStep(e: Encoding, s: string)
    requires Bytes(s) && s != ""
    ensures Convert(e, s) == TakenUnits(e, Take(s)) + Convert(e, s[Take(s).length..])
  {}

  lemma {:induction false} ConvertJoins(e: Encoding, a: string, b: string)
    requires Bytes(a) && Bytes(b) && Whole(a)
    ensures Bytes(a + b) && Convert(e, a + b) == Convert(e, a) + Convert(e, b)
    decreases |a|
  {
    hide Take, TakenUnits;
    if a == "" {
      assert a + b == b;
    } else {
      var n := Take(a).length;
      TakeOfPrefix(a, b);
      assert (a + b)[n..] == a[n..] + b;
      ConvertJoins(e, a[n..], b);
      hide Convert, Whole;
      ConvertStep(e, a);
      ConvertStep(e, a + b);
    }
  }

  lemma OutputJoins(e: Encoding, a: string, b: string)
    requires Bytes(a) && Bytes(b) && (e.Native? || Whole(a))
    ensures Bytes(a + b) && Output(e, a + b) == Output(e, a) + Output(e, b)
  {
    if !e.Native? { ConvertJoins(e, a, b); }
  }

  lemma {:induction false} WholeJoins(a: string, b: string)
    requires Bytes(a) && Bytes(b) && Whole(a) && Whole(b)
    ensures Bytes(a + b) && Whole(a + b)
    decreases |a|
  {
    if a == "" {
      assert a + b == b;
    } else {
      var n := Take(a).length;
      TakeOfPrefix(a, b);
      assert (a + b)[n..] == a[n..] + b;
      WholeJoins(a[n..], b);
    }
  }

  lemma TakenContinues(s: string, i: nat)
    requires s != "" && Bytes(s) && Take(s).good && 1 <= i < Take(s).length
    ensures Continues(s[i])
  {}

  /** Before a byte that does not continue a character, a text falls into two whole parts. */
  lemma {:induction false} CutsWhole(s: string, k: nat)
    requires Bytes(s) && Whole(s) && k <= |s| && (k < |s| ==> !Continues(s[k]))
    ensures Whole(s[..k]) && Whole(s[k..])
    decreases |s|
  {
    if k == 0 {
      assert s[..k] == "" && s[k..] == s;
    } else {
      var n := Take(s).length;
      if k < n { TakenContinues(s, k); }
      CutsWhole(s[n..], k - n);
      assert s[n..][..k - n] == s[..k][n..] && s[n..][k - n..] == s[k..];
      TakeOfCut(s, k);
    }
  }

  lemma TakeOfCut(s: string, k: nat)
    requires s != "" && Bytes(s) && Take(s).good && Take(s).length <= k <= |s|
    ensures Take(s[..k]) == Take(s)
  {}

  /** No four bytes in a row continue a character. */
  lemma {:induction false} NoFourContinue(s: string, k: nat)
    requires Bytes(s) && Whole(s) && k + 4 <= |s|
    ensures !(Continues(s[k]) && Continues(s[k + 1]) && Continues(s[k + 2]) && Continues(s[k + 3]))
    decreases |s|
  {
    var n := Take(s).length;
    if k >= n {
      NoFourContinue(s[n..], k - n);
    } else if k > 0 && n <= k + 3 && n < |s| {
      StartsNotContinuing(s[n..]);
    }
  }

  lemma StartsNotContinuing(s: string)
    requires Bytes(s) && Whole(s) && s != ""
    ensures !Continues(s[0])
  {}

  lemma {:induction false} ConvertFits(e: Encoding, s: string)
    requires Bytes(s)
    ensures |Convert(e, s)| <= |s|
    decreases |s|
  {
    if s != "" {
      var n := Take(s).length;
      ConvertFits(e, s[n..]);
      assert |TakenUnits(e, Take(s))| <= n;
    }
  }

  // ---------------------------------------------------------------- round trips

  /** A Unicode scalar value. */
  predicate Scalar(c: int) { 0 <= c < 0xD800 || 0xE000 <= c < 0x110000 }

  predicate Scalars(cs: seq<int>) { forall i | 0 <= i < |cs| :: Scalar(cs[i]) }

  /** UTF-8 as the writer makes it. */
  function Encode8(cs: seq<int>): string
    requires Scalars(cs)
  {
    if cs == [] then "" else Utf8(cs[0]) + Encode8(cs[1..])
  }

  function Encode16(cs: seq<int>): seq<int>
    requires Scalars(cs)
  {
    if cs == [] then [] else Units(Utf16, cs[0], cs[0] >= 0x10000) + Encode16(cs[1..])
  }

  lemma SixBits(c: nat)
    ensures c == (c / 0x40) * 0x40 + c % 0x40 && c / 0x40 / 0x40 == c / 0x1000 && c / 0x1000 / 0x40 == c / 0x40000
  {}

  lemma TakeThree(a: int, b: int, d: int, s: string)
    requires 0 <= a < 0x10 && 0 <= b < 0x40 && 0 <= d < 0x40 && Bytes(s)
    ensures var u := [(0xE0 + a) as char, (0x80 + b) as char, (0x80 + d) as char] + s;
      Bytes(u) && Take(u) == Taken(3, a * 0x1000 + b * 0x40 + d, true, false)
  {}

  lemma TakeFour(a: int, b: int, d: int, e: int, s: string)
    requires 0 <= a < 8 && 0 <= b < 0x40 && 0 <= d < 0x40 && 0 <= e < 0x40 && Bytes(s)
    ensures var u := [(0xF0 + a) as char, (0x80 + b) as char, (0x80 + d) as char, (0x80 + e) as char] + s;
      Bytes(u) && Take(u) == Taken(4, a * 0x40000 + b * 0x1000 + d * 0x40 + e, true, true)
  {}

  lemma TakeOfUtf8(c: int, s: string)
    requires Scalar(c) && Bytes(s)
    ensures Bytes(Utf8(c) + s) && Utf8(c) != ""
    ensures Take(Utf8(c) + s) == Taken(|Utf8(c)|, c, true, c >= 0x10000)
  {
    if c < 0x800 {
    } else if c < 0x10000 {
      hide Take, Bytes;
      SixBits(c);
      SixBits(c / 0x40);
      TakeThree(c / 0x1000, c / 0x40 % 0x40, c % 0x40, s);
    } else {
      hide Take, Bytes;
      SixBits(c);
      SixBits(c / 0x40);
      SixBits(c / 0x1000);
      assert Lead(c / 0x40000) == (0xF0 + c / 0x40000) as char;
      TakeFour(c / 0x40000, c / 0x1000 % 0x40, c / 0x40 % 0x40, c % 0x40, s);
    }
  }

  /** The code points as Latin-1: a question mark for each that it does not have. */
  function Encode1(cs: seq<int>): (r: seq<int>)
    ensures |r| == |cs| && forall i | 0 <= i < |cs| :: r[i] == if cs[i] > 255 then '?' as int else cs[i]
  {
    if cs == [] then [] else [if cs[0] > 255 then '?' as int else cs[0]] + Encode1(cs[1..])
  }

  /** Encoding gives complete characters, and converting them gives what encoding the code points in the
      other form gives: UTF-32 is the code points themselves. */
  lemma {:induction false} ConvertsScalars(cs: seq<int>)
    requires Scalars(cs)
    ensures Bytes(Encode8(cs)) && Whole(Encode8(cs))
    ensures Convert(Utf32, Encode8(cs)) == cs && Convert(Utf16, Encode8(cs)) == Encode16(cs)
    ensures Convert(Latin1, Encode8(cs)) == Encode1(cs)
  {
    if cs != [] {
      var u, rest := Utf8(cs[0]), Encode8(cs[1..]);
      ConvertsScalars(cs[1..]);
      TakeOfUtf8(cs[0], rest);
      assert (u + rest)[|u|..] == rest;
      assert cs == [cs[0]] + cs[1..];
    }
  }

  // ---------------------------------------------------------------- UTF-16 to UTF-8

  /** utf16_decoder::process, as the list of code points it passes on. */
  function Decode16(s: seq<int>): (r: seq<int>)
    requires Words16(s)
    ensures Scalars(r)
  {
    if s == [] then []
    else
      var lead := s[0];
      if lead < 0xD800 then [lead] + Decode16(s[1..])
      else if 0xE000 <= lead < 0x10000 then [lead] + Decode16(s[1..])
      else if 0xD800 <= lead < 0xDC00 && |s| >= 2 && 0xDC00 <= s[1] < 0xE000 then
        [0x10000 + (lead % 0x400) * 0x400 + s[1] % 0x400] + Decode16(s[2..])
      else Decode16(s[1..])
  }

  predicate Words16(s: seq<int>) { forall i | 0 <= i < |s| :: 0 <= s[i] < 0x10000 }

  /** The first pass of a conversion: utf8_counter over the same code points. */
  function Count8(cs: seq<int>): nat
    requires Scalars(cs)
  {
    if cs == [] then 0
    else (if cs[0] < 0x80 then 1 else if cs[0] < 0x800 then 2 else if cs[0] < 0x10000 then 3 else 4) + Count8(cs[1..])
  }

  /** The first pass counts what the second writes. */
  lemma {:induction false} CountAgrees(cs: seq<int>)
    requires Scalars(cs)
    ensures Count8(cs) == |Encode8(cs)|
  {
    if cs != [] { CountAgrees(cs[1..]); }
  }

  lemma DecodePair(a: int, b: int, rest: seq<int>)
    requires 0 <= a < 0x400 && 0 <= b < 0x400 && Words16(rest)
    ensures var u := [0xD800 + a, 0xDC00 + b] + rest;
      Words16(u) && Decode16(u) == [0x10000 + a * 0x400 + b] + Decode16(rest)
  {
    var u := [0xD800 + a, 0xDC00 + b] + rest;
    assert u[2..] == rest;
    assert u[0] % 0x400 == a && u[1] % 0x400 == b;
  }

  lemma UnitsOf(c: int)
    requires Scalar(c)
    ensures Units(Utf16, c, c >= 0x10000) == (
      if c < 0x10000 then [c] else [0xD800 + (c - 0x10000) / 0x400, 0xDC00 + (c - 0x10000) % 0x400])
  {
    if c >= 0x10000 { TenBits(c - 0x10000); }
  }

  lemma DecodeLow(c: int, rest: seq<int>)
    requires Scalar(c) && c < 0x10000 && Words16(rest)
    ensures Words16([c] + rest) && Decode16([c] + rest) == [c] + Decode16(rest)
  {
    assert ([c] + rest)[1..] == rest;
  }

  lemma DecodeUnits(c: int, rest: seq<int>)
    requires Scalar(c) && Words16(rest)
    ensures var u := Units(Utf16, c, c >= 0x10000) + rest;
      Words16(u) && Decode16(u) == [c] + Decode16(rest)
  {
    hide Decode16, Units, Words16;
    UnitsOf(c);
    if c < 0x10000 {
      DecodeLow(c, rest);
    } else {
      TenBits(c - 0x10000);
      DecodePair((c - 0x10000) / 0x400, (c - 0x10000) % 0x400, rest);
    }
  }

  lemma TenBits(m: int)
    requires 0 <= m < 0x100000
    ensures (0xD800 + m / 0x400) % 0x400 == m / 0x400 && (0xDC00 + m % 0x400) % 0x400 == m % 0x400
    ensures m / 0x400 < 0x400 && m == (m / 0x400) * 0x400 + m % 0x400
  {}

  /** UTF-16 loses nothing: decoding the units of scalar values gives the values back. */
  lemma {:induction false} Decode16Encode16(cs: seq<int>)
    requires Scalars(cs)
    ensures Words16(Encode16(cs)) && Decode16(Encode16(cs)) == cs
  {
    if cs != [] {
      Decode16Encode16(cs[1..]);
      DecodeUnits(cs[0], Encode16(cs[1..]));
      assert cs == [cs[0]] + cs[1..];
    }
  }

  /** From UTF-8 to UTF-16 and back again: a document saved and loaded has the same text. */
  lemma ThroughUtf16(cs: seq<int>)
    requires Scalars(cs)
    ensures Bytes(Encode8(cs)) && Words16(Convert(Utf16, Encode8(cs)))
    ensures Encode8(Decode16(Convert(Utf16, Encode8(cs)))) == Encode8(cs)
  {
    ConvertsScalars(cs);
    Decode16Encode16(cs);
  }
}
