// Integers read from and written to text, in unsigned arithmetic of 16, 32 or 64 bits.
module IntegerText {

  import opened XmlText
  import X = XmlReferences
  import Words

  datatype Bits = B16 | B32 | B64

  /** The number of values of the type. */
  function M(b: Bits): (m: nat)
    ensures m > 0
  {
    match b
    case B16 => 0x1_0000
    case B32 => 0x1_0000_0000
    case B64 => 0x1_0000_0000_0000_0000
  }

  function HexDigits(b: Bits): nat { match b case B16 => 4 case B32 => 8 case B64 => 16 }

  function MaxDigits(b: Bits): nat { match b case B16 => 5 case B32 => 10 case B64 => 20 }

  function MaxLead(b: Bits): char { match b case B16 => '6' case B32 => '4' case B64 => '1' }

  // ---------------------------------------------------------------- numbers in text

  /** The value of a digit in a base, or -1. */
  function DigitIn(c: char, hex: bool): int { Digit(c, hex) }

  function Base(hex: bool): nat { if hex then 16 else 10 }

  /** The number that a run of digits stands for. */
  function Number(s: string, hex: bool): int {
    if s == "" then 0 else Number(s[..|s| - 1], hex) * Base(hex) + DigitIn(s[|s| - 1], hex)
  }

  predicate AllDigits(s: string, hex: bool) { forall k | 0 <= k < |s| :: DigitIn(s[k], hex) >= 0 }

  /** Where the sign, if any, stands; where the digits start; and where they end. */
  function SignAt(s: string): (p: nat)
    ensures p <= |s|
  {
    SkipSpaces(s, 0)
  }

  function IsNegative(s: string): bool { At(s, SignAt(s)) == '-' }

  function AfterSign(s: string): (p: nat)
    ensures p <= |s|
  {
    var p := SignAt(s);
    if At(s, p) == '+' || At(s, p) == '-' then p + 1 else p
  }

  function IsHex(s: string): bool {
    At(s, AfterSign(s)) == '0' && (At(s, AfterSign(s) + 1) == 'x' || At(s, AfterSign(s) + 1) == 'X')
  }

  function DigitsAt(s: string): (p: nat)
    ensures p <= |s|
  {
    if IsHex(s) then AfterSign(s) + 2 else AfterSign(s)
  }

  function DigitsEnd(s: string, p: nat, hex: bool): (e: nat)
    requires p <= |s|
    ensures p <= e <= |s| && AllDigits(s[p..e], hex) && DigitIn(At(s, e), hex) < 0
    decreases |s| - p
  {
    if p < |s| && DigitIn(s[p], hex) >= 0 then
      var e := DigitsEnd(s, p + 1, hex);
      assert forall k | 0 <= k < e - p :: s[p..e][k] == (if k == 0 then s[p] else s[p + 1..e][k - 1]);
      e
    else p
  }

  /** The magnitude of the number that a text starts with. */
  function Magnitude(s: string): int {
    Number(s[DigitsAt(s)..DigitsEnd(s, DigitsAt(s), IsHex(s))], IsHex(s))
  }

  function Value(s: string): int { if IsNegative(s) then -Magnitude(s) else Magnitude(s) }

  /** An integer as a word. */
  function Encode(b: Bits, v: int): nat { v % M(b) }

  function Clamp(v: int, lo: int, hi: int): int { if v < lo then lo else if v > hi then hi else v }

  // ---------------------------------------------------------------- bounds on numbers

  function Pow(b: nat, n: nat): nat { if n == 0 then 1 else b * Pow(b, n - 1) }

  lemma Distributes(d: int, p: int, n: int, b: int)
    ensures (d * p + n) * b == d * (b * p) + n * b
  {
    assert (d * p + n) * b == d * p * b + n * b;
    assert d * p * b == d * (b * p);
  }

  lemma {:induction false} NumberFromLeft(s: string, hex: bool)
    requires s != "" && AllDigits(s, hex)
    ensures Number(s, hex) == DigitIn(s[0], hex) * Pow(Base(hex), |s| - 1) + Number(s[1..], hex)
    decreases |s|
  {
    if |s| > 1 {
      var t, c := s[..|s| - 1], DigitIn(s[|s| - 1], hex);
      NumberFromLeft(t, hex);
      assert s[1..][..|s| - 2] == t[1..] && s[1..][|s| - 2] == s[|s| - 1];
      Distributes(DigitIn(s[0], hex), Pow(Base(hex), |s| - 2), Number(t[1..], hex), Base(hex));
    } else {
      assert s[..0] == "" && s[1..] == "";
    }
  }

  lemma {:induction false} NumberBelow(s: string, hex: bool)
    requires AllDigits(s, hex)
    ensures 0 <= Number(s, hex) < Pow(Base(hex), |s|)
    decreases |s|
  {
    if s != "" {
      NumberBelow(s[..|s| - 1], hex);
      var n, p, b := Number(s[..|s| - 1], hex), Pow(Base(hex), |s| - 1), Base(hex);
      assert n + 1 <= p;
      assert (n + 1) * b <= p * b;
    }
  }

  /** A number without leading zero is as large as its digits say. */
  lemma NumberBounds(s: string, hex: bool)
    requires s != "" && AllDigits(s, hex)
    ensures var d, p := DigitIn(s[0], hex), Pow(Base(hex), |s| - 1); d * p <= Number(s, hex) < (d + 1) * p
  {
    hide Number, Pow;
    NumberFromLeft(s, hex);
    TailDigits(s, hex);
    NumberBelow(s[1..], hex);
    Between(DigitIn(s[0], hex), Pow(Base(hex), |s| - 1), Number(s[1..], hex));
  }

  lemma TailDigits(s: string, hex: bool)
    requires s != "" && AllDigits(s, hex)
    ensures AllDigits(s[1..], hex)
  {
    assert forall k | 0 <= k < |s[1..]| :: s[1..][k] == s[k + 1];
  }

  lemma Between(d: int, p: nat, r: int)
    requires 0 <= r < p
    ensures d * p <= d * p + r < (d + 1) * p
  {
    assert (d + 1) * p == d * p + p;
  }

  lemma {:induction false} PowGrows(b: nat, n: nat, m: nat)
    requires b >= 1 && n <= m
    ensures 1 <= Pow(b, n) <= Pow(b, m)
    decreases m
  {
    if n == m {
      if n > 0 { PowGrows(b, n - 1, n - 1); assert b * Pow(b, n - 1) >= 1; }
    } else {
      PowGrows(b, n, m - 1);
      assert b * Pow(b, m - 1) >= Pow(b, m - 1);
    }
  }

  lemma Powers()
    ensures Pow(10, 4) == 10000 && Pow(10, 5) == 100000
    ensures Pow(10, 9) == 1000000000 && Pow(10, 10) == 10000000000
    ensures Pow(10, 19) == 10000000000000000000 && Pow(10, 20) == 100000000000000000000
    ensures Pow(16, 4) == 0x1_0000 && Pow(16, 8) == 0x1_0000_0000 && Pow(16, 16) == 0x1_0000_0000_0000_0000
  {
    assert Pow(10, 3) == 1000;
    assert Pow(10, 7) == 10000000;
    assert Pow(10, 13) == 10000000000000;
    assert Pow(10, 16) == 10000000000000000;
    assert Pow(16, 3) == 0x1000;
    assert Pow(16, 6) == 0x100_0000;
    assert Pow(16, 12) == 0x1_0000_0000_0000;
  }

  // ---------------------------------------------------------------- detecting overflow

  /** Leading zeros do not count. */
  lemma {:induction false} LeadingZero(s: string, hex: bool)
    requires s != "" && s[0] == '0' && AllDigits(s, hex)
    ensures Number(s, hex) == Number(s[1..], hex)
  {
    NumberFromLeft(s, hex);
    assert DigitIn('0', hex) == 0;
  }

  lemma AtLeast(d: int, p: nat)
    requires d >= 1
    ensures d * p >= p
  {
  }

  /** A hexadecimal number is too large exactly when it has too many digits. */
  lemma HexOverflow(b: Bits, s: string)
    requires AllDigits(s, true) && (s == "" || s[0] != '0')
    ensures |s| > HexDigits(b) <==> Number(s, true) >= M(b)
  {
    hide Number, Pow;
    Powers();
    if s == "" {
      NumberBelow(s, true);
      PowGrows(16, 0, HexDigits(b));
    } else if |s| > HexDigits(b) {
      NumberBounds(s, true);
      PowGrows(16, HexDigits(b), |s| - 1);
      AtLeast(DigitIn(s[0], true), Pow(16, |s| - 1));
    } else {
      NumberBelow(s, true);
      PowGrows(16, |s|, HexDigits(b));
    }
  }

  /** The test of the program on a decimal number of which `result` is the low word. */
  predicate DecimalTest(b: Bits, s: string, result: nat)
  {
    |s| >= MaxDigits(b) &&
    !(|s| == MaxDigits(b) && (s[0] < MaxLead(b) || (s[0] == MaxLead(b) && result / (M(b) / 2) != 0)))
  }

  lemma TenToMaxDigits(b: Bits)
    ensures Pow(10, MaxDigits(b) - 1) <= M(b) <= Pow(10, MaxDigits(b))
    ensures var l, p := MaxLead(b) as int - 48, Pow(10, MaxDigits(b) - 1);
            l * p <= M(b) && M(b) / 2 <= l * p && (l + 1) * p - M(b) < M(b) / 2 && M(b) <= (l + 1) * p
  {
    Powers();
  }

  /** Number of digits, leading digit and high bit of the word tell exactly whether a decimal number is too
      large. */
  lemma DecimalOverflow(b: Bits, s: string)
    requires AllDigits(s, false) && (s == "" || s[0] != '0')
    ensures DecimalTest(b, s, Number(s, false) % M(b)) <==> Number(s, false) >= M(b)
  {
    hide Number, Pow;
    TenToMaxDigits(b);
    NumberBelow(s, false);
    if |s| < MaxDigits(b) {
      PowGrows(10, |s|, MaxDigits(b) - 1);
    } else if |s| > MaxDigits(b) {
      NumberBounds(s, false);
      PowGrows(10, MaxDigits(b), |s| - 1);
      AtLeast(DigitIn(s[0], false), Pow(10, |s| - 1));
    } else {
      LeadDecides(b, s);
    }
  }

  lemma HighBit(b: Bits, r: nat)
    ensures r / (M(b) / 2) != 0 <==> r >= M(b) / 2
  {
    match b case B16 => case B32 => case B64 =>
  }

  lemma LowWord(b: Bits, n: nat)
    ensures n < M(b) ==> n % M(b) == n
    ensures M(b) <= n < 2 * M(b) ==> n % M(b) == n - M(b)
  {
    match b case B16 => case B32 => case B64 =>
  }

  lemma Scaled(d: int, l: int, p: nat)
    ensures d < l ==> (d + 1) * p <= l * p
    ensures d > l ==> (l + 1) * p <= d * p
  {
    if d < l { assert (l - d - 1) * p >= 0; }
    if d > l { assert (d - l - 1) * p >= 0; }
  }

  lemma LeadDecides(b: Bits, s: string)
    requires AllDigits(s, false) && |s| == MaxDigits(b) && s[0] != '0'
    ensures DecimalTest(b, s, Number(s, false) % M(b)) <==> Number(s, false) >= M(b)
  {
    hide Number, Pow, M, AllDigits;
    TenToMaxDigits(b);
    NumberBounds(s, false);
    NumberBelow(s, false);
    FirstDigit(s);
    var l, p, n := MaxLead(b) as int - 48, Pow(10, MaxDigits(b) - 1), Number(s, false);
    Scaled(DigitIn(s[0], false), l, p);
    LowWord(b, n);
    HighBit(b, n % M(b));
  }

  lemma FirstDigit(s: string)
    requires AllDigits(s, false) && s != ""
    ensures DigitIn(s[0], false) == s[0] as int - 48
  {
  }

  // ---------------------------------------------------------------- string_to_integer

  /** The least value of the type whose word is `minv`: that word is zero for an unsigned type. */
  function Lowest(b: Bits, minv: nat): int { -((0 - minv) % M(b)) }

  /** The word of the number in the text, clamped to the range of the type. */
  function Expected(b: Bits, s: string, minv: nat, maxv: nat): nat {
    Encode(b, Clamp(Value(s), Lowest(b, minv), maxv))
  }

  /** `0 - minv`. Where `int` is wider than the type, the word is promoted to it first, and the difference is
      negative. */
  function ZeroMinus(b: Bits, promotes: bool, x: nat): int { if promotes then 0 - x else (0 - x) % M(b) }

  /** Where the run of zeros from `p` on ends. */
  function ZerosEnd(s: string, p: nat): (e: nat)
    requires p <= |s|
    ensures p <= e <= |s| && At(s, e) != '0' && forall k | p <= k < e :: s[k] == '0'
    decreases |s| - p
  {
    if p < |s| && s[p] == '0' then ZerosEnd(s, p + 1) else p
  }

  lemma {:induction false} ZerosAreDigits(s: string, p: nat, hex: bool)
    requires p <= |s|
    ensures ZerosEnd(s, p) <= DigitsEnd(s, p, hex) == DigitsEnd(s, ZerosEnd(s, p), hex)
    ensures Number(s[p..DigitsEnd(s, p, hex)], hex) == Number(s[ZerosEnd(s, p)..DigitsEnd(s, p, hex)], hex)
    decreases |s| - p
  {
    if p < |s| && s[p] == '0' {
      ZerosAreDigits(s, p + 1, hex);
      var e := DigitsEnd(s, p, hex);
      assert DigitIn('0', hex) == 0;
      LeadingZero(s[p..e], hex);
      assert s[p..e][1..] == s[p + 1..e];
    }
  }

  lemma NumberLast(s: string, hex: bool)
    requires s != ""
    ensures Number(s, hex) == Number(s[..|s| - 1], hex) * Base(hex) + DigitIn(s[|s| - 1], hex)
  {
  }

  lemma RunGoesOn(s: string, e: nat, hex: bool)
    requires e < |s| && DigitIn(s[e], hex) >= 0
    ensures DigitsEnd(s, e, hex) == DigitsEnd(s, e + 1, hex)
  {
  }

  lemma OneMoreDigit(t: string, u: string, hex: bool)
    requires u != "" && t == u[..|u| - 1] && AllDigits(t, hex) && DigitIn(u[|u| - 1], hex) >= 0
    ensures AllDigits(u, hex)
  {
    assert forall k | 0 <= k < |t| :: u[k] == t[k];
  }

  lemma NumberNext(s: string, start: nat, e: nat, hex: bool)
    requires start <= e < |s| && AllDigits(s[start..e], hex) && DigitIn(s[e], hex) >= 0
    ensures AllDigits(s[start..e + 1], hex)
    ensures Number(s[start..e + 1], hex) == Number(s[start..e], hex) * Base(hex) + DigitIn(s[e], hex)
    ensures DigitsEnd(s, e, hex) == DigitsEnd(s, e + 1, hex)
  {
    hide Number, DigitsEnd, AllDigits, Base, DigitIn;
    var t, u := s[start..e], s[start..e + 1];
    assert u[..|u| - 1] == t && u[|u| - 1] == s[e];
    NumberLast(u, hex);
    RunGoesOn(s, e, hex);
    OneMoreDigit(t, u, hex);
  }

  lemma RunStops(s: string, e: nat, hex: bool)
    requires e <= |s| && DigitIn(At(s, e), hex) < 0
    ensures DigitsEnd(s, e, hex) == e
  {
  }

  /** Reads digits from `start` on into a word. */
  method ReadRun(s: string, start: nat, hex: bool, b: Bits) returns (e: nat, result: nat)
    requires start <= |s|
    ensures e == DigitsEnd(s, start, hex) && result == Number(s[start..e], hex) % M(b)
  {
    hide Number, DigitsEnd, AllDigits, Base, M, DigitIn;
    e, result := start, 0;
    NoDigits(s[start..start], hex, b);
    while DigitIn(At(s, e), hex) >= 0
      invariant start <= e <= |s| && DigitsEnd(s, e, hex) == DigitsEnd(s, start, hex)
      invariant AllDigits(s[start..e], hex) && result == Number(s[start..e], hex) % M(b)
      decreases |s| - e
    {
      NulIsNoDigit(s, e, hex);
      NumberNext(s, start, e, hex);
      WordStep(Number(s[start..e], hex), Base(hex), DigitIn(s[e], hex), M(b));
      result := (result * Base(hex) + DigitIn(s[e], hex)) % M(b);
      e := e + 1;
    }
    RunStops(s, e, hex);
  }

  lemma NoDigits(s: string, hex: bool, b: Bits)
    requires s == ""
    ensures AllDigits(s, hex) && Number(s, hex) % M(b) == 0
  {
  }

  lemma NulIsNoDigit(s: string, e: nat, hex: bool)
    requires e <= |s| && DigitIn(At(s, e), hex) >= 0
    ensures e < |s|
  {
  }

  lemma WordStep(n: int, base: nat, d: int, m: nat)
    requires m > 0
    ensures ((n % m) * base + d) % m == (n * base + d) % m
  {
    var q, r := n / m, n % m;
    assert n == q * m + r;
    assert n * base + d == r * base + d + (q * base) * m by {
      assert (q * m + r) * base == q * m * base + r * base;
      assert q * m * base == (q * base) * m;
    }
    Words.ModMultiple(r * base + d, q * base, m);
  }

  /** The last step, from the magnitude `n` of which `result` is the low word. */
  lemma WordOfResult(b: Bits, promotes: bool, n: int, minv: nat, maxv: nat, negative: bool, overflow: bool, result: nat)
    requires minv < M(b) && maxv < M(b) && n >= 0 && result == n % M(b) && (overflow <==> n >= M(b))
    ensures var v, r := (if negative then -n else n), FinalWord(b, promotes, minv, maxv, negative, overflow, result);
            r == Encode(b, Clamp(v, Lowest(b, minv), maxv)) <==> !(promotes && minv > 0 && negative && v > Lowest(b, minv))
  {
    LowWord(b, n);
    LowestFacts(b, minv);
    if negative { NegativeWord(b, promotes, n, minv, maxv, overflow, result); } else { PositiveWord(b, promotes, n, minv, maxv, overflow, result); }
  }

  /** The least value is zero or the negative number of the word. */
  lemma LowestFacts(b: Bits, minv: nat)
    requires minv < M(b)
    ensures Lowest(b, minv) == (if minv == 0 then 0 else minv - M(b)) && Encode(b, Lowest(b, minv)) == minv
    ensures ZeroMinus(b, false, minv) == -Lowest(b, minv)
  {
    hide M;
    if minv > 0 {
      Words.DivUnique(0 - minv, M(b), -1, M(b) - minv);
      Words.DivUnique(minv - M(b), M(b), -1, minv);
    }
  }

  lemma EncodeIs(b: Bits, v: int)
    ensures 0 <= v < M(b) ==> Encode(b, v) == v
    ensures 0 - M(b) <= v < 0 ==> Encode(b, v) == v + M(b)
  {
    hide M;
    if 0 <= v < M(b) { Words.DivUnique(v, M(b), 0, v); }
    if 0 - M(b) <= v < 0 { Words.DivUnique(v, M(b), -1, v + M(b)); }
  }

  lemma PositiveWord(b: Bits, promotes: bool, n: int, minv: nat, maxv: nat, overflow: bool, result: nat)
    requires minv < M(b) && maxv < M(b) && n >= 0 && result == (if n < M(b) then n else result) && (overflow <==> n >= M(b))
    requires Lowest(b, minv) <= 0
    ensures FinalWord(b, promotes, minv, maxv, false, overflow, result) == Encode(b, Clamp(n, Lowest(b, minv), maxv))
  {
    hide Lowest, M, Encode;
    EncodeIs(b, Clamp(n, Lowest(b, minv), maxv));
  }

  lemma NegativeWord(b: Bits, promotes: bool, n: int, minv: nat, maxv: nat, overflow: bool, result: nat)
    requires minv < M(b) && maxv < M(b) && n >= 0 && result == (if n < M(b) then n else result) && (overflow <==> n >= M(b))
    requires Lowest(b, minv) == (if minv == 0 then 0 else minv - M(b)) && Encode(b, Lowest(b, minv)) == minv
    requires ZeroMinus(b, false, minv) == -Lowest(b, minv)
    ensures FinalWord(b, promotes, minv, maxv, true, overflow, result) == Encode(b, Clamp(-n, Lowest(b, minv), maxv))
            <==> !(promotes && minv > 0 && -n > Lowest(b, minv))
  {
    hide Lowest, M, Encode;
    EncodeIs(b, Clamp(-n, Lowest(b, minv), maxv));
    if n < M(b) { EncodeIs(b, -n); SameEncode(b, n); }
  }

  lemma SameEncode(b: Bits, n: int)
    ensures (0 - n) % M(b) == Encode(b, -n)
  {
  }

  function FinalWord(b: Bits, promotes: bool, minv: nat, maxv: nat, negative: bool, overflow: bool, result: nat): int {
    if negative then (if overflow || result > ZeroMinus(b, promotes, minv) then minv else (0 - result) % M(b))
    else if overflow || result > maxv then maxv else result
  }

  /** Spaces, sign and hexadecimal prefix. */
  method ReadPrefix(value: string) returns (negative: bool, hex: bool, p: nat)
    ensures negative == IsNegative(value) && hex == IsHex(value) && p == DigitsAt(value)
  {
    var s := 0;
    while IsSpace(At(value, s))
      invariant 0 <= s <= |value| && SkipSpaces(value, s) == SkipSpaces(value, 0)
      decreases |value| - s
    {
      s := s + 1;
    }
    negative := At(value, s) == '-';
    if At(value, s) == '+' || At(value, s) == '-' { s := s + 1; }
    hex := At(value, s) == '0' && (At(value, s + 1) == 'x' || At(value, s + 1) == 'X');
    p := if hex then s + 2 else s;
  }

  /** `string_to_integer`: the number that the text starts with, clamped to the range of the type, is returned
      for every text. Only for a signed type narrower than `int` it is not: the program returns the least
      value there for every negative text, and this is right for texts at or below that value alone. The
      library itself reads no type narrower than `int`. */
  method StringToInteger(value: string, b: Bits, promotes: bool, minv: nat, maxv: nat) returns (r: nat)
    requires minv < M(b) && maxv < M(b)
    ensures r == Expected(b, value, minv, maxv) <==>
            !(promotes && minv > 0 && IsNegative(value) && Value(value) > Lowest(b, minv))
  {
    hide M, Lowest, Encode, Number, DigitsEnd, IsNegative, IsHex, DigitsAt;
    var negative, hex, p := ReadPrefix(value);
    var overflow, result := ReadMagnitude(value, p, hex, b);
    WordOfResult(b, promotes, Magnitude(value), minv, maxv, negative, overflow, result);
    if negative {
      r := if overflow || result > ZeroMinus(b, promotes, minv) then minv else (0 - result) % M(b);
    } else {
      r := if overflow || result > maxv then maxv else result;
    }
  }

  /** The digits from `p` on, leading zeros apart: their low word, and whether they are too large for one. */
  method ReadMagnitude(value: string, p: nat, hex: bool, b: Bits) returns (overflow: bool, result: nat)
    requires p <= |value|
    ensures var n := Number(value[p..DigitsEnd(value, p, hex)], hex);
            n >= 0 && result == n % M(b) && (overflow <==> n >= M(b))
  {
    var start := p;
    while At(value, start) == '0'
      invariant p <= start <= |value| && ZerosEnd(value, start) == ZerosEnd(value, p)
      decreases |value| - start
    {
      start := start + 1;
    }
    ZerosAreDigits(value, p, hex);
    var e;
    e, result := ReadRun(value, start, hex, b);
    ghost var digits := value[start..e];
    NumberBelow(digits, hex);
    if hex {
      overflow := e - start > HexDigits(b);
      HexOverflow(b, digits);
    } else {
      overflow := e - start >= MaxDigits(b) &&
        !(e - start == MaxDigits(b) &&
          (At(value, start) < MaxLead(b) || (At(value, start) == MaxLead(b) && result / (M(b) / 2) != 0)));
      DecimalOverflow(b, digits);
    }
  }

  // ---------------------------------------------------------------- integer_to_string

  function Decimal(n: nat): string { (if n < 10 then "" else Decimal(n / 10)) + [(48 + n % 10) as char] }

  /** The digits in front of the last ones. */
  function Lead(r: nat): string { if r == 0 then "" else Decimal(r) }

  lemma LeadStep(r: nat, s: string)
    requires r != 0
    ensures Lead(r) + s == Lead(r / 10) + ([(48 + r % 10) as char] + s)
  {
  }

  lemma LastDigit(n: nat)
    ensures Decimal(n) == Lead(n / 10) + [(48 + n % 10) as char]
  {
  }

  /** `integer_to_string`: the digits are put down from the last one on. */
  method IntegerToString(b: Bits, value: nat, negative: bool) returns (s: string)
    requires value < M(b)
    ensures s == (if negative then "-" else "") + Decimal(if negative then (0 - value) % M(b) else value)
  {
    hide Decimal, Lead, M;
    var rest: nat := if negative then (0 - value) % M(b) else value;
    ghost var n := rest;
    LastDigit(n);
    s := [(48 + rest % 10) as char];
    rest := rest / 10;
    while rest != 0
      invariant Decimal(n) == Lead(rest) + s
    {
      LeadStep(rest, s);
      s := [(48 + rest % 10) as char] + s;
      rest := rest / 10;
    }
    NoLead(s);
    if negative { s := "-" + s; }
  }

  lemma NoLead(s: string)
    ensures Lead(0) + s == s
  {
  }

  lemma DigitOf(n: nat)
    ensures DigitIn((48 + n % 10) as char, false) == n % 10 && ((48 + n % 10) as char == '0' <==> n % 10 == 0)
  {
  }

  /** One more digit at the end of a text of digits. */
  lemma DigitAppended(t: string, d: char, hex: bool)
    requires AllDigits(t, hex) && DigitIn(d, hex) >= 0
    ensures AllDigits(t + [d], hex) && Number(t + [d], hex) == Number(t, hex) * Base(hex) + DigitIn(d, hex)
  {
    hide Number, DigitIn;
    var u := t + [d];
    assert u[..|u| - 1] == t;
    NumberLast(u, hex);
    OneMoreDigit(t, u, hex);
  }

  lemma {:induction false} DecimalReads(n: nat)
    ensures var s := Decimal(n); AllDigits(s, false) && Number(s, false) == n && s != "" && (s[0] == '0' ==> |s| == 1)
    decreases n
  {
    hide DigitIn, AllDigits, Number;
    DigitOf(n);
    NoDigits("", false, B16);
    DigitAppended("", (48 + n % 10) as char, false);
    EmptyNumber();
    if n >= 10 {
      DecimalReads(n / 10);
      DigitAppended(Decimal(n / 10), (48 + n % 10) as char, false);
      LeadNotZero(n / 10);
    }
  }

  lemma EmptyNumber()
    ensures Number("", false) == 0
  {
  }

  lemma {:induction false} LeadNotZero(n: nat)
    requires n > 0
    ensures Decimal(n) != "" && Decimal(n)[0] != '0'
  {
    if n >= 10 { LeadNotZero(n / 10); }
  }

  lemma {:induction false} WholeRun(s: string, p: nat, hex: bool)
    requires p <= |s| && AllDigits(s[p..], hex)
    ensures DigitsEnd(s, p, hex) == |s|
    decreases |s| - p
  {
    if p < |s| {
      assert s[p..][0] == s[p];
      assert s[p + 1..] == s[p..][1..];
      TailDigits(s[p..], hex);
      WholeRun(s, p + 1, hex);
    }
  }

  /** A text without prefix, whose digits `d` start at `p`. */
  lemma DigitsRead(s: string, p: nat, d: string)
    requires p <= |s| && s[p..] == d && d != "" && AllDigits(d, false) && (d[0] == '0' ==> |d| == 1) && AfterSign(s) == p
    ensures Magnitude(s) == Number(d, false)
  {
    hide Number, DigitsEnd, AfterSign;
    assert At(s, p) == d[0] && At(s, p + 1) == At(d, 1);
    assert !IsHex(s);
    WholeRun(s, p, false);
    assert s[p..|s|] == d;
  }

  /** The text of a number is read as that number. */
  lemma TextReads(n: nat, negative: bool)
    ensures Value((if negative then "-" else "") + Decimal(n)) == if negative then 0 - n else n
  {
    DecimalReads(n);
    var d := Decimal(n);
    var s := (if negative then "-" else "") + d;
    var p := if negative then 1 else 0;
    SignOf(s, d, negative);
    DigitsRead(s, p, d);
  }

  lemma SignOf(s: string, d: string, negative: bool)
    requires d != "" && AllDigits(d, false) && s == (if negative then "-" else "") + d
    ensures IsNegative(s) == negative && AfterSign(s) == (if negative then 1 else 0) <= |s| && s[AfterSign(s)..] == d
  {
    assert DigitIn(d[0], false) >= 0;
    assert At(s, 0) == if negative then '-' else d[0];
    assert SkipSpaces(s, 0) == 0;
  }

  lemma HalfOf(b: Bits)
    ensures 0 < M(b) / 2 < M(b) && M(b) == 2 * (M(b) / 2)
  {
    match b case B16 => case B32 => case B64 =>
  }

  function MinWord(b: Bits, signed: bool): nat { if signed then M(b) / 2 else 0 }

  function MaxWord(b: Bits, signed: bool): nat { if signed then M(b) / 2 - 1 else M(b) - 1 }

  predicate InRange(b: Bits, v: int, signed: bool) {
    if signed then -(M(b) / 2) <= v < M(b) / 2 else 0 <= v < M(b)
  }

  /** The text written for a value stands for it. */
  lemma WrittenText(b: Bits, v: int, signed: bool)
    requires InRange(b, v, signed)
    ensures var text := (if v < 0 then "-" else "") + Decimal(if v < 0 then (0 - Encode(b, v)) % M(b) else Encode(b, v));
            && Value(text) == v && Expected(b, text, MinWord(b, signed), MaxWord(b, signed)) == Encode(b, v)
            && (IsNegative(text) <==> v < 0)
  {
    hide Decimal, Value, M, Lowest, IsNegative;
    HalfOf(b);
    EncodeIs(b, v);
    if v < 0 { Words.DivUnique(0 - Encode(b, v), M(b), -1, 0 - v); }
    var n := if v < 0 then 0 - v else v;
    TextReads(n, v < 0);
    DecimalReads(n);
    SignOf((if v < 0 then "-" else "") + Decimal(n), Decimal(n), v < 0);
    LowestFacts(b, MinWord(b, signed));
  }

  lemma LeastValue(b: Bits, signed: bool)
    ensures Lowest(b, MinWord(b, signed)) == if signed then -(M(b) / 2) else 0
    ensures MinWord(b, signed) < M(b) && MaxWord(b, signed) < M(b) && (MinWord(b, signed) > 0 <==> signed)
  {
    hide M, Lowest;
    HalfOf(b);
    LowestFacts(b, MinWord(b, signed));
  }

  /** What `integer_to_string` writes `string_to_integer` reads back, for every value of every type that is not
      narrower than `int`. Of a narrower signed type, all values come back but the negative ones above the least. */
  method IntegerRoundTrip(b: Bits, promotes: bool, v: int, signed: bool) returns (r: nat)
    requires InRange(b, v, signed)
    ensures r == Encode(b, v) <==> !(promotes && signed && -(M(b) / 2) < v < 0)
  {
    hide Decimal, Value, M, Lowest, IsNegative, Expected;
    LeastValue(b, signed);
    WrittenText(b, v, signed);
    HalfOf(b);
    var text := IntegerToString(b, Encode(b, v), v < 0);
    r := StringToInteger(text, b, promotes, MinWord(b, signed), MaxWord(b, signed));
  }

  // ---------------------------------------------------------------- hexadecimal

  /** The text is a number in hexadecimal digits, small or capital, with any zeros in front. */
  predicate WritesHex(s: string, n: nat) {
    if s == "" then n == 0 else X.IsDigitAt(s[|s| - 1], n % 16) && WritesHex(s[..|s| - 1], n / 16)
  }

  lemma {:induction false} HexReads(s: string, n: nat)
    requires WritesHex(s, n)
    ensures AllDigits(s, true) && Number(s, true) == n
    decreases |s|
  {
    hide DigitIn, AllDigits, Number;
    if s == "" {
      NoDigits("", true, B16);
      EmptyHex();
    } else {
      var t, d := s[..|s| - 1], s[|s| - 1];
      HexReads(t, n / 16);
      HexDigit(d, n % 16);
      assert s == t + [d];
      DigitAppended(t, d, true);
      assert n == n / 16 * 16 + n % 16;
    }
  }

  lemma EmptyHex()
    ensures Number("", true) == 0
  {
  }

  lemma HexDigit(c: char, d: nat)
    requires X.IsDigitAt(c, d)
    ensures DigitIn(c, true) == d
  {
    X.DigitAt(c, d);
  }

  lemma HexSign(s: string, d: string, negative: bool, x: char)
    requires (x == 'x' || x == 'X') && s == (if negative then "-" else "") + ['0', x] + d
    ensures IsNegative(s) == negative && IsHex(s) && DigitsAt(s) == (if negative then 3 else 2) <= |s| && s[DigitsAt(s)..] == d
  {
    var p := if negative then 1 else 0;
    assert At(s, 0) == (if negative then '-' else '0') && At(s, p) == '0' && At(s, p + 1) == x;
    assert SkipSpaces(s, 0) == 0;
  }

  /** A number in hexadecimal is read as that number, whichever digits it is written with, and clamped to the type. */
  lemma HexTextReads(n: nat, digits: string, negative: bool, x: char, b: Bits, minv: nat, maxv: nat)
    requires WritesHex(digits, n) && (x == 'x' || x == 'X')
    ensures var s, v := (if negative then "-" else "") + ['0', x] + digits, if negative then 0 - n else n;
            Value(s) == v && Expected(b, s, minv, maxv) == Encode(b, Clamp(v, Lowest(b, minv), maxv))
  {
    hide Number, DigitsEnd, AllDigits, DigitsAt, IsHex, IsNegative, Lowest, Encode, WritesHex;
    var s := (if negative then "-" else "") + ['0', x] + digits;
    HexReads(digits, n);
    HexSign(s, digits, negative, x);
    WholeRun(s, DigitsAt(s), true);
    assert s[DigitsAt(s)..|s|] == digits;
  }

  /** A signed type of sixteen bits reads "-5" as -32768 where `int` is wider, and as -5 where it is not. */
  lemma SixteenBitsFail()
    ensures IsNegative("-5") && Value("-5") == -5 && Value("-5") > Lowest(B16, 0x8000)
    ensures FinalWord(B16, true, 0x8000, 0x7FFF, true, false, 5) == 0x8000 != Encode(B16, -5)
    ensures FinalWord(B16, false, 0x8000, 0x7FFF, true, false, 5) == Encode(B16, -5)
  {
    var s := "-5";
    assert SkipSpaces(s, 0) == 0;
    WholeRun(s, 1, false);
    assert s[1..2] == "5" && "5"[..0] == "";
  }
}
