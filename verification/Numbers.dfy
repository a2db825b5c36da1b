/**
 Text conversion of 64-bit unsigned numbers: the `%lu` and `%lx` cases of the formatted
 printer and the string-to-number converter that reads them back.
 */
module Numbers {

  type U64 = v: int | 0 <= v < 0x1_0000_0000_0000_0000

  // ------------------------------------------------------------------------- digits

  function DigitChar(d: nat): char
    requires d < 36
  {
    if d < 10 then '0' + d as char else 'a' + (d - 10) as char
  }

  /** The value of a digit or letter in the widest base; 36 for any other character. */
  function DigitValue(c: char): nat {
    if '0' <= c <= '9' then (c - '0') as nat
    else if 'a' <= c <= 'z' then (c - 'a') as nat + 10
    else if 'A' <= c <= 'Z' then (c - 'A') as nat + 10
    else 36
  }

  lemma DigitRoundTrip(d: nat)
    requires d < 36
    ensures DigitValue(DigitChar(d)) == d
  {
  }

  /** Positional notation without leading zeros; zero is a single digit. */
  function Numeral(v: nat, base: nat): string
    requires 2 <= base <= 36
  {
    if v < base then [DigitChar(v)]
    else
      DivideAndRemainder(v, base);
      Numeral(v / base, base) + [DigitChar(v % base)]
  }

  /** Every character is a digit of the base. */
  ghost predicate AllDigits(s: string, base: nat) {
    forall i :: 0 <= i < |s| ==> DigitValue(s[i]) < base
  }

  function Value(s: string, base: nat): nat {
    if s == [] then 0 else Value(s[..|s| - 1], base) * base + DigitValue(s[|s| - 1])
  }

  lemma ValueAppend(s: string, c: char, base: nat)
    ensures Value(s + [c], base) == Value(s, base) * base + DigitValue(c)
  {
    assert (s + [c])[..|s|] == s;
  }

  lemma DivideAndRemainder(v: nat, base: nat)
    requires base > 0
    ensures v / base * base + v % base == v && v % base < base
    ensures v >= base >= 2 ==> v / base < v
  {
    var q := v / base;
    if v >= base >= 2 && q >= v {
      MulMonotone(2, base, q);
    }
  }

  lemma {:induction false} NumeralValue(v: nat, base: nat)
    requires 2 <= base <= 36
    ensures Numeral(v, base) != [] && AllDigits(Numeral(v, base), base) && Value(Numeral(v, base), base) == v
  {
    if v < base {
      DigitRoundTrip(v);
      ValueAppend("", DigitChar(v), base);
      assert "" + [DigitChar(v)] == [DigitChar(v)];
    } else {
      var q, r := v / base, v % base;
      DivideAndRemainder(v, base);
      NumeralValue(q, base);
      DigitRoundTrip(r);
      ValueAppend(Numeral(q, base), DigitChar(r), base);
    }
  }

  // ----------------------------------------------------------------------- printing

  /** Two's-complement truncation to 32 bits. */
  function Int32(x: int): int {
    (x + 0x8000_0000) % 0x1_0000_0000 - 0x8000_0000
  }

  lemma HalfDigits(v: nat)
    ensures v / 2 / 5 == v / 10 && v / 2 % 5 * 2 + v % 2 == v % 10
  {
  }

  /** The low digit of a number whose high bit is set: halve first, so that signed division is safe. */
  method LowDigit(v: U64) returns (digit: char, rest: U64)
    ensures digit == DigitChar(v % 10) && rest == v / 10
  {
    HalfDigits(v);
    var lowbit := v % 2;
    var value := v / 2;
    rest := value / 5;
    digit := '0' + (value % 5 * 2 + lowbit) as char;
  }

  /** The digit is computed in 32-bit arithmetic from the truncated number and quotient. */
  lemma TruncatedDigit(q: int)
    requires q >= 0
    ensures Int32(Int32(q) - Int32(Int32(q / 10) * 10)) == q % 10
  {
    var m := q / 10;
    var i := Int32Congruent(q);
    var j := Int32Congruent(m);
    var k := Int32Congruent(Int32(m) * 10);
    assert Int32(q) - Int32(Int32(m) * 10) == q % 10 + 0x1_0000_0000 * (k + 10 * j - i);
    Int32OfShifted(q % 10, k + 10 * j - i);
  }

  lemma Int32Congruent(x: int) returns (k: int)
    ensures Int32(x) == x - 0x1_0000_0000 * k
  {
    k := (x + 0x8000_0000) / 0x1_0000_0000;
  }

  lemma Int32OfShifted(x: int, k: int)
    requires 0 <= x < 0x8000_0000
    ensures Int32(x + 0x1_0000_0000 * k) == x
  {
  }

  /** `%lu`. */
  method PrintDecimal(v: U64) returns (s: string)
    ensures s == Numeral(v, 10)
  {
    var q := v;
    s := "";
    if q >= 0x8000_0000_0000_0000 {
      var digit, rest := LowDigit(q);
      s, q := [digit], rest;
    }
    while q > 9
      invariant 0 <= q < 0x8000_0000_0000_0000
      invariant Numeral(v, 10) == Numeral(q, 10) + s
    {
      var n := Int32(q);
      TruncatedDigit(q);
      var was := q;
      q := q / 10;
      s := ['0' + Int32(n - Int32(Int32(q) * 10)) as char] + s;
      assert Numeral(was, 10) == Numeral(q, 10) + [DigitChar(was % 10)];
    }
    s := ['0' + q as char] + s;
  }

  /** `%lx`: nibbles from the low end; zero has its own branch. */
  method PrintHex(v: U64) returns (s: string)
    ensures s == Numeral(v, 16)
  {
    if v == 0 {
      return "0";
    }
    var q := v;
    s := "";
    while q != 0
      invariant q >= 0
      invariant q > 0 ==> Numeral(v, 16) == Numeral(q, 16) + s
      invariant q == 0 ==> Numeral(v, 16) == s
    {
      var digit := "0123456789abcdef"[q % 16];
      s := [digit] + s;
      q := q / 16;
    }
  }

  // ------------------------------------------------------------------------ reading

  const MAX: U64 := 0xFFFF_FFFF_FFFF_FFFF

  /** `errno` is left alone when there is nothing to convert. */
  datatype Outcome = NoConversion | Converted | OutOfRange

  /** `end` is the index of the first character not converted. */
  datatype Parse = Parse(value: U64, end: nat, outcome: Outcome)

  predicate IsSpace(c: char) {
    c == ' ' || '\t' <= c <= '\r'
  }

  /** First position from `i` on that holds no white space. */
  function SkipSpace(s: string, i: nat): (j: nat)
    requires i <= |s|
    ensures i <= j <= |s|
    decreases |s| - i
  {
    if i < |s| && IsSpace(s[i]) then SkipSpace(s, i + 1) else i
  }

  predicate HasHexPrefix(s: string, i: nat) {
    i + 1 < |s| && s[i] == '0' && (s[i + 1] == 'x' || s[i + 1] == 'X')
  }

  /** First position from `i` on that holds no digit of the base. */
  function SkipDigits(s: string, i: nat, base: nat): (j: nat)
    requires i <= |s|
    ensures i <= j <= |s|
    decreases |s| - i
  {
    if i < |s| && DigitValue(s[i]) < base then SkipDigits(s, i + 1, base) else i
  }

  /** What the text says: blanks, an optional hexadecimal prefix, then as many digits as there are. */
  function Meaning(s: string, base: nat): Parse {
    var i := SkipSpace(s, 0);
    var b := if base == 0 then (if HasHexPrefix(s, i) then 16 else 10) else base;
    DigitsFrom(s, if b == 16 && HasHexPrefix(s, i) then i + 2 else i, b)
  }

  /** The digits from `first` on. */
  function DigitsFrom(s: string, first: nat, base: nat): Parse
    requires first <= |s|
  {
    var end := SkipDigits(s, first, base);
    if end == first then Parse(0, 0, NoConversion)
    else
      var v := Value(s[first..end], base);
      if v <= MAX then Parse(v, end, Converted) else Parse(MAX, end, OutOfRange)
  }

  /** One round of the digit loop: a number that never overflows and a sticky flag. */
  datatype Progress = Progress(n: U64, overflow: bool) {
    function Take(c: nat, base: nat): Progress
      requires 2 <= base <= 36 && c < base
    {
      if n > MAX / base || (n == MAX / base && c > MAX % base) then this.(overflow := true)
      else
        CutoffIsExact(n, c, base);
        this.(n := n * base + c)
    }

    /** The flag tells whether `x` fits; the number is `x` if it does. */
    ghost predicate Tracks(x: nat) {
      overflow == (x > MAX) && (!overflow ==> n == x)
    }
  }

  lemma TakeTracks(p: Progress, x: nat, c: nat, base: nat)
    requires 2 <= base <= 36 && c < base && p.Tracks(x)
    ensures p.Take(c, base).Tracks(x * base + c)
  {
    CutoffIsExact(p.n, c, base);
    if p.overflow { OverflowStays(x, c, base); }
  }

  lemma TakeDigit(p: Progress, s: string, first: nat, i: nat, base: nat)
    requires 2 <= base <= 36 && first <= i < |s| && DigitValue(s[i]) < base && p.Tracks(Value(s[first..i], base))
    ensures p.Take(DigitValue(s[i]), base).Tracks(Value(s[first..i + 1], base))
  {
    assert s[first..i + 1] == s[first..i] + [s[i]];
    ValueAppend(s[first..i], s[i], base);
    TakeTracks(p, Value(s[first..i], base), DigitValue(s[i]), base);
  }

  /** Comparing against quotient and remainder of the maximum decides overflow exactly. */
  lemma CutoffIsExact(i: nat, c: nat, base: nat)
    requires 2 <= base <= 36 && c < base
    ensures (i > MAX / base || (i == MAX / base && c > MAX % base)) <==> i * base + c > MAX
  {
    var q, r := MAX / base, MAX % base;
    DivideAndRemainder(MAX, base);
    if i > q {
      MulMonotone(q + 1, i, base);
      assert (q + 1) * base == q * base + base;
    } else if i < q {
      MulMonotone(i + 1, q, base);
      assert (i + 1) * base == i * base + base;
    }
  }

  lemma MulMonotone(a: nat, b: nat, c: nat)
    requires a <= b
    ensures a * c <= b * c
  {
  }

  lemma OverflowStays(x: nat, c: nat, base: nat)
    requires base >= 2 && x > MAX
    ensures x * base + c > MAX
  {
    MulMonotone(1, base, x);
  }

  /** The converter.  The digit loop keeps a number it never lets overflow and a sticky flag. */
  method ParseUnsigned(s: string, base: nat) returns (r: Parse)
    requires s != "" && (base == 0 || 2 <= base <= 36)
    ensures r == Meaning(s, base)
  {
    var i := 0;
    while i < |s| && IsSpace(s[i])
      invariant 0 <= i <= |s| && SkipSpace(s, 0) == SkipSpace(s, i)
    {
      i := i + 1;
    }
    if i == |s| {
      return Parse(0, 0, NoConversion);
    }
    var b := if base == 0 then (if HasHexPrefix(s, i) then 16 else 10) else base;
    if b == 16 && HasHexPrefix(s, i) {
      i := i + 2;
    }
    r := ParseDigits(s, i, b);
  }

  method ParseDigits(s: string, first: nat, base: nat) returns (r: Parse)
    requires first <= |s| && 2 <= base <= 36
    ensures r == DigitsFrom(s, first, base)
  {
    var p, i := Progress(0, false), first;
    while i < |s| && DigitValue(s[i]) < base
      invariant first <= i <= |s| && SkipDigits(s, first, base) == SkipDigits(s, i, base)
      invariant p.Tracks(Value(s[first..i], base))
    {
      TakeDigit(p, s, first, i, base);
      p, i := p.Take(DigitValue(s[i]), base), i + 1;
    }
    if i == first {
      return Parse(0, 0, NoConversion);
    }
    return if p.overflow then Parse(MAX, i, OutOfRange) else Parse(p.n, i, Converted);
  }

  lemma {:induction false} SkipAllDigits(s: string, t: string, i: nat, base: nat)
    requires i <= |s| && (forall k :: i <= k < |s| ==> DigitValue(s[k]) < base)
    requires t == [] || DigitValue(t[0]) >= base
    ensures SkipDigits(s + t, i, base) == |s|
    decreases |s| - i
  {
    if i < |s| { SkipAllDigits(s, t, i + 1, base); }
  }

  /** A printed number reads back as itself, all of it consumed: decimal ... */
  lemma DecimalRoundTrip(v: U64)
    ensures Meaning(Numeral(v, 10), 10) == Parse(v, |Numeral(v, 10)|, Converted)
  {
    var s := Numeral(v, 10);
    NumeralValue(v, 10);
    assert DigitValue(s[0]) < 10;
    assert s + [] == s && s[0..|s|] == s;
    SkipAllDigits(s, [], 0, 10);
  }

  /** ... and hexadecimal behind `0x`. */
  lemma HexRoundTrip(v: U64)
    ensures Meaning("0x" + Numeral(v, 16), 16) == Parse(v, 2 + |Numeral(v, 16)|, Converted)
  {
    var digits := Numeral(v, 16);
    var s := "0x" + digits;
    NumeralValue(v, 16);
    assert s + [] == s && s[2..|s|] == digits;
    SkipAllDigits(s, [], 2, 16);
  }

  /** On a string of digits: the exact value if it fits, else the maximum and a range error. */
  lemma DigitStrings(s: string, base: nat)
    requires 2 <= base <= 36 && s != "" && AllDigits(s, base)
    ensures Meaning(s, base) == if Value(s, base) <= MAX then Parse(Value(s, base), |s|, Converted) else Parse(MAX, |s|, OutOfRange)
  {
    assert DigitValue(s[0]) < base;
    assert base == 16 && |s| > 1 ==> DigitValue(s[1]) < 16;
    assert s + [] == s && s[0..|s|] == s;
    SkipAllDigits(s, [], 0, base);
  }

  function Power(base: nat, n: nat): nat { if n == 0 then 1 else Power(base, n - 1) * base }

  /** The digits in front weigh as much more as there are digits behind them. */
  lemma {:induction false} ValueOfPair(s: string, t: string, base: nat)
    ensures Value(s + t, base) == Value(s, base) * Power(base, |t|) + Value(t, base)
  {
    if t == "" {
      assert s + t == s;
    } else {
      var n := |t| - 1;
      ValueOfPair(s, t[..n], base);
      assert (s + t)[..|s + t| - 1] == s + t[..n];
      Distribute(Value(s, base), Power(base, n), Value(t[..n], base), base, DigitValue(t[n]));
    }
  }

  lemma Distribute(x: int, p: int, y: int, b: int, c: int)
    ensures (x * p + y) * b + c == x * (p * b) + (y * b + c)
  {
  }

  lemma {:induction false} SkipSpaceTail(c: char, s: string, i: nat)
    requires i <= |s|
    ensures SkipSpace([c] + s, i + 1) == SkipSpace(s, i) + 1
    decreases |s| - i
  {
    if i < |s| { SkipSpaceTail(c, s, i + 1); }
  }

  lemma {:induction false} SkipDigitsTail(c: char, s: string, i: nat, base: nat)
    requires i <= |s|
    ensures SkipDigits([c] + s, i + 1, base) == SkipDigits(s, i, base) + 1
    decreases |s| - i
  {
    if i < |s| { SkipDigitsTail(c, s, i + 1, base); }
  }

  lemma SliceTail(c: char, s: string, i: nat, j: nat)
    requires i <= j <= |s|
    ensures ([c] + s)[i + 1..j + 1] == s[i..j]
  {
  }

  lemma HexPrefixTail(c: char, s: string, i: nat)
    ensures HasHexPrefix([c] + s, i + 1) <==> HasHexPrefix(s, i)
  {
  }

  lemma SpaceInFront(c: char, s: string)
    requires c == ' ' || 9 <= c as int <= 13
    ensures SkipSpace([c] + s, 0) == SkipSpace(s, 0) + 1
  {
    assert IsSpace(([c] + s)[0]);
    SkipSpaceTail(c, s, 0);
  }

  /** The same answer, with one character more before it. */
  predicate Shifted(r: Parse, m: Parse) {
    r.value == m.value && r.outcome == m.outcome && r.end == if m.outcome == NoConversion then 0 else m.end + 1
  }

  lemma DigitsTail(c: char, s: string, first: nat, base: nat)
    requires first <= |s|
    ensures Shifted(DigitsFrom([c] + s, first + 1, base), DigitsFrom(s, first, base))
  {
    SkipDigitsTail(c, s, first, base);
    SliceTail(c, s, first, SkipDigits(s, first, base));
  }

  /** White space in front is skipped: a blank, a tab, or an end of a line or page. */
  lemma SpaceSkipped(c: char, s: string, base: nat)
    requires c == ' ' || 9 <= c as int <= 13
    ensures Shifted(Meaning([c] + s, base), Meaning(s, base))
  {
    var i := SkipSpace(s, 0);
    SpaceInFront(c, s);
    HexPrefixTail(c, s, i);
    var b := if base == 0 then (if HasHexPrefix(s, i) then 16 else 10) else base;
    DigitsTail(c, s, if b == 16 && HasHexPrefix(s, i) then i + 2 else i, b);
  }

  /** Base 0 is 16 behind the prefix `0x` or `0X`, and else 10. */
  lemma BaseZero(x: char, digits: string)
    requires x == 'x' || x == 'X'
    ensures Meaning("0" + ([x] + digits), 0) == Meaning("0" + ([x] + digits), 16)
    ensures digits != "" && AllDigits(digits, 10) ==> Meaning(digits, 0) == Meaning(digits, 10)
  {
    if digits != "" && AllDigits(digits, 10) {
      assert DigitValue(digits[0]) < 10 && (|digits| > 1 ==> DigitValue(digits[1]) < 10);
    }
  }
}
