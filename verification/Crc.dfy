/**
 The 32-bit cyclic redundancy check: table-driven, a byte at a time, most significant bit
 first.  Words are sequences of bits, the most significant first.
 */
module Crc {
  import opened Basics

  type Bits = seq<bool>

  function Zeros(n: nat): (z: Bits)
    ensures |z| == n && forall i :: 0 <= i < n ==> !z[i]
  {
    seq(n, _ => false)
  }

  type Word = w: Bits | |w| == 32 witness Zeros(32)
  type Octet = b: Bits | |b| == 8 witness Zeros(8)

  function Xor(x: Bits, y: Bits): (r: Bits)
    requires |x| == |y|
    ensures |r| == |x| && forall i :: 0 <= i < |x| ==> r[i] == (x[i] != y[i])
  {
    seq(|x|, i requires 0 <= i < |x| => x[i] != y[i])
  }

  /** The `n` lowest bits of `v`. */
  function FromNat(v: nat, n: nat): (b: Bits)
    ensures |b| == n && (n > 0 ==> b[n - 1] == (v % 2 == 1))
    decreases n, v
  {
    if n == 0 then [] else FromNat(v / 2, n - 1) + [v % 2 == 1]
  }

  function ToNat(b: Bits): nat {
    if b == [] then 0 else 2 * ToNat(b[..|b| - 1]) + (if b[|b| - 1] then 1 else 0)
  }

  lemma {:induction false} NatRoundTrip(b: Bits)
    ensures FromNat(ToNat(b), |b|) == b && ToNat(b) < Pow2(|b|)
  {
    if b != [] { NatRoundTrip(b[..|b| - 1]); }
  }

  lemma {:induction false} FromNatValue(v: nat, n: nat)
    ensures ToNat(FromNat(v, n)) == v % Pow2(n)
    decreases n
  {
    if n > 0 {
      FromNatValue(v / 2, n - 1);
      HalveFirst(v, Pow2(n - 1));
      assert FromNat(v, n)[..n - 1] == FromNat(v / 2, n - 1);
    }
  }

  /** The lowest `k` bits of a number, and the ones above them. */
  lemma {:induction false} FromNatSplit(v: nat, n: nat, k: nat)
    requires k <= n
    ensures FromNat(v, n) == FromNat(Shr(v, k), n - k) + FromNat(v, k)
    decreases k
  {
    if k > 0 {
      FromNatSplit(v / 2, n - 1, k - 1);
      ShrHalf(v, k);
    }
  }

  const POLYNOMIAL: Word := FromNat(0x04c11db7, 32)

  // ---------------------------------------------------------------------- bit by bit

  /** Shifted to the left by `n`. */
  function Shl(c: Word, n: nat): Word
    requires n <= 32
  {
    c[n..] + Zeros(n)
  }

  /** One step of the shift register that takes in a bit: it is added to the one shifted out. */
  function ShiftIn(c: Word, bit: bool, poly: Word): Word {
    if c[0] != bit then Xor(Shl(c, 1), poly) else Shl(c, 1)
  }

  /** Bits shifted in one at a time: the reference. */
  function Serial(c: Word, bits: Bits, poly: Word): Word
    decreases |bits|
  {
    if bits == [] then c else Serial(ShiftIn(c, bits[0], poly), bits[1..], poly)
  }

  /** Byte `j` of a word, counted from the least significant; its highest bit first. */
  function ByteOf(w: Word, j: nat): Octet
    requires j < 4
  {
    w[24 - 8 * j..32 - 8 * j]
  }

  /** The first `n` bytes of a word, the least significant first. */
  function Bytes(w: Word, n: nat): (b: Bits)
    requires n <= 4
    ensures |b| == 8 * n
  {
    if n == 0 then [] else Bytes(w, n - 1) + ByteOf(w, n - 1)
  }

  /** Byte `j` of a number: its digit to base 256. */
  lemma ByteOfNumber(v: nat, j: nat)
    requires j < 4
    ensures ToNat(ByteOf(FromNat(v, 32), j)) == v / Pow2(8 * j) % 256
  {
    var high := Shr(v, 8 * j);
    FromNatSplit(v, 32, 8 * j);
    FromNatSplit(high, 32 - 8 * j, 8);
    assert ByteOf(FromNat(v, 32), j) == FromNat(high, 8);
    FromNatValue(high, 8);
    Pow2Values();
    ShrDivides(v, 8 * j);
  }

  function SerialAll(c: Word, words: seq<Word>, poly: Word): Word {
    if words == [] then c else Serial(SerialAll(c, words[..|words| - 1], poly), Bytes(words[|words| - 1], 4), poly)
  }

  // ------------------------------------------------------------------------ linearity

  function Shift(c: Word, poly: Word): Word { ShiftIn(c, false, poly) }

  function Shifts(c: Word, n: nat, poly: Word): Word
    decreases n, c
  {
    if n == 0 then c else Shifts(Shift(c, poly), n - 1, poly)
  }

  lemma ShiftLinear(x: Word, y: Word, poly: Word)
    ensures Shift(Xor(x, y), poly) == Xor(Shift(x, poly), Shift(y, poly))
  {
  }

  lemma {:induction false} ShiftsLinear(x: Word, y: Word, n: nat, poly: Word)
    ensures Shifts(Xor(x, y), n, poly) == Xor(Shifts(x, n, poly), Shifts(y, n, poly))
    decreases n
  {
    if n > 0 {
      ShiftLinear(x, y, poly);
      ShiftsLinear(Shift(x, poly), Shift(y, poly), n - 1, poly);
    }
  }

  /** `bits` at the top of a word. */
  function Top(bits: Bits): Word
    requires |bits| <= 32
  {
    bits + Zeros(32 - |bits|)
  }

  /** Taking in a bit is the same as adding it at the top of the register beforehand. */
  lemma ShiftInIsXor(c: Word, bits: Bits, poly: Word)
    requires 0 < |bits| <= 32
    ensures Shift(Xor(c, Top(bits)), poly) == Xor(ShiftIn(c, bits[0], poly), Top(bits[1..]))
  {
  }

  /** Taking in bits one after the other is the same as adding them all beforehand. */
  lemma {:induction false} SerialIsShifts(c: Word, bits: Bits, poly: Word)
    requires |bits| <= 32
    ensures Serial(c, bits, poly) == Shifts(Xor(c, Top(bits)), |bits|, poly)
    decreases |bits|
  {
    if bits == [] {
      assert Xor(c, Top(bits)) == c;
    } else {
      ShiftInIsXor(c, bits, poly);
      SerialIsShifts(ShiftIn(c, bits[0], poly), bits[1..], poly);
    }
  }

  lemma {:induction false} SerialAppend(c: Word, x: Bits, y: Bits, poly: Word)
    ensures Serial(c, x + y, poly) == Serial(Serial(c, x, poly), y, poly)
    decreases |x|
  {
    if x == [] {
      assert x + y == y;
    } else {
      assert (x + y)[1..] == x[1..] + y;
      SerialAppend(ShiftIn(c, x[0], poly), x[1..], y, poly);
    }
  }

  // ------------------------------------------------------------------- long division

  /** The remainder of the polynomial `p` by `x^32 + poly`: wherever the leading coefficient is one, the
      divisor is subtracted; then it is dropped. */
  function LongDivision(p: Bits, poly: Word): Word
    requires |p| >= 32
    decreases |p|
  {
    if |p| == 32 then p
    else LongDivision((if p[0] then Xor(p[..33], [true] + poly) + p[33..] else p)[1..], poly)
  }

  /** Bits taken in one at a time leave the remainder of the message with 32 zero bits behind it; the
      register it started with counts as added to the first 32 bits. */
  lemma {:induction false} SerialIsRemainder(c: Word, bits: Bits, poly: Word)
    ensures Serial(c, bits, poly) == LongDivision(Xor(c + Zeros(|bits|), bits + Zeros(32)), poly)
    decreases |bits|
  {
    var p := Xor(c + Zeros(|bits|), bits + Zeros(32));
    if bits == [] {
      assert p == c;
    } else {
      DivisionStep(c, bits, poly);
      SerialIsRemainder(ShiftIn(c, bits[0], poly), bits[1..], poly);
    }
  }

  lemma DivisionStep(c: Word, bits: Bits, poly: Word)
    requires bits != []
    ensures var p := Xor(c + Zeros(|bits|), bits + Zeros(32));
            (if p[0] then Xor(p[..33], [true] + poly) + p[33..] else p)[1..]
            == Xor(ShiftIn(c, bits[0], poly) + Zeros(|bits| - 1), bits[1..] + Zeros(32))
  {
    var p := Xor(c + Zeros(|bits|), bits + Zeros(32));
    var next := (if p[0] then Xor(p[..33], [true] + poly) + p[33..] else p)[1..];
    var d := ShiftIn(c, bits[0], poly);
    var q := Xor(d + Zeros(|bits| - 1), bits[1..] + Zeros(32));
    forall i | 0 <= i < |next| ensures next[i] == q[i] {
      assert p[i + 1] == ((c + Zeros(|bits|))[i + 1] != (bits + Zeros(32))[i + 1]);
      assert (bits + Zeros(32))[i + 1] == (bits[1..] + Zeros(32))[i];
    }
  }

  // ----------------------------------------------------------------- the table's claim

  /** Table entry for byte `i`: what it leaves after eight steps. */
  function Entry(i: Octet, poly: Word): Word { Shifts(Top(i), 8, poly) }

  /** The table-driven step for one byte. */
  function Step(c: Word, b: Octet, poly: Word): Word { Xor(Shl(c, 8), Entry(Xor(c[..8], b), poly)) }

  lemma {:induction false} ShiftsOut(z: nat, rest: Bits, n: nat, poly: Word)
    requires z + |rest| == 32 && n <= z
    ensures Shifts(Zeros(z) + rest, n, poly) == Zeros(z - n) + rest + Zeros(n)
    decreases n
  {
    if n == 0 {
      assert Zeros(z) + rest + Zeros(0) == Zeros(z) + rest;
    } else {
      ShiftsOutOne(z, rest, poly);
      ShiftsOut(z - 1, rest + [false], n - 1, poly);
      assert Zeros(z - n) + (rest + [false]) + Zeros(n - 1) == Zeros(z - n) + rest + Zeros(n);
    }
  }

  lemma ShiftsOutOne(z: nat, rest: Bits, poly: Word)
    requires z + |rest| == 32 && z > 0
    ensures Shift(Zeros(z) + rest, poly) == Zeros(z - 1) + (rest + [false])
  {
  }

  /** One look-up does the work of eight bit steps. */
  lemma StepIsSerial(c: Word, b: Octet, poly: Word)
    ensures Step(c, b, poly) == Serial(c, b, poly)
  {
    var high, low := Top(Xor(c[..8], b)), Zeros(8) + c[8..];
    assert Xor(c, Top(b)) == Xor(high, low);
    SerialIsShifts(c, b, poly);
    ShiftsLinear(high, low, 8, poly);
    ShiftsOut(8, c[8..], 8, poly);
    assert Zeros(0) + c[8..] + Zeros(8) == Shl(c, 8);
    assert Xor(Entry(Xor(c[..8], b), poly), Shl(c, 8)) == Step(c, b, poly);
  }

  /** What the lowest bit of a byte leaves is the polynomial, 0x04c11db7. */
  lemma EntryOfOne()
    ensures Entry(FromNat(1, 8), POLYNOMIAL) == POLYNOMIAL && ToNat(POLYNOMIAL) == 0x04c11db7
  {
    OneAtEnd(1, 8);
    OneShiftedOut(7, FromNat(1, 8), POLYNOMIAL);
    SmallNumber(0x04c11db7, POLYNOMIAL);
  }

  lemma SmallNumber(v: nat, w: Word)
    requires v < 0x1_0000_0000 && w == FromNat(v, 32)
    ensures ToNat(w) == v
  {
    FromNatValue(v, 32);
    Pow2Values();
  }

  lemma OneShiftedOut(z: nat, b: Octet, poly: Word)
    requires z == 7 && b == Zeros(z) + [true]
    ensures Entry(b, poly) == poly
  {
    var rest := [true] + Zeros(24);
    assert Top(b) == Zeros(z) + rest;
    ShiftsOut(z, rest, z, poly);
    var c: Word := Zeros(0) + rest + Zeros(z);
    ShiftsSplit(Top(b), z, 1, poly);
    assert Shift(c, poly) == poly;
  }

  lemma OneAtEnd(v: nat, n: nat)
    requires v == 1 && n > 0
    ensures FromNat(v, n) == Zeros(n - 1) + [true]
  {
    ZeroBits(v / 2, n - 1);
  }

  lemma {:induction false} ZeroBits(v: nat, n: nat)
    requires v == 0
    ensures FromNat(v, n) == Zeros(n)
    decreases n
  {
    if n > 0 { ZeroBits(v / 2, n - 1); }
  }

  lemma {:induction false} ShiftsSplit(c: Word, m: nat, n: nat, poly: Word)
    ensures Shifts(c, m + n, poly) == Shifts(Shifts(c, m, poly), n, poly)
    decreases m
  {
    if m > 0 { ShiftsSplit(Shift(c, poly), m - 1, n, poly); }
  }

  // ------------------------------------------------------------------------ detection

  /** Undoes a step: the lowest bit tells whether the polynomial was added. */
  function Unshift(c: Word, poly: Word): Word {
    if c[31] then [true] + Xor(c, poly)[..31] else [false] + c[..31]
  }

  /** Any polynomial with its lowest bit set will do. */
  lemma UnshiftShift(c: Word, poly: Word)
    requires poly[31]
    ensures Unshift(ShiftIn(c, false, poly), poly) == c
  {
    var d := Shl(c, 1);
    ShlFirst(c);
    if c[0] {
      assert Xor(d, poly)[31];
      XorTwice(d, poly);
    }
  }

  lemma ShlFirst(c: Word)
    ensures !Shl(c, 1)[31] && [c[0]] + Shl(c, 1)[..31] == c
  {
  }

  lemma XorTwice(x: Word, y: Word)
    ensures Xor(Xor(x, y), y) == x
  {
  }

  lemma {:induction false} ShiftsInjective(x: Word, y: Word, n: nat, poly: Word)
    requires poly[31] && Shifts(x, n, poly) == Shifts(y, n, poly)
    ensures x == y
    decreases n
  {
    if n > 0 {
      ShiftsInjective(Shift(x, poly), Shift(y, poly), n - 1, poly);
      UnshiftShift(x, poly);
      UnshiftShift(y, poly);
    }
  }

  lemma {:induction false} BytesAt(w: Word, n: nat, j: nat)
    requires j < n <= 4
    ensures Bytes(w, n)[8 * j..8 * j + 8] == ByteOf(w, j)
  {
    var x, y := Bytes(w, n - 1), ByteOf(w, n - 1);
    if j < n - 1 {
      BytesAt(w, n - 1, j);
      InFirst(x, y, 8 * j, 8 * j + 8);
    } else {
      InSecond(x, y, 0, |y|);
      assert y[0..|y|] == y;
    }
  }

  lemma BytesInjective(u: Word, v: Word)
    requires Bytes(u, 4) == Bytes(v, 4)
    ensures u == v
  {
    forall j | 0 <= j < 4 ensures ByteOf(u, j) == ByteOf(v, j) {
      BytesAt(u, 4, j);
      BytesAt(v, 4, j);
    }
    FourBytes(u);
    FourBytes(v);
  }

  lemma FourBytes(w: Word)
    ensures w == ByteOf(w, 3) + ByteOf(w, 2) + ByteOf(w, 1) + ByteOf(w, 0)
  {
  }

  /** A word changes the register in a way that loses nothing: different registers stay
      different, and so do different words. */
  lemma WordInjective(c: Word, d: Word, u: Word, v: Word, poly: Word)
    requires poly[31]
    ensures Serial(c, Bytes(u, 4), poly) == Serial(d, Bytes(u, 4), poly) ==> c == d
    ensures Serial(c, Bytes(u, 4), poly) == Serial(c, Bytes(v, 4), poly) ==> u == v
  {
    var x, y := Bytes(u, 4), Bytes(v, 4);
    SerialIsShifts(c, x, poly);
    SerialIsShifts(d, x, poly);
    SerialIsShifts(c, y, poly);
    if Serial(c, x, poly) == Serial(d, x, poly) {
      ShiftsInjective(Xor(c, Top(x)), Xor(d, Top(x)), 32, poly);
      XorCancels(c, d, Top(x));
    }
    if Serial(c, x, poly) == Serial(c, y, poly) {
      ShiftsInjective(Xor(c, Top(x)), Xor(c, Top(y)), 32, poly);
      XorCancels(Top(x), Top(y), c);
      assert Top(x) == x && Top(y) == y;
      BytesInjective(u, v);
    }
  }

  lemma XorCancels(x: Word, y: Word, z: Word)
    ensures Xor(x, z) == Xor(y, z) ==> x == y
    ensures Xor(z, x) == Xor(z, y) ==> x == y
  {
    if Xor(x, z) == Xor(y, z) {
      forall i | 0 <= i < 32 ensures x[i] == y[i] { assert Xor(x, z)[i] == Xor(y, z)[i]; }
    }
    if Xor(z, x) == Xor(z, y) {
      forall i | 0 <= i < 32 ensures x[i] == y[i] { assert Xor(z, x)[i] == Xor(z, y)[i]; }
    }
  }

  lemma {:induction false} SuffixInjective(c: Word, d: Word, words: seq<Word>, poly: Word)
    requires poly[31] && SerialAll(c, words, poly) == SerialAll(d, words, poly)
    ensures c == d
  {
    if words != [] {
      var n := |words| - 1;
      WordInjective(SerialAll(c, words[..n], poly), SerialAll(d, words[..n], poly), words[n], words[n], poly);
      SuffixInjective(c, d, words[..n], poly);
    }
  }

  lemma {:induction false} AllAppend(c: Word, x: seq<Word>, y: seq<Word>, poly: Word)
    ensures SerialAll(c, x + y, poly) == SerialAll(SerialAll(c, x, poly), y, poly)
  {
    if y == [] {
      assert x + y == x;
    } else {
      assert (x + y)[..|x + y| - 1] == x + y[..|y| - 1];
      AllAppend(c, x, y[..|y| - 1], poly);
    }
  }

  /** A change to one word of the data always changes the check, as the polynomial's lowest bit
      is set. */
  lemma OneWordDetected(c: Word, x: seq<Word>, u: Word, v: Word, y: seq<Word>, poly: Word)
    requires u != v && poly[31]
    ensures SerialAll(c, x + [u] + y, poly) != SerialAll(c, x + [v] + y, poly)
  {
    AllAppend(c, x + [u], y, poly);
    AllAppend(c, x + [v], y, poly);
    AllAppend(c, x, [u], poly);
    AllAppend(c, x, [v], poly);
    var r := SerialAll(c, x, poly);
    assert [u][..0] == [] && [v][..0] == [];
    assert SerialAll(r, [u], poly) == Serial(r, Bytes(u, 4), poly) && SerialAll(r, [v], poly) == Serial(r, Bytes(v, 4), poly);
    WordInjective(r, r, u, v, poly);
    if SerialAll(SerialAll(r, [u], poly), y, poly) == SerialAll(SerialAll(r, [v], poly), y, poly) {
      SuffixInjective(SerialAll(r, [u], poly), SerialAll(r, [v], poly), y, poly);
    }
  }

  // ------------------------------------------------------------------------- the code

  /** The table of remainders, made on first use. */
  class Table {
    var ready: bool
    const entries: array<Word>
    const poly: Word

    ghost predicate Valid()
      reads this, entries
    {
      entries.Length == 256 && (ready ==> forall i :: 0 <= i < 256 ==> entries[i] == Entry(FromNat(i, 8), poly))
    }

    constructor ()
      ensures Valid() && !ready && fresh(entries) && poly == POLYNOMIAL && poly[31]
    {
      ready, poly := false, POLYNOMIAL;
      entries := new Word[256](_ => Zeros(32));
    }

    /** Generates the remainders of all bytes. */
    method Generate()
      requires Valid()
      modifies this, entries
      ensures Valid() && ready
    {
      var i := 0;
      while i < 256
        invariant 0 <= i <= 256
        invariant forall k :: 0 <= k < i ==> entries[k] == Entry(FromNat(k, 8), poly)
      {
        entries[i] := Remainder(FromNat(i, 8), poly);
        i := i + 1;
      }
      ready := true;
    }

    /** Updates the check with one word, a byte at a time. */
    method Update(crc: Word, data: Word) returns (c: Word)
      requires Valid()
      modifies this, entries
      ensures Valid() && c == Serial(crc, Bytes(data, 4), poly)
    {
      if !ready {
        Generate();
      }
      c := crc;
      var j := 0;
      while j < 4
        invariant 0 <= j <= 4 && Valid() && ready && c == Serial(crc, Bytes(data, j), poly)
      {
        SerialAppend(crc, Bytes(data, j), ByteOf(data, j), poly);
        c := TakeByte(c, ByteOf(data, j));
        j := j + 1;
      }
    }

    /** One byte: a look-up instead of eight steps. */
    method TakeByte(c: Word, b: Octet) returns (d: Word)
      requires Valid() && ready
      ensures d == Serial(c, b, poly)
    {
      var i := Xor(c[..8], b);
      IndexOfByte(i);
      StepIsSerial(c, b, poly);
      d := Xor(Shl(c, 8), entries[ToNat(i)]);
    }

    method UpdateAll(crc: Word, words: seq<Word>) returns (c: Word)
      requires Valid()
      modifies this, entries
      ensures Valid() && c == SerialAll(crc, words, poly)
    {
      c := crc;
      var i := 0;
      while i < |words|
        invariant 0 <= i <= |words| && Valid() && c == SerialAll(crc, words[..i], poly)
      {
        c := Update(c, words[i]);
        i := i + 1;
        assert words[..i][..i - 1] == words[..i - 1];
      }
      assert words[..i] == words;
    }
  }

  lemma IndexOfByte(b: Octet)
    ensures ToNat(b) < 256 && FromNat(ToNat(b), 8) == b
  {
    NatRoundTrip(b);
    Pow2Values();
  }

  lemma ShiftsFirst(c: Word, n: nat, poly: Word)
    requires n > 0
    ensures Shifts(c, n, poly) == Shifts(Shift(c, poly), n - 1, poly)
  {
  }

  /** Eight steps from byte `b` at the top. */
  method Remainder(b: Octet, poly: Word) returns (c: Word)
    ensures c == Entry(b, poly)
  {
    c := Top(b);
    var j := 0;
    while j < 8
      invariant 0 <= j <= 8 && Shifts(c, 8 - j, poly) == Entry(b, poly)
    {
      ShiftsFirst(c, 8 - j, poly);
      c := ShiftOnce(c, poly);
      j := j + 1;
    }
  }

  method ShiftOnce(c: Word, poly: Word) returns (d: Word)
    ensures d == Shift(c, poly)
  {
    if c[0] {
      d := Xor(Shl(c, 1), poly);
    } else {
      d := Shl(c, 1);
    }
  }
}
