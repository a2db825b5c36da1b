/** What several modules need. */
module Basics {

  datatype Option<T> = None | Some(value: T)

  function Max(a: int, b: int): (m: int)
    ensures m >= a && m >= b && (m == a || m == b)
  {
    if a >= b then a else b
  }

  /** All but the last, and the last. */
  lemma Snoc<T>(s: seq<T>)
    requires s != []
    ensures s == s[..|s| - 1] + [s[|s| - 1]]
  {
  }

  /** One element more. */
  lemma TakeMore<T>(s: seq<T>, i: nat)
    requires i < |s|
    ensures s[..i + 1] == s[..i] + [s[i]] && s[..i + 1][..i] == s[..i]
  {
  }

  /** A stretch of a concatenation that lies in its first part, or in its second. */
  lemma InFirst<T>(x: seq<T>, y: seq<T>, lo: nat, hi: nat)
    requires lo <= hi <= |x|
    ensures (x + y)[lo..hi] == x[lo..hi]
  {
  }

  lemma InSecond<T>(x: seq<T>, y: seq<T>, lo: nat, hi: nat)
    requires lo <= hi <= |y|
    ensures (x + y)[|x| + lo..|x| + hi] == y[lo..hi]
  {
  }

  // ------------------------------------------------------------------- powers of two

  function Pow2(n: nat): (r: nat)
    ensures r > 0
  {
    if n == 0 then 1 else 2 * Pow2(n - 1)
  }

  lemma {:induction false} Pow2Sum(m: nat, n: nat)
    ensures Pow2(m + n) == Pow2(m) * Pow2(n)
  {
    if n > 0 { Pow2Sum(m, n - 1); }
  }

  lemma {:induction false} Pow2Grows(m: nat, n: nat)
    requires m <= n
    ensures Pow2(m) <= Pow2(n) && (m < n ==> Pow2(m) < Pow2(n))
    decreases n
  {
    if m < n { Pow2Grows(m, n - 1); }
  }

  lemma Pow2Values()
    ensures Pow2(6) == 64 && Pow2(8) == 256 && Pow2(16) == 65536 && Pow2(24) == 0x100_0000
    ensures Pow2(26) == 67108864 && Pow2(32) == 0x1_0000_0000
  {
    assert Pow2(4) == 16 && Pow2(8) == 256;
    Pow2Sum(8, 8);
    Pow2Sum(16, 8);
    Pow2Sum(24, 2);
    Pow2Sum(24, 8);
  }

  lemma MulSmall(b: int, d: int)
    requires b > 0 && -b < b * d < b
    ensures d == 0
  {
  }

  lemma DivUnique(a: int, b: int, q: int, r: int)
    requires b > 0 && a == b * q + r && 0 <= r < b
    ensures a / b == q && a % b == r
  {
    assert b * (q - a / b) == a % b - r;
    MulSmall(b, q - a / b);
  }

  lemma TwoTimes(b: int, q: int)
    ensures (2 * b) * q == 2 * (b * q) == b * (2 * q)
  {
  }

  /** Halving before a division, or after it. */
  lemma HalveFirst(a: nat, b: nat)
    requires b > 0
    ensures a / 2 / b == a / (2 * b) && a % (2 * b) == a % 2 + 2 * (a / 2 % b)
  {
    var q, r := a / 2 / b, a / 2 % b;
    assert a / 2 == b * q + r;
    TwoTimes(b, q);
    DivUnique(a, 2 * b, q, 2 * r + a % 2);
  }

  lemma HalveLast(a: nat, b: nat)
    requires b > 0
    ensures a / b / 2 == a / (2 * b)
  {
    var q, r := a / b, a % b;
    var h := q / 2;
    assert a == b * q + r;
    TwoTimes(b, h);
    if q % 2 == 0 {
      assert q == 2 * h;
      DivUnique(a, 2 * b, h, r);
    } else {
      assert q == 2 * h + 1 && b * q == b * (2 * h) + b;
      DivUnique(a, 2 * b, h, b + r);
    }
  }

  /** Shifted to the right. */
  function Shr(a: nat, n: nat): nat
    decreases n, a
  {
    if n == 0 then a else Shr(a, n - 1) / 2
  }

  lemma {:induction false} ShrDivides(a: nat, n: nat)
    ensures Shr(a, n) == a / Pow2(n)
  {
    if n > 0 {
      ShrDivides(a, n - 1);
      HalveLast(a, Pow2(n - 1));
    }
  }

  lemma {:induction false} ShrHalf(a: nat, n: nat)
    requires n > 0
    ensures Shr(a, n) == Shr(a / 2, n - 1)
  {
    if n > 1 { ShrHalf(a, n - 1); }
  }
}
