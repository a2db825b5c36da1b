/** Addresses, bytes and the flat memory that programs are promised to see. */
module Machine {

  /** 64-bit addresses; arithmetic on them wraps. */
  type Addr = a: int | 0 <= a < 0x1_0000_0000_0000_0000
  type Byte = b: int | 0 <= b < 256

  function Next(a: Addr): Addr {
    if a == 0xFFFF_FFFF_FFFF_FFFF then 0 else a + 1
  }

  /** `a` incremented `k` times. */
  function Plus(a: Addr, k: nat): Addr
    decreases k, a
  {
    if k == 0 then a else Next(Plus(a, k - 1))
  }

  /** A byte map that reads as zero where nothing was written: what simulated memory is supposed to be. */
  type Flat = map<Addr, Byte>

  function Get(f: Flat, a: Addr): Byte {
    if a in f then f[a] else 0
  }

  ghost predicate Same(f: Flat, g: Flat) {
    forall a: Addr :: Get(f, a) == Get(g, a)
  }

  /** Bytes fetched one after the other from `a`, `a+1`, ... */
  function Load(f: Flat, a: Addr, n: nat): (data: seq<Byte>)
    ensures |data| == n
    decreases n, a
  {
    if n == 0 then [] else Load(f, a, n - 1) + [Get(f, Plus(a, n - 1))]
  }

  /** Bytes stored one after the other at `a`, `a+1`, ... */
  function Store(f: Flat, a: Addr, data: seq<Byte>): Flat {
    if data == [] then f
    else
      var n := |data| - 1;
      Store(f, a, data[..n])[Plus(a, n) := data[n]]
  }

  lemma {:induction false} PlusIsModular(a: Addr, k: nat)
    ensures Plus(a, k) == (a + k) % 0x1_0000_0000_0000_0000
  {
    if k > 0 {
      PlusIsModular(a, k - 1);
      NextIsModular(a + k - 1);
    }
  }

  lemma NextIsModular(x: nat)
    ensures Next(x % 0x1_0000_0000_0000_0000) == (x + 1) % 0x1_0000_0000_0000_0000
  {
  }

  lemma PlusNoWrap(a: Addr, k: nat)
    requires a + k < 0x1_0000_0000_0000_0000
    ensures Plus(a, k) == a + k
  {
    PlusIsModular(a, k);
  }

  lemma {:induction false} PlusPlus(a: Addr, i: nat, j: nat)
    ensures Plus(Plus(a, i), j) == Plus(a, i + j)
  {
    if j > 0 { PlusPlus(a, i, j - 1); }
  }

  /** How many increments lead from `a` to `b`. */
  function Distance(a: Addr, b: Addr): nat {
    if a <= b then b - a else b - a + 0x1_0000_0000_0000_0000
  }

  lemma PlusDistance(a: Addr, b: Addr, k: nat)
    requires k < 0x1_0000_0000_0000_0000
    ensures Plus(a, k) == b <==> k == Distance(a, b)
  {
    PlusIsModular(a, k);
  }

  /** Pointwise reading of `Store`, for blocks that do not overlap themselves. */
  lemma {:induction false} StoreAt(f: Flat, a: Addr, data: seq<Byte>, b: Addr)
    requires |data| <= 0x1_0000_0000_0000_0000
    ensures Get(Store(f, a, data), b) == if Distance(a, b) < |data| then data[Distance(a, b)] else Get(f, b)
  {
    if data != [] {
      var n := |data| - 1;
      StoreAt(f, a, data[..n], b);
      PlusDistance(a, b, n);
    }
  }

  lemma {:induction false} LoadAppend(f: Flat, a: Addr, m: nat, n: nat)
    ensures Load(f, a, m + n) == Load(f, a, m) + Load(f, Plus(a, m), n)
  {
    if n > 0 {
      LoadAppend(f, a, m, n - 1);
      PlusPlus(a, m, n - 1);
    }
  }

  lemma {:induction false} LoadAt(f: Flat, a: Addr, n: nat, i: nat)
    requires i < n
    ensures Load(f, a, n)[i] == Get(f, Plus(a, i))
  {
    if i < n - 1 { LoadAt(f, a, n - 1, i); }
  }

  lemma {:induction false} StoreAppend(f: Flat, a: Addr, x: seq<Byte>, y: seq<Byte>)
    ensures Store(f, a, x + y) == Store(Store(f, a, x), Plus(a, |x|), y)
  {
    if y == [] {
      assert x + y == x;
    } else {
      var n := |y| - 1;
      assert (x + y)[..|x| + n] == x + y[..n];
      StoreAppend(f, a, x, y[..n]);
      PlusPlus(a, |x|, n);
    }
  }
}
