/**
 Simulated memory: a hashed, inverted page table.  Pages are allocated when first
 written; buckets are singly linked lists that move the entry they find to the front,
 and the first entry of a bucket is tried before the list is searched.
 */
module Memory {
  import opened Basics
  import opened Machine

  function PtabSet(a: Addr): (s: nat)
    ensures s < 32768
  {
    (a / 8192) % 32768
  }

  function PtabTag(a: Addr): nat { a / 268435456 }

  function Offset(a: Addr): nat { a % 8192 }

  /** The address of the page an entry with tag `tag` in bucket `set` maps. */
  function PteAddr(tag: nat, set_: nat): nat { tag * 268435456 + set_ * 8192 }

  /** Page number: what tag and set together encode. */
  function Vpn(tag: nat, set_: nat): nat { tag * 32768 + set_ }

  /** Tag, set and offset encode an address without loss. */
  lemma AddressSplit(a: Addr)
    ensures PteAddr(PtabTag(a), PtabSet(a)) + Offset(a) == a
    ensures Vpn(PtabTag(a), PtabSet(a)) == a / 8192
    ensures PtabTag(a) < 68719476736
  {
  }

  /** ... and every tag, set and offset is the split of one address. */
  lemma AddressJoin(tag: nat, set_: nat, off: nat)
    requires tag < 68719476736 && set_ < 32768 && off < 8192
    ensures PteAddr(tag, set_) + off < 0x1_0000_0000_0000_0000
    ensures var a: Addr := PteAddr(tag, set_) + off;
            PtabTag(a) == tag && PtabSet(a) == set_ && Offset(a) == off
  {
  }

  datatype Fault = NoFault | AccessFault | AlignmentFault

  /** One memory access: how many bytes to fetch, or which bytes to put. */
  datatype Request = Read(addr: Addr, nbytes: int) | Write(addr: Addr, data: seq<Byte>) {
    function Size(): int { if Read? then nbytes else |data| }
  }

  datatype Reply = Reply(fault: Fault, data: seq<Byte>)

  /** The test `(n & (n - 1)) == 0` for positive `n`. */
  predicate PowerOfTwo(n: int) {
    n == 1 || (n > 1 && n % 2 == 0 && PowerOfTwo(n / 2))
  }

  /** The test `(a & (n - 1)) == 0` for a power of two: all lower bits clear. */
  predicate Aligned(a: nat, n: int) {
    n <= 1 || (a % 2 == 0 && Aligned(a / 2, n / 2))
  }

  /** Sizes must be a power of two (or zero) no larger than a page; addresses a multiple of
      the size.  A transfer of zero bytes is aligned at address zero only. */
  function Check(q: Request): Fault {
    var n := q.Size();
    if !(n == 0 || PowerOfTwo(n)) || n > 8192 then AccessFault
    else if (if n == 0 then q.addr != 0 else !Aligned(q.addr, n)) then AlignmentFault
    else NoFault
  }

  lemma {:induction false} AlignedMeansMultiple(a: nat, n: int)
    requires PowerOfTwo(n)
    ensures Aligned(a, n) <==> a % n == 0
  {
    if n > 1 {
      AlignedMeansMultiple(a / 2, n / 2);
      HalveMod(a, n / 2);
    }
  }

  lemma HalveMod(a: nat, m: int)
    requires m > 0
    ensures a % (2 * m) == 0 <==> a % 2 == 0 && (a / 2) % m == 0
  {
    var q, r := (a / 2) / m, (a / 2) % m;
    assert a / 2 == q * m + r;
    assert a == (2 * m) * q + (2 * r + a % 2);
    assert 0 <= 2 * r + a % 2 < 2 * m;
    Remainder(a, 2 * m, q, 2 * r + a % 2);
  }

  lemma Remainder(a: int, d: int, q: int, r: int)
    requires d > 0 && a == d * q + r && 0 <= r < d
    ensures a % d == r
  {
    var k, r' := q - a / d, a % d;
    assert a == d * (a / d) + r';
    assert d * k == d * q - d * (a / d);
    if k >= 1 { MulAtLeast(d, k); }
    if k <= -1 { MulAtLeast(d, -k); }
  }

  lemma MulAtLeast(d: int, k: int)
    requires d > 0 && k >= 1
    ensures d * k >= d && d * -k <= -d
  {
  }

  lemma {:induction false} PowerHasExponent(n: int) returns (k: nat)
    requires PowerOfTwo(n)
    ensures n == Pow2(k)
  {
    if n == 1 {
      k := 0;
    } else {
      k := PowerHasExponent(n / 2);
      k := k + 1;
    }
  }

  lemma {:induction false} ExponentIsPower(k: nat)
    ensures PowerOfTwo(Pow2(k))
  {
    if k > 0 { ExponentIsPower(k - 1); }
  }

  lemma PageIsPower(k: nat)
    ensures Pow2(k) <= 8192 <==> k <= 13
  {
    Pow2Values();
    Pow2Sum(8, 5);
    assert Pow2(5) == 32;
    if k <= 13 { Pow2Grows(k, 13); } else { Pow2Grows(13, k); }
  }

  /** `n` is one of the sizes 1, 2, 4 and so on up to 8192. */
  ghost predicate IsSize(n: int) { exists k: nat :: k <= 13 && n == Pow2(k) }

  lemma SizeIff(n: int)
    ensures IsSize(n) <==> PowerOfTwo(n) && n <= 8192
  {
    if PowerOfTwo(n) {
      var k := PowerHasExponent(n);
      PageIsPower(k);
    }
    if IsSize(n) {
      var k: nat :| k <= 13 && n == Pow2(k);
      PageIsPower(k);
      ExponentIsPower(k);
    }
  }

  /** A transfer is refused for its size unless that is 0 or such a power of two; else for its address unless
      that is a multiple of the size, or zero. */
  lemma CheckMeans(q: Request)
    ensures Check(q) == AccessFault <==> q.Size() != 0 && !IsSize(q.Size())
    ensures Check(q) == NoFault <==> if q.Size() == 0 then q.addr == 0 else IsSize(q.Size()) && q.addr % q.Size() == 0
  {
    SizeIff(q.Size());
    if PowerOfTwo(q.Size()) { AlignedMeansMultiple(q.addr, q.Size()); }
  }

  /** What a checked access does to flat memory. */
  function Perform(f: Flat, q: Request): (Flat, Reply) {
    if Check(q) != NoFault then (f, Reply(Check(q), []))
    else
      match q
      case Read(addr, n) => (f, Reply(NoFault, Load(f, addr, n)))
      case Write(addr, data) => (Store(f, addr, data), Reply(NoFault, []))
  }

  /** The part of a transfer from byte `lo` up to byte `hi`. */
  function Slice(q: Request, lo: nat, hi: nat): Request
    requires lo <= hi && (hi <= q.Size() || lo == hi == 0)
  {
    match q
    case Read(addr, _) => Read(Plus(addr, lo), hi - lo)
    case Write(addr, data) => Write(Plus(addr, lo), data[lo..hi])
  }

  /** An unchecked block transfer on flat memory; a negative size transfers nothing. */
  function Copy(f: Flat, q: Request): (Flat, Reply) {
    match q
    case Read(addr, n) => (f, Reply(NoFault, Load(f, addr, if n > 0 then n else 0)))
    case Write(addr, data) => (Store(f, addr, data), Reply(NoFault, []))
  }

  lemma CopyStep(f: Flat, q: Request, lo: nat, hi: nat)
    requires lo <= hi <= q.Size()
    ensures var (g, r) := Copy(f, Slice(q, 0, lo));
            Copy(f, Slice(q, 0, hi)) == (Copy(g, Slice(q, lo, hi)).0, Reply(NoFault, r.data + Copy(g, Slice(q, lo, hi)).1.data))
  {
    match q
    case Read(addr, _) =>
      LoadAppend(f, addr, lo, hi - lo);
    case Write(addr, data) =>
      assert data[0..hi] == data[0..lo] + data[lo..hi];
      StoreAppend(f, addr, data[0..lo], data[lo..hi]);
      assert |data[0..lo]| == lo && [] + [] == Copy(f, q).1.data;
  }

  /** Checked accesses one after the other, up to the first fault; what they fetched is joined. */
  function Series(f: Flat, qs: seq<Request>): (Flat, Reply) {
    if qs == [] then (f, Reply(NoFault, []))
    else
      var (g, r) := Series(f, qs[..|qs| - 1]);
      if r.fault != NoFault then (g, r)
      else
        var (h, r') := Perform(g, qs[|qs| - 1]);
        (h, Reply(r'.fault, r.data + r'.data))
  }

  lemma {:induction false} FaultStays(f: Flat, qs: seq<Request>, i: nat)
    requires i <= |qs| && Series(f, qs[..i]).1.fault != NoFault
    ensures Series(f, qs) == Series(f, qs[..i])
  {
    if i == |qs| {
      assert qs[..i] == qs;
    } else {
      assert qs[..|qs| - 1][..i] == qs[..i];
      FaultStays(f, qs[..|qs| - 1], i);
    }
  }

  /** The accesses a byte-wise copy issues for the first `n` bytes. */
  function ByteAccesses(q: Request, n: nat): seq<Request>
    requires n == 0 || n <= q.Size()
  {
    if n == 0 then [] else ByteAccesses(q, n - 1) + [Slice(q, n - 1, n)]
  }

  /** The accesses a word-wise copy issues for the first `k` words. */
  function WordAccesses(q: Request, k: nat): seq<Request>
    requires k == 0 || 4 * k <= q.Size()
  {
    if k == 0 then [] else WordAccesses(q, k - 1) + [Slice(q, 4 * k - 4, 4 * k)]
  }

  /** The number of whole words in a transfer. */
  function WordCount(q: Request): (k: nat)
    ensures k == 0 || 4 * k <= q.Size()
    ensures q.Size() < 4 * k + 4
  {
    if q.Size() > 0 then q.Size() / 4 else 0
  }

  /** The word-wise transfer: whole words, until an access faults. */
  function Copy4(f: Flat, q: Request): (Flat, Reply) {
    Series(f, WordAccesses(q, WordCount(q)))
  }

  lemma SeriesStep(f: Flat, qs: seq<Request>, q: Request)
    requires Series(f, qs).1.fault == NoFault
    ensures var (g, r) := Series(f, qs);
            var (h, r') := Perform(g, q);
            Series(f, qs + [q]) == (h, Reply(r'.fault, r.data + r'.data))
  {
    assert (qs + [q])[..|qs|] == qs;
  }

  lemma SeriesCopies(f: Flat, q: Request, qs: seq<Request>, lo: nat, hi: nat)
    requires lo <= hi <= q.Size() && Series(f, qs) == Copy(f, Slice(q, 0, lo))
    requires Check(Slice(q, lo, hi)) == NoFault
    ensures Series(f, qs + [Slice(q, lo, hi)]) == Copy(f, Slice(q, 0, hi))
  {
    var part := Slice(q, lo, hi);
    SeriesStep(f, qs, part);
    CopyStep(f, q, lo, hi);
    CheckedCopy(Copy(f, Slice(q, 0, lo)).0, part);
  }

  lemma CheckedCopy(f: Flat, q: Request)
    requires Check(q) == NoFault
    ensures Perform(f, q) == Copy(f, q)
  {
  }

  /** The accesses are parts of `q`, one behind the other up to byte `n`, and none of them faults. */
  ghost predicate Parts(q: Request, qs: seq<Request>, n: nat) {
    if qs == [] then n == 0
    else
      var last := qs[|qs| - 1];
      var m := n - last.Size();
      0 <= m <= n <= q.Size() && last == Slice(q, m, n) && Check(last) == NoFault && Parts(q, qs[..|qs| - 1], m)
  }

  lemma {:induction false} PartsCopy(f: Flat, q: Request, qs: seq<Request>, n: nat)
    requires Parts(q, qs, n)
    ensures n == 0 || n <= q.Size()
    ensures Series(f, qs) == Copy(f, Slice(q, 0, n))
    decreases |qs|
  {
    if qs == [] {
      NoParts(f, q);
    } else {
      var before, last := qs[..|qs| - 1], qs[|qs| - 1];
      var m := n - last.Size();
      PartsCopy(f, q, before, m);
      SeriesCopies(f, q, before, m, n);
      assert before + [Slice(q, m, n)] == qs;
    }
  }

  lemma NoParts(f: Flat, q: Request)
    ensures Series(f, []) == Copy(f, Slice(q, 0, 0))
  {
  }

  lemma PartsMore(q: Request, qs: seq<Request>, m: nat, n: nat)
    requires m <= n <= q.Size() && Parts(q, qs, m) && Check(Slice(q, m, n)) == NoFault
    ensures Parts(q, qs + [Slice(q, m, n)], n)
  {
    var more := qs + [Slice(q, m, n)];
    assert more[..|more| - 1] == qs && more[|more| - 1] == Slice(q, m, n);
  }

  lemma {:induction false} ByteParts(q: Request, n: nat)
    requires n == 0 || n <= q.Size()
    ensures Parts(q, ByteAccesses(q, n), n)
  {
    if n > 0 {
      ByteParts(q, n - 1);
      assert Check(Slice(q, n - 1, n)) == NoFault;
      PartsMore(q, ByteAccesses(q, n - 1), n - 1, n);
    }
  }

  lemma BytesAreCopy(f: Flat, q: Request, n: nat)
    requires n == 0 || n <= q.Size()
    ensures Series(f, ByteAccesses(q, n)) == Copy(f, Slice(q, 0, n))
  {
    ByteParts(q, n);
    PartsCopy(f, q, ByteAccesses(q, n), n);
  }

  lemma {:induction false} WordParts(q: Request, k: nat)
    requires (k == 0 || 4 * k <= q.Size()) && q.addr % 4 == 0
    ensures Parts(q, WordAccesses(q, k), 4 * k)
  {
    if k > 0 {
      WordParts(q, k - 1);
      AlignedWord(q, k);
      PartsMore(q, WordAccesses(q, k - 1), 4 * k - 4, 4 * k);
    }
  }

  lemma WordsAligned(f: Flat, q: Request, k: nat)
    requires (k == 0 || 4 * k <= q.Size()) && q.addr % 4 == 0
    ensures Series(f, WordAccesses(q, k)) == Copy(f, Slice(q, 0, 4 * k))
  {
    WordParts(q, k);
    PartsCopy(f, q, WordAccesses(q, k), 4 * k);
  }

  lemma AlignedWord(q: Request, k: nat)
    requires 0 < 4 * k <= q.Size() && q.addr % 4 == 0
    ensures Check(Slice(q, 4 * k - 4, 4 * k)) == NoFault
  {
    PlusMod4(q.addr, 4 * k - 4);
    WordCheck(Slice(q, 4 * k - 4, 4 * k));
  }

  lemma WordsMisaligned(f: Flat, q: Request, k: nat)
    requires 0 < 4 * k <= q.Size()
    requires q.addr % 4 != 0
    ensures Series(f, WordAccesses(q, k)) == (f, Reply(AlignmentFault, []))
  {
    var first := [Slice(q, 0, 4)];
    WordCheck(first[0]);
    SeriesStep(f, [], first[0]);
    var none: seq<Byte> := [];
    assert [] + first == first && none + none == none;
    FirstWord(q, k);
    FaultStays(f, WordAccesses(q, k), 1);
  }

  lemma {:induction false} FirstWord(q: Request, k: nat)
    requires 0 < 4 * k <= q.Size()
    ensures |WordAccesses(q, k)| == k && WordAccesses(q, k)[..1] == [Slice(q, 0, 4)]
  {
    if k > 1 { FirstWord(q, k - 1); }
  }

  lemma WordCheck(q: Request)
    requires q.Size() == 4
    ensures Check(q) == if q.addr % 4 == 0 then NoFault else AlignmentFault
  {
    assert PowerOfTwo(2);
    assert Aligned(q.addr / 2, 2) <==> q.addr / 2 % 2 == 0;
  }

  lemma {:induction false} PlusMod4(a: Addr, k: nat)
    requires k % 4 == 0
    ensures Plus(a, k) % 4 == a % 4
  {
    if k > 0 {
      PlusMod4(a, k - 4);
      var b := Plus(a, k - 4);
      assert Plus(a, k - 3) == Next(b) && Plus(a, k - 2) == Next(Next(b)) && Plus(a, k - 1) == Next(Next(Next(b)));
      FourNext(b);
    }
  }

  lemma FourNext(b: Addr)
    ensures Next(Next(Next(Next(b)))) % 4 == b % 4
  {
  }

  lemma WholeSlice(f: Flat, q: Request, n: nat)
    requires n == (if q.Size() > 0 then q.Size() else 0)
    ensures Copy(f, Slice(q, 0, n)) == Copy(f, q)
  {
    match q
    case Read(_, _) =>
    case Write(_, data) => assert data[0..|data|] == data;
  }

  /** Word-wise and byte-wise copies agree on aligned multiples of four ... */
  lemma Copy4Aligned(f: Flat, q: Request)
    requires q.addr % 4 == 0 && q.Size() % 4 == 0
    ensures Copy4(f, q) == Copy(f, q)
  {
    WordsAligned(f, q, WordCount(q));
    WholeSlice(f, q, 4 * WordCount(q));
  }

  /** ... and, for reads, on nothing else that transfers a byte. */
  lemma Copy4ReadIff(f: Flat, addr: Addr, n: int)
    ensures Copy4(f, Read(addr, n)) == Copy(f, Read(addr, n)) <==> n <= 0 || (addr % 4 == 0 && n % 4 == 0)
  {
    var q := Read(addr, n);
    var k := WordCount(q);
    assert |Copy(f, q).1.data| == if n > 0 then n else 0;
    if addr % 4 == 0 {
      WordsAligned(f, q, k);
      assert |Copy4(f, q).1.data| == 4 * k;
      if n > 0 && n % 4 == 0 { Copy4Aligned(f, q); }
    } else if k > 0 {
      WordsMisaligned(f, q, k);
    }
  }

  /** A write makes no difference if and only if memory holds the bytes already. */
  lemma StoreHeld(f: Flat, a: Addr, data: seq<Byte>)
    requires |data| <= 0x1_0000_0000_0000_0000
    ensures Same(f, Store(f, a, data)) <==> forall j :: 0 <= j < |data| ==> Get(f, Plus(a, j)) == data[j]
  {
    forall b: Addr ensures Get(Store(f, a, data), b) == if Distance(a, b) < |data| then data[Distance(a, b)] else Get(f, b) {
      StoreAt(f, a, data, b);
    }
    forall j | 0 <= j < |data| ensures Distance(a, Plus(a, j)) == j {
      PlusDistance(a, Plus(a, j), j);
    }
    forall b: Addr | Distance(a, b) < |data| ensures Plus(a, Distance(a, b)) == b {
      PlusDistance(a, b, Distance(a, b));
    }
  }

  /** What the whole words of a write leave in memory, and the bytes behind them. */
  lemma HeadAndTail(f: Flat, addr: Addr, data: seq<Byte>, n: nat)
    requires n <= |data|
    ensures Copy(f, Slice(Write(addr, data), 0, n)) == (Store(f, addr, data[..n]), Reply(NoFault, []))
    ensures Copy(f, Write(addr, data)) == (Store(Store(f, addr, data[..n]), Plus(addr, n), data[n..]), Reply(NoFault, []))
  {
    assert data == data[..n] + data[n..];
    StoreAppend(f, addr, data[..n], data[n..]);
  }

  /** For writes: the block copy by words answers and leaves memory as the one by bytes does, if
      and only if there is no word or the address is a multiple of four, and memory holds the
      bytes behind the last word already. */
  lemma Copy4WriteIff(f: Flat, addr: Addr, data: seq<Byte>)
    ensures var q, n := Write(addr, data), |data| / 4 * 4;
            Copy4(f, q).1 == Copy(f, q).1 && Same(Copy4(f, q).0, Copy(f, q).0)
            <==> && (addr % 4 == 0 || |data| < 4)
                 && forall j :: 0 <= j < |data[n..]| ==> Get(Store(f, addr, data[..n]), Plus(Plus(addr, n), j)) == data[n..][j]
  {
    var q, k := Write(addr, data), |data| / 4;
    var n := k * 4;
    HeadAndTail(f, addr, data, n);
    if addr % 4 == 0 {
      WordsAligned(f, q, k);
    } else if k > 0 {
      WordsMisaligned(f, q, k);
    }
    if addr % 4 == 0 || k == 0 {
      assert data[..0] == [];
      StoreHeld(Store(f, addr, data[..n]), Plus(addr, n), data[n..]);
    }
  }

  /** An operation a client may ask for. */
  datatype Op = Checked(q: Request) | Bytes(q: Request) | Words(q: Request)

  function Apply(f: Flat, op: Op): (Flat, Reply) {
    match op
    case Checked(q) => Perform(f, q)
    case Bytes(q) => Copy(f, q)
    case Words(q) => Copy4(f, q)
  }

  /** The answers flat memory gives to a sequence of operations, and what it becomes. */
  function RunFlat(f: Flat, ops: seq<Op>): (Flat, seq<Reply>) {
    if ops == [] then (f, [])
    else
      var (g, replies) := RunFlat(f, ops[..|ops| - 1]);
      var (h, r) := Apply(g, ops[|ops| - 1]);
      (h, replies + [r])
  }

  /** Page table entry; `home` is the bucket it was put into. */
  class Pte {
    var next: Pte?
    const tag: nat
    const page: array<Byte>
    ghost const home: nat

    constructor (tag: nat, page: array<Byte>, ghost home: nat)
      ensures this.tag == tag && this.page == page && this.home == home
    {
      this.tag, this.page, this.home := tag, page, home;
      next := null;
    }
  }

  /** `chain` is the list that starts at `head`. */
  ghost predicate Linked(head: Pte?, chain: seq<Pte>)
    reads chain
  {
    && head == (if chain == [] then null else chain[0])
    && forall i {:trigger chain[i].next} :: 0 <= i < |chain| ==> chain[i].next == (if i + 1 < |chain| then chain[i + 1] else null)
  }

  /** A list with a new first entry. */
  lemma LinkedFront(pte: Pte, chain: seq<Pte>)
    requires Linked(pte.next, chain)
    ensures Linked(pte, [pte] + chain)
  {
    var more := [pte] + chain;
    forall i | 0 <= i < |more| ensures more[i].next == (if i + 1 < |more| then more[i + 1] else null) {
      if i > 0 { assert more[i] == chain[i - 1]; }
    }
  }

  ghost predicate DistinctTags(chain: seq<Pte>) {
    forall i, j :: 0 <= i < j < |chain| ==> chain[i].tag != chain[j].tag
  }

  /** Where the list has an entry with tag `tag`; -1 if it has none. */
  ghost function IndexOf(chain: seq<Pte>, tag: nat): (k: int)
    ensures -1 <= k < |chain|
    ensures k >= 0 ==> chain[k].tag == tag
    ensures k < 0 ==> forall i :: 0 <= i < |chain| ==> chain[i].tag != tag
  {
    if chain == [] then -1
    else if chain[|chain| - 1].tag == tag then |chain| - 1
    else IndexOf(chain[..|chain| - 1], tag)
  }

  ghost function FindIn(chain: seq<Pte>, tag: nat): Pte? {
    var k := IndexOf(chain, tag);
    if k < 0 then null else chain[k]
  }

  lemma FoundAt(chain: seq<Pte>, tag: nat, k: nat)
    requires k < |chain| && chain[k].tag == tag && DistinctTags(chain)
    ensures FindIn(chain, tag) == chain[k]
  {
    var i := IndexOf(chain, tag);
    assert i >= 0;
  }

  /** The list after its entry `k` was moved to the front. */
  ghost function Moved(chain: seq<Pte>, k: nat): (moved: seq<Pte>)
    requires k < |chain|
  {
    seq(|chain|, i requires 0 <= i < |chain| => chain[MovedFrom(k, i)])
  }

  function MovedFrom(k: nat, i: nat): nat {
    if i == 0 then k else if i <= k then i - 1 else i
  }

  lemma MovedIs(chain: seq<Pte>, k: nat)
    requires k < |chain|
    ensures Moved(chain, k) == [chain[k]] + chain[..k] + chain[k + 1..]
  {
  }

  lemma MovedDistinct(chain: seq<Pte>, k: nat)
    requires k < |chain| && DistinctTags(chain)
    ensures DistinctTags(Moved(chain, k))
  {
    var moved := Moved(chain, k);
    forall i, j | 0 <= i < j < |moved| ensures moved[i].tag != moved[j].tag {
      var x, y := MovedFrom(k, i), MovedFrom(k, j);
      assert x < y || y < x;
    }
  }

  /** Moving to the front is unobservable: every tag finds the same entry. */
  lemma MovedFindsSame(chain: seq<Pte>, k: nat, tag: nat)
    requires k < |chain| && DistinctTags(chain)
    ensures FindIn(Moved(chain, k), tag) == FindIn(chain, tag)
  {
    var moved := Moved(chain, k);
    MovedDistinct(chain, k);
    var j := IndexOf(chain, tag);
    if j >= 0 {
      FoundAt(moved, tag, if j == k then 0 else if j < k then j + 1 else j);
    }
  }

  type Chains = c: seq<seq<Pte>> | |c| == 32768 witness seq(32768, _ => [])

  /** Who uses which page. */
  type Owners = map<array<Byte>, Pte>

  /** No bucket holds a tag twice; every entry is in its own bucket and owns its page. */
  ghost predicate Separate(chains: Chains, owners: Owners) {
    && (forall s :: 0 <= s < 32768 ==> DistinctTags(chains[s]))
    && (forall s, i :: 0 <= s < 32768 && 0 <= i < |chains[s]| ==> Placed(chains[s][i], s, owners))
  }

  ghost predicate Placed(pte: Pte, s: nat, owners: Owners) {
    && pte.home == s && pte.tag < 68719476736
    && pte.page.Length == 8192 && pte.page in owners && owners[pte.page] == pte
  }

  ghost predicate Within(chains: Chains, nodes: set<Pte>) {
    forall s, i :: 0 <= s < 32768 && 0 <= i < |chains[s]| ==> chains[s][i] in nodes
  }

  lemma SeparateMoved(chains: Chains, owners: Owners, s: nat, k: nat)
    requires Separate(chains, owners) && s < 32768 && k < |chains[s]|
    ensures Separate(chains[s := Moved(chains[s], k)], owners)
    ensures forall nodes :: Within(chains, nodes) ==> Within(chains[s := Moved(chains[s], k)], nodes)
  {
    MovedDistinct(chains[s], k);
  }

  /** All entries, bucket after bucket: the order of MEM_FORALL. */
  ghost function Flatten(chains: seq<seq<Pte>>): seq<Pte> {
    if chains == [] then [] else Flatten(chains[..|chains| - 1]) + chains[|chains| - 1]
  }

  lemma {:induction false} FlattenUpdate(chains: seq<seq<Pte>>, s: nat, chain: seq<Pte>)
    requires s < |chains|
    ensures |Flatten(chains[s := chain])| == |Flatten(chains)| - |chains[s]| + |chain|
  {
    var n := |chains| - 1;
    if s < n {
      FlattenUpdate(chains[..n], s, chain);
      assert chains[s := chain][..n] == chains[..n][s := chain];
    } else {
      assert chains[s := chain][..n] == chains[..n];
    }
  }

  lemma {:induction false} FlattenEmpty(chains: seq<seq<Pte>>)
    requires forall s :: 0 <= s < |chains| ==> chains[s] == []
    ensures Flatten(chains) == []
  {
    if chains != [] { FlattenEmpty(chains[..|chains| - 1]); }
  }

  /** Entries of different positions differ in bucket or tag. */
  lemma {:induction false} FlattenDistinct(chains: seq<seq<Pte>>, j: nat, k: nat)
    requires forall s, i :: 0 <= s < |chains| && 0 <= i < |chains[s]| ==> chains[s][i].home == s
    requires forall s :: 0 <= s < |chains| ==> DistinctTags(chains[s])
    requires j < k < |Flatten(chains)|
    ensures Flatten(chains)[j].home <= Flatten(chains)[k].home < |chains|
    ensures Flatten(chains)[j].home == Flatten(chains)[k].home ==> Flatten(chains)[j].tag != Flatten(chains)[k].tag
  {
    var n := |chains| - 1;
    var before := Flatten(chains[..n]);
    if k < |before| {
      FlattenDistinct(chains[..n], j, k);
    } else {
      assert Flatten(chains)[k] == chains[n][k - |before|];
      if j < |before| {
        FlattenHome(chains[..n], j);
      } else {
        assert Flatten(chains)[j] == chains[n][j - |before|];
      }
    }
  }

  lemma {:induction false} FlattenHome(chains: seq<seq<Pte>>, j: nat)
    requires forall s, i :: 0 <= s < |chains| && 0 <= i < |chains[s]| ==> chains[s][i].home == s
    requires j < |Flatten(chains)|
    ensures Flatten(chains)[j].home < |chains|
  {
    var n := |chains| - 1;
    var before := Flatten(chains[..n]);
    if j < |before| {
      FlattenHome(chains[..n], j);
    } else {
      assert Flatten(chains)[j] == chains[n][j - |before|];
    }
  }

  lemma {:induction false} FlattenHas(chains: seq<seq<Pte>>, s: nat, i: nat) returns (k: nat)
    requires s < |chains| && i < |chains[s]|
    ensures k < |Flatten(chains)| && Flatten(chains)[k] == chains[s][i]
  {
    var n := |chains| - 1;
    if s == n {
      k := |Flatten(chains[..n])| + i;
    } else {
      k := FlattenHas(chains[..n], s, i);
    }
  }

  predicate IsPage(a: Addr) { a % 8192 == 0 }

  ghost predicate Distinct(dump: seq<(Addr, seq<Byte>)>) {
    forall j, k :: 0 <= j < k < |dump| ==> dump[j].0 != dump[k].0
  }

  /** The page of `a` is in the dump. */
  ghost predicate Covers(dump: seq<(Addr, seq<Byte>)>, a: Addr) {
    exists k :: 0 <= k < |dump| && dump[k].0 == a - a % 8192
  }

  class PageTable {
    const ptab: array<Pte?>
    var pageCount: nat
    /** The bucket lists, as sequences. */
    ghost var chains: Chains
    /** The memory this table represents. */
    ghost var flat: Flat
    ghost var owners: Owners
    ghost var nodes: set<Pte>
    ghost var pages: set<array<Byte>>

    ghost predicate Valid()
      reads this, ptab, nodes, pages
    {
      && Shape()
      && pageCount == |Flatten(chains)|
      && (forall a: Addr :: Represents(a))
    }

    ghost predicate Shape()
      reads this, ptab, nodes
    {
      && ptab.Length == 32768
      && Separate(chains, owners)
      && pages == owners.Keys
      && Within(chains, nodes)
      && (forall s :: 0 <= s < 32768 ==> Linked(ptab[s], chains[s]))
    }

    /** The page that holds address `a`, if allocated. */
    ghost function PageOf(a: Addr): array?<Byte>
      reads this
    {
      var pte := FindIn(chains[PtabSet(a)], PtabTag(a));
      if pte == null then null else pte.page
    }

    ghost function ByteAt(a: Addr): Byte
      reads this, ptab, nodes, pages
      requires Shape()
    {
      var page := PageOf(a);
      if page == null then 0
      else
        assert Placed(FindIn(chains[PtabSet(a)], PtabTag(a)), PtabSet(a), owners);
        page[Offset(a)]
    }

    /** The page of `a` holds the byte flat memory has there; what was ever written has a page. */
    ghost predicate Represents(a: Addr)
      reads this, ptab, nodes, pages
      requires Shape()
    {
      Get(flat, a) == ByteAt(a) && (a in flat ==> PageOf(a) != null)
    }

    lemma OwnPage(a: Addr)
      requires Shape() && PageOf(a) != null
      ensures PageOf(a) in pages
    {
      assert Placed(FindIn(chains[PtabSet(a)], PtabTag(a)), PtabSet(a), owners);
    }

    constructor ()
      ensures Valid() && fresh(ptab) && flat == map[] && pageCount == 0 && nodes == {} && pages == {}
    {
      ptab := new Pte?[32768](_ => null);
      pageCount := 0;
      chains := seq(32768, _ => []);
      flat, owners, nodes, pages := map[], map[], {}, {};
      new;
      FlattenEmpty(chains);
    }

    /** Unlinks entry `k` of bucket `s` and puts it in front. */
    method Splice(s: nat, prev: Pte, pte: Pte, ghost k: nat)
      requires Shape() && s < 32768 && 0 < k < |chains[s]|
      requires prev == chains[s][k - 1] && pte == chains[s][k]
      modifies this`chains, ptab, nodes
      ensures Shape()
      ensures chains == old(chains)[s := Moved(old(chains)[s], k)]
    {
      ghost var chain := chains[s];
      SeparateMoved(chains, owners, s, k);
      assert Linked(ptab[s], chain);
      prev.next := pte.next;
      pte.next := ptab[s];
      ptab[s] := pte;
      ghost var moved := Moved(chain, k);
      chains := chains[s := moved];
      forall i | 0 <= i < |moved| ensures moved[i].next == (if i + 1 < |moved| then moved[i + 1] else null) {
        if i == 0 {
          assert moved[1] == chain[0];
        } else if i < k {
          assert moved[i] == chain[i - 1] && moved[i + 1] == chain[i];
        } else if i == k {
          assert moved[i] == chain[k - 1];
        } else {
          assert moved[i] == chain[i];
        }
      }
      OthersLinked(s);
    }

    /** Relinking the entries of bucket `s` leaves the other lists alone. */
    twostate lemma OthersLinked(s: nat)
      requires old(Shape()) && ptab.Length == 32768
      requires forall t :: 0 <= t < 32768 && t != s ==> chains[t] == old(chains)[t] && ptab[t] == old(ptab[t])
      requires forall p :: p in old(nodes) && p.home != s ==> p.next == old(p.next)
      ensures forall t :: 0 <= t < 32768 && t != s ==> Linked(ptab[t], chains[t])
    {
      forall t | 0 <= t < 32768 && t != s ensures Linked(ptab[t], chains[t]) {
        var chain := old(chains)[t];
        assert old(Linked(ptab[t], chain));
        forall i | 0 <= i < |chain| ensures chain[i].next == old(chain[i].next) {
          assert Placed(chain[i], t, old(owners));
        }
      }
    }

    method MoveToFront(s: nat, prev: Pte, pte: Pte, ghost k: nat)
      requires Valid() && s < 32768 && 0 < k < |chains[s]|
      requires prev == chains[s][k - 1] && pte == chains[s][k]
      modifies this`chains, ptab, nodes
      ensures Valid() && forall a: Addr :: PageOf(a) == old(PageOf(a))
      ensures chains == old(chains)[s := Moved(old(chains)[s], k)]
    {
      Splice(s, prev, pte, k);
      FlattenUpdate(old(chains), s, chains[s]);
      forall a: Addr ensures PageOf(a) == old(PageOf(a)) {
        if PtabSet(a) == s { MovedFindsSame(old(chains)[s], k, PtabTag(a)); }
      }
      Unobserved();
    }

    /** As long as lookups find the same pages, the represented memory is the same. */
    twostate lemma Unobserved()
      requires old(Valid()) && Shape() && flat == old(flat)
      requires forall p :: p in old(pages) ==> p in pages && unchanged(p)
      requires forall a: Addr :: PageOf(a) == old(PageOf(a))
      ensures forall a: Addr :: Represents(a)
    {
      forall a: Addr ensures Represents(a) {
        assert old(Represents(a));
      }
    }

    /** Walks the bucket list of `a` to the entry with its tag. */
    method Find(a: Addr) returns (prev: Pte?, pte: Pte?, ghost k: nat)
      requires Shape()
      ensures pte == FindIn(chains[PtabSet(a)], PtabTag(a))
      ensures pte != null ==> k < |chains[PtabSet(a)]| && pte == chains[PtabSet(a)][k]
      ensures pte != null ==> prev == if k == 0 then null else chains[PtabSet(a)][k - 1]
    {
      var s, tag := PtabSet(a), PtabTag(a);
      prev, pte, k := null, ptab[s], 0;
      ghost var chain := chains[s];
      assert Linked(ptab[s], chain);
      while pte != null && pte.tag != tag
        invariant 0 <= k <= |chain|
        invariant pte == if k < |chain| then chain[k] else null
        invariant prev == if k == 0 then null else chain[k - 1]
        invariant forall i :: 0 <= i < k ==> chain[i].tag != tag
        invariant Linked(ptab[s], chain)
        decreases |chain| - k
      {
        assert chain[k].next == (if k + 1 < |chain| then chain[k + 1] else null);
        prev, pte, k := pte, pte.next, k + 1;
      }
      if pte != null { FoundAt(chain, tag, k); }
    }

    /** The bucket lists after a lookup of `a`: the entry it found is in front. */
    ghost function LookedUp(a: Addr): Chains
      reads this
    {
      var chain := chains[PtabSet(a)];
      var k := IndexOf(chain, PtabTag(a));
      if k < 0 then chains else chains[PtabSet(a) := [chain[k]] + chain[..k] + chain[k + 1..]]
    }

    lemma FoundLookedUp(a: Addr, k: nat)
      requires Shape() && k < |chains[PtabSet(a)]| && chains[PtabSet(a)][k].tag == PtabTag(a)
      ensures LookedUp(a) == chains[PtabSet(a) := Moved(chains[PtabSet(a)], k)]
      ensures k == 0 ==> LookedUp(a) == chains
    {
      var chain := chains[PtabSet(a)];
      assert DistinctTags(chain) && IndexOf(chain, PtabTag(a)) == k;
      MovedIs(chain, k);
      if k == 0 { assert [chain[k]] + chain[..k] + chain[k + 1..] == chain; }
    }

    /** Searches the bucket list; a found entry is moved to the front. */
    method Translate(a: Addr) returns (page: array?<Byte>)
      requires Valid()
      modifies this`chains, ptab, nodes
      ensures Valid() && page == PageOf(a) == old(PageOf(a))
      ensures chains == old(LookedUp(a))
      ensures page != null ==> ptab[PtabSet(a)] != null && ptab[PtabSet(a)].page == page
    {
      var prev, pte;
      ghost var k;
      prev, pte, k := Find(a);
      if pte == null {
        return null;
      }
      FoundLookedUp(a, k);
      if prev != null {
        MoveToFront(PtabSet(a), prev, pte, k);
      }
      assert Linked(ptab[PtabSet(a)], chains[PtabSet(a)]);
      return pte.page;
    }

    /** Sets the links that put a new entry in front of bucket `s`. */
    method Push(s: nat, pte: Pte)
      requires Shape() && s < 32768 && pte !in nodes
      modifies ptab, pte
      ensures Linked(ptab[s], [pte] + chains[s])
      ensures forall t :: 0 <= t < 32768 && t != s ==> ptab[t] == old(ptab[t])
    {
      assert Linked(ptab[s], chains[s]);
      pte.next := ptab[s];
      ptab[s] := pte;
      LinkedFront(pte, chains[s]);
    }

    /** Puts a new entry in front of bucket `s`. */
    method Insert(s: nat, pte: Pte)
      requires Shape() && s < 32768 && pte !in nodes && pte.page !in pages
      requires pte.home == s && pte.tag < 68719476736 && pte.page.Length == 8192
      requires FindIn(chains[s], pte.tag) == null
      modifies this`chains, this`owners, this`nodes, this`pages, this`pageCount, ptab, pte
      ensures Shape() && nodes == old(nodes) + {pte} && pages == old(pages) + {pte.page}
      ensures chains == old(chains)[s := [pte] + old(chains)[s]] && pageCount == old(pageCount) + 1
    {
      SeparateAdded(chains, owners, s, pte);
      Push(s, pte);
      chains := chains[s := [pte] + chains[s]];
      owners, nodes, pages := owners[pte.page := pte], nodes + {pte}, pages + {pte.page};
      pageCount := pageCount + 1;
      OthersLinked(s);
    }

    /** Allocates a zeroed page for `a` in front of its bucket. */
    method NewPage(a: Addr)
      requires Valid() && PageOf(a) == null
      modifies this, ptab
      ensures Valid() && flat == old(flat) && PageOf(a) != null
      ensures pageCount == old(pageCount) + 1
      ensures old(nodes) <= nodes && fresh(nodes - old(nodes)) && old(pages) <= pages && fresh(pages - old(pages))
    {
      var s := PtabSet(a);
      var page := new Byte[8192](_ => 0);
      var pte := new Pte(PtabTag(a), page, s);
      AddressSplit(a);
      Insert(s, pte);
      FlattenUpdate(old(chains), s, chains[s]);
      Grown(a, pte);
    }

    /** A fresh zero page at an unallocated address changes no byte. */
    twostate lemma Grown(a: Addr, new pte: Pte)
      requires old(Valid()) && Shape() && flat == old(flat) && old(PageOf(a)) == null
      requires pte.tag == PtabTag(a) && pte.page in pages && forall i :: 0 <= i < pte.page.Length ==> pte.page[i] == 0
      requires chains == old(chains)[PtabSet(a) := [pte] + old(chains)[PtabSet(a)]]
      requires forall p :: p in old(pages) ==> p in pages && unchanged(p)
      ensures PageOf(a) == pte.page
      ensures forall b: Addr :: Represents(b)
    {
      var s := PtabSet(a);
      FoundAt(chains[s], pte.tag, 0);
      forall b: Addr ensures Represents(b) {
        assert old(Represents(b));
        if PtabSet(b) == s {
          AddedFinds(old(chains)[s], pte, PtabTag(b));
        }
      }
    }

    /** The table only ever grows, and only by new objects. */
    twostate predicate Grew()
      reads this
    {
      && old(nodes) <= nodes && fresh(nodes - old(nodes))
      && old(pages) <= pages && fresh(pages - old(pages))
      && old(pageCount) <= pageCount
    }

    /** First the head of the bucket, then the search. */
    method Page(a: Addr) returns (page: array?<Byte>)
      requires Valid()
      modifies this`chains, ptab, nodes
      ensures Valid() && page == PageOf(a) == old(PageOf(a))
      ensures page != null ==> ptab[PtabSet(a)] != null && ptab[PtabSet(a)].page == page
    {
      var s := PtabSet(a);
      var head := ptab[s];
      assert Linked(ptab[s], chains[s]);
      if head != null && head.tag == PtabTag(a) {
        FoundAt(chains[s], head.tag, 0);
        return head.page;
      }
      page := Translate(a);
    }

    /** An unallocated page reads as zero and stays unallocated. */
    method ReadByte(a: Addr) returns (b: Byte)
      requires Valid()
      modifies this`chains, ptab, nodes
      ensures Valid() && b == Get(flat, a)
    {
      var page := Page(a);
      assert Represents(a);
      if page == null {
        return 0;
      }
      page := Page(a);
      return page[Offset(a)];
    }

    /** Allocates on demand, then writes into the page. */
    method WriteByte(a: Addr, b: Byte)
      requires Valid()
      modifies this, ptab, nodes, pages
      ensures Valid() && Grew() && flat == old(flat)[a := b]
      ensures pageCount == old(pageCount) + if old(PageOf(a)) == null then 1 else 0
    {
      Tickle(a);
      var page := Page(a);
      OwnPage(a);
      Poke(a, page, b);
    }

    /** Makes sure the page of `a` exists. */
    method Tickle(a: Addr)
      requires Valid()
      modifies this, ptab, nodes
      ensures Valid() && Grew() && flat == old(flat) && PageOf(a) != null
      ensures pageCount == old(pageCount) + if old(PageOf(a)) == null then 1 else 0
    {
      var page := Page(a);
      if page == null {
        NewPage(a);
      }
    }

    method Poke(a: Addr, page: array<Byte>, b: Byte)
      requires Valid() && page == PageOf(a)
      modifies this`flat, page
      ensures Valid() && flat == old(flat)[a := b]
    {
      assert Placed(FindIn(chains[PtabSet(a)], PtabTag(a)), PtabSet(a), owners);
      page[Offset(a)] := b;
      flat := flat[a := b];
      forall c: Addr ensures Represents(c) {
        assert old(Represents(c));
        if c != a && PageOf(c) == page {
          assert Placed(FindIn(chains[PtabSet(c)], PtabTag(c)), PtabSet(c), owners);
          AddressSplit(a);
          AddressSplit(c);
          assert Offset(a) != Offset(c);
        }
      }
    }

    method ReadBlock(addr: Addr, n: nat) returns (data: seq<Byte>)
      requires Valid()
      modifies this`chains, ptab, nodes
      ensures Valid() && data == Load(flat, addr, n)
    {
      data := [];
      while |data| < n
        invariant Valid()
        invariant |data| <= n && data == Load(flat, addr, |data|)
      {
        var b := ReadByte(Plus(addr, |data|));
        data := data + [b];
      }
    }

    method WriteBlock(addr: Addr, data: seq<Byte>)
      requires Valid()
      modifies this, ptab, nodes, pages
      ensures Valid() && Grew() && flat == Store(old(flat), addr, data)
    {
      var i := 0;
      while i < |data|
        invariant Valid() && Grew() && 0 <= i <= |data|
        invariant flat == Store(old(flat), addr, data[..i])
      {
        WriteByte(Plus(addr, i), data[i]);
        StoreMore(old(flat), addr, data, i);
        i := i + 1;
      }
      assert data[..|data|] == data;
    }

    /** The checked access: power-of-two size up to a page, naturally aligned. */
    method Access(q: Request) returns (r: Reply)
      requires Valid()
      modifies this, ptab, nodes, pages
      ensures Valid() && Grew() && (flat, r) == Perform(old(flat), q)
    {
      var fault := Check(q);
      if fault != NoFault {
        return Reply(fault, []);
      }
      match q
      case Read(addr, nbytes) =>
        var data := ReadBlock(addr, nbytes);
        return Reply(NoFault, data);
      case Write(addr, data) =>
        WriteBlock(addr, data);
        return Reply(NoFault, []);
    }

    /** The loop of the block copies: one access after the other, until one faults. */
    method AccessAll(qs: seq<Request>) returns (r: Reply)
      requires Valid()
      modifies this, ptab, nodes, pages
      ensures Valid() && Grew() && (flat, r) == Series(old(flat), qs)
    {
      r := Reply(NoFault, []);
      var i := 0;
      while i < |qs|
        invariant Valid() && Grew() && 0 <= i <= |qs|
        invariant r.fault == NoFault && (flat, r) == Series(old(flat), qs[..i])
      {
        var r1 := Access(qs[i]);
        i := i + 1;
        assert qs[..i][..i - 1] == qs[..i - 1];
        r := Reply(r1.fault, r.data + r1.data);
        if r.fault != NoFault {
          FaultStays(old(flat), qs, i);
          return;
        }
      }
      assert qs[..i] == qs;
    }

    /** Block copy, one byte at a time. */
    method Bcopy(q: Request) returns (r: Reply)
      requires Valid()
      modifies this, ptab, nodes, pages
      ensures Valid() && Grew() && (flat, r) == Copy(old(flat), q)
    {
      var n := if q.Size() > 0 then q.Size() else 0;
      r := AccessAll(ByteAccesses(q, n));
      BytesAreCopy(old(flat), q, n);
      WholeSlice(old(flat), q, n);
    }

    /** Block copy, one word at a time. */
    method Bcopy4(q: Request) returns (r: Reply)
      requires Valid()
      modifies this, ptab, nodes, pages
      ensures Valid() && Grew() && (flat, r) == Copy4(old(flat), q)
    {
      r := AccessAll(WordAccesses(q, WordCount(q)));
    }

    /** Any sequence of operations answers and acts as on flat memory. */
    method Run(ops: seq<Op>) returns (replies: seq<Reply>)
      requires Valid()
      modifies this, ptab, nodes, pages
      ensures Valid() && Grew() && (flat, replies) == RunFlat(old(flat), ops)
    {
      replies := [];
      var i := 0;
      while i < |ops|
        invariant Valid() && Grew() && 0 <= i <= |ops|
        invariant (flat, replies) == RunFlat(old(flat), ops[..i])
      {
        var r;
        match ops[i] {
          case Checked(q) => r := Access(q);
          case Bytes(q) => r := Bcopy(q);
          case Words(q) => r := Bcopy4(q);
        }
        replies := replies + [r];
        i := i + 1;
        assert ops[..i][..i - 1] == ops[..i - 1];
      }
      assert ops[..i] == ops;
    }

    ghost predicate Good(pte: Pte)
      reads this
    {
      && pte.home < 32768 && Placed(pte, pte.home, owners)
      && FindIn(chains[pte.home], pte.tag) == pte && pte.page in pages
    }

    /** What a dump records of an entry: its address and its bytes. */
    ghost predicate Recorded(pte: Pte, d: (Addr, seq<Byte>))
      reads this, pages
      requires pte.page in pages
    {
      d.0 == PteAddr(pte.tag, pte.home) && d.1 == pte.page[..]
    }

    /** Visits every entry of every bucket, as a checkpoint does. */
    method Dump() returns (dump: seq<(Addr, seq<Byte>)>)
      requires Valid()
      ensures |dump| == pageCount
      ensures Distinct(dump)
      ensures forall k :: 0 <= k < |dump| ==> IsPage(dump[k].0) && dump[k].1 == Load(flat, dump[k].0, 8192)
      ensures forall a :: a in flat ==> Covers(dump, a)
    {
      dump := [];
      var s := 0;
      while s < 32768
        invariant 0 <= s <= 32768 && AllRecorded(Flatten(chains[..s]), dump)
      {
        var more := DumpBucket(s);
        RecordedMore(Flatten(chains[..s]), dump, chains[s], more);
        assert chains[..s + 1][..s] == chains[..s];
        dump := dump + more;
        s := s + 1;
      }
      assert chains[..32768] == chains;
      DumpIsComplete(dump);
    }

    ghost predicate AllRecorded(done: seq<Pte>, dump: seq<(Addr, seq<Byte>)>)
      reads this, pages
    {
      |dump| == |done| && forall k :: 0 <= k < |done| ==> Good(done[k]) && Recorded(done[k], dump[k])
    }

    lemma RecordedMore(x: seq<Pte>, u: seq<(Addr, seq<Byte>)>, y: seq<Pte>, v: seq<(Addr, seq<Byte>)>)
      requires AllRecorded(x, u) && AllRecorded(y, v)
      ensures AllRecorded(x + y, u + v)
    {
    }

    /** Visits every entry of one bucket. */
    method DumpBucket(s: nat) returns (dump: seq<(Addr, seq<Byte>)>)
      requires Valid() && s < 32768
      ensures AllRecorded(chains[s], dump)
    {
      dump := [];
      ghost var chain, i := chains[s], 0;
      assert Linked(ptab[s], chain);
      var pte := ptab[s];
      while pte != null
        invariant 0 <= i <= |chain| && pte == (if i < |chain| then chain[i] else null)
        invariant AllRecorded(chain[..i], dump)
        decreases |chain| - i
      {
        assert Placed(chain[i], s, owners);
        AddressJoin(pte.tag, s, 0);
        FoundAt(chain, pte.tag, i);
        dump := dump + [(PteAddr(pte.tag, s), pte.page[..])];
        assert chain[i].next == (if i + 1 < |chain| then chain[i + 1] else null);
        pte, i := pte.next, i + 1;
      }
      assert chain[..i] == chain;
    }

    lemma DumpedPage(pte: Pte, d: (Addr, seq<Byte>))
      requires Valid() && Good(pte) && Recorded(pte, d)
      ensures IsPage(d.0) && d.1 == Load(flat, d.0, 8192)
    {
      forall o | 0 <= o < 8192 ensures Load(flat, d.0, 8192)[o] == pte.page[o] {
        AddressJoin(pte.tag, pte.home, o);
        LoadAt(flat, d.0, 8192, o);
        PlusNoWrap(d.0, o);
        assert Represents(d.0 + o) && ByteAt(d.0 + o) == pte.page[o];
      }
    }

    lemma DumpIsComplete(dump: seq<(Addr, seq<Byte>)>)
      requires Valid() && |dump| == |Flatten(chains)|
      requires forall k :: 0 <= k < |dump| ==> Good(Flatten(chains)[k]) && Recorded(Flatten(chains)[k], dump[k])
      ensures Distinct(dump)
      ensures forall k :: 0 <= k < |dump| ==> IsPage(dump[k].0) && dump[k].1 == Load(flat, dump[k].0, 8192)
      ensures forall a :: a in flat ==> Covers(dump, a)
    {
      var all := Flatten(chains);
      forall k | 0 <= k < |dump| ensures IsPage(dump[k].0) && dump[k].1 == Load(flat, dump[k].0, 8192) {
        DumpedPage(all[k], dump[k]);
      }
      forall j, k | 0 <= j < k < |dump| ensures dump[j].0 != dump[k].0 {
        FlattenDistinct(chains, j, k);
        AddressJoin(all[j].tag, all[j].home, 0);
        AddressJoin(all[k].tag, all[k].home, 0);
      }
      forall a | a in flat ensures Covers(dump, a) {
        var s := PtabSet(a);
        assert Represents(a);
        var i := IndexOf(chains[s], PtabTag(a));
        var k := FlattenHas(chains, s, i);
        assert Placed(chains[s][i], s, owners);
        AddressSplit(a);
        assert dump[k].0 == a - a % 8192;
      }
    }
  }

  lemma StoreMore(f: Flat, addr: Addr, data: seq<Byte>, i: nat)
    requires i < |data|
    ensures Store(f, addr, data[..i + 1]) == Store(f, addr, data[..i])[Plus(addr, i) := data[i]]
  {
    TakeMore(data, i);
  }

  lemma SeparateAdded(chains: Chains, owners: Owners, s: nat, pte: Pte)
    requires Separate(chains, owners) && s < 32768
    requires FindIn(chains[s], pte.tag) == null && pte.page !in owners
    requires pte.home == s && pte.tag < 68719476736 && pte.page.Length == 8192
    ensures Separate(chains[s := [pte] + chains[s]], owners[pte.page := pte])
    ensures forall nodes :: Within(chains, nodes) ==> Within(chains[s := [pte] + chains[s]], nodes + {pte})
  {
    var chains': Chains, owners' := chains[s := [pte] + chains[s]], owners[pte.page := pte];
    forall nodes | Within(chains, nodes) ensures Within(chains', nodes + {pte}) {
    }
    assert DistinctTags(chains'[s]);
    forall t, i | 0 <= t < 32768 && 0 <= i < |chains'[t]| ensures Placed(chains'[t][i], t, owners') {
      if t != s {
        assert Placed(chains[t][i], t, owners);
      } else if i > 0 {
        assert Placed(chains[s][i - 1], s, owners);
      }
    }
  }

  lemma AddedFinds(chain: seq<Pte>, pte: Pte, tag: nat)
    requires DistinctTags(chain) && FindIn(chain, pte.tag) == null
    ensures FindIn([pte] + chain, tag) == if tag == pte.tag then pte else FindIn(chain, tag)
  {
    var more := [pte] + chain;
    assert DistinctTags(more);
    if tag == pte.tag {
      FoundAt(more, tag, 0);
    } else {
      var k := IndexOf(chain, tag);
      if k >= 0 {
        FoundAt(more, tag, k + 1);
      } else {
        assert forall i :: 0 <= i < |more| ==> more[i].tag != tag;
      }
    }
  }
}
