/**
 The start-up stack: argc, the argv and envp pointer arrays and their strings, written
 below the text segment by the loader.
 */
module StartupStack {
  import opened Basics
  import opened Machine
  import opened Memory

  // ------------------------------------------------------------------- little-endian

  function LittleEndian(v: nat, n: nat): (bytes: seq<Byte>)
    ensures |bytes| == n
    decreases n, v
  {
    if n == 0 then [] else [v % 256] + LittleEndian(v / 256, n - 1)
  }

  function FromLittleEndian(bytes: seq<Byte>): nat {
    if bytes == [] then 0 else bytes[0] + 256 * FromLittleEndian(bytes[1..])
  }

  function Pow256(n: nat): (r: nat)
    ensures r > 0
  {
    if n == 0 then 1 else 256 * Pow256(n - 1)
  }

  lemma {:induction false} LittleEndianRoundTrip(v: nat, n: nat)
    requires v < Pow256(n)
    ensures FromLittleEndian(LittleEndian(v, n)) == v
  {
    if n > 0 {
      LittleEndianRoundTrip(v / 256, n - 1);
      assert LittleEndian(v, n)[1..] == LittleEndian(v / 256, n - 1);
    }
  }

  function Quad(v: nat): (bytes: seq<Byte>)
    ensures |bytes| == 8
  {
    LittleEndian(v, 8)
  }

  lemma QuadRoundTrip(v: nat)
    requires v < 0x1_0000_0000_0000_0000
    ensures FromLittleEndian(Quad(v)) == v
  {
    assert Pow256(4) == 0x1_0000_0000;
    assert Pow256(8) == 0x1_0000_0000_0000_0000;
    LittleEndianRoundTrip(v, 8);
  }

  function FourValue(b: seq<Byte>, i: nat): int
    requires i + 4 <= |b|
  {
    b[i] as int + 0x100 * (b[i + 1] as int) + 0x1_0000 * (b[i + 2] as int) + 0x100_0000 * (b[i + 3] as int)
  }

  /** The first byte is the least significant. */
  lemma QuadValue(b: seq<Byte>)
    requires |b| == 8
    ensures FromLittleEndian(b) == FourValue(b, 0) + 0x1_0000_0000 * FourValue(b, 4)
  {
    FourBytes(b, 4);
    FourBytes(b, 0);
    assert FromLittleEndian(b[8..]) == 0;
    assert b[0..] == b;
  }

  lemma FourBytes(b: seq<Byte>, i: nat)
    requires i + 4 <= |b|
    ensures FromLittleEndian(b[i..]) == FourValue(b, i) + 0x1_0000_0000 * FromLittleEndian(b[i + 4..])
  {
    FirstByte(b, i);
    FirstByte(b, i + 1);
    FirstByte(b, i + 2);
    FirstByte(b, i + 3);
  }

  lemma FirstByte(b: seq<Byte>, i: nat)
    requires i < |b|
    ensures FromLittleEndian(b[i..]) == b[i] + 256 * FromLittleEndian(b[i + 1..])
  {
    assert b[i..][1..] == b[i + 1..];
  }

  // --------------------------------------------------------------------- what is read

  /** A C string's bytes, without the terminator. */
  type Text = seq<Byte>

  predicate NulFree(s: Text) { forall i :: 0 <= i < |s| ==> s[i] != 0 }

  predicate AllNulFree(ss: seq<Text>) { forall k :: 0 <= k < |ss| ==> NulFree(ss[k]) }

  /** The quadword `k` places above `sp`. */
  function Slot(f: Flat, sp: Addr, k: nat): nat { FromLittleEndian(Load(f, Plus(sp, 8 * k), 8)) }

  function Slots(f: Flat, sp: Addr): nat -> nat { (k: nat) => Slot(f, sp, k) }

  /** Memory holds string `s` at `a`, with its terminator. */
  ghost predicate StringAt(f: Flat, a: nat, s: Text) {
    && 0 < a < 0x1_0000_0000_0000_0000 && NulFree(s)
    && (forall i :: 0 <= i < |s| ==> Get(f, Plus(a, i)) == s[i])
    && Get(f, Plus(a, |s|)) == 0
  }

  /** From slot `k` on there are pointers to the given strings, then a null pointer. */
  ghost predicate PointersAt(f: Flat, slot: nat -> nat, k: nat, strings: seq<Text>) {
    && (forall i :: 0 <= i < |strings| ==> StringAt(f, slot(k + i), strings[i]))
    && slot(k + |strings|) == 0
  }

  /** What a program finds on its stack: argc, argv and envp. */
  ghost predicate StackHas(f: Flat, slot: nat -> nat, argv: seq<Text>, envp: seq<Text>) {
    slot(0) == |argv| && PointersAt(f, slot, 1, argv) && PointersAt(f, slot, 2 + |argv|, envp)
  }

  ghost predicate Decodes(f: Flat, sp: Addr, argv: seq<Text>, envp: seq<Text>) {
    StackHas(f, Slots(f, sp), argv, envp)
  }

  lemma StringUnique(f: Flat, a: nat, s: Text, t: Text)
    requires StringAt(f, a, s) && StringAt(f, a, t)
    ensures s == t
  {
    assert forall i :: 0 <= i < |s| ==> Get(f, Plus(a, i)) != 0;
    assert forall i :: 0 <= i < |t| ==> Get(f, Plus(a, i)) != 0;
  }

  lemma PointersUnique(f: Flat, slot: nat -> nat, k: nat, x: seq<Text>, y: seq<Text>)
    requires PointersAt(f, slot, k, x) && PointersAt(f, slot, k, y)
    ensures x == y
  {
    var short := if |x| < |y| then |x| else |y|;
    assert short < |x| ==> StringAt(f, slot(k + short), x[short]);
    assert short < |y| ==> StringAt(f, slot(k + short), y[short]);
    forall i | 0 <= i < |x| && i < |y| ensures x[i] == y[i] {
      StringUnique(f, slot(k + i), x[i], y[i]);
    }
  }

  /** Memory tells argv and envp without ambiguity. */
  lemma DecodesUnique(f: Flat, sp: Addr, argv: seq<Text>, envp: seq<Text>, argv': seq<Text>, envp': seq<Text>)
    requires Decodes(f, sp, argv, envp) && Decodes(f, sp, argv', envp')
    ensures argv == argv' && envp == envp'
  {
    StackUnique(f, Slots(f, sp), argv, envp, argv', envp');
  }

  lemma StackUnique(f: Flat, slot: nat -> nat, argv: seq<Text>, envp: seq<Text>, argv': seq<Text>, envp': seq<Text>)
    requires StackHas(f, slot, argv, envp) && StackHas(f, slot, argv', envp')
    ensures argv == argv' && envp == envp'
  {
    PointersUnique(f, slot, 1, argv, argv');
    PointersUnique(f, slot, 2 + |argv|, envp, envp');
  }

  // ------------------------------------------------------------------------ the image

  /** The strings one after the other, each with its terminator. */
  function Strings(ss: seq<Text>): seq<Byte> {
    if ss == [] then [] else Strings(ss[..|ss| - 1]) + (ss[|ss| - 1] + [0])
  }

  /** How far string `k` begins behind the first one. */
  function Offset(ss: seq<Text>, k: nat): nat
    requires k <= |ss|
  {
    if k == 0 then 0 else Offset(ss, k - 1) + |ss[k - 1]| + 1
  }

  /** Bytes before the strings: argc, the pointers, two null pointers. */
  function HeaderSize(ss: seq<Text>): nat { 24 + 8 * |ss| }

  /** Where string `k` is. */
  function Pointer(sp: Addr, ss: seq<Text>, k: nat): Addr
    requires k <= |ss|
  {
    Plus(sp, HeaderSize(ss) + Offset(ss, k))
  }

  /** argc, the argv pointers, null, the envp pointers, null. */
  function Words(sp: Addr, ss: seq<Text>, argc: nat): (words: seq<nat>)
    requires argc <= |ss|
    ensures |words| == |ss| + 3
  {
    seq(|ss| + 3, i requires 0 <= i < |ss| + 3 =>
      if i == 0 then argc
      else if i <= argc then Pointer(sp, ss, i - 1)
      else if i == argc + 1 || i == |ss| + 2 then 0
      else Pointer(sp, ss, i - 2))
  }

  function Quads(words: seq<nat>): (bytes: seq<Byte>)
    ensures |bytes| == 8 * |words|
  {
    if words == [] then [] else Quads(words[..|words| - 1]) + Quad(words[|words| - 1])
  }

  lemma {:induction false} QuadsAt(words: seq<nat>, k: nat)
    requires k < |words|
    ensures Quads(words)[8 * k..8 * k + 8] == Quad(words[k])
  {
    var n := |words| - 1;
    if k < n {
      QuadsAt(words[..n], k);
      InFirst(Quads(words[..n]), Quad(words[n]), 8 * k, 8 * k + 8);
    } else {
      InSecond(Quads(words[..n]), Quad(words[n]), 0, 8);
    }
  }

  function Image(sp: Addr, ss: seq<Text>, argc: nat): (bytes: seq<Byte>)
    requires argc <= |ss|
    ensures |bytes| == HeaderSize(ss) + |Strings(ss)|
  {
    Quads(Words(sp, ss, argc)) + Strings(ss)
  }

  /** Strings occupy disjoint stretches, in order. */
  lemma {:induction false} StringsDisjoint(ss: seq<Text>, j: nat, k: nat)
    requires j < k <= |ss|
    ensures Offset(ss, j) + |ss[j]| + 1 <= Offset(ss, k)
  {
    if j < k - 1 { StringsDisjoint(ss, j, k - 1); }
  }

  lemma {:induction false} OffsetPrefix(ss: seq<Text>, n: nat, k: nat)
    requires k <= n <= |ss|
    ensures Offset(ss[..n], k) == Offset(ss, k)
  {
    if k > 0 { OffsetPrefix(ss, n, k - 1); }
  }

  lemma {:induction false} StringsEnd(ss: seq<Text>)
    ensures |Strings(ss)| == Offset(ss, |ss|)
  {
    if ss != [] {
      var n := |ss| - 1;
      StringsEnd(ss[..n]);
      OffsetPrefix(ss, n, n);
    }
  }

  /** Where the image has string `k`. */
  lemma {:induction false} StringsAt(ss: seq<Text>, k: nat)
    requires k < |ss|
    ensures Offset(ss, k) + |ss[k]| + 1 <= |Strings(ss)|
    ensures Strings(ss)[Offset(ss, k)..Offset(ss, k) + |ss[k]| + 1] == ss[k] + [0]
  {
    var n := |ss| - 1;
    var before, last := Strings(ss[..n]), ss[n] + [0];
    OffsetPrefix(ss, n, k);
    if k < n {
      StringsAt(ss[..n], k);
      InFirst(before, last, Offset(ss, k), Offset(ss, k) + |ss[k]| + 1);
    } else {
      StringsEnd(ss[..n]);
      InSecond(before, last, 0, |last|);
    }
  }

  /** The slot a pointer is in: the null pointer behind argv is skipped. */
  function SlotOf(argc: nat, k: nat): nat { if k < argc then 1 + k else 2 + k }

  lemma ImageWord(sp: Addr, ss: seq<Text>, argc: nat, k: nat)
    requires argc <= |ss| && k < |ss| + 3
    ensures Image(sp, ss, argc)[8 * k..8 * k + 8] == Quad(Words(sp, ss, argc)[k])
  {
    var words := Words(sp, ss, argc);
    QuadsAt(words, k);
    InFirst(Quads(words), Strings(ss), 8 * k, 8 * k + 8);
  }

  lemma ImageText(sp: Addr, ss: seq<Text>, argc: nat, k: nat)
    requires argc <= |ss| && k < |ss|
    ensures var o := HeaderSize(ss) + Offset(ss, k);
            o + |ss[k]| + 1 <= |Image(sp, ss, argc)| && Image(sp, ss, argc)[o..o + |ss[k]| + 1] == ss[k] + [0]
  {
    StringsAt(ss, k);
    InStrings(Image(sp, ss, argc), Quads(Words(sp, ss, argc)), Strings(ss), HeaderSize(ss), Offset(ss, k), ss[k] + [0]);
  }

  /** A part of the second of two pieces, by its place in both. */
  lemma InStrings(image: seq<Byte>, header: seq<Byte>, strings: seq<Byte>, n: nat, o: nat, part: seq<Byte>)
    requires image == header + strings && |header| == n && o + |part| <= |strings| && strings[o..o + |part|] == part
    ensures n + o + |part| <= |image| && image[n + o..n + o + |part|] == part
  {
    InSecond(header, strings, o, o + |part|);
  }

  // --------------------------------------------------------------- writing the image

  /** Memory holds bytes `lo` up to `hi` of the image. */
  ghost predicate Holds(f: Flat, sp: Addr, image: seq<Byte>, lo: nat, hi: nat)
    requires hi <= |image|
  {
    forall o :: lo <= o < hi ==> Get(f, Plus(sp, o)) == image[o]
  }

  ghost predicate SameOutside(f: Flat, g: Flat, sp: Addr, lo: nat, hi: nat) {
    forall a: Addr :: !(lo <= Distance(sp, a) < hi) ==> Get(f, a) == Get(g, a)
  }

  /** Writing a part of the image where it belongs: nothing else changes, and what held of the
      image still holds. */
  lemma PutPart(f: Flat, sp: Addr, image: seq<Byte>, o: nat, n: nat)
    requires o + n <= |image| <= 0x1_0000_0000_0000_0000
    ensures var g := Store(f, Plus(sp, o), image[o..o + n]);
            && Holds(g, sp, image, o, o + n) && SameOutside(f, g, sp, o, o + n)
            && (forall lo, hi :: 0 <= lo <= hi <= |image| && Holds(f, sp, image, lo, hi) ==> Holds(g, sp, image, lo, hi))
  {
    if n == 0 { return; }
    var part := image[o..o + n];
    var g := Store(f, Plus(sp, o), part);
    forall a: Addr ensures Get(g, a) == if o <= Distance(sp, a) < o + n then image[Distance(sp, a)] else Get(f, a) {
      StoreAt(f, Plus(sp, o), part, a);
      DistanceFrom(sp, o, a);
    }
    forall i | 0 <= i < |image| ensures Get(g, Plus(sp, i)) == if o <= i < o + n then image[i] else Get(f, Plus(sp, i)) {
      PlusDistance(sp, Plus(sp, i), i);
    }
  }

  lemma DistanceFrom(sp: Addr, o: nat, a: Addr)
    requires o < 0x1_0000_0000_0000_0000
    ensures Distance(Plus(sp, o), a) ==
            if o <= Distance(sp, a) then Distance(sp, a) - o else Distance(sp, a) - o + 0x1_0000_0000_0000_0000
  {
    PlusIsModular(sp, o);
  }

  /** Memory has `data` at offset `o` from `sp`. */
  ghost predicate Has(f: Flat, sp: Addr, o: nat, data: seq<Byte>) {
    forall i :: 0 <= i < |data| ==> Get(f, Plus(sp, o + i)) == data[i]
  }

  lemma PartHeld(f: Flat, sp: Addr, image: seq<Byte>, o: nat, data: seq<Byte>)
    requires o + |data| <= |image| && Holds(f, sp, image, o, o + |data|) && image[o..o + |data|] == data
    ensures Has(f, sp, o, data)
  {
    forall i | 0 <= i < |data| ensures Get(f, Plus(sp, o + i)) == data[i] {
      assert image[o..o + |data|][i] == image[o + i];
    }
  }

  lemma {:induction false} HasLoads(f: Flat, sp: Addr, o: nat, data: seq<Byte>)
    requires Has(f, sp, o, data)
    ensures Load(f, Plus(sp, o), |data|) == data
  {
    if data != [] {
      var n := |data| - 1;
      HasLoads(f, sp, o, data[..n]);
      PlusPlus(sp, o, n);
      assert data == data[..n] + [data[n]];
    }
  }

  lemma SlotHeld(f: Flat, sp: Addr, k: nat, v: nat)
    requires Has(f, sp, 8 * k, Quad(v)) && v < 0x1_0000_0000_0000_0000
    ensures Slot(f, sp, k) == v
  {
    HasLoads(f, sp, 8 * k, Quad(v));
    QuadRoundTrip(v);
  }

  lemma StringHeld(f: Flat, sp: Addr, o: nat, s: Text)
    requires Has(f, sp, o, s + [0]) && Plus(sp, o) != 0 && NulFree(s)
    ensures StringAt(f, Plus(sp, o), s)
  {
    forall i | 0 <= i <= |s| ensures Get(f, Plus(Plus(sp, o), i)) == (s + [0])[i] {
      PlusPlus(sp, o, i);
    }
  }

  /** Slots that hold the words, and strings where the words point, are an argv and an envp. */
  lemma Assemble(f: Flat, slot: nat -> nat, words: seq<nat>, argv: seq<Text>, envp: seq<Text>)
    requires |words| == |argv + envp| + 3 && forall k :: 0 <= k < |words| ==> slot(k) == words[k]
    requires words[0] == |argv| && words[1 + |argv|] == 0 && words[2 + |argv + envp|] == 0
    requires forall k :: 0 <= k < |argv + envp| ==> StringAt(f, words[SlotOf(|argv|, k)], (argv + envp)[k])
    ensures StackHas(f, slot, argv, envp)
  {
    var ss := argv + envp;
    forall i | 0 <= i < |argv| ensures StringAt(f, slot(1 + i), argv[i]) {
      assert ss[i] == argv[i] && SlotOf(|argv|, i) == 1 + i;
    }
    forall j | 0 <= j < |envp| ensures StringAt(f, slot(2 + |argv| + j), envp[j]) {
      assert ss[|argv| + j] == envp[j] && SlotOf(|argv|, |argv| + j) == 2 + |argv| + j;
    }
  }

  // ------------------------------------------------------------------ the loader's work

  /** The size of what the loader writes. */
  function ImageSize(ss: seq<Text>): nat { HeaderSize(ss) + Offset(ss, |ss|) }

  function StackBase(textBase: Addr): Addr { (textBase + (0x1_0000_0000_0000_0000 - 413696)) % 0x1_0000_0000_0000_0000 }

  /** The initial stack pointer: 16384 bytes below the base of the stack. */
  function StackPointer(textBase: Addr): Addr {
    (StackBase(textBase) + (0x1_0000_0000_0000_0000 - 16384)) % 0x1_0000_0000_0000_0000
  }

  /** One thing the loader writes: a word of the header, or a string, at an offset from `sp`. */
  datatype Put = Word(slot: nat, v: nat) | Str(offset: nat, s: Text) {
    function At(): nat { if Word? then 8 * slot else offset }

    function Data(): seq<Byte> { if Word? then Quad(v) else s + [0] }
  }

  /** Accesses for words fault if they are misaligned, which the loader does not notice. */
  function Apply(f: Flat, sp: Addr, aligned: bool, put: Put): Flat {
    if put.Word? && !aligned then f else Store(f, Plus(sp, put.At()), put.Data())
  }

  predicate WordAligned(sp: Addr) { sp % 8 == 0 }

  function ApplyAll(f: Flat, sp: Addr, aligned: bool, puts: seq<Put>): Flat {
    if puts == [] then f else Apply(ApplyAll(f, sp, aligned, puts[..|puts| - 1]), sp, aligned, puts[|puts| - 1])
  }

  /** The pointer to string `i`, and the string. */
  function ArgWord(sp: Addr, ss: seq<Text>, argc: nat, i: nat): Put
    requires i < |ss|
  {
    Word(SlotOf(argc, i), Pointer(sp, ss, i))
  }

  function ArgString(ss: seq<Text>, i: nat): Put
    requires i < |ss|
  {
    Str(HeaderSize(ss) + Offset(ss, i), ss[i])
  }

  /** Pointers to strings `lo` up to `hi`, each followed by its string. */
  function ArgPuts(sp: Addr, ss: seq<Text>, argc: nat, lo: nat, hi: nat): seq<Put>
    requires lo <= hi <= |ss|
    decreases hi - lo
  {
    if lo == hi then []
    else ArgPuts(sp, ss, argc, lo, hi - 1) + [ArgWord(sp, ss, argc, hi - 1), ArgString(ss, hi - 1)]
  }

  /** Everything, in the order it is written. */
  function Plan(sp: Addr, ss: seq<Text>, argc: nat): seq<Put>
    requires argc <= |ss|
  {
    [Word(0, argc)] + ArgPuts(sp, ss, argc, 0, argc) + [Word(1 + argc, 0)]
    + ArgPuts(sp, ss, argc, argc, |ss|) + [Word(2 + |ss|, 0)]
  }

  lemma ApplyStep(f: Flat, sp: Addr, aligned: bool, puts: seq<Put>, put: Put)
    ensures ApplyAll(f, sp, aligned, puts + [put]) == Apply(ApplyAll(f, sp, aligned, puts), sp, aligned, put)
  {
    assert (puts + [put])[..|puts|] == puts;
  }

  lemma QuadCheck(a: Addr, data: seq<Byte>)
    requires |data| == 8
    ensures Check(Write(a, data)) == if a % 8 == 0 then NoFault else AlignmentFault
  {
    assert PowerOfTwo(2) && PowerOfTwo(4) && PowerOfTwo(8);
    AlignedMeansMultiple(a, 8);
  }

  lemma SlotAligned(sp: Addr, k: nat)
    ensures Plus(sp, 8 * k) % 8 == sp % 8
  {
    PlusIsModular(sp, 8 * k);
    var w := (sp + 8 * k) / 0x1_0000_0000_0000_0000;
    assert Plus(sp, 8 * k) == sp + 8 * (k - 0x2000_0000_0000_0000 * w);
  }

  lemma PointerStep(sp: Addr, ss: seq<Text>, i: nat)
    requires i < |ss|
    ensures Pointer(sp, ss, i + 1) == Plus(Pointer(sp, ss, i), |ss[i]| + 1)
  {
    PlusPlus(sp, HeaderSize(ss) + Offset(ss, i), |ss[i]| + 1);
  }

  /** One checked access for one byte. */
  method WriteChar(mem: PageTable, a: Addr, c: Byte)
    requires mem.Valid()
    modifies mem, mem.ptab, mem.nodes, mem.pages
    ensures mem.Valid() && mem.Grew() && mem.flat == Store(old(mem.flat), a, [c])
  {
    var r := mem.Access(Write(a, [c]));
  }

  lemma StoreStep(f: Flat, addr: Addr, all: seq<Byte>, i: nat)
    requires i < |all|
    ensures Store(f, addr, all[..i + 1]) == Store(Store(f, addr, all[..i]), Plus(addr, i), [all[i]])
  {
    assert all[..i + 1] == all[..i] + [all[i]];
    StoreAppend(f, addr, all[..i], [all[i]]);
  }

  /** Copies a string and its terminator. */
  method StrCpy(mem: PageTable, addr: Addr, s: Text)
    requires mem.Valid() && NulFree(s)
    modifies mem, mem.ptab, mem.nodes, mem.pages
    ensures mem.Valid() && mem.Grew() && mem.flat == Store(old(mem.flat), addr, s + [0])
  {
    ghost var all := s + [0];
    var i := 0;
    var c: Byte := 1;
    while c != 0
      invariant 0 <= i <= |all| && mem.Valid() && mem.Grew()
      invariant mem.flat == Store(old(mem.flat), addr, all[..i])
      invariant c == 0 <==> i == |all|
      decreases |all| - i
    {
      c := if i < |s| then s[i] else 0;
      StoreStep(old(mem.flat), addr, all, i);
      WriteChar(mem, Plus(addr, i), c);
      i := i + 1;
    }
    assert all[..|all|] == all;
  }

  /** Memory is what `f0` becomes by the writes in the log. */
  ghost predicate Logged(f: Flat, f0: Flat, sp: Addr, log: seq<Put>) {
    f == ApplyAll(f0, sp, WordAligned(sp), log)
  }

  method WriteWord(mem: PageTable, sp: Addr, k: nat, v: nat, ghost f0: Flat, ghost log: seq<Put>) returns (ghost log': seq<Put>)
    requires mem.Valid() && Logged(mem.flat, f0, sp, log)
    modifies mem, mem.ptab, mem.nodes, mem.pages
    ensures mem.Valid() && mem.Grew() && Logged(mem.flat, f0, sp, log') && log' == log + [Word(k, v)]
  {
    log' := log + [Word(k, v)];
    SlotAligned(sp, k);
    QuadCheck(Plus(sp, 8 * k), Quad(v));
    ApplyStep(f0, sp, WordAligned(sp), log, Word(k, v));
    var r := mem.Access(Write(Plus(sp, 8 * k), Quad(v)));
  }

  method WriteString(mem: PageTable, sp: Addr, cur: Addr, s: Text, ghost o: nat, ghost f0: Flat, ghost log: seq<Put>)
    returns (ghost log': seq<Put>)
    requires mem.Valid() && NulFree(s) && cur == Plus(sp, o) && Logged(mem.flat, f0, sp, log)
    modifies mem, mem.ptab, mem.nodes, mem.pages
    ensures mem.Valid() && mem.Grew() && Logged(mem.flat, f0, sp, log') && log' == log + [Str(o, s)]
  {
    log' := log + [Str(o, s)];
    ApplyStep(f0, sp, WordAligned(sp), log, Str(o, s));
    StrCpy(mem, cur, s);
  }

  /** Which array the strings from `lo` on are: argv from slot 1, or envp behind its null pointer. */
  ghost predicate IsArray(ss: seq<Text>, argc: nat, lo: nat, k: nat, strings: seq<Text>) {
    && lo + |strings| <= |ss| && (forall i {:trigger strings[i]} :: 0 <= i < |strings| ==> strings[i] == ss[lo + i])
    && ((lo == 0 && k == 1 && |strings| == argc) || (lo == argc && k == 2 + argc))
  }

  /** Where the loader stands when `i` strings of an array are written. */
  ghost predicate Reached(log0: seq<Put>, log: seq<Put>, sp: Addr, ss: seq<Text>, argc: nat, lo: nat, i: nat, cur: Addr) {
    lo + i <= |ss| && cur == Pointer(sp, ss, lo + i) && log == log0 + ArgPuts(sp, ss, argc, lo, lo + i)
  }

  lemma ReachedStart(log0: seq<Put>, sp: Addr, ss: seq<Text>, argc: nat, lo: nat)
    requires lo <= |ss|
    ensures Reached(log0, log0, sp, ss, argc, lo, 0, Pointer(sp, ss, lo))
  {
    assert log0 + [] == log0;
  }

  lemma ReachedNext(log0: seq<Put>, log: seq<Put>, sp: Addr, ss: seq<Text>, argc: nat, lo: nat, i: nat, cur: Addr)
    requires Reached(log0, log, sp, ss, argc, lo, i, cur) && lo + i < |ss|
    ensures Reached(log0, log + [Word(SlotOf(argc, lo + i), cur)] + [Str(HeaderSize(ss) + Offset(ss, lo + i), ss[lo + i])],
                    sp, ss, argc, lo, i + 1, Plus(cur, |ss[lo + i]| + 1))
  {
    PointerStep(sp, ss, lo + i);
    var before, w, t := ArgPuts(sp, ss, argc, lo, lo + i), ArgWord(sp, ss, argc, lo + i), ArgString(ss, lo + i);
    assert (log0 + before) + [w] + [t] == log0 + (before + [w, t]);
  }

  /** Writes a pointer into slot `k` and the string it points to. */
  method WriteArgument(mem: PageTable, sp: Addr, k: nat, cur: Addr, s: Text, ghost o: nat, ghost f0: Flat, ghost log: seq<Put>)
    returns (ghost log': seq<Put>)
    requires mem.Valid() && NulFree(s) && cur == Plus(sp, o) && Logged(mem.flat, f0, sp, log)
    modifies mem, mem.ptab, mem.nodes, mem.pages
    ensures mem.Valid() && mem.Grew() && Logged(mem.flat, f0, sp, log') && log' == log + [Word(k, cur)] + [Str(o, s)]
  {
    log' := WriteWord(mem, sp, k, cur, f0, log);
    log' := WriteString(mem, sp, cur, s, o, f0, log');
  }

  /** Writes string `i` of an array, with its pointer. */
  lemma NextArgument(ss: seq<Text>, argc: nat, lo: nat, k: nat, strings: seq<Text>, i: nat)
    requires AllNulFree(strings) && i < |strings| && IsArray(ss, argc, lo, k, strings)
    ensures lo + i < |ss| && strings[i] == ss[lo + i] && k + i == SlotOf(argc, lo + i) && NulFree(strings[i])
  {
  }

  method WriteNext(mem: PageTable, sp: Addr, k: nat, cur: Addr, strings: seq<Text>, i: nat,
                   ghost ss: seq<Text>, ghost argc: nat, ghost lo: nat, ghost f0: Flat, ghost log0: seq<Put>, ghost log: seq<Put>)
    returns (cur': Addr, ghost log': seq<Put>)
    requires mem.Valid() && AllNulFree(strings) && i < |strings| && Logged(mem.flat, f0, sp, log)
    requires IsArray(ss, argc, lo, k, strings) && Reached(log0, log, sp, ss, argc, lo, i, cur)
    modifies mem, mem.ptab, mem.nodes, mem.pages
    ensures mem.Valid() && mem.Grew() && Logged(mem.flat, f0, sp, log')
    ensures Reached(log0, log', sp, ss, argc, lo, i + 1, cur')
  {
    ReachedNext(log0, log, sp, ss, argc, lo, i, cur);
    ghost var o := HeaderSize(ss) + Offset(ss, lo + i);
    NextArgument(ss, argc, lo, k, strings, i);
    log' := WriteArgument(mem, sp, k + i, cur, strings[i], o, f0, log);
    cur' := Plus(cur, |strings[i]| + 1);
  }

  /** Writes the strings of an array, with their pointers. */
  method WriteStrings(mem: PageTable, sp: Addr, k: nat, start: Addr, strings: seq<Text>,
                      ghost ss: seq<Text>, ghost argc: nat, ghost lo: nat, ghost f0: Flat, ghost log0: seq<Put>)
    returns (cur: Addr, ghost log: seq<Put>)
    requires mem.Valid() && AllNulFree(strings) && Logged(mem.flat, f0, sp, log0)
    requires IsArray(ss, argc, lo, k, strings) && start == Pointer(sp, ss, lo)
    modifies mem, mem.ptab, mem.nodes, mem.pages
    ensures mem.Valid() && mem.Grew() && Logged(mem.flat, f0, sp, log)
    ensures Reached(log0, log, sp, ss, argc, lo, |strings|, cur)
  {
    cur, log := start, log0;
    ReachedStart(log0, sp, ss, argc, lo);
    var i := 0;
    while i < |strings|
      invariant 0 <= i <= |strings| && mem.Valid() && mem.Grew() && Logged(mem.flat, f0, sp, log)
      invariant Reached(log0, log, sp, ss, argc, lo, i, cur)
    {
      cur, log := WriteNext(mem, sp, k, cur, strings, i, ss, argc, lo, f0, log0, log);
      i := i + 1;
    }
  }

  /** ... and the null pointer behind them. */
  method WriteArray(mem: PageTable, sp: Addr, k: nat, start: Addr, strings: seq<Text>,
                    ghost ss: seq<Text>, ghost argc: nat, ghost lo: nat, ghost f0: Flat, ghost log0: seq<Put>)
    returns (cur: Addr, ghost log: seq<Put>)
    requires mem.Valid() && AllNulFree(strings) && Logged(mem.flat, f0, sp, log0)
    requires IsArray(ss, argc, lo, k, strings) && start == Pointer(sp, ss, lo)
    modifies mem, mem.ptab, mem.nodes, mem.pages
    ensures mem.Valid() && mem.Grew() && Logged(mem.flat, f0, sp, log) && cur == Pointer(sp, ss, lo + |strings|)
    ensures log == log0 + ArgPuts(sp, ss, argc, lo, lo + |strings|) + [Word(k + |strings|, 0)]
  {
    cur, log := WriteStrings(mem, sp, k, start, strings, ss, argc, lo, f0, log0);
    log := WriteWord(mem, sp, k + |strings|, 0, f0, log);
  }

  lemma Arrays(argv: seq<Text>, envp: seq<Text>)
    ensures IsArray(argv + envp, |argv|, 0, 1, argv) && IsArray(argv + envp, |argv|, |argv|, 2 + |argv|, envp)
  {
  }

  /** argc and the argv array. */
  method WriteArgv(mem: PageTable, sp: Addr, argv: seq<Text>, start: Addr, ghost ss: seq<Text>, ghost f0: Flat)
    returns (cur: Addr, ghost log: seq<Put>)
    requires mem.Valid() && AllNulFree(argv) && mem.flat == f0
    requires IsArray(ss, |argv|, 0, 1, argv) && start == Pointer(sp, ss, 0)
    modifies mem, mem.ptab, mem.nodes, mem.pages
    ensures mem.Valid() && mem.Grew() && Logged(mem.flat, f0, sp, log) && cur == Pointer(sp, ss, |argv|)
    ensures log == [Word(0, |argv|)] + ArgPuts(sp, ss, |argv|, 0, |argv|) + [Word(1 + |argv|, 0)]
  {
    log := WriteWord(mem, sp, 0, |argv|, f0, []);
    assert log == [Word(0, |argv|)];
    cur, log := WriteArray(mem, sp, 1, start, argv, ss, |argv|, 0, f0, log);
  }

  method WriteStack(mem: PageTable, sp: Addr, argv: seq<Text>, envp: seq<Text>, ghost ss: seq<Text>)
    returns (cur: Addr, ghost log: seq<Put>)
    requires mem.Valid() && AllNulFree(argv) && AllNulFree(envp) && |ss| == |argv| + |envp|
    requires IsArray(ss, |argv|, 0, 1, argv) && IsArray(ss, |argv|, |argv|, 2 + |argv|, envp)
    modifies mem, mem.ptab, mem.nodes, mem.pages
    ensures mem.Valid() && mem.Grew() && Logged(mem.flat, old(mem.flat), sp, log)
    ensures cur == Pointer(sp, ss, |ss|) && log == Plan(sp, ss, |argv|)
  {
    ghost var f0 := mem.flat;
    cur := Plus(sp, 24 + 8 * (|argv| + |envp|));
    cur, log := WriteArgv(mem, sp, argv, cur, ss, f0);
    cur, log := WriteArray(mem, sp, 2 + |argv|, cur, envp, ss, |argv|, |argv|, f0, log);
  }

  /** The memory the loader leaves. */
  function Built(f: Flat, sp: Addr, argv: seq<Text>, envp: seq<Text>): Flat {
    ApplyAll(f, sp, WordAligned(sp), Plan(sp, argv + envp, |argv|))
  }

  /** Builds the stack; `ok` is false if it is found to be too large afterwards. */
  method BuildStack(mem: PageTable, textBase: Addr, argv: seq<Text>, envp: seq<Text>)
    returns (sp: Addr, a0: nat, a1: Addr, ok: bool)
    requires mem.Valid() && AllNulFree(argv) && AllNulFree(envp)
    modifies mem, mem.ptab, mem.nodes, mem.pages
    ensures mem.Valid() && mem.Grew()
    ensures sp == StackPointer(textBase) && a0 == |argv| && a1 == Plus(sp, 8)
    ensures mem.flat == Built(old(mem.flat), sp, argv, envp)
    ensures ok <==> Plus(sp, ImageSize(argv + envp)) <= StackBase(textBase)
  {
    sp := StackPointer(textBase);
    a0, a1 := |argv|, Plus(sp, 8);
    var cur;
    ghost var log;
    Arrays(argv, envp);
    cur, log := WriteStack(mem, sp, argv, envp, argv + envp);
    ok := cur <= StackBase(textBase);
  }

  // -------------------------------------------------------------- what the loader leaves

  /** The write puts a part of the image where it belongs. */
  predicate Right(put: Put, image: seq<Byte>, header: nat) {
    && put.At() + |put.Data()| <= |image| && image[put.At()..put.At() + |put.Data()|] == put.Data()
    && (if put.Word? then put.At() + |put.Data()| <= header else header <= put.At())
  }

  /** That part is in memory, unless it is a word and words are misaligned. */
  ghost predicate Present(f: Flat, sp: Addr, aligned: bool, image: seq<Byte>, put: Put) {
    put.At() + |put.Data()| <= |image| && ((put.Word? && !aligned) || Holds(f, sp, image, put.At(), put.At() + |put.Data()|))
  }

  ghost predicate AllRight(puts: seq<Put>, image: seq<Byte>, header: nat) {
    forall j :: 0 <= j < |puts| ==> Right(puts[j], image, header)
  }

  ghost predicate AllPresent(f: Flat, sp: Addr, aligned: bool, image: seq<Byte>, puts: seq<Put>) {
    forall j :: 0 <= j < |puts| ==> Present(f, sp, aligned, image, puts[j])
  }

  /** Memory changed inside the image only, and not in its header if that is misaligned. */
  ghost predicate Confined(f: Flat, g: Flat, sp: Addr, aligned: bool, header: nat, size: nat) {
    SameOutside(f, g, sp, if aligned then 0 else header, size)
  }

  lemma ApplyOne(f: Flat, g: Flat, sp: Addr, aligned: bool, image: seq<Byte>, header: nat, before: seq<Put>, put: Put, h: Flat)
    requires Right(put, image, header) && header <= |image| <= 0x1_0000_0000_0000_0000
    requires Confined(f, g, sp, aligned, header, |image|) && AllPresent(g, sp, aligned, image, before)
    requires h == Apply(g, sp, aligned, put)
    ensures Confined(f, h, sp, aligned, header, |image|) && AllPresent(h, sp, aligned, image, before + [put])
  {
    PutPart(g, sp, image, put.At(), |put.Data()|);
    forall j | 0 <= j < |before| ensures Present(h, sp, aligned, image, before[j]) {
      assert Present(g, sp, aligned, image, before[j]);
    }
  }

  lemma {:induction false} ApplyEach(f: Flat, sp: Addr, aligned: bool, image: seq<Byte>, header: nat, puts: seq<Put>)
    requires AllRight(puts, image, header) && header <= |image| <= 0x1_0000_0000_0000_0000
    ensures Confined(f, ApplyAll(f, sp, aligned, puts), sp, aligned, header, |image|)
    ensures AllPresent(ApplyAll(f, sp, aligned, puts), sp, aligned, image, puts)
  {
    if puts != [] {
      var n := |puts| - 1;
      var before, put := puts[..n], puts[n];
      assert puts == before + [put];
      RightPrefix(before, put, image, header);
      ApplyEach(f, sp, aligned, image, header, before);
      ApplySnoc(f, sp, aligned, image, header, before, put);
    }
  }

  lemma RightPrefix(before: seq<Put>, put: Put, image: seq<Byte>, header: nat)
    requires AllRight(before + [put], image, header)
    ensures AllRight(before, image, header) && Right(put, image, header)
  {
    assert forall j :: 0 <= j < |before| ==> (before + [put])[j] == before[j];
    assert (before + [put])[|before|] == put;
  }

  lemma ApplySnoc(f: Flat, sp: Addr, aligned: bool, image: seq<Byte>, header: nat, before: seq<Put>, put: Put)
    requires Right(put, image, header) && header <= |image| <= 0x1_0000_0000_0000_0000
    requires Confined(f, ApplyAll(f, sp, aligned, before), sp, aligned, header, |image|)
    requires AllPresent(ApplyAll(f, sp, aligned, before), sp, aligned, image, before)
    ensures Confined(f, ApplyAll(f, sp, aligned, before + [put]), sp, aligned, header, |image|)
    ensures AllPresent(ApplyAll(f, sp, aligned, before + [put]), sp, aligned, image, before + [put])
  {
    ApplyStep(f, sp, aligned, before, put);
    ApplyOne(f, ApplyAll(f, sp, aligned, before), sp, aligned, image, header, before, put, ApplyAll(f, sp, aligned, before + [put]));
  }

  /** The image has every word and every string in its place. */
  lemma WordRight(sp: Addr, ss: seq<Text>, argc: nat, k: nat)
    requires argc <= |ss| && k < |ss| + 3
    ensures Right(Word(k, Words(sp, ss, argc)[k]), Image(sp, ss, argc), HeaderSize(ss))
  {
    ImageWord(sp, ss, argc, k);
  }

  lemma StringRight(sp: Addr, ss: seq<Text>, argc: nat, i: nat)
    requires argc <= |ss| && i < |ss|
    ensures Right(ArgString(ss, i), Image(sp, ss, argc), HeaderSize(ss))
  {
    ImageText(sp, ss, argc, i);
  }

  lemma RightTwo(puts: seq<Put>, x: Put, y: Put, image: seq<Byte>, header: nat)
    requires AllRight(puts, image, header) && Right(x, image, header) && Right(y, image, header)
    ensures AllRight(puts + [x, y], image, header)
  {
  }

  lemma {:induction false} ArgPutsRight(sp: Addr, ss: seq<Text>, argc: nat, lo: nat, hi: nat)
    requires argc <= |ss| && lo <= hi <= |ss|
    ensures AllRight(ArgPuts(sp, ss, argc, lo, hi), Image(sp, ss, argc), HeaderSize(ss))
    decreases hi - lo
  {
    if lo < hi {
      ArgPutsRight(sp, ss, argc, lo, hi - 1);
      WordRight(sp, ss, argc, SlotOf(argc, hi - 1));
      StringRight(sp, ss, argc, hi - 1);
      RightTwo(ArgPuts(sp, ss, argc, lo, hi - 1), ArgWord(sp, ss, argc, hi - 1), ArgString(ss, hi - 1),
               Image(sp, ss, argc), HeaderSize(ss));
    }
  }

  lemma {:induction false} ArgPutsHave(sp: Addr, ss: seq<Text>, argc: nat, lo: nat, hi: nat, i: nat)
    requires lo <= i < hi <= |ss|
    ensures ArgWord(sp, ss, argc, i) in ArgPuts(sp, ss, argc, lo, hi) && ArgString(ss, i) in ArgPuts(sp, ss, argc, lo, hi)
    decreases hi - lo
  {
    if i < hi - 1 { ArgPutsHave(sp, ss, argc, lo, hi - 1, i); }
  }

  lemma PlanRight(sp: Addr, ss: seq<Text>, argc: nat)
    requires argc <= |ss|
    ensures AllRight(Plan(sp, ss, argc), Image(sp, ss, argc), HeaderSize(ss))
  {
    ArgPutsRight(sp, ss, argc, 0, argc);
    ArgPutsRight(sp, ss, argc, argc, |ss|);
    WordRight(sp, ss, argc, 0);
    WordRight(sp, ss, argc, 1 + argc);
    WordRight(sp, ss, argc, 2 + |ss|);
  }

  lemma PlanHas(sp: Addr, ss: seq<Text>, argc: nat, i: nat)
    requires argc <= |ss| && i < |ss|
    ensures ArgWord(sp, ss, argc, i) in Plan(sp, ss, argc) && ArgString(ss, i) in Plan(sp, ss, argc)
  {
    if i < argc {
      ArgPutsHave(sp, ss, argc, 0, argc, i);
    } else {
      ArgPutsHave(sp, ss, argc, argc, |ss|, i);
    }
  }

  /** Everything planned is in memory, and nothing outside the image has changed. */
  lemma PlanPresent(f: Flat, sp: Addr, argv: seq<Text>, envp: seq<Text>)
    requires ImageSize(argv + envp) <= 0x1_0000_0000_0000_0000
    ensures var ss, g := argv + envp, Built(f, sp, argv, envp);
            && (forall put :: put in Plan(sp, ss, |argv|) && (put.Word? ==> WordAligned(sp)) ==> Has(g, sp, put.At(), put.Data()))
            && Confined(f, g, sp, WordAligned(sp), HeaderSize(ss), ImageSize(ss))
  {
    var ss, argc := argv + envp, |argv|;
    PlanRight(sp, ss, argc);
    StringsEnd(ss);
    AllHeld(f, sp, WordAligned(sp), Image(sp, ss, argc), HeaderSize(ss), Plan(sp, ss, argc));
  }

  lemma AllHeld(f: Flat, sp: Addr, aligned: bool, image: seq<Byte>, header: nat, puts: seq<Put>)
    requires AllRight(puts, image, header) && header <= |image| <= 0x1_0000_0000_0000_0000
    ensures var g := ApplyAll(f, sp, aligned, puts);
            && (forall put :: put in puts && (put.Word? ==> aligned) ==> Has(g, sp, put.At(), put.Data()))
            && Confined(f, g, sp, aligned, header, |image|)
  {
    var g := ApplyAll(f, sp, aligned, puts);
    ApplyEach(f, sp, aligned, image, header, puts);
    forall put | put in puts && (put.Word? ==> aligned) ensures Has(g, sp, put.At(), put.Data()) {
      var j :| 0 <= j < |puts| && puts[j] == put;
      RightPresent(g, sp, aligned, image, header, puts, j);
    }
  }

  lemma RightPresent(g: Flat, sp: Addr, aligned: bool, image: seq<Byte>, header: nat, puts: seq<Put>, j: nat)
    requires AllRight(puts, image, header) && AllPresent(g, sp, aligned, image, puts)
    requires j < |puts| && (puts[j].Word? ==> aligned)
    ensures Has(g, sp, puts[j].At(), puts[j].Data())
  {
    PartHeld(g, sp, image, puts[j].At(), puts[j].Data());
  }

  lemma BuiltHas(f: Flat, sp: Addr, argv: seq<Text>, envp: seq<Text>, put: Put)
    requires ImageSize(argv + envp) <= 0x1_0000_0000_0000_0000
    requires put in Plan(sp, argv + envp, |argv|) && (put.Word? ==> WordAligned(sp))
    ensures Has(Built(f, sp, argv, envp), sp, put.At(), put.Data())
  {
    PlanPresent(f, sp, argv, envp);
  }

  lemma PointerInside(sp: Addr, ss: seq<Text>, i: nat)
    requires i < |ss| && sp + ImageSize(ss) <= 0x1_0000_0000_0000_0000
    ensures Pointer(sp, ss, i) == sp + HeaderSize(ss) + Offset(ss, i) > 0
  {
    StringsDisjoint(ss, i, |ss|);
    PlusNoWrap(sp, HeaderSize(ss) + Offset(ss, i));
  }

  lemma PlanWord(sp: Addr, ss: seq<Text>, argc: nat, k: nat)
    requires argc <= |ss| && k < |ss| + 3
    ensures Word(k, Words(sp, ss, argc)[k]) in Plan(sp, ss, argc)
  {
    if k != 0 && k != argc + 1 && k != |ss| + 2 {
      PlanHas(sp, ss, argc, if k <= argc then k - 1 else k - 2);
    }
  }

  lemma BuiltSlot(f: Flat, sp: Addr, argv: seq<Text>, envp: seq<Text>, k: nat)
    requires WordAligned(sp) && ImageSize(argv + envp) <= 0x1_0000_0000_0000_0000 && k < |argv + envp| + 3
    ensures Slot(Built(f, sp, argv, envp), sp, k) == Words(sp, argv + envp, |argv|)[k]
  {
    var v := Words(sp, argv + envp, |argv|)[k];
    PlanWord(sp, argv + envp, |argv|, k);
    WordSmall(sp, argv + envp, |argv|, k);
    BuiltWord(f, sp, argv, envp, k, v);
  }

  lemma WordSmall(sp: Addr, ss: seq<Text>, argc: nat, k: nat)
    requires argc <= |ss| && k < |ss| + 3 && ImageSize(ss) <= 0x1_0000_0000_0000_0000
    ensures Words(sp, ss, argc)[k] < 0x1_0000_0000_0000_0000
  {
  }

  lemma BuiltWord(f: Flat, sp: Addr, argv: seq<Text>, envp: seq<Text>, k: nat, v: nat)
    requires WordAligned(sp) && ImageSize(argv + envp) <= 0x1_0000_0000_0000_0000
    requires Word(k, v) in Plan(sp, argv + envp, |argv|) && v < 0x1_0000_0000_0000_0000
    ensures Slot(Built(f, sp, argv, envp), sp, k) == v
  {
    BuiltHas(f, sp, argv, envp, Word(k, v));
    SlotHeld(Built(f, sp, argv, envp), sp, k, v);
  }

  lemma BuiltString(f: Flat, sp: Addr, argv: seq<Text>, envp: seq<Text>, i: nat)
    requires i < |argv + envp| && NulFree((argv + envp)[i]) && ImageSize(argv + envp) <= 0x1_0000_0000_0000_0000
    requires Pointer(sp, argv + envp, i) != 0
    ensures StringAt(Built(f, sp, argv, envp), Pointer(sp, argv + envp, i), (argv + envp)[i])
  {
    var put := ArgString(argv + envp, i);
    PlanHas(sp, argv + envp, |argv|, i);
    BuiltHas(f, sp, argv, envp, put);
    StringHeld(Built(f, sp, argv, envp), sp, put.offset, put.s);
  }

  /** An aligned stack decodes to what it was built from if and only if no string begins at
      address 0, where its pointer reads as the end of the array. */
  lemma StackDecodesIff(f: Flat, sp: Addr, argv: seq<Text>, envp: seq<Text>)
    requires WordAligned(sp) && AllNulFree(argv) && AllNulFree(envp)
    requires ImageSize(argv + envp) <= 0x1_0000_0000_0000_0000
    ensures Decodes(Built(f, sp, argv, envp), sp, argv, envp) <==>
            forall i: nat :: i < |argv + envp| ==> Pointer(sp, argv + envp, i) != 0
  {
    if forall i: nat :: i < |argv + envp| ==> Pointer(sp, argv + envp, i) != 0 {
      StackDecodes(f, sp, argv, envp);
    } else {
      var i: nat :| i < |argv + envp| && Pointer(sp, argv + envp, i) == 0;
      ZeroPointer(f, sp, argv, envp, i);
    }
  }

  lemma ZeroPointer(f: Flat, sp: Addr, argv: seq<Text>, envp: seq<Text>, i: nat)
    requires WordAligned(sp) && ImageSize(argv + envp) <= 0x1_0000_0000_0000_0000
    requires i < |argv + envp| && Pointer(sp, argv + envp, i) == 0
    ensures !Decodes(Built(f, sp, argv, envp), sp, argv, envp)
  {
    ZeroWord(f, sp, argv, envp, i);
    NullPointer(Built(f, sp, argv, envp), Slots(Built(f, sp, argv, envp), sp), argv, envp, i);
  }

  lemma ZeroWord(f: Flat, sp: Addr, argv: seq<Text>, envp: seq<Text>, i: nat)
    requires WordAligned(sp) && ImageSize(argv + envp) <= 0x1_0000_0000_0000_0000
    requires i < |argv + envp| && Pointer(sp, argv + envp, i) == 0
    ensures Slot(Built(f, sp, argv, envp), sp, SlotOf(|argv|, i)) == 0
  {
    PointerWord(sp, argv + envp, |argv|, i);
    BuiltSlot(f, sp, argv, envp, SlotOf(|argv|, i));
  }

  lemma PointerWord(sp: Addr, ss: seq<Text>, argc: nat, i: nat)
    requires argc <= |ss| && i < |ss|
    ensures Words(sp, ss, argc)[SlotOf(argc, i)] == Pointer(sp, ss, i)
  {
  }

  lemma NullPointer(f: Flat, slot: nat -> nat, argv: seq<Text>, envp: seq<Text>, i: nat)
    requires i < |argv + envp| && slot(SlotOf(|argv|, i)) == 0
    ensures !StackHas(f, slot, argv, envp)
  {
    if StackHas(f, slot, argv, envp) { DecodedPointer(f, slot, argv, envp, i); }
  }

  lemma DecodedPointer(f: Flat, slot: nat -> nat, argv: seq<Text>, envp: seq<Text>, i: nat)
    requires StackHas(f, slot, argv, envp) && i < |argv + envp|
    ensures slot(SlotOf(|argv|, i)) != 0
  {
    if i < |argv| {
      assert StringAt(f, slot(1 + i), argv[i]);
    } else {
      assert StringAt(f, slot(2 + |argv| + (i - |argv|)), envp[i - |argv|]);
    }
  }

  lemma StackDecodes(f: Flat, sp: Addr, argv: seq<Text>, envp: seq<Text>)
    requires WordAligned(sp) && AllNulFree(argv) && AllNulFree(envp)
    requires ImageSize(argv + envp) <= 0x1_0000_0000_0000_0000
    requires forall i: nat :: i < |argv + envp| ==> Pointer(sp, argv + envp, i) != 0
    ensures Decodes(Built(f, sp, argv, envp), sp, argv, envp)
  {
    var ss, g := argv + envp, Built(f, sp, argv, envp);
    var words := Words(sp, ss, |argv|);
    WordFacts(sp, ss, |argv|);
    forall k | 0 <= k < |words| ensures Slots(g, sp)(k) == words[k] {
      BuiltSlot(f, sp, argv, envp, k);
    }
    forall i | 0 <= i < |ss| ensures StringAt(g, words[SlotOf(|argv|, i)], ss[i]) {
      BuiltArgument(f, sp, argv, envp, i);
    }
    Assemble(g, Slots(g, sp), words, argv, envp);
  }

  lemma WordFacts(sp: Addr, ss: seq<Text>, argc: nat)
    requires argc <= |ss|
    ensures var words := Words(sp, ss, argc);
            |words| == |ss| + 3 && words[0] == argc && words[1 + argc] == 0 && words[2 + |ss|] == 0
  {
  }

  lemma BuiltArgument(f: Flat, sp: Addr, argv: seq<Text>, envp: seq<Text>, i: nat)
    requires i < |argv + envp| && NulFree((argv + envp)[i]) && ImageSize(argv + envp) <= 0x1_0000_0000_0000_0000
    requires Pointer(sp, argv + envp, i) != 0
    ensures StringAt(Built(f, sp, argv, envp), Words(sp, argv + envp, |argv|)[SlotOf(|argv|, i)], (argv + envp)[i])
  {
    BuiltString(f, sp, argv, envp, i);
    PointerWord(sp, argv + envp, |argv|, i);
  }

  /** No bit of memory outside the image is touched. */
  lemma StackConfined(f: Flat, sp: Addr, argv: seq<Text>, envp: seq<Text>, a: Addr)
    requires ImageSize(argv + envp) <= Distance(sp, a)
    ensures Get(Built(f, sp, argv, envp), a) == Get(f, a)
  {
    PlanPresent(f, sp, argv, envp);
  }

  // ------------------------------------------------------------------ when it goes wrong

  /** A misaligned stack lacks all its words: in memory that was clear before, argc, argv and
      envp decode if and only if there are none. */
  lemma MisalignedDecodesIff(f: Flat, sp: Addr, argv: seq<Text>, envp: seq<Text>)
    requires !WordAligned(sp) && ImageSize(argv + envp) <= 0x1_0000_0000_0000_0000
    requires forall o :: 0 <= o < HeaderSize(argv + envp) ==> Get(f, Plus(sp, o)) == 0
    ensures Decodes(Built(f, sp, argv, envp), sp, argv, envp) <==> argv == [] && envp == []
  {
    var ss, g := argv + envp, Built(f, sp, argv, envp);
    var slot := Slots(g, sp);
    forall k | 0 <= k < |ss| + 3 ensures slot(k) == 0 {
      MisalignedSlot(f, sp, argv, envp, k);
    }
    assert slot(0) == 0 && slot(2 + |argv|) == 0;
    NonEmptyStack(g, slot, argv, envp);
  }

  lemma NonEmptyStack(f: Flat, slot: nat -> nat, argv: seq<Text>, envp: seq<Text>)
    ensures StackHas(f, slot, argv, envp) && argv != [] ==> slot(0) != 0
    ensures StackHas(f, slot, argv, envp) && envp != [] ==> slot(2 + |argv|) != 0
  {
    assert PointersAt(f, slot, 2 + |argv|, envp) && envp != [] ==> StringAt(f, slot(2 + |argv| + 0), envp[0]);
  }

  lemma MisalignedSlot(f: Flat, sp: Addr, argv: seq<Text>, envp: seq<Text>, k: nat)
    requires !WordAligned(sp) && ImageSize(argv + envp) <= 0x1_0000_0000_0000_0000 && k < |argv + envp| + 3
    requires forall o :: 0 <= o < HeaderSize(argv + envp) ==> Get(f, Plus(sp, o)) == 0
    ensures Slot(Built(f, sp, argv, envp), sp, k) == 0
  {
    var g, header := Built(f, sp, argv, envp), HeaderSize(argv + envp);
    PlanPresent(f, sp, argv, envp);
    var zeros := seq(8, _ => 0);
    forall o | 0 <= o < header ensures Get(g, Plus(sp, o)) == 0 {
      PlusDistance(sp, Plus(sp, o), o);
    }
    HasLoads(g, sp, 8 * k, zeros);
    ZeroBytes(zeros);
  }

  lemma {:induction false} ZeroBytes(bytes: seq<Byte>)
    requires forall i :: 0 <= i < |bytes| ==> bytes[i] == 0
    ensures FromLittleEndian(bytes) == 0
  {
    if bytes != [] { ZeroBytes(bytes[1..]); }
  }

  /** The check made when everything is written compares addresses: it passes if and only if the
      image fits into the 16384 bytes meant for it, as long as neither the stack nor the image
      runs around the end of memory.  An image that runs around passes whatever its size, except
      that a text segment between 413696 and 430080 has only images pass that run around and fit. */
  lemma OverflowCheckIff(textBase: Addr, size: nat)
    requires size <= 0x1_0000_0000_0000_0000
    ensures Plus(StackPointer(textBase), size) <= StackBase(textBase) <==>
            if textBase < 413696 then size <= 16384 || size >= 430080 - textBase
            else if textBase < 430080 then 430080 - textBase <= size <= 16384
            else size <= 16384 || size >= 0x1_0000_0000_0000_0000 + 430080 - textBase
  {
    var sp := StackPointer(textBase);
    StackPlace(textBase);
    PlusIsModular(sp, size);
    if sp + size >= 0x1_0000_0000_0000_0000 {
      assert Plus(sp, size) == sp + size - 0x1_0000_0000_0000_0000;
    }
  }

  lemma StackPlace(textBase: Addr)
    ensures StackPointer(textBase) == if textBase < 430080 then textBase - 430080 + 0x1_0000_0000_0000_0000 else textBase - 430080
    ensures StackBase(textBase) == if textBase < 413696 then textBase - 413696 + 0x1_0000_0000_0000_0000 else textBase - 413696
  {
  }

  /** The stack pointer is aligned as the text segment is. */
  lemma StackAlignment(textBase: Addr)
    ensures WordAligned(StackPointer(textBase)) <==> textBase % 8 == 0
  {
    StackPlace(textBase);
  }

  /** The promise of the loader: with a text segment that is a multiple of 8, if the size check
      passes then the program finds its arguments and environment if and only if none of the
      strings begins at address 0.  None does, and the image lies within the stack, if the text
      segment is at or above 430080 and the image does not run around the end of memory. */
  lemma LoaderPromise(f: Flat, textBase: Addr, argv: seq<Text>, envp: seq<Text>)
    requires textBase % 8 == 0 && AllNulFree(argv) && AllNulFree(envp)
    requires ImageSize(argv + envp) <= 0x1_0000_0000_0000_0000
    requires Plus(StackPointer(textBase), ImageSize(argv + envp)) <= StackBase(textBase)
    ensures var sp, ss := StackPointer(textBase), argv + envp;
            && (Decodes(Built(f, sp, argv, envp), sp, argv, envp) <==> forall i: nat :: i < |ss| ==> Pointer(sp, ss, i) != 0)
            && (textBase >= 430080 && sp + ImageSize(ss) < 0x1_0000_0000_0000_0000
                ==> Decodes(Built(f, sp, argv, envp), sp, argv, envp) && sp + ImageSize(ss) <= StackBase(textBase))
  {
    var sp, ss := StackPointer(textBase), argv + envp;
    StackPlace(textBase);
    StackAlignment(textBase);
    OverflowCheckIff(textBase, ImageSize(ss));
    StackDecodesIff(f, sp, argv, envp);
    if sp + ImageSize(ss) < 0x1_0000_0000_0000_0000 {
      forall i: nat | i < |ss| ensures Pointer(sp, ss, i) != 0 {
        PointerInside(sp, ss, i);
      }
    }
  }

  /** Not so in general: a text segment at 430048, a multiple of 8, puts the one argument of a
      program at address 0; the check passes, and the program finds no argument. */
  lemma ArgumentAtZero(f: Flat, textBase: Addr, arg: Text)
    requires textBase == 430048 && NulFree(arg) && |arg| <= 16351
    ensures var sp := StackPointer(textBase);
            Plus(sp, ImageSize([arg] + [])) <= StackBase(textBase) && !Decodes(Built(f, sp, [arg], []), sp, [arg], [])
  {
    var sp, ss := StackPointer(textBase), [arg] + [];
    OneString(ss);
    OverflowCheckIff(textBase, ImageSize(ss));
    ZeroAbove(textBase);
    ZeroPointer(f, sp, [arg], [], 0);
  }

  lemma ZeroAbove(textBase: Addr)
    requires textBase == 430048
    ensures WordAligned(StackPointer(textBase)) && Plus(StackPointer(textBase), 32) == 0
  {
    StackPlace(textBase);
    StackAlignment(textBase);
    PlusDistance(StackPointer(textBase), 0, 32);
  }

  lemma OneString(ss: seq<Text>)
    requires |ss| == 1
    ensures Offset(ss, 0) == 0 && ImageSize(ss) == 33 + |ss[0]| && HeaderSize(ss) == 32
  {
    assert Offset(ss, 1) == Offset(ss, 0) + |ss[0]| + 1;
  }
}
