/** Checkpoints: the whole architected state as a series of EXO terms, and back. */
module Checkpoint {
  import opened Basics
  import opened Machine
  import opened Memory
  import opened Numbers
  import opened Exo
  import opened ExoRoundTrip
  import opened Trace
  import opened TraceText

  /** A segment's base address and its size, an unsigned int. */
  datatype Segment = Segment(base: Addr, size: U64)

  /** Everything but the pages, with their number. */
  datatype Header = Header(
    transIcnt: U64, numInsn: U64, regs: Regs, pageCount: U64, brk: Addr, stackMin: Addr,
    text: Segment, data: Segment, stack: Segment)
  {
    predicate Valid() {
      && regs.Valid() && pageCount < 0x8000_0000
      && text.size < 0x1_0000_0000 && data.size < 0x1_0000_0000 && stack.size < 0x1_0000_0000
    }
  }

  /** The dump of one memory page. */
  type PageDump = (Addr, seq<Byte>)

  // ------------------------------------------------------------------ memory restored

  /** Pages written back in the order they were dumped. */
  function Restore(f: Flat, dump: seq<PageDump>): Flat {
    if dump == [] then f
    else Store(Restore(f, dump[..|dump| - 1]), dump[|dump| - 1].0, dump[|dump| - 1].1)
  }

  /** What a walk over the page table delivers for memory `m`. */
  ghost predicate IsDumpOf(dump: seq<PageDump>, m: Flat) {
    && Distinct(dump)
    && (forall k :: 0 <= k < |dump| ==> IsPage(dump[k].0) && dump[k].1 == Load(m, dump[k].0, 8192))
    && (forall a :: a in m ==> Covers(dump, a))
  }

  lemma InPage(page: Addr, a: Addr)
    requires IsPage(page)
    ensures Distance(page, a) < 8192 <==> page == a - a % 8192
    ensures page == a - a % 8192 ==> Distance(page, a) == a % 8192
  {
  }

  /** A restored byte comes from the dump if its page is there, else from before. */
  lemma {:induction false} RestoreAt(f: Flat, m: Flat, dump: seq<PageDump>, a: Addr)
    requires forall k :: 0 <= k < |dump| ==> IsPage(dump[k].0) && dump[k].1 == Load(m, dump[k].0, 8192)
    ensures Get(Restore(f, dump), a) == if Covers(dump, a) then Get(m, a) else Get(f, a)
  {
    if dump != [] {
      var n := |dump| - 1;
      var before, d := dump[..n], dump[n];
      RestoreAt(f, m, before, a);
      PageRestored(Restore(f, before), m, d, a);
      assert dump == before + [d];
      CoversMore(before, d, a);
    }
  }

  lemma CoversMore(before: seq<PageDump>, d: PageDump, a: Addr)
    ensures Covers(before + [d], a) <==> Covers(before, a) || d.0 == a - a % 8192
  {
    var dump := before + [d];
    assert dump[|before|] == d && forall k :: 0 <= k < |before| ==> dump[k] == before[k];
  }

  lemma PageRestored(f: Flat, m: Flat, d: PageDump, a: Addr)
    requires IsPage(d.0) && d.1 == Load(m, d.0, 8192)
    ensures Get(Store(f, d.0, d.1), a) == if d.0 == a - a % 8192 then Get(m, a) else Get(f, a)
  {
    StoreAt(f, d.0, d.1, a);
    InPage(d.0, a);
    if d.0 == a - a % 8192 {
      LoadAt(m, d.0, 8192, a % 8192);
      PlusNoWrap(d.0, a % 8192);
    }
  }

  /** Loading a dump over memory that has nothing outside the dumped pages gives the dumped memory. */
  lemma DumpRestores(f: Flat, m: Flat, dump: seq<PageDump>)
    requires IsDumpOf(dump, m)
    requires forall a: Addr :: Get(f, a) != 0 ==> Covers(dump, a)
    ensures Same(Restore(f, dump), m)
  {
    forall a: Addr ensures Get(Restore(f, dump), a) == Get(m, a) {
      RestoreAt(f, m, dump, a);
    }
  }

  /** Written addresses stay written, through any sequence of operations. */
  lemma {:induction false} StoreKeepsKeys(f: Flat, a: Addr, data: seq<Byte>)
    ensures f.Keys <= Store(f, a, data).Keys
  {
    if data != [] { StoreKeepsKeys(f, a, data[..|data| - 1]); }
  }

  lemma PerformKeepsKeys(f: Flat, q: Request)
    ensures f.Keys <= Perform(f, q).0.Keys && f.Keys <= Copy(f, q).0.Keys
  {
    if q.Write? { StoreKeepsKeys(f, q.addr, q.data); }
  }

  lemma {:induction false} SeriesKeepsKeys(f: Flat, qs: seq<Request>)
    ensures f.Keys <= Series(f, qs).0.Keys
  {
    if qs != [] {
      SeriesKeepsKeys(f, qs[..|qs| - 1]);
      PerformKeepsKeys(Series(f, qs[..|qs| - 1]).0, qs[|qs| - 1]);
    }
  }

  lemma {:induction false} RunKeepsKeys(f: Flat, ops: seq<Op>)
    ensures f.Keys <= RunFlat(f, ops).0.Keys
  {
    if ops != [] {
      var n := |ops| - 1;
      RunKeepsKeys(f, ops[..n]);
      var g := RunFlat(f, ops[..n]).0;
      PerformKeepsKeys(g, ops[n].q);
      SeriesKeepsKeys(g, WordAccesses(ops[n].q, WordCount(ops[n].q)));
    }
  }

  /** A later checkpoint of the same run may be loaded over its first one: no page is ever
      given up, so the later dump overwrites all there is. */
  lemma LaterCheckpointOverlays(m: Flat, ops: seq<Op>, first: seq<PageDump>, later: seq<PageDump>)
    requires IsDumpOf(first, m) && IsDumpOf(later, RunFlat(m, ops).0)
    ensures Same(Restore(Restore(map[], first), later), RunFlat(m, ops).0)
  {
    var m', f := RunFlat(m, ops).0, Restore(map[], first);
    RunKeepsKeys(m, ops);
    forall a: Addr | Get(f, a) != 0 ensures Covers(later, a) {
      RestoreAt(map[], m, first, a);
      assert a in m && a in m';
    }
    DumpRestores(f, m', later);
  }

  // ------------------------------------------------------------------ terms and text

  function SegmentTerm(s: Segment): Term { List([Address(s.base), Integer(s.size)]) }

  function HeaderTerms(h: Header): (ts: seq<Term>)
    ensures |ts| == 8
  {
    [Integer(h.transIcnt),
     List([Integer(h.numInsn), Address(h.regs.pc), Address(h.regs.npc), Integer(h.regs.fpcr), Integer(h.regs.uniq)]),
     List(Addresses(h.regs.r)), List(Addresses(h.regs.f)),
     List([Integer(h.pageCount), Address(h.brk), Address(h.stackMin)]),
     SegmentTerm(h.text), SegmentTerm(h.data), SegmentTerm(h.stack)]
  }

  function PageTerms(dump: seq<PageDump>): (ts: seq<Term>)
    ensures |ts| == |dump| && forall i :: 0 <= i < |dump| ==> ts[i] == List([Address(dump[i].0), Blob(dump[i].1)])
  {
    seq(|dump|, i requires 0 <= i < |dump| => List([Address(dump[i].0), Blob(dump[i].1)]))
  }

  /** Sizes are read back into an unsigned int. */
  function SegmentOf(t: Term): Option<Segment> {
    if t.List? && |t.elts| == 2 && t.elts[0].Address? && t.elts[1].Integer?
    then Some(Segment(t.elts[0].v, t.elts[1].v % 0x1_0000_0000)) else None
  }

  predicate IsMisc(t: Term) {
    && t.List? && |t.elts| == 5 && t.elts[0].Integer? && t.elts[1].Address? && t.elts[2].Address?
    && t.elts[3].Integer? && t.elts[4].Integer?
  }

  predicate IsMemory(t: Term) {
    t.List? && |t.elts| == 3 && t.elts[0].Integer? && t.elts[1].Address? && t.elts[2].Address?
  }

  /** The registers, from the miscellaneous, integer and floating-point lists. */
  function RegsOf(misc: Term, ints: Term, fps: Term): Option<Regs>
    requires IsMisc(misc)
  {
    if !(ints.List? && fps.List?) then None
    else
      match (AddressValues(ints.elts), AddressValues(fps.elts))
      case (Some(r), Some(f)) =>
        if |r| == 32 && |f| == 32
        then Some(Regs(r, f, misc.elts[3].v, misc.elts[4].v, misc.elts[1].v, misc.elts[2].v)) else None
      case _ => None
  }

  function HeaderOf(ts: seq<Term>): Option<Header>
    requires |ts| == 8
  {
    if !(ts[0].Integer? && IsMisc(ts[1]) && IsMemory(ts[4])) then None
    else
      match (RegsOf(ts[1], ts[2], ts[3]), SegmentOf(ts[5]), SegmentOf(ts[6]), SegmentOf(ts[7]))
      case (Some(regs), Some(text), Some(data), Some(stack)) =>
        var m := ts[4].elts;
        Some(Header(ts[0].v, ts[1].elts[0].v, regs, m[0].v, m[1].v, m[2].v, text, data, stack))
      case _ => None
  }

  function PagesOf(ts: seq<Term>): Option<seq<PageDump>> {
    if forall i :: 0 <= i < |ts| ==> IsMemRecord(ts[i])
    then Some(seq(|ts|, i requires 0 <= i < |ts| => (ts[i].elts[0].v, ts[i].elts[1].data))) else None
  }

  // ------------------------------------------------------------------------- comments

  /** A number in a comment. */
  function Signed(v: int): string { if v < 0 then "-" + Numeral(-v, 10) else Numeral(v, 10) }

  function Counter(v: U64): string { Signed(if v < 0x8000_0000_0000_0000 then v else v - 0x1_0000_0000_0000_0000) }

  /** The comments of a checkpoint: before its first term, before the others, and at its end. */
  function HeaderNotes(h: Header): (notes: seq<string>)
    ensures |notes| == 8
  {
    [Comment(" ** start checkpoint @ " + (Counter(h.transIcnt) + "... ")) + "\n\n"
     + (Comment(" EIO file pointer: " + (Counter(h.transIcnt) + "... ")) + "\n"),
     Comment(" misc regs icnt, PC, NPC, etc... ") + "\n",
     Comment(" integer regs ") + "\n",
     Comment(" FP regs (integer format) ") + "\n",
     Comment(" writing `" + (Signed(Int32(h.pageCount)) + "' memory pages... ")) + "\n",
     Comment(" text segment specifiers (base & size) ") + "\n",
     Comment(" data segment specifiers (base & size) ") + "\n",
     Comment(" stack segment specifiers (base & size) ") + "\n"]
  }

  function EndNote(h: Header): string {
    Comment(" ** end checkpoint @ " + (Counter(h.transIcnt) + "... ")) + "\n\n"
  }

  /** No slash, so no end of a comment. */
  predicate Plain(s: string) { forall i :: 0 <= i < |s| ==> s[i] != '/' }

  lemma PlainJoin(x: string, y: string)
    requires Plain(x) && Plain(y)
    ensures Plain(x + y)
  {
  }

  lemma SignedPlain(v: int)
    ensures Plain(Signed(v))
  {
    NumeralValue(if v < 0 then -v else v, 10);
    assert DigitValue('/') == 36;
  }

  lemma LineInert(body: string)
    requires body != "" && body[0] == ' ' && Plain(body)
    ensures Inert(Comment(body) + "\n") && Inert(Comment(body) + "\n\n")
  {
    CommentInert(body);
    InertBlank('\n');
    InertJoin(Comment(body), "\n");
    InertJoin(Comment(body) + "\n", "\n");
    assert Comment(body) + "\n" + "\n" == Comment(body) + "\n\n";
  }

  lemma NumberInert(left: string, v: int, right: string)
    requires left != "" && left[0] == ' ' && Plain(left) && Plain(right)
    ensures Inert(Comment(left + (Signed(v) + right)) + "\n") && Inert(Comment(left + (Signed(v) + right)) + "\n\n")
  {
    SignedPlain(v);
    PlainJoin(Signed(v), right);
    PlainJoin(left, Signed(v) + right);
    LineInert(left + (Signed(v) + right));
  }

  lemma CounterInert(left: string, v: U64)
    requires left != "" && left[0] == ' ' && Plain(left)
    ensures Inert(Comment(left + (Counter(v) + "... ")) + "\n") && Inert(Comment(left + (Counter(v) + "... ")) + "\n\n")
  {
    NumberInert(left, if v < 0x8000_0000_0000_0000 then v else v - 0x1_0000_0000_0000_0000, "... ");
  }

  lemma FirstNoteInert(v: U64)
    ensures Inert(Comment(" ** start checkpoint @ " + (Counter(v) + "... ")) + "\n\n"
                  + (Comment(" EIO file pointer: " + (Counter(v) + "... ")) + "\n"))
  {
    CounterInert(" ** start checkpoint @ ", v);
    CounterInert(" EIO file pointer: ", v);
    InertJoin(Comment(" ** start checkpoint @ " + (Counter(v) + "... ")) + "\n\n",
              Comment(" EIO file pointer: " + (Counter(v) + "... ")) + "\n");
  }

  lemma RegNotesInert()
    ensures Inert(Comment(" misc regs icnt, PC, NPC, etc... ") + "\n") && Inert(Comment(" integer regs ") + "\n")
    ensures Inert(Comment(" FP regs (integer format) ") + "\n")
  {
    LineInert(" misc regs icnt, PC, NPC, etc... ");
    LineInert(" integer regs ");
    LineInert(" FP regs (integer format) ");
  }

  lemma SegmentNotesInert()
    ensures Inert(Comment(" text segment specifiers (base & size) ") + "\n")
    ensures Inert(Comment(" data segment specifiers (base & size) ") + "\n")
    ensures Inert(Comment(" stack segment specifiers (base & size) ") + "\n")
  {
    LineInert(" text segment specifiers (base & size) ");
    LineInert(" data segment specifiers (base & size) ");
    LineInert(" stack segment specifiers (base & size) ");
  }

  lemma NotesInert(h: Header)
    ensures forall i :: 0 <= i < 8 ==> Inert(HeaderNotes(h)[i])
  {
    FirstNoteInert(h.transIcnt);
    RegNotesInert();
    NumberInert(" writing `", Int32(h.pageCount), "' memory pages... ");
    SegmentNotesInert();
  }

  function HeaderItems(h: Header): (items: seq<Item>)
    ensures |items| == 8
  {
    seq(8, i requires 0 <= i < 8 => Item(HeaderNotes(h)[i], HeaderTerms(h)[i]))
  }

  function PageItems(dump: seq<PageDump>): (items: seq<Item>)
    ensures |items| == |dump|
  {
    seq(|dump|, i requires 0 <= i < |dump| => Item("", PageTerms(dump)[i]))
  }

  function TermsOf(items: seq<Item>): (ts: seq<Term>)
    ensures |ts| == |items|
  {
    seq(|items|, i requires 0 <= i < |items| => items[i].term)
  }

  // ------------------------------------------------------------------------------ text

  /** Reads on until there are `n` terms. */
  function ReadTerms(read: Reader, s: string, n: nat, mode: Mode, acc: seq<Term>): (r: Option<(seq<Term>, string, Mode)>)
    requires |acc| <= n
    ensures r.Some? ==> |r.value.0| == n
    decreases n - |acc|, s
  {
    if |acc| == n then Some((acc, s, mode))
    else
      match read(s, mode)
      case Ok(t, s1, m1) => ReadTerms(read, s1, n, m1, acc + [t])
      case _ => None
  }

  type Reader = (string, Mode) -> Reading<Term>

  function Save(h: Header, dump: seq<PageDump>, rest: string): string {
    StreamOn(HeaderItems(h) + PageItems(dump), EndNote(h) + rest)
  }

  /** The header says how many pages follow. */
  function LoadText(s: string): Option<(Header, seq<PageDump>, string)> {
    match ReadTerms(Exo.Read, s, 8, Initial, [])
    case Some((ts, s1, m1)) =>
      (match HeaderOf(ts)
       case Some(h) =>
         var n := Int32(h.pageCount);
         (match ReadTerms(Exo.Read, s1, if n > 0 then n else 0, m1, [])
          case Some((ps, s2, _)) =>
            (match PagesOf(ps)
             case Some(dump) => Some((h, dump, s2))
             case None => None)
          case None => None)
       case None => None)
    case None => None
  }

  lemma HeaderDecodes(h: Header)
    requires h.Valid()
    ensures HeaderOf(HeaderTerms(h)) == Some(h)
  {
    AddressesDecode(h.regs.r);
    AddressesDecode(h.regs.f);
  }

  /** A segment is its base and its size, of which 32 bits are kept. */
  predicate IsSegment(t: Term, s: Segment) {
    t.List? && |t.elts| == 2 && t.elts[0] == Address(s.base) && t.elts[1].Integer? && t.elts[1].v % 0x1_0000_0000 == s.size
  }

  /** Exactly the eight terms with these parts, in this order, are a header. */
  lemma HeaderIff(ts: seq<Term>, h: Header)
    requires |ts| == 8
    ensures HeaderOf(ts) == Some(h) <==>
              && |h.regs.r| == 32 && |h.regs.f| == 32
              && ts[0] == Integer(h.transIcnt)
              && ts[1] == List([Integer(h.numInsn), Address(h.regs.pc), Address(h.regs.npc),
                                Integer(h.regs.fpcr), Integer(h.regs.uniq)])
              && ts[2] == List(Addresses(h.regs.r)) && ts[3] == List(Addresses(h.regs.f))
              && ts[4] == List([Integer(h.pageCount), Address(h.brk), Address(h.stackMin)])
              && IsSegment(ts[5], h.text) && IsSegment(ts[6], h.data) && IsSegment(ts[7], h.stack)
  {
    MiscIff(ts[1], h);
    MemoryIff(ts[4], h);
    if ts[2].List? { RegistersIff(ts[2].elts, h.regs.r); }
    if ts[3].List? { RegistersIff(ts[3].elts, h.regs.f); }
  }

  lemma MiscIff(t: Term, h: Header)
    ensures t == List([Integer(h.numInsn), Address(h.regs.pc), Address(h.regs.npc), Integer(h.regs.fpcr), Integer(h.regs.uniq)])
            <==> IsMisc(t) && t.elts[0].v == h.numInsn && t.elts[1].v == h.regs.pc && t.elts[2].v == h.regs.npc
                 && t.elts[3].v == h.regs.fpcr && t.elts[4].v == h.regs.uniq
  {
    if IsMisc(t) { assert t.elts == [t.elts[0], t.elts[1], t.elts[2], t.elts[3], t.elts[4]]; }
  }

  lemma MemoryIff(t: Term, h: Header)
    ensures t == List([Integer(h.pageCount), Address(h.brk), Address(h.stackMin)])
            <==> IsMemory(t) && t.elts[0].v == h.pageCount && t.elts[1].v == h.brk && t.elts[2].v == h.stackMin
  {
    if IsMemory(t) { assert t.elts == [t.elts[0], t.elts[1], t.elts[2]]; }
  }

  lemma RegistersIff(ts: seq<Term>, r: seq<U64>)
    ensures AddressValues(ts) == Some(r) <==> ts == Addresses(r)
  {
    AddressesDecode(r);
    if AddressValues(ts).Some? { AddressesEncode(ts); }
  }

  lemma PagesDecode(dump: seq<PageDump>)
    ensures PagesOf(PageTerms(dump)) == Some(dump)
  {
    var ts := PageTerms(dump);
    forall i | 0 <= i < |ts| ensures IsMemRecord(ts[i]) && (ts[i].elts[0].v, ts[i].elts[1].data) == dump[i] {
    }
    assert PagesOf(ts).value == dump;
  }

  lemma SmallListGood(ts: seq<Term>)
    requires forall i :: 0 <= i < |ts| ==> ts[i].Address? || ts[i].Integer?
    ensures Good(List(ts))
  {
  }

  lemma HeaderGood(h: Header)
    ensures forall i :: 0 <= i < 8 ==> Good(HeaderTerms(h)[i])
  {
    var ts := HeaderTerms(h);
    forall i | 0 < i < 8 ensures Good(ts[i]) {
      SmallListGood(ts[i].elts);
    }
  }

  lemma PageGood(addr: Addr, data: seq<Byte>)
    requires 0 < |data| < 0x8000_0000
    ensures Good(List([Address(addr), Blob(data)]))
  {
    var ts := [Address(addr), Blob(data)];
    assert Good(ts[0]) && Good(ts[1]);
  }

  ghost predicate AllGood(items: seq<Item>) { forall i :: 0 <= i < |items| ==> Inert(items[i].note) && Good(items[i].term) }

  /** A reader that reads printed terms back and does not see notes and empty lines. */
  ghost predicate ReadsBack(read: Reader) {
    && (forall t, s :: Good(t) ==> read(PrintOn(t, Blank(s)), Initial) == Ok(t, Blank(s), Initial))
    && (forall s :: read(Blank(s), Initial) == read(s, Initial))
    && (forall note, s {:trigger Inert(note), read(note + s, Initial)} :: Inert(note) ==> read(note + s, Initial) == read(s, Initial))
  }

  lemma ExoReadsBack()
    ensures ReadsBack(Exo.Read)
  {
    forall t, s | Good(t) ensures Exo.Read(PrintOn(t, Blank(s)), Initial) == Ok(t, Blank(s), Initial) {
      StopsAll(t, Blank(s));
      ReadPrint(t, Blank(s));
    }
    forall s ensures Exo.Read(Blank(s), Initial) == Exo.Read(s, Initial) {
      BlankSkipped(s);
    }
    forall note, s | Inert(note) ensures Exo.Read(note + s, Initial) == Exo.Read(s, Initial) {
      InertRead(note, s);
    }
  }

  /** Every item reads back where it stands. */
  ghost predicate InPlace(read: Reader, items: seq<Item>, rest: string) {
    items == [] || (FirstInPlace(read, items, rest) && InPlace(read, items[1..], rest))
  }

  ghost predicate FirstInPlace(read: Reader, items: seq<Item>, rest: string)
    requires items != []
  {
    var more := StreamOn(items[1..], rest);
    && read(StreamOn(items, rest), Initial) == Ok(items[0].term, Blank(more), Initial)
    && read(Blank(more), Initial) == read(more, Initial)
  }

  lemma {:induction false} GoodInPlace(read: Reader, items: seq<Item>, rest: string)
    requires ReadsBack(read) && AllGood(items)
    ensures InPlace(read, items, rest)
  {
    if items != [] {
      FirstReads(read, items, rest);
      GoodInPlace(read, items[1..], rest);
    }
  }

  lemma {:induction false} StreamReads(read: Reader, items: seq<Item>, rest: string, n: nat, acc: seq<Term>)
    requires items != [] && InPlace(read, items, rest) && n == |acc| + |items|
    ensures ReadTerms(read, StreamOn(items, rest), n, Initial, acc) == Some((acc + TermsOf(items), Blank(rest), Initial))
    decreases |items|
  {
    var t, tail := items[0].term, items[1..];
    var more := StreamOn(tail, rest);
    OneRead(read, StreamOn(items, rest), n, acc, t, Blank(more));
    if tail == [] {
      assert acc + TermsOf(items) == acc + [t];
    } else {
      assert acc + TermsOf(items) == acc + [t] + TermsOf(tail);
      SameRead(read, Blank(more), more, n, acc + [t]);
      StreamReads(read, tail, rest, n, acc + [t]);
    }
  }

  lemma OneRead(read: Reader, s: string, n: nat, acc: seq<Term>, t: Term, rest: string)
    requires |acc| < n && read(s, Initial) == Ok(t, rest, Initial)
    ensures ReadTerms(read, s, n, Initial, acc) == ReadTerms(read, rest, n, Initial, acc + [t])
    ensures |acc| + 1 == n ==> ReadTerms(read, s, n, Initial, acc) == Some((acc + [t], rest, Initial))
  {
  }

  lemma SameRead(read: Reader, s: string, s': string, n: nat, acc: seq<Term>)
    requires |acc| < n && read(s, Initial) == read(s', Initial)
    ensures ReadTerms(read, s, n, Initial, acc) == ReadTerms(read, s', n, Initial, acc)
  {
  }

  lemma FirstReads(read: Reader, items: seq<Item>, rest: string)
    requires ReadsBack(read) && items != [] && Inert(items[0].note) && Good(items[0].term)
    ensures FirstInPlace(read, items, rest)
  {
    var more := StreamOn(items[1..], rest);
    assert read(items[0].note + PrintOn(items[0].term, Blank(more)), Initial) == read(PrintOn(items[0].term, Blank(more)), Initial);
  }

  lemma HeaderItemsGood(h: Header)
    ensures AllGood(HeaderItems(h)) && TermsOf(HeaderItems(h)) == HeaderTerms(h)
  {
    HeaderGood(h);
    NotesInert(h);
  }

  lemma PageItemsGood(dump: seq<PageDump>)
    requires forall k :: 0 <= k < |dump| ==> |dump[k].1| == 8192
    ensures AllGood(PageItems(dump)) && TermsOf(PageItems(dump)) == PageTerms(dump)
  {
    var ps := PageItems(dump);
    InertBlank(' ');
    forall i | 0 <= i < |ps| ensures Good(ps[i].term) {
      assert ps[i].term == PageTerms(dump)[i] == List([Address(dump[i].0), Blob(dump[i].1)]);
      PageGood(dump[i].0, dump[i].1);
    }
  }

  lemma HeaderReads(read: Reader, h: Header, more: string)
    requires ReadsBack(read)
    ensures ReadTerms(read, StreamOn(HeaderItems(h), more), 8, Initial, []) == Some((HeaderTerms(h), Blank(more), Initial))
  {
    HeaderItemsGood(h);
    GoodInPlace(read, HeaderItems(h), more);
    StreamReads(read, HeaderItems(h), more, 8, []);
    assert [] + HeaderTerms(h) == HeaderTerms(h);
  }

  lemma PagesRead(read: Reader, dump: seq<PageDump>, rest: string)
    requires ReadsBack(read)
    requires forall k :: 0 <= k < |dump| ==> |dump[k].1| == 8192
    ensures ReadTerms(read, Blank(StreamOn(PageItems(dump), rest)), |dump|, Initial, [])
            == Some((PageTerms(dump), Blank(rest), Initial))
  {
    var ps := PageItems(dump);
    PageItemsGood(dump);
    if ps != [] {
      GoodInPlace(read, ps, rest);
      StreamReads(read, ps, rest, |dump|, []);
      SameRead(read, Blank(StreamOn(ps, rest)), StreamOn(ps, rest), |dump|, []);
      assert [] + PageTerms(dump) == PageTerms(dump);
    }
  }

  /** A checkpoint, comments and all, reads back as the header and the pages it was written from. */
  lemma CheckpointRoundTrip(h: Header, dump: seq<PageDump>, rest: string)
    requires h.Valid() && h.pageCount == |dump|
    requires forall k :: 0 <= k < |dump| ==> |dump[k].1| == 8192
    ensures LoadText(Save(h, dump, rest)) == Some((h, dump, Blank(EndNote(h) + rest)))
  {
    var end := EndNote(h) + rest;
    ExoReadsBack();
    StreamAppend(HeaderItems(h), PageItems(dump), end);
    HeaderReads(Exo.Read, h, StreamOn(PageItems(dump), end));
    HeaderDecodes(h);
    PagesRead(Exo.Read, dump, end);
    PagesDecode(dump);
    SmallInt32(h.pageCount);
  }

  /** What is left of the checkpoint is not seen by the next reader. */
  lemma EndInert(h: Header, rest: string)
    ensures Exo.Read(Blank(EndNote(h) + rest), Initial) == Exo.Read(rest, Initial)
  {
    CounterInert(" ** end checkpoint @ ", h.transIcnt);
    BlankSkipped(EndNote(h) + rest);
    InertRead(EndNote(h), rest);
  }
}
