/** Saving and loading checkpoints as they work: page by page, through streams. */
module CheckpointStream {
  import opened Basics
  import opened Machine
  import opened Memory
  import opened Numbers
  import opened Exo
  import opened ExoRoundTrip
  import opened ExoStream
  import opened TraceText
  import opened Checkpoint

  // ---------------------------------------------------------------------------- saving

  lemma StreamSnoc(items: seq<Item>, item: Item)
    ensures StreamOn(items + [item], "") == StreamOn(items, "") + (item.note + (Exo.Print(item.term) + "\n\n"))
  {
    var last := item.note + PrintOn(item.term, Blank(""));
    assert [item][1..] == [] && StreamOn([item], "") == last;
    assert Blank("") == "\n\n";
    StreamAppend(items, [item], "");
    StreamThen(items, last);
    PrintThen(item.term, "\n\n");
  }

  /** Prints a term behind its note and with an empty line behind it. */
  method WriteItem(out: Output, item: Item)
    modifies out
    ensures out.text == old(out.text) + (item.note + (Exo.Print(item.term) + "\n\n"))
  {
    out.text := out.text + item.note;
    out.Print(item.term);
    out.text := out.text + "\n\n";
  }

  /** Prints terms one after the other. */
  method WriteItems(out: Output, items: seq<Item>)
    modifies out
    ensures out.text == old(out.text) + StreamOn(items, "")
  {
    var i := 0;
    while i < |items|
      invariant 0 <= i <= |items| && out.text == old(out.text) + StreamOn(items[..i], "")
    {
      StreamSnoc(items[..i], items[i]);
      assert items[..i + 1] == items[..i] + [items[i]];
      WriteItem(out, items[i]);
      i := i + 1;
    }
    assert items[..i] == items;
  }

  /** Dumps the architected state: the header, every page there is, and a comment. */
  method WriteCheckpoint(out: Output, h: Header, mem: PageTable) returns (dump: seq<PageDump>)
    requires mem.Valid() && h.pageCount == mem.pageCount
    modifies out
    ensures IsDumpOf(dump, mem.flat) && |dump| == mem.pageCount
    ensures out.text == old(out.text) + Save(h, dump, "")
  {
    dump := mem.Dump();
    WriteAll(out, HeaderItems(h), PageItems(dump), EndNote(h));
    SaveText(h, dump);
  }

  method WriteAll(out: Output, header: seq<Item>, pages: seq<Item>, end: string)
    modifies out
    ensures out.text == old(out.text) + (StreamOn(header, "") + (StreamOn(pages, "") + end))
  {
    WriteItems(out, header);
    WriteItems(out, pages);
    out.text := out.text + end;
  }

  lemma SaveText(h: Header, dump: seq<PageDump>)
    ensures Save(h, dump, "") == StreamOn(HeaderItems(h), "") + (StreamOn(PageItems(dump), "") + EndNote(h))
  {
    assert EndNote(h) + "" == EndNote(h);
    StreamAppend(HeaderItems(h), PageItems(dump), EndNote(h));
    StreamThen(HeaderItems(h), StreamOn(PageItems(dump), EndNote(h)));
    StreamThen(PageItems(dump), EndNote(h));
  }

  // --------------------------------------------------------------------------- loading

  /** Reading one term more. */
  lemma {:induction false} ReadTermsSnoc(read: Reader, s: string, n: nat, mode: Mode, acc: seq<Term>)
    requires |acc| <= n
    ensures ReadTerms(read, s, n + 1, mode, acc) ==
            match ReadTerms(read, s, n, mode, acc)
            case None => None
            case Some((ts, s1, m1)) =>
              match read(s1, m1)
              case Ok(t, s2, m2) => Some((ts + [t], s2, m2))
              case _ => None
    decreases n - |acc|
  {
    if |acc| < n {
      match read(s, mode)
      case Ok(t, s1, m1) => ReadTermsSnoc(read, s1, n, m1, acc + [t]);
      case _ =>
    }
  }

  /** What was read first stays first. */
  lemma {:induction false} ReadTermsPrefix(read: Reader, s: string, n: nat, mode: Mode, i: nat)
    requires i <= n && ReadTerms(read, s, n, mode, []).Some?
    ensures ReadTerms(read, s, i, mode, []).Some?
    ensures ReadTerms(read, s, i, mode, []).value.0 == ReadTerms(read, s, n, mode, []).value.0[..i]
    decreases n
  {
    var whole := ReadTerms(read, s, n, mode, []).value.0;
    if i == n {
      assert whole[..i] == whole;
    } else {
      ReadTermsSnoc(read, s, n - 1, mode, []);
      ReadTermsPrefix(read, s, n - 1, mode, i);
      assert whole[..n - 1][..i] == whole[..i];
    }
  }

  ghost predicate ReadSo(input: Input, r: Option<(seq<Term>, string, Mode)>, ok: bool, ts: seq<Term>)
    reads input
  {
    match r
    case None => !ok
    case Some((all, s, m)) => ok && ts == all && input.text == s && input.mode == m
  }

  method ReadStream(input: Input, n: nat) returns (ok: bool, ts: seq<Term>)
    modifies input
    ensures ReadSo(input, ReadTerms(Exo.Read, old(input.text), n, old(input.mode), []), ok, ts)
  {
    ok, ts := true, [];
    var i := 0;
    while i < n
      invariant 0 <= i <= n && ok
      invariant ReadSo(input, ReadTerms(Exo.Read, old(input.text), i, old(input.mode), []), true, ts)
    {
      ReadTermsSnoc(Exo.Read, old(input.text), i, old(input.mode), []);
      var r := input.Read();
      i := i + 1;
      if !r.Parsed? {
        if ReadTerms(Exo.Read, old(input.text), n, old(input.mode), []).Some? {
          ReadTermsPrefix(Exo.Read, old(input.text), n, old(input.mode), i);
        }
        return false, [];
      }
      ts := ts + [r.term];
    }
  }

  function PageIn(t: Term): PageDump
    requires IsMemRecord(t)
  {
    (t.elts[0].v, t.elts[1].data)
  }

  lemma PagesStep(ts: seq<Term>, t: Term)
    requires PagesOf(ts).Some?
    ensures IsMemRecord(t) ==> PagesOf(ts + [t]) == Some(PagesOf(ts).value + [PageIn(t)])
  {
    var more := ts + [t];
    if IsMemRecord(t) {
      assert forall i :: 0 <= i < |ts| ==> more[i] == ts[i];
      assert PagesOf(more).Some?;
      assert PagesOf(more).value == PagesOf(ts).value + [PageIn(t)];
    }
  }

  lemma RestoreStep(f: Flat, dump: seq<PageDump>, d: PageDump)
    ensures Restore(f, dump + [d]) == Store(Restore(f, dump), d.0, d.1)
  {
    assert (dump + [d])[..|dump|] == dump;
  }

  /** What loading `n` pages from a stream amounts to. */
  ghost function PagesIn(s: string, n: nat, mode: Mode): Option<(seq<PageDump>, string, Mode)> {
    match ReadTerms(Exo.Read, s, n, mode, [])
    case None => None
    case Some((ts, rest, m)) => if PagesOf(ts).Some? then Some((PagesOf(ts).value, rest, m)) else None
  }

  lemma NoPages(s: string, mode: Mode)
    ensures PagesIn(s, 0, mode) == Some(([], s, mode))
  {
    var none: seq<Term> := [];
    assert PagesOf(none).value == [];
  }

  /** One page more. */
  lemma PagesInStep(s: string, n: nat, mode: Mode)
    requires PagesIn(s, n, mode).Some?
    ensures var (dump, s1, m1) := PagesIn(s, n, mode).value;
            PagesIn(s, n + 1, mode) ==
            match Exo.Read(s1, m1)
            case Ok(t, s2, m2) => if IsMemRecord(t) then Some((dump + [PageIn(t)], s2, m2)) else None
            case _ => None
  {
    var (ts, s1, m1) := ReadTerms(Exo.Read, s, n, mode, []).value;
    ReadTermsSnoc(Exo.Read, s, n, mode, []);
    match Exo.Read(s1, m1)
    case Ok(t, _, _) =>
      PagesStep(ts, t);
      assert (ts + [t])[|ts|] == t;
    case _ =>
  }

  /** Pages that load one after the other load up to any of them. */
  lemma EarlierPages(s: string, n: nat, mode: Mode, i: nat)
    requires i <= n && PagesIn(s, n, mode).Some?
    ensures PagesIn(s, i, mode).Some?
  {
    ReadTermsPrefix(Exo.Read, s, n, mode, i);
    var whole := ReadTerms(Exo.Read, s, n, mode, []).value.0;
    assert forall k :: 0 <= k < i ==> whole[..i][k] == whole[k];
  }

  /** Reads one page and writes its bytes to memory. */
  method LoadPage(input: Input, mem: PageTable) returns (ok: bool, ghost t: Term)
    requires mem.Valid()
    modifies input, mem, mem.ptab, mem.nodes, mem.pages
    ensures mem.Valid() && mem.Grew()
    ensures match Exo.Read(old(input.text), old(input.mode))
            case Ok(t1, s, m) => t == t1 && input.text == s && input.mode == m && ok == IsMemRecord(t1)
            case _ => !ok
    ensures ok ==> IsMemRecord(t) && mem.flat == Store(old(mem.flat), t.elts[0].v, t.elts[1].data)
  {
    var r := input.Read();
    t := if r.Parsed? then r.term else Integer(0);
    ok := r.Parsed? && IsMemRecord(r.term);
    if ok {
      mem.WriteBlock(r.term.elts[0].v, r.term.elts[1].data);
    }
  }

  /** Reads pages and writes their bytes to memory as they come. */
  method LoadPages(input: Input, mem: PageTable, n: nat) returns (ok: bool, ghost dump: seq<PageDump>)
    requires mem.Valid()
    modifies input, mem, mem.ptab, mem.nodes, mem.pages
    ensures mem.Valid() && mem.Grew()
    ensures PagesIn(old(input.text), n, old(input.mode)) == if ok then Some((dump, input.text, input.mode)) else None
    ensures ok ==> mem.flat == Restore(old(mem.flat), dump)
  {
    ghost var s, mode := input.text, input.mode;
    dump := [];
    NoPages(s, mode);
    var i := 0;
    ok := true;
    while i < n && ok
      invariant 0 <= i <= n && mem.Valid() && mem.Grew()
      invariant PagesIn(s, i, mode) == if ok then Some((dump, input.text, input.mode)) else None
      invariant ok ==> mem.flat == Restore(old(mem.flat), dump)
      decreases n - i
    {
      PagesInStep(s, i, mode);
      ghost var t;
      ok, t := LoadPage(input, mem);
      i := i + 1;
      if ok {
        RestoreStep(old(mem.flat), dump, PageIn(t));
        dump := dump + [PageIn(t)];
      }
    }
    if PagesIn(s, n, mode).Some? {
      EarlierPages(s, n, mode, i);
    }
  }

  /** Behind a list the lexer is outside of blobs. */
  lemma LastList(s: string, n: nat, mode: Mode)
    requires n > 0 && ReadTerms(Exo.Read, s, n, mode, []).Some? && ReadTerms(Exo.Read, s, n, mode, []).value.0[n - 1].List?
    ensures ReadTerms(Exo.Read, s, n, mode, []).value.2 == Initial
  {
    var s1, m1 := LastRead(Exo.Read, s, n, mode);
    ListKeepsMode(s1, m1);
  }

  /** Where the last of some terms was read. */
  lemma LastRead(read: Reader, s: string, n: nat, mode: Mode) returns (s1: string, m1: Mode)
    requires n > 0 && ReadTerms(read, s, n, mode, []).Some?
    ensures var (ts, s2, m2) := ReadTerms(read, s, n, mode, []).value; read(s1, m1) == Ok(ts[n - 1], s2, m2)
  {
    ReadTermsSnoc(read, s, n - 1, mode, []);
    var before := ReadTerms(read, s, n - 1, mode, []).value;
    s1, m1 := before.1, before.2;
  }

  lemma PagesKeepMode(s: string, n: nat)
    ensures PagesIn(s, n, Initial).Some? ==> PagesIn(s, n, Initial).value.2 == Initial
  {
    if n > 0 && PagesIn(s, n, Initial).Some? {
      assert IsMemRecord(ReadTerms(Exo.Read, s, n, Initial, []).value.0[n - 1]);
      LastList(s, n, Initial);
    }
  }

  /** What loading the header from a stream amounts to. */
  ghost function HeaderIn(s: string): Option<(Header, string, Mode)> {
    match ReadTerms(Exo.Read, s, 8, Initial, [])
    case None => None
    case Some((ts, s1, m1)) => if HeaderOf(ts).Some? then Some((HeaderOf(ts).value, s1, m1)) else None
  }

  function PagesAnnounced(h: Header): nat { if Int32(h.pageCount) > 0 then Int32(h.pageCount) else 0 }

  lemma LoadParts(s: string)
    ensures LoadText(s) ==
            match HeaderIn(s)
            case None => None
            case Some((h, s1, m1)) =>
              match PagesIn(s1, PagesAnnounced(h), m1)
              case None => None
              case Some((dump, s2, _)) => Some((h, dump, s2))
  {
  }

  method ReadHeader(input: Input) returns (h: Option<Header>)
    requires input.mode == Initial
    modifies input
    ensures HeaderIn(old(input.text)) == match h case Some(h1) => Some((h1, input.text, input.mode)) case None => None
    ensures h.Some? ==> input.mode == Initial
  {
    var ok, ts := ReadStream(input, 8);
    if !ok {
      return None;
    }
    h := HeaderOf(ts);
    HeaderKeepsMode(old(input.text));
  }

  lemma HeaderKeepsMode(s: string)
    ensures HeaderIn(s).Some? ==> HeaderIn(s).value.2 == Initial
  {
    if HeaderIn(s).Some? {
      HeaderEndsInList(ReadTerms(Exo.Read, s, 8, Initial, []).value.0);
      LastList(s, 8, Initial);
    }
  }

  lemma HeaderEndsInList(ts: seq<Term>)
    requires |ts| == 8 && HeaderOf(ts).Some?
    ensures ts[7].List?
  {
  }

  /** Loads a checkpoint: the header, then as many pages as it announces. */
  method ReadCheckpoint(input: Input, mem: PageTable) returns (h: Option<Header>, ghost dump: seq<PageDump>)
    requires mem.Valid() && input.mode == Initial
    modifies input, mem, mem.ptab, mem.nodes, mem.pages
    ensures mem.Valid() && mem.Grew()
    ensures LoadText(old(input.text)) == match h case Some(h1) => Some((h1, dump, input.text)) case None => None
    ensures h.Some? ==> mem.flat == Restore(old(mem.flat), dump) && input.mode == Initial
  {
    dump := [];
    LoadParts(input.text);
    h := ReadHeader(input);
    if h.Some? {
      var n := PagesAnnounced(h.value);
      PagesKeepMode(input.text, n);
      var ok;
      ok, dump := LoadPages(input, mem, n);
      if !ok {
        h := None;
      }
    }
  }

  /** A checkpoint file loaded into fresh memory restores registers, segments and memory,
      whatever follows it in the file. */
  lemma CheckpointRestoresState(h: Header, m: Flat, dump: seq<PageDump>, rest: string)
    requires h.Valid() && IsDumpOf(dump, m) && h.pageCount == |dump|
    ensures var r := LoadText(Save(h, dump, rest));
            r.Some? && r.value.0 == h && Same(Restore(map[], r.value.1), m)
  {
    CheckpointRoundTrip(h, dump, rest);
    DumpRestores(map[], m, dump);
  }
}
