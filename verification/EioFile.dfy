/**
 A whole EIO file: its header, the checkpoint where the run began, and the trace of the run's
 system calls.  Memory comes back from a checkpoint as it reads, so states are compared as a
 program can tell them apart.
 */
module EioFile {
  import opened Basics
  import opened Machine
  import opened Memory
  import opened Numbers
  import opened Exo
  import opened ExoRoundTrip
  import opened ExoStream
  import opened Trace
  import opened TraceText
  import opened Checkpoint
  import opened CheckpointStream
  import opened EioRun

  // ------------------------------------------------------------- states that look the same

  ghost predicate SameState(x: State, y: State) {
    x.regs == y.regs && x.brk == y.brk && Same(x.mem, y.mem)
  }

  lemma {:induction false} WriteLogSame(f: Flat, g: Flat, log: seq<(Addr, Byte)>)
    requires Same(f, g)
    ensures Same(WriteLog(f, log), WriteLog(g, log))
  {
    if log != [] {
      var n := |log| - 1;
      WriteLogSame(f, g, log[..n]);
      UpdateSame(WriteLog(f, log[..n]), WriteLog(g, log[..n]), log[n].0, log[n].1);
    }
  }

  lemma UpdateSame(f: Flat, g: Flat, a: Addr, b: Byte)
    requires Same(f, g)
    ensures Same(f[a := b], g[a := b])
  {
    var f', g' := f[a := b], g[a := b];
    forall c: Addr ensures Get(f', c) == Get(g', c) {
      assert Get(f, c) == Get(g, c);
    }
  }

  lemma MatchesSame(f: Flat, g: Flat, log: seq<(Addr, Byte)>)
    requires Same(f, g)
    ensures Matches(f, log) <==> Matches(g, log)
  {
  }

  /** Replay can not tell them apart either. */
  lemma ReplaySame(x: State, y: State, icnt: U64, tx: Transaction)
    requires SameState(x, y) && x.regs.Valid()
    ensures SameAnswer(Replay(x, icnt, tx), Replay(y, icnt, tx))
  {
    MatchesSame(x.mem, y.mem, FlatLog(tx.inputs));
    WriteLogSame(x.mem, y.mem, FlatLog(tx.outputs));
  }

  ghost predicate SameAnswer(r: Replaying, r': Replaying) {
    match r
    case Replayed(x) => r'.Replayed? && SameState(x, r'.state)
    case _ => r == r'
  }

  /** A program sees of memory what it reads. */
  ghost predicate Respects(user: Program) {
    forall n: nat, x, y {:trigger user(n, x), user(n, y)} :: SameState(x, y) ==> SameState(user(n, x), user(n, y))
  }

  lemma {:induction false} StoreSame(f: Flat, g: Flat, a: Addr, data: seq<Byte>)
    requires Same(f, g)
    ensures Same(Store(f, a, data), Store(g, a, data))
  {
    if data != [] {
      var n := |data| - 1;
      StoreSame(f, g, a, data[..n]);
      UpdateSame(Store(f, a, data[..n]), Store(g, a, data[..n]), Plus(a, n), data[n]);
    }
  }

  lemma PerformSame(f: Flat, g: Flat, q: Request)
    requires Same(f, g)
    ensures Same(Perform(f, q).0, Perform(g, q).0) && Same(Copy(f, q).0, Copy(g, q).0)
  {
    if q.Write? { StoreSame(f, g, q.addr, q.data); }
  }

  lemma {:induction false} SeriesSame(f: Flat, g: Flat, qs: seq<Request>)
    requires Same(f, g)
    ensures Same(Series(f, qs).0, Series(g, qs).0) && Series(f, qs).1.fault == Series(g, qs).1.fault
  {
    if qs != [] {
      var n := |qs| - 1;
      SeriesSame(f, g, qs[..n]);
      PerformSame(Series(f, qs[..n]).0, Series(g, qs[..n]).0, qs[n]);
    }
  }

  lemma ApplySame(f: Flat, g: Flat, op: Op)
    requires Same(f, g)
    ensures Same(Apply(f, op).0, Apply(g, op).0)
  {
    PerformSame(f, g, op.q);
    SeriesSame(f, g, WordAccesses(op.q, WordCount(op.q)));
  }

  lemma {:induction false} RunFlatSame(f: Flat, g: Flat, ops: seq<Op>)
    requires Same(f, g)
    ensures Same(RunFlat(f, ops).0, RunFlat(g, ops).0)
  {
    if ops != [] {
      var n := |ops| - 1;
      RunFlatSame(f, g, ops[..n]);
      ApplySame(RunFlat(f, ops[..n]).0, RunFlat(g, ops[..n]).0, ops[n]);
    }
  }

  /** Programs that are given by what they do are such. */
  lemma ActsRespect(acts: seq<Activity>)
    ensures Respects(UserOf(acts))
  {
    var user := UserOf(acts);
    forall n: nat, x, y | SameState(x, y) ensures SameState(user(n, x), user(n, y)) {
      if n < |acts| { RunFlatSame(x.mem, y.mem, acts[n].ops); }
    }
  }

  // ------------------------------------------------------------------- one call, and a run

  /** A call whose replay can not be told from it. */
  ghost predicate LooksReproducible(u: State, c: Call) {
    && Recordable(u, c) && OnlyOutputsChanged(u.regs, c.after) && BuffersHeld(u.mem, c.accesses)
    && Same(WriteLog(u.mem, PutLog(c.accesses, true)), WriteLog(u.mem, PutLog(c.accesses, false)))
  }

  /** What replay of a call's text ends in, from a state that looks like the one of the call. */
  lemma LooksIff(u: State, v: State, c: Call, rest: string)
    requires SameState(u, v) && Recordable(u, c) && Sized(c.accesses)
    ensures var s := Record(u.mem, c.accesses);
            var tx := Transact(c.icnt, u.regs, c.after, c.brk, s);
            Reaches(ReplayText(v, c.icnt, PrintOn(Encode(tx), rest)), State(c.after, c.brk, s.mem), rest)
            <==> LooksReproducible(u, c) && Readable(tx)
  {
    var s := Record(u.mem, c.accesses);
    var tx := Transact(c.icnt, u.regs, c.after, c.brk, s);
    RecordedBlobs(u.mem, c.accesses);
    EncodedBlobs(tx);
    DecodeEncode(tx);
    TermText(v, c.icnt, Encode(tx), rest);
    ReplaySame(u, v, c.icnt, tx);
    ReplayLooksSameIff(u, c.icnt, c.accesses, c.after, c.brk);
  }

  /** Replay got to a state that looks like `t`, and left `text`. */
  ghost predicate Reaches(r: (Replaying, string), t: State, text: string) {
    r.0.Replayed? && SameState(r.0.state, t) && r.1 == text
  }

  /** What is left of the file behind the first `k` transactions, if `text` was there at first. */
  function Left(text: string, trace: seq<Transaction>, k: nat, rest: string): string
    requires k <= |trace|
  {
    if k == 0 then text else Remaining(trace, k, rest)
  }

  /** Behind call `k`, the run replayed from state `v` and `text` looks like the run recorded from `s`,
      and the file is read up to that call's transaction. */
  ghost predicate LooksAt(v: State, text: string, s: State, calls: seq<Call>, k: nat, user: Program, rest: string)
    requires k <= |calls| && RecordRun(s, calls, user).Live?
  {
    && RecordRun(s, calls[..k], user).Live?
    && Reaches(ReplayFile(v, Icnts(calls[..k]), text, user), RecordRun(s, calls[..k], user).state,
               Left(text, RecordRun(s, calls, user).trace, k, rest))
  }

  /** It does behind every call. */
  ghost predicate FollowsFrom(v: State, text: string, s: State, calls: seq<Call>, user: Program, rest: string)
    requires RecordRun(s, calls, user).Live?
  {
    forall k: nat :: k <= |calls| ==> LooksAt(v, text, s, calls, k, user, rest)
  }

  ghost predicate AllLook(s: State, calls: seq<Call>, user: Program)
    requires RecordRun(s, calls, user).Live?
  {
    forall i: nat :: i < |calls| ==> CallLooks(s, calls, i, user)
  }

  /** Call `i` of a run can be replayed from its text, and the replay can not be told from it. */
  ghost predicate CallLooks(s: State, calls: seq<Call>, i: nat, user: Program)
    requires i < |calls| && RecordRun(s, calls, user).Live?
  {
    && RecordRun(s, calls[..i], user).Live?
    && LooksReproducible(user(i, RecordRun(s, calls[..i], user).state), calls[i])
    && Readable(RecordRun(s, calls, user).trace[i])
  }

  /** `text` reads as the trace does. */
  ghost predicate ReadsAs(text: string, trace: seq<Transaction>, rest: string) {
    Exo.Read(text, Initial) == Exo.Read(StreamOn(Items(trace), rest), Initial)
  }

  lemma NextText(u: State, icnt: U64, text: string, trace: seq<Transaction>, k: nat, rest: string)
    requires k < |trace| && u.regs.Valid() && u.regs.r[0] != 1 && ReadsAs(text, trace, rest)
    ensures ReplayText(u, icnt, Left(text, trace, k, rest))
            == ReplayText(u, icnt, PrintOn(Encode(trace[k]), Remaining(trace, k + 1, rest)))
  {
    NextTransaction(u, icnt, trace, k, rest);
  }

  lemma StepFrom(v: State, text: string, s: State, calls: seq<Call>, k: nat, user: Program, rest: string)
    requires k < |calls| && RecordRun(s, calls, user).Live? && Sized(calls[k].accesses) && Respects(user)
    requires ReadsAs(text, RecordRun(s, calls, user).trace, rest) && LooksAt(v, text, s, calls, k, user, rest)
    ensures LooksAt(v, text, s, calls, k + 1, user, rest) <==> CallLooks(s, calls, k, user)
  {
    var trace, c := RecordRun(s, calls, user).trace, calls[k];
    var u := RecordStep(s, calls, k, user);
    var (r, more) := ReplayFile(v, Icnts(calls[..k]), text, user);
    var u' := user(k, r.state);
    IcntsStep(calls, k);
    FileSnoc(v, Icnts(calls[..k]), c.icnt, text, user, r.state, more);
    NextText(u', c.icnt, text, trace, k, rest);
    LooksIff(u, u', c, Remaining(trace, k + 1, rest));
  }

  lemma LooksAtFirst(v: State, text: string, s: State, calls: seq<Call>, user: Program, rest: string)
    requires RecordRun(s, calls, user).Live? && SameState(v, s)
    ensures LooksAt(v, text, s, calls, 0, user, rest)
  {
    assert calls[..0] == [] && Icnts(calls[..0]) == [];
  }

  ghost predicate GoesOn(v: State, text: string, s: State, calls: seq<Call>, k: nat, user: Program, rest: string)
    requires k < |calls| && RecordRun(s, calls, user).Live?
  {
    LooksAt(v, text, s, calls, k, user, rest) && CallLooks(s, calls, k, user) ==> LooksAt(v, text, s, calls, k + 1, user, rest)
  }

  lemma {:induction false} LooksAtAll(v: State, text: string, s: State, calls: seq<Call>, k: nat, user: Program, rest: string)
    requires k <= |calls| && RecordRun(s, calls, user).Live? && LooksAt(v, text, s, calls, 0, user, rest)
    requires forall i: nat :: i < |calls| ==> GoesOn(v, text, s, calls, i, user, rest)
    requires AllLook(s, calls, user)
    ensures LooksAt(v, text, s, calls, k, user, rest)
    decreases k
  {
    if k > 0 {
      LooksAtAll(v, text, s, calls, k - 1, user, rest);
      assert GoesOn(v, text, s, calls, k - 1, user, rest);
      assert CallLooks(s, calls, k - 1, user);
    }
  }

  /** A run replayed from a state that looks like the one where the recorded run began, and from text
      that reads as its trace, looks like that run behind every call, if and only if every call can
      be replayed from its text and its replay can not be told from it. */
  lemma RunFromIff(v: State, text: string, s: State, calls: seq<Call>, user: Program, rest: string)
    requires RecordRun(s, calls, user).Live? && SameState(v, s) && Respects(user)
    requires forall i :: 0 <= i < |calls| ==> Sized(calls[i].accesses)
    requires ReadsAs(text, RecordRun(s, calls, user).trace, rest)
    ensures FollowsFrom(v, text, s, calls, user, rest) <==> AllLook(s, calls, user)
  {
    if FollowsFrom(v, text, s, calls, user, rest) {
      forall i: nat | i < |calls| ensures CallLooks(s, calls, i, user) {
        assert LooksAt(v, text, s, calls, i, user, rest) && LooksAt(v, text, s, calls, i + 1, user, rest);
        StepFrom(v, text, s, calls, i, user, rest);
      }
    }
    if AllLook(s, calls, user) {
      forall i: nat | i < |calls| ensures GoesOn(v, text, s, calls, i, user, rest) {
        if LooksAt(v, text, s, calls, i, user, rest) { StepFrom(v, text, s, calls, i, user, rest); }
      }
      LooksAtFirst(v, text, s, calls, user, rest);
      forall k: nat | k <= |calls| ensures LooksAt(v, text, s, calls, k, user, rest) {
        LooksAtAll(v, text, s, calls, k, user, rest);
      }
    }
  }

  // ------------------------------------------------------------------------ the whole file

  const FORMAT: U64 := 2
  const VERSION: U64 := 3

  /** The two comments at the top of the file; `big` is the byte order of the target. */
  function FileNote(big: int): string {
    Comment(Title()) + "\n\n" + (Comment(Formats(big)) + "\n")
  }

  function Title(): string { " This is a SimpleScalar EIO file" + " - DO NOT MOVE OR EDIT THIS LINE! " }

  function Formats(big: int): string {
    " file_format: " + (Signed(FORMAT) + (", file_version: " + (Signed(VERSION) + (", big_endian: " + (Signed(big) + " ")))))
  }

  function FileHeader(host: U64): Term { List([Integer(FORMAT), Integer(VERSION), Integer(host)]) }

  /** Header, checkpoint, trace. */
  function FileText(big: int, host: U64, h: Header, dump: seq<PageDump>, trace: seq<Transaction>, rest: string): string {
    FileNote(big) + PrintOn(FileHeader(host), Blank(Save(h, dump, StreamOn(Items(trace), rest))))
  }

  /** Format and version must be those of this simulator; another byte order is only warned of. */
  function OpenText(s: string): Option<string> {
    match Exo.Read(s, Initial)
    case Ok(t, rest, _) =>
      if && t.List? && |t.elts| == 3 && t.elts[0].Integer? && t.elts[1].Integer? && t.elts[2].Integer?
         && Int32(t.elts[0].v) == FORMAT && Int32(t.elts[1].v) == VERSION
      then Some(rest) else None
    case _ => None
  }

  /** A file to run from begins with a checkpoint from before any transaction. */
  function LoadFile(s: string): Option<(Header, seq<PageDump>, string)> {
    match OpenText(s)
    case None => None
    case Some(s1) =>
      match LoadText(s1)
      case None => None
      case Some((h, dump, left)) => if h.transIcnt == MAX then Some((h, dump, left)) else None
  }

  lemma FormatsPlain(big: int)
    ensures Plain(Formats(big)) && Formats(big)[0] == ' '
  {
    SignedPlain(FORMAT);
    SignedPlain(VERSION);
    SignedPlain(big);
    var x := Signed(big) + " ";
    PlainJoin(Signed(big), " ");
    PlainJoin(", big_endian: ", x);
    PlainJoin(Signed(VERSION), ", big_endian: " + x);
    PlainJoin(", file_version: ", Signed(VERSION) + (", big_endian: " + x));
    PlainJoin(Signed(FORMAT), ", file_version: " + (Signed(VERSION) + (", big_endian: " + x)));
    PlainJoin(" file_format: ", Signed(FORMAT) + (", file_version: " + (Signed(VERSION) + (", big_endian: " + x))));
  }

  lemma FileNoteInert(big: int)
    ensures Inert(FileNote(big))
  {
    TitlePlain();
    LineInert(Title());
    FormatsPlain(big);
    LineInert(Formats(big));
    InertJoin(Comment(Title()) + "\n\n", Comment(Formats(big)) + "\n");
  }

  lemma TitlePlain()
    ensures Plain(Title()) && Title()[0] == ' '
  {
    PlainJoin(" This is a SimpleScalar EIO file", " - DO NOT MOVE OR EDIT THIS LINE! ");
  }

  lemma FileOpens(big: int, host: U64, s: string)
    ensures OpenText(FileNote(big) + PrintOn(FileHeader(host), Blank(s))) == Some(Blank(s))
  {
    FileNoteInert(big);
    InertRead(FileNote(big), PrintOn(FileHeader(host), Blank(s)));
    SmallListGood(FileHeader(host).elts);
    ReadPrint(FileHeader(host), Blank(s));
    SmallInt32(FORMAT);
    SmallInt32(VERSION);
  }

  /** Behind comments, a term that reads back is taken for a header exactly if it is a list of three
      integers of which the first is 2 and the second 3, as the 32 bits that are looked at. */
  lemma OpensIff(note: string, t: Term, s: string)
    requires Inert(note) && Good(t) && !RunsOn(t, s)
    ensures OpenText(note + PrintOn(t, s)).Some? <==>
              && t.List? && |t.elts| == 3 && (forall i :: 0 <= i < 3 ==> t.elts[i].Integer?)
              && t.elts[0].v % 0x1_0000_0000 == 2 && t.elts[1].v % 0x1_0000_0000 == 3
  {
    InertRead(note, PrintOn(t, s));
    ReadPrint(t, s);
    HeaderTaken(t);
  }

  lemma HeaderTaken(t: Term)
    ensures t.List? && |t.elts| == 3 && t.elts[0].Integer? && t.elts[1].Integer? ==>
              && (Int32(t.elts[0].v) == FORMAT <==> t.elts[0].v % 0x1_0000_0000 == 2)
              && (Int32(t.elts[1].v) == VERSION <==> t.elts[1].v % 0x1_0000_0000 == 3)
  {
  }

  /** A file of another format or another version is refused, whatever follows. */
  lemma OtherVersionRefused(note: string, format: U64, version: U64, host: U64, s: string)
    requires Inert(note) && (format % 0x1_0000_0000 != 2 || version % 0x1_0000_0000 != 3)
    ensures LoadFile(note + PrintOn(List([Integer(format), Integer(version), Integer(host)]), s)) == None
  {
    var t := List([Integer(format), Integer(version), Integer(host)]);
    SmallListGood(t.elts);
    OpensIff(note, t, s);
  }

  // ------------------------------------------------------------------ telling EIO files

  /** The first line of a text, its end included, as far as `n` characters go. */
  function FirstLine(s: string, n: nat): string
    decreases n
  {
    if n == 0 || s == "" then "" else if s[0] == '\n' then [s[0]] else [s[0]] + FirstLine(s[1..], n - 1)
  }

  function HeaderLine(): string { "/* This is a SimpleScalar EIO file" + " - DO NOT MOVE OR EDIT THIS LINE! */\n" }

  /** A file is taken for an EIO file by its first line. */
  predicate IsEio(s: string) { FirstLine(s, 511) == HeaderLine() }

  ghost predicate IsLine(line: string) {
    line != "" && forall i :: 0 <= i < |line| ==> (line[i] == '\n' <==> i == |line| - 1)
  }

  lemma {:induction false} FirstLineIff(s: string, line: string, n: nat)
    requires IsLine(line) && |line| <= n
    ensures FirstLine(s, n) == line <==> line <= s
    decreases n
  {
    if s != "" && line[0] == s[0] && s[0] != '\n' {
      assert line == [line[0]] + line[1..] && s == [s[0]] + s[1..];
      FirstLineIff(s[1..], line[1..], n - 1);
      assert line <= s <==> line[1..] <= s[1..];
    }
  }

  lemma HeaderIsLine()
    ensures IsLine(HeaderLine()) && |HeaderLine()| == 71
  {
    var x, y := "/* This is a SimpleScalar EIO file", " - DO NOT MOVE OR EDIT THIS LINE! */\n";
    assert forall i :: 0 <= i < |x| ==> x[i] != '\n';
    assert forall i :: 0 <= i < |y| ==> (y[i] == '\n' <==> i == |y| - 1);
    var line := x + y;
    assert forall i :: 0 <= i < |line| ==> line[i] == if i < |x| then x[i] else y[i - |x|];
  }

  /** Exactly the files that begin with that line are taken for EIO files, and those that are written do. */
  lemma IsEioIff(s: string)
    ensures IsEio(s) <==> HeaderLine() <= s
  {
    HeaderIsLine();
    FirstLineIff(s, HeaderLine(), 511);
  }

  lemma FileIsEio(big: int, host: U64, h: Header, dump: seq<PageDump>, trace: seq<Transaction>, rest: string)
    ensures IsEio(FileText(big, host, h, dump, trace, rest))
  {
    IsEioIff(FileText(big, host, h, dump, trace, rest));
    TitleLine();
    Begins(Comment(Title()) + "\n", "\n", Comment(Formats(big)) + "\n",
           PrintOn(FileHeader(host), Blank(Save(h, dump, StreamOn(Items(trace), rest)))));
  }

  lemma TitleLine()
    ensures Comment(Title()) + "\n" == HeaderLine()
  {
    TitleParts();
    Regroup("/*", " This is a SimpleScalar EIO file", " - DO NOT MOVE OR EDIT THIS LINE! ", "*/", "\n");
  }

  lemma TitleParts()
    ensures "/*" + " This is a SimpleScalar EIO file" == "/* This is a SimpleScalar EIO file"
    ensures " - DO NOT MOVE OR EDIT THIS LINE! " + ("*/" + "\n") == " - DO NOT MOVE OR EDIT THIS LINE! */\n"
  {
  }

  lemma Regroup(a: string, b: string, c: string, d: string, e: string)
    ensures a + (b + c + d) + e == (a + b) + (c + (d + e))
  {
  }

  lemma Begins(x: string, y: string, z: string, rest: string)
    ensures x <= x + y + z + rest
  {
  }

  lemma LoadBlank(s: string)
    ensures LoadText(Blank(s)) == LoadText(s)
  {
    BlankSkipped(s);
    SameRead(Exo.Read, Blank(s), s, 8, []);
  }

  /** What was written loads again, unless the checkpoint is from behind a transaction. */
  lemma FileLoads(big: int, host: U64, h: Header, dump: seq<PageDump>, trace: seq<Transaction>, rest: string)
    requires h.Valid() && h.pageCount == |dump|
    requires forall k :: 0 <= k < |dump| ==> |dump[k].1| == 8192
    ensures LoadFile(FileText(big, host, h, dump, trace, rest))
            == if h.transIcnt == 0xFFFF_FFFF_FFFF_FFFF then Some((h, dump, Blank(EndNote(h) + StreamOn(Items(trace), rest))))
               else None
  {
    var s := Save(h, dump, StreamOn(Items(trace), rest));
    FileOpens(big, host, s);
    LoadBlank(s);
    CheckpointRoundTrip(h, dump, StreamOn(Items(trace), rest));
  }

  /** The file of a run loads as the state where the run began, up to what a program can tell, and the
      run replayed from there and from what is left of the file looks like the recorded one behind
      every call, if and only if every call can be replayed from its text and its replay can not be
      told from it. */
  lemma FileRunIff(big: int, host: U64, h: Header, m: Flat, dump: seq<PageDump>, calls: seq<Call>, user: Program, rest: string)
    requires h.Valid() && h.pageCount == |dump| && h.transIcnt == MAX && IsDumpOf(dump, m)
    requires RecordRun(State(h.regs, h.brk, m), calls, user).Live? && Respects(user)
    requires forall i :: 0 <= i < |calls| ==> Sized(calls[i].accesses)
    ensures var s := State(h.regs, h.brk, m);
            var file := LoadFile(FileText(big, host, h, dump, RecordRun(s, calls, user).trace, rest));
            && file.Some? && file.value.0 == h
            && var v := State(h.regs, h.brk, Restore(map[], file.value.1));
               SameState(v, s) && (FollowsFrom(v, file.value.2, s, calls, user, rest) <==> AllLook(s, calls, user))
  {
    var s := State(h.regs, h.brk, m);
    var trace := RecordRun(s, calls, user).trace;
    FileLoads(big, host, h, dump, trace, rest);
    DumpRestores(map[], m, dump);
    EndInert(h, StreamOn(Items(trace), rest));
    RunFromIff(State(h.regs, h.brk, Restore(map[], dump)), Blank(EndNote(h) + StreamOn(Items(trace), rest)), s, calls, user, rest);
  }

  // ---------------------------------------------------------------------------- on streams

  method Open(input: Input) returns (ok: bool)
    requires input.mode == Initial
    modifies input
    ensures OpenText(old(input.text)) == if ok then Some(input.text) else None
    ensures ok ==> input.mode == Initial
  {
    var r := input.Read();
    ok := && r.Parsed? && r.term.List? && |r.term.elts| == 3
          && r.term.elts[0].Integer? && r.term.elts[1].Integer? && r.term.elts[2].Integer?
          && Int32(r.term.elts[0].v) == FORMAT && Int32(r.term.elts[1].v) == VERSION;
    if ok { ListKeepsMode(old(input.text), Initial); }
  }

  /** Opens a file and loads its first checkpoint into memory; what is left of the stream is the trace. */
  method Load(input: Input, mem: PageTable) returns (h: Option<Header>, ghost dump: seq<PageDump>)
    requires mem.Valid() && input.mode == Initial
    modifies input, mem, mem.ptab, mem.nodes, mem.pages
    ensures mem.Valid() && mem.Grew()
    ensures LoadFile(old(input.text)) == match h case Some(h1) => Some((h1, dump, input.text)) case None => None
    ensures h.Some? ==> mem.flat == Restore(old(mem.flat), dump) && input.mode == Initial
  {
    h, dump := None, [];
    var ok := Open(input);
    if ok {
      h, dump := ReadCheckpoint(input, mem);
      if h.Some? && h.value.transIcnt != MAX {
        h := None;
      }
    }
  }

  /** Skips transactions up to the one with count `icnt`. */
  method Forward(input: Input, icnt: U64) returns (ok: bool)
    requires input.mode == Initial
    modifies input
    ensures FastForward(old(input.text), icnt) == if ok then Some(input.text) else None
    ensures ok ==> input.mode == Initial
  {
    ok := false;
    while !ok
      invariant input.mode == Initial
      invariant FastForward(old(input.text), icnt) == if ok then Some(input.text) else FastForward(input.text, icnt)
      decreases !ok, |input.text|
    {
      ghost var s := input.text;
      var r := input.Read();
      if !(r.Parsed? && r.term.List? && r.term.elts != [] && r.term.elts[0].Integer?) {
        return false;
      }
      ListKeepsMode(s, Initial);
      ok := r.term.elts[0].v == icnt;
    }
  }

  // ------------------------------------------------------- going on from a later checkpoint

  /** Reads transactions up to the one with count `icnt`; it is fatal if there is none. */
  function FastForward(text: string, icnt: U64): Option<string>
    decreases |text|
  {
    match Exo.Read(text, Initial)
    case Ok(t, rest, _) =>
      if !(t.List? && t.elts != [] && t.elts[0].Integer?) then None
      else if t.elts[0].v == icnt then Some(rest)
      else FastForward(rest, icnt)
    case _ => None
  }

  /** Where the trace has the first transaction with count `icnt`; its length if nowhere. */
  function FirstAt(trace: seq<Transaction>, icnt: U64): (k: nat)
    ensures k <= |trace| && (k < |trace| ==> trace[k].icnt == icnt)
    ensures forall i :: 0 <= i < k ==> trace[i].icnt != icnt
  {
    if trace == [] || trace[0].icnt == icnt then 0 else 1 + FirstAt(trace[1..], icnt)
  }

  /** A transaction whose text reads back. */
  ghost predicate Whole(tx: Transaction) { Good(Encode(tx)) }

  lemma TransactionReads(trace: seq<Transaction>, rest: string)
    requires trace != [] && Whole(trace[0])
    ensures Exo.Read(StreamOn(Items(trace), rest), Initial)
            == Ok(Encode(trace[0]), Blank(StreamOn(Items(trace[1..]), rest)), Initial)
  {
    var more := StreamOn(Items(trace[1..]), rest);
    assert Items(trace)[1..] == Items(trace[1..]);
    assert StreamOn(Items(trace), rest) == PrintOn(Encode(trace[0]), Blank(more));
    ReadPrint(Encode(trace[0]), Blank(more));
  }

  lemma NothingReads()
    ensures Exo.Read("", Initial) == AtEof
  {
  }

  /** Text that reads the same is skipped the same. */
  lemma ForwardsSame(s: string, t: string, icnt: U64)
    requires Exo.Read(s, Initial) == Exo.Read(t, Initial)
    ensures FastForward(s, icnt) == FastForward(t, icnt)
  {
  }

  /** What skipping makes of a trace. */
  function Forwarded(trace: seq<Transaction>, icnt: U64, rest: string): Option<string> {
    if trace == [] then FastForward(rest, icnt)
    else if trace[0].icnt == icnt then Some(Blank(StreamOn(Items(trace[1..]), rest)))
    else Forwarded(trace[1..], icnt, rest)
  }

  lemma {:induction false} ForwardsSo(trace: seq<Transaction>, icnt: U64, rest: string)
    requires forall i :: 0 <= i < |trace| ==> Whole(trace[i])
    ensures FastForward(StreamOn(Items(trace), rest), icnt) == Forwarded(trace, icnt, rest)
  {
    if trace == [] {
      assert Items(trace) == [];
    } else {
      ForwardsOne(trace, icnt, rest);
      ForwardsSo(trace[1..], icnt, rest);
    }
  }

  lemma {:induction false} ForwardedAt(trace: seq<Transaction>, icnt: U64, rest: string)
    ensures var k := FirstAt(trace, icnt);
            Forwarded(trace, icnt, rest)
            == if k < |trace| then Some(Blank(StreamOn(Items(trace[k + 1..]), rest))) else FastForward(rest, icnt)
  {
    if trace != [] && trace[0].icnt != icnt {
      var tail, k := trace[1..], FirstAt(trace, icnt);
      ForwardedAt(tail, icnt, rest);
      assert k < |trace| ==> tail[k - 1 + 1..] == trace[k + 1..];
    }
  }

  lemma ForwardsTo(trace: seq<Transaction>, icnt: U64, rest: string)
    requires forall i :: 0 <= i < |trace| ==> Whole(trace[i])
    ensures var k := FirstAt(trace, icnt);
            && (k < |trace| ==> FastForward(StreamOn(Items(trace), rest), icnt) == Some(Blank(StreamOn(Items(trace[k + 1..]), rest))))
            && (k == |trace| && rest == "" ==> FastForward(StreamOn(Items(trace), rest), icnt) == None)
  {
    ForwardsSo(trace, icnt, rest);
    ForwardedAt(trace, icnt, rest);
    NothingReads();
  }

  lemma ForwardsOne(trace: seq<Transaction>, icnt: U64, rest: string)
    requires trace != [] && Whole(trace[0])
    ensures var more := StreamOn(Items(trace[1..]), rest);
            FastForward(StreamOn(Items(trace), rest), icnt) == if trace[0].icnt == icnt then Some(Blank(more)) else FastForward(more, icnt)
  {
    var more := StreamOn(Items(trace[1..]), rest);
    TransactionReads(trace, rest);
    BlankSkipped(more);
    ForwardsSame(Blank(more), more, icnt);
  }

  /** A checkpoint taken in state `t`, behind the transaction with count `icnt`, is loaded as state `v`,
      and the trace of the whole run skipped up to there: what is left of the run, which recorded the
      rest of the trace, replays as a run from its beginning does. */
  lemma ResumedRunIff(text: string, trace: seq<Transaction>, icnt: U64, v: State, t: State, calls: seq<Call>, user: Program, rest: string)
    requires ReadsAs(text, trace, rest) && (forall i :: 0 <= i < |trace| ==> Whole(trace[i]))
    requires FirstAt(trace, icnt) < |trace| && SameState(v, t) && Respects(user)
    requires RecordRun(t, calls, user).Live? && RecordRun(t, calls, user).trace == trace[FirstAt(trace, icnt) + 1..]
    requires forall i :: 0 <= i < |calls| ==> Sized(calls[i].accesses)
    ensures FastForward(text, icnt).Some?
    ensures FollowsFrom(v, FastForward(text, icnt).value, t, calls, user, rest) <==> AllLook(t, calls, user)
  {
    var left := trace[FirstAt(trace, icnt) + 1..];
    ForwardsTo(trace, icnt, rest);
    ForwardsSame(text, StreamOn(Items(trace), rest), icnt);
    BlankSkipped(StreamOn(Items(left), rest));
    RunFromIff(v, Blank(StreamOn(Items(left), rest)), t, calls, user, rest);
  }

  /** A checkpoint can be loaded over the trace of its run if and only if a transaction has its count:
      not if it was taken before the first system call, when the count is still -1. */
  lemma ResumesIff(text: string, trace: seq<Transaction>, icnt: U64)
    requires ReadsAs(text, trace, "") && forall i :: 0 <= i < |trace| ==> Whole(trace[i])
    ensures FastForward(text, icnt).Some? <==> exists k :: 0 <= k < |trace| && trace[k].icnt == icnt
  {
    ForwardsTo(trace, icnt, "");
    ForwardsSame(text, StreamOn(Items(trace), ""), icnt);
    var k := FirstAt(trace, icnt);
    assert k < |trace| ==> trace[k].icnt == icnt;
  }
}
