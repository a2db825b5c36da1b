/**
 External I/O traces: a system call's register and memory inputs and outputs are recorded
 as one transaction; replaying it checks the inputs and writes the outputs.
 */
module Trace {
  import opened Basics
  import opened Machine
  import opened Memory
  import opened Numbers

  // ------------------------------------------------------------------- machine state

  /** Architected registers: 32 integer, 32 floating point, two control registers, PC and NPC. */
  datatype Regs = Regs(r: seq<U64>, f: seq<U64>, fpcr: U64, uniq: U64, pc: Addr, npc: Addr) {
    predicate Valid() { |r| == 32 && |f| == 32 }
  }

  /** What a system call can see and change: registers, the break point, memory. */
  datatype State = State(regs: Regs, brk: Addr, mem: Flat)

  /** One access a system call makes through the accessor it was given: `buf` is the host
      buffer a read fills. */
  datatype Access = Fetch(addr: Addr, buf: seq<Byte>) | Put(addr: Addr, data: seq<Byte>) {
    function Request(): Request {
      match this
      case Fetch(addr, buf) => Read(addr, |buf|)
      case Put(addr, data) => Write(addr, data)
    }

    /** The buffer, or the data. */
    function Bytes(): seq<Byte> {
      match this
      case Fetch(_, buf) => buf
      case Put(_, data) => data
    }

    predicate Faults() { Check(Request()) != NoFault }
  }

  // -------------------------------------------------------------- coalescing recorder

  /** A run of bytes at consecutive addresses. */
  datatype MemBlob = MemBlob(addr: Addr, data: seq<Byte>)

  /** The blobs recorded so far; `maxsize` is the capacity of the last one. */
  datatype Recording = Recording(blobs: seq<MemBlob>, maxsize: nat) {

    /** Bytes that continue the last blob and fit its tail are added to it; others start a new blob. */
    function Add(addr: Addr, data: seq<Byte>): Recording {
      if blobs != [] && Continues(addr, data) then
        var last := blobs[|blobs| - 1];
        this.(blobs := blobs[..|blobs| - 1] + [last.(data := last.data + data)])
      else
        Recording(blobs + [MemBlob(addr, data)], |data| + 256)
    }

    predicate Continues(addr: Addr, data: seq<Byte>)
      requires blobs != []
    {
      var last := blobs[|blobs| - 1];
      Plus(last.addr, |last.data|) == addr && |last.data| + |data| < maxsize
    }
  }

  /** The single bytes of a transfer with their addresses, in order. */
  function ByteLog(addr: Addr, data: seq<Byte>): seq<(Addr, Byte)> {
    if data == [] then [] else ByteLog(addr, data[..|data| - 1]) + [(Plus(addr, |data| - 1), data[|data| - 1])]
  }

  function FlatLog(blobs: seq<MemBlob>): seq<(Addr, Byte)> {
    if blobs == [] then []
    else
      var last := blobs[|blobs| - 1];
      FlatLog(blobs[..|blobs| - 1]) + ByteLog(last.addr, last.data)
  }

  lemma {:induction false} ByteLogAppend(addr: Addr, x: seq<Byte>, y: seq<Byte>)
    ensures ByteLog(addr, x + y) == ByteLog(addr, x) + ByteLog(Plus(addr, |x|), y)
  {
    if y == [] {
      assert x + y == x;
    } else {
      var n := |y| - 1;
      assert (x + y)[..|x| + n] == x + y[..n];
      ByteLogAppend(addr, x, y[..n]);
      PlusPlus(addr, |x|, n);
    }
  }

  /** However accesses are merged into blobs, the blobs flatten to the byte log. */
  lemma CoalescingIsExact(rec: Recording, addr: Addr, data: seq<Byte>)
    ensures FlatLog(rec.Add(addr, data).blobs) == FlatLog(rec.blobs) + ByteLog(addr, data)
  {
    var after := rec.Add(addr, data).blobs;
    if rec.blobs != [] && rec.Continues(addr, data) {
      var last := rec.blobs[|rec.blobs| - 1];
      assert after[..|after| - 1] == rec.blobs[..|rec.blobs| - 1];
      ByteLogAppend(last.addr, last.data, data);
    } else {
      assert after[..|after| - 1] == rec.blobs;
    }
  }

  /** Progress of a recorded system call. */
  datatype Session = Session(mem: Flat, inputs: Recording, outputs: Recording, seenWrite: bool) | Fatal

  /** Accesses are performed and recorded in order; a read after a write is fatal.  A read
      records what its buffer holds afterwards, a write is recorded before it is performed. */
  function Step(s: Session, a: Access): Session {
    if s.Fatal? || (a.Fetch? && s.seenWrite) then Fatal
    else
      var (mem, reply) := Perform(s.mem, a.Request());
      match a
      case Fetch(addr, buf) => s.(mem := mem, inputs := s.inputs.Add(addr, if a.Faults() then buf else reply.data))
      case Put(addr, data) => s.(mem := mem, outputs := s.outputs.Add(addr, data), seenWrite := true)
  }

  const NOTHING := Recording([], 0)

  function Record(mem: Flat, accesses: seq<Access>): Session {
    if accesses == [] then Session(mem, NOTHING, NOTHING, false)
    else Step(Record(mem, accesses[..|accesses| - 1]), accesses[|accesses| - 1])
  }

  // ------------------------------------------------------------- transactions, replay

  datatype Transaction = Transaction(
    icnt: U64, pc: Addr, inRegs: seq<U64>, inputs: seq<MemBlob>,
    brk: Addr, outRegs: seq<U64>, outputs: seq<MemBlob>)

  /** The transaction written for a call that began with registers `before` and left `after`
      and the break point `brk`; note that the PC is the one found after the call. */
  function Transact(icnt: U64, before: Regs, after: Regs, brk: Addr, s: Session): Transaction
    requires before.Valid() && after.Valid() && s.Session?
  {
    Transaction(icnt, after.pc, before.r[..22], s.inputs.blobs, brk, after.r[..22], s.outputs.blobs)
  }

  /** Every logged byte is what memory holds. */
  predicate Matches(f: Flat, log: seq<(Addr, Byte)>) {
    forall i :: 0 <= i < |log| ==> Get(f, log[i].0) == log[i].1
  }

  function WriteLog(f: Flat, log: seq<(Addr, Byte)>): Flat {
    if log == [] then f
    else WriteLog(f, log[..|log| - 1])[log[|log| - 1].0 := log[|log| - 1].1]
  }

  datatype Replaying = Replayed(state: State) | Inconsistent | Exits

  /** Exit calls run for real; otherwise inputs are checked, then outputs written. */
  function Replay(s: State, icnt: U64, tx: Transaction): Replaying
    requires s.regs.Valid()
  {
    if s.regs.r[0] == 1 then Exits
    else if icnt != tx.icnt || s.regs.pc != tx.pc || tx.inRegs != s.regs.r[..22] || !Matches(s.mem, FlatLog(tx.inputs)) then Inconsistent
    else if |tx.outRegs| != 22 then Inconsistent
    else Replayed(State(s.regs.(r := tx.outRegs + s.regs.r[22..]), tx.brk, WriteLog(s.mem, FlatLog(tx.outputs))))
  }

  // ------------------------------------------------------------ replaying a recording

  lemma {:induction false} WriteLogAppend(f: Flat, x: seq<(Addr, Byte)>, y: seq<(Addr, Byte)>)
    ensures WriteLog(f, x + y) == WriteLog(WriteLog(f, x), y)
  {
    if y == [] {
      assert x + y == x;
    } else {
      var n := |y| - 1;
      assert (x + y)[..|x| + n] == x + y[..n];
      WriteLogAppend(f, x, y[..n]);
    }
  }

  lemma {:induction false} WriteBytes(f: Flat, addr: Addr, data: seq<Byte>)
    ensures WriteLog(f, ByteLog(addr, data)) == Store(f, addr, data)
  {
    if data != [] {
      var n := |data| - 1;
      WriteBytes(f, addr, data[..n]);
      var front := ByteLog(addr, data[..n]);
      assert (front + [(Plus(addr, n), data[n])])[..|front|] == front;
    }
  }

  lemma MatchesAppend(f: Flat, x: seq<(Addr, Byte)>, y: seq<(Addr, Byte)>)
    ensures Matches(f, x + y) <==> Matches(f, x) && Matches(f, y)
  {
    assert forall i :: 0 <= i < |x| ==> (x + y)[i] == x[i];
    assert forall i :: 0 <= i < |y| ==> (x + y)[|x| + i] == y[i];
  }

  /** Bytes match memory if and only if memory gives them when read. */
  lemma {:induction false} BytesMatch(f: Flat, addr: Addr, data: seq<Byte>)
    ensures Matches(f, ByteLog(addr, data)) <==> Load(f, addr, |data|) == data
  {
    if data != [] {
      var n := |data| - 1;
      var last := [(Plus(addr, n), data[n])];
      BytesMatch(f, addr, data[..n]);
      MatchesAppend(f, ByteLog(addr, data[..n]), last);
      assert Matches(f, last) <==> Get(f, Plus(addr, n)) == data[n] by {
        assert last[0] == (Plus(addr, n), data[n]);
      }
      assert data == data[..n] + [data[n]];
    }
  }

  /** The bytes a call writes, in order: all it asks for, or only those of writes that do not fault. */
  function PutLog(accesses: seq<Access>, all: bool): seq<(Addr, Byte)> {
    if accesses == [] then []
    else
      var a := accesses[|accesses| - 1];
      var before := PutLog(accesses[..|accesses| - 1], all);
      if a.Put? && (all || !a.Faults()) then before + ByteLog(a.addr, a.data) else before
  }

  /** The buffers of reads that fault, which are recorded as they are, hold what memory does. */
  predicate BuffersHeld(f: Flat, accesses: seq<Access>) {
    forall i :: 0 <= i < |accesses| ==> BufferHeld(f, accesses[i])
  }

  predicate BufferHeld(f: Flat, a: Access) {
    a.Fetch? && a.Faults() ==> Load(f, a.addr, |a.buf|) == a.buf
  }

  /** While recording, memory is the start memory with the writes that do not fault, the output
      log has all writes, and the input log is what the start memory holds if and only if the
      buffers of faulting reads are: reads all come before the first write. */
  ghost predicate RecordingFaithful(f: Flat, s: Session, accesses: seq<Access>)
    requires s.Session?
  {
    && s.mem == WriteLog(f, PutLog(accesses, false))
    && FlatLog(s.outputs.blobs) == PutLog(accesses, true)
    && (Matches(f, FlatLog(s.inputs.blobs)) <==> BuffersHeld(f, accesses))
    && (!s.seenWrite ==> s.mem == f)
  }

  lemma HeldStep(f: Flat, before: seq<Access>, a: Access)
    ensures BuffersHeld(f, before + [a]) <==> BuffersHeld(f, before) && BufferHeld(f, a)
  {
    assert forall i :: 0 <= i < |before| ==> (before + [a])[i] == before[i];
    assert (before + [a])[|before|] == a;
  }

  lemma PutStep(before: seq<Access>, a: Access, all: bool)
    ensures PutLog(before + [a], all) ==
            if a.Put? && (all || !a.Faults()) then PutLog(before, all) + ByteLog(a.addr, a.data) else PutLog(before, all)
  {
    assert (before + [a])[..|before|] == before;
  }

  /** What a read records. */
  function Seen(f: Flat, a: Access): seq<Byte>
    requires a.Fetch?
  {
    if a.Faults() then a.buf else Load(f, a.addr, |a.buf|)
  }

  lemma StepFetch(s: Session, a: Access)
    requires s.Session? && a.Fetch? && !s.seenWrite
    ensures Step(s, a) == Session(s.mem, s.inputs.Add(a.addr, Seen(s.mem, a)), s.outputs, s.seenWrite)
  {
  }

  lemma StepPut(s: Session, a: Access)
    requires s.Session? && a.Put?
    ensures Step(s, a) == Session(if a.Faults() then s.mem else Store(s.mem, a.addr, a.data), s.inputs, s.outputs.Add(a.addr, a.data), true)
  {
  }

  lemma SeenMatches(f: Flat, rec: Recording, a: Access)
    requires a.Fetch?
    ensures Matches(f, FlatLog(rec.Add(a.addr, Seen(f, a)).blobs)) <==> Matches(f, FlatLog(rec.blobs)) && BufferHeld(f, a)
  {
    var seen := Seen(f, a);
    CoalescingIsExact(rec, a.addr, seen);
    MatchesAppend(f, FlatLog(rec.blobs), ByteLog(a.addr, seen));
    BytesMatch(f, a.addr, seen);
  }

  lemma FetchFaithful(f: Flat, s: Session, before: seq<Access>, a: Access, s': Session)
    requires s.Session? && RecordingFaithful(f, s, before) && a.Fetch? && !s.seenWrite
    requires s' == Session(s.mem, s.inputs.Add(a.addr, Seen(s.mem, a)), s.outputs, s.seenWrite)
    ensures RecordingFaithful(f, s', before + [a])
  {
    PutStep(before, a, false);
    PutStep(before, a, true);
    HeldStep(f, before, a);
    SeenMatches(f, s.inputs, a);
  }

  lemma PutFaithful(f: Flat, s: Session, before: seq<Access>, a: Access, s': Session)
    requires s.Session? && RecordingFaithful(f, s, before) && a.Put?
    requires s' == Session(if a.Faults() then s.mem else Store(s.mem, a.addr, a.data), s.inputs, s.outputs.Add(a.addr, a.data), true)
    ensures RecordingFaithful(f, s', before + [a])
  {
    PutStep(before, a, false);
    PutStep(before, a, true);
    HeldStep(f, before, a);
    CoalescingIsExact(s.outputs, a.addr, a.data);
    WriteLogAppend(f, PutLog(before, false), ByteLog(a.addr, a.data));
    WriteBytes(s.mem, a.addr, a.data);
  }

  lemma StepFaithful(f: Flat, s: Session, before: seq<Access>, a: Access)
    requires s.Session? && RecordingFaithful(f, s, before) && Step(s, a).Session?
    ensures RecordingFaithful(f, Step(s, a), before + [a])
  {
    if a.Fetch? {
      StepFetch(s, a);
      FetchFaithful(f, s, before, a, Step(s, a));
    } else {
      StepPut(s, a);
      PutFaithful(f, s, before, a, Step(s, a));
    }
  }

  lemma {:induction false} RecordingInvariant(f: Flat, accesses: seq<Access>)
    requires Record(f, accesses).Session?
    ensures RecordingFaithful(f, Record(f, accesses), accesses)
  {
    if accesses != [] {
      var n := |accesses| - 1;
      var before, a := accesses[..n], accesses[n];
      Snoc(accesses);
      RecordingInvariant(f, before);
      StepFaithful(f, Record(f, before), before, a);
    }
  }

  /** The call left alone everything a transaction does not carry. */
  predicate OnlyOutputsChanged(before: Regs, after: Regs)
    requires before.Valid() && after.Valid()
  {
    && before.r[22..] == after.r[22..] && before.f == after.f
    && before.fpcr == after.fpcr && before.uniq == after.uniq
    && before.pc == after.pc && before.npc == after.npc
  }

  /** Faulting accesses do no harm: the buffers that faulting reads left hold what memory does,
      and performing the faulting writes as well makes no difference. */
  predicate FaultsHarmless(f: Flat, accesses: seq<Access>) {
    BuffersHeld(f, accesses) && WriteLog(f, PutLog(accesses, true)) == WriteLog(f, PutLog(accesses, false))
  }

  /** Replaying a recorded call from the same state passes every input check and ends in the
      same registers, break point and memory, if and only if the call changed no register
      but the output registers and its faulting accesses do no harm. */
  lemma ReplayIff(pre: State, icnt: U64, accesses: seq<Access>, after: Regs, brk: Addr)
    requires pre.regs.Valid() && after.Valid() && pre.regs.r[0] != 1
    requires Record(pre.mem, accesses).Session?
    ensures var s := Record(pre.mem, accesses);
            Replay(pre, icnt, Transact(icnt, pre.regs, after, brk, s)) == Replayed(State(after, brk, s.mem))
            <==> OnlyOutputsChanged(pre.regs, after) && FaultsHarmless(pre.mem, accesses)
  {
    RecordingInvariant(pre.mem, accesses);
    var out := after.r[..22] + pre.regs.r[22..];
    assert out[22..] == pre.regs.r[22..];
    assert after.r == after.r[..22] + after.r[22..];
  }

  /** No program can tell the replayed call from the recorded one, if and only if the same holds
      with faulting writes that change no byte a program reads. */
  lemma ReplayLooksSameIff(pre: State, icnt: U64, accesses: seq<Access>, after: Regs, brk: Addr)
    requires pre.regs.Valid() && after.Valid() && pre.regs.r[0] != 1
    requires Record(pre.mem, accesses).Session?
    ensures var s := Record(pre.mem, accesses);
            var r := Replay(pre, icnt, Transact(icnt, pre.regs, after, brk, s));
            r.Replayed? && r.state.regs == after && r.state.brk == brk && Same(r.state.mem, s.mem)
            <==> && OnlyOutputsChanged(pre.regs, after) && BuffersHeld(pre.mem, accesses)
                 && Same(WriteLog(pre.mem, PutLog(accesses, true)), WriteLog(pre.mem, PutLog(accesses, false)))
  {
    RecordingInvariant(pre.mem, accesses);
    var out := after.r[..22] + pre.regs.r[22..];
    assert out[22..] == pre.regs.r[22..];
    assert after.r == after.r[..22] + after.r[22..];
  }

  /** Accesses that do not fault do no harm. */
  lemma NoFaultsHarmless(f: Flat, accesses: seq<Access>)
    requires forall i :: 0 <= i < |accesses| ==> !accesses[i].Faults()
    ensures FaultsHarmless(f, accesses)
  {
    SameLogs(accesses);
  }

  lemma {:induction false} SameLogs(accesses: seq<Access>)
    requires forall i :: 0 <= i < |accesses| ==> !accesses[i].Faults()
    ensures PutLog(accesses, true) == PutLog(accesses, false)
  {
    if accesses != [] { SameLogs(accesses[..|accesses| - 1]); }
  }

  lemma OneAccess(f: Flat, a: Access)
    ensures Record(f, [a]) == Step(Session(f, NOTHING, NOTHING, false), a)
    ensures PutLog([a], true) == if a.Put? then ByteLog(a.addr, a.data) else []
    ensures PutLog([a], false) == if a.Put? && !a.Faults() then ByteLog(a.addr, a.data) else []
  {
    assert [a][..0] == [] && [a][|[a]| - 1] == a;
  }

  /** A write that faults is recorded, not performed, and then replayed byte by byte, so that
      memory differs unless it held these bytes already. */
  lemma FaultingWriteDiverges(pre: State, icnt: U64, a: Access, i: nat)
    requires pre.regs.Valid() && pre.regs.r[0] != 1
    requires a.Put? && a.Faults() && i < |a.data| <= 0x1_0000_0000_0000_0000
    requires Get(pre.mem, Plus(a.addr, i)) != a.data[i]
    ensures var s := Record(pre.mem, [a]);
            && s.Session? && s.mem == pre.mem
            && var r := Replay(pre, icnt, Transact(icnt, pre.regs, pre.regs, pre.brk, s));
               r.Replayed? && !Same(r.state.mem, s.mem)
  {
    FaultingPut(pre.mem, a);
    OutputsReplayed(pre, icnt, Record(pre.mem, [a]));
    WriteBytes(pre.mem, a.addr, a.data);
    StoreDiffers(pre.mem, a.addr, a.data, i);
  }

  lemma OutputsReplayed(pre: State, icnt: U64, s: Session)
    requires pre.regs.Valid() && pre.regs.r[0] != 1 && s.Session? && s.inputs.blobs == []
    ensures var r := Replay(pre, icnt, Transact(icnt, pre.regs, pre.regs, pre.brk, s));
            r.Replayed? && r.state.mem == WriteLog(pre.mem, FlatLog(s.outputs.blobs))
  {
  }

  lemma FaultingPut(f: Flat, a: Access)
    requires a.Put? && a.Faults()
    ensures var s := Record(f, [a]);
            s.Session? && s.mem == f && s.inputs.blobs == [] && FlatLog(s.outputs.blobs) == ByteLog(a.addr, a.data)
  {
    OneAccess(f, a);
    StepPut(Session(f, NOTHING, NOTHING, false), a);
    CoalescingIsExact(NOTHING, a.addr, a.data);
  }

  lemma StoreDiffers(f: Flat, addr: Addr, data: seq<Byte>, i: nat)
    requires i < |data| <= 0x1_0000_0000_0000_0000 && Get(f, Plus(addr, i)) != data[i]
    ensures !Same(Store(f, addr, data), f)
  {
    StoreAt(f, addr, data, Plus(addr, i));
    PlusDistance(addr, Plus(addr, i), i);
  }

  /** A read that faults leaves its buffer alone; the buffer is recorded as an input all the
      same, and replay stops at a byte that memory does not hold. */
  lemma FaultingReadDiverges(pre: State, icnt: U64, a: Access)
    requires pre.regs.Valid() && pre.regs.r[0] != 1
    requires a.Fetch? && a.Faults() && Load(pre.mem, a.addr, |a.buf|) != a.buf
    ensures var s := Record(pre.mem, [a]);
            && s.Session? && s.mem == pre.mem
            && Replay(pre, icnt, Transact(icnt, pre.regs, pre.regs, pre.brk, s)) == Inconsistent
  {
    OneAccess(pre.mem, a);
    RecordingInvariant(pre.mem, [a]);
    assert !BufferHeld(pre.mem, [a][0]);
  }

  // ------------------------------------------------------ replay from whatever state

  /** Memory `g` holds what the reads of a call made in memory `f` recorded. */
  predicate ReadsHeld(g: Flat, f: Flat, accesses: seq<Access>) {
    forall i :: 0 <= i < |accesses| ==> ReadHeld(g, f, accesses[i])
  }

  predicate ReadHeld(g: Flat, f: Flat, a: Access) {
    a.Fetch? ==> Load(g, a.addr, |a.buf|) == Seen(f, a)
  }

  lemma ReadsStep(g: Flat, f: Flat, before: seq<Access>, a: Access)
    ensures ReadsHeld(g, f, before + [a]) <==> ReadsHeld(g, f, before) && ReadHeld(g, f, a)
  {
    assert forall i :: 0 <= i < |before| ==> (before + [a])[i] == before[i];
    assert (before + [a])[|before|] == a;
  }

  lemma SeenHeld(g: Flat, f: Flat, rec: Recording, a: Access)
    requires a.Fetch?
    ensures Matches(g, FlatLog(rec.Add(a.addr, Seen(f, a)).blobs)) <==> Matches(g, FlatLog(rec.blobs)) && ReadHeld(g, f, a)
  {
    CoalescingIsExact(rec, a.addr, Seen(f, a));
    MatchesAppend(g, FlatLog(rec.blobs), ByteLog(a.addr, Seen(f, a)));
    BytesMatch(g, a.addr, Seen(f, a));
  }

  /** One access more: a read comes before any write, so it sees the memory at the start. */
  lemma InputsStep(g: Flat, f: Flat, s: Session, before: seq<Access>, a: Access)
    requires s.Session? && Step(s, a).Session? && (!s.seenWrite ==> s.mem == f)
    requires Matches(g, FlatLog(s.inputs.blobs)) <==> ReadsHeld(g, f, before)
    ensures Matches(g, FlatLog(Step(s, a).inputs.blobs)) <==> ReadsHeld(g, f, before + [a])
  {
    ReadsStep(g, f, before, a);
    if a.Fetch? {
      StepFetch(s, a);
      SeenHeld(g, f, s.inputs, a);
    } else {
      StepPut(s, a);
    }
  }

  lemma {:induction false} InputsRecorded(g: Flat, f: Flat, accesses: seq<Access>)
    requires Record(f, accesses).Session?
    ensures Matches(g, FlatLog(Record(f, accesses).inputs.blobs)) <==> ReadsHeld(g, f, accesses)
  {
    if accesses != [] {
      var n := |accesses| - 1;
      Snoc(accesses);
      InputsRecorded(g, f, accesses[..n]);
      RecordingInvariant(f, accesses[..n]);
      InputsStep(g, f, Record(f, accesses[..n]), accesses[..n], accesses[n]);
    }
  }

  /** Only an exit is run for real.  Any other call, recorded in state `u` and replayed in whatever state
      `v`, passes the checks if and only if `v` has the recorded instruction count, the PC found behind
      the call, the first 22 registers of `u`, and in memory all that the call's reads recorded. */
  lemma ReplayChecksIff(u: State, c: Call, v: State, icnt: U64)
    requires u.regs.Valid() && c.after.Valid() && v.regs.Valid() && Record(u.mem, c.accesses).Session?
    ensures var r := Replay(v, icnt, Transact(c.icnt, u.regs, c.after, c.brk, Record(u.mem, c.accesses)));
            && (r == Exits <==> v.regs.r[0] == 1)
            && (r.Replayed? <==>
                && v.regs.r[0] != 1 && icnt == c.icnt && v.regs.pc == c.after.pc
                && (forall i :: 0 <= i < 22 ==> v.regs.r[i] == u.regs.r[i])
                && ReadsHeld(v.mem, u.mem, c.accesses))
  {
    InputsRecorded(v.mem, u.mem, c.accesses);
    FirstRegs(u.regs.r, v.regs.r);
  }

  lemma FirstRegs(x: seq<U64>, y: seq<U64>)
    requires |x| == |y| == 32
    ensures x[..22] == y[..22] <==> forall i :: 0 <= i < 22 ==> y[i] == x[i]
  {
    if x[..22] == y[..22] {
      forall i | 0 <= i < 22 ensures y[i] == x[i] { assert x[..22][i] == y[..22][i]; }
    }
  }

  /** ... and then it leaves the first 22 registers and the break point as the call did, every other
      register as it was in `v`, and in memory all that the call wrote or tried to write. */
  lemma ReplayEffect(u: State, c: Call, v: State, icnt: U64)
    requires u.regs.Valid() && c.after.Valid() && v.regs.Valid() && Record(u.mem, c.accesses).Session?
    requires Replay(v, icnt, Transact(c.icnt, u.regs, c.after, c.brk, Record(u.mem, c.accesses))).Replayed?
    ensures var t := Replay(v, icnt, Transact(c.icnt, u.regs, c.after, c.brk, Record(u.mem, c.accesses))).state;
            && |t.regs.r| == 32 && (forall i :: 0 <= i < 32 ==> t.regs.r[i] == if i < 22 then c.after.r[i] else v.regs.r[i])
            && t.regs.f == v.regs.f && t.regs.fpcr == v.regs.fpcr && t.regs.uniq == v.regs.uniq
            && t.regs.pc == v.regs.pc && t.regs.npc == v.regs.npc
            && t.brk == c.brk && t.mem == WriteLog(v.mem, PutLog(c.accesses, true))
  {
    RecordingInvariant(u.mem, c.accesses);
  }

  ghost predicate HasPut(accesses: seq<Access>) { exists i :: 0 <= i < |accesses| && accesses[i].Put? }

  ghost predicate ReadsFirst(accesses: seq<Access>) {
    forall i, j :: 0 <= i < j < |accesses| ==> !(accesses[i].Put? && accesses[j].Fetch?)
  }

  lemma OneAccessMore(before: seq<Access>, a: Access)
    ensures HasPut(before + [a]) <==> HasPut(before) || a.Put?
    ensures ReadsFirst(before + [a]) <==> ReadsFirst(before) && !(a.Fetch? && HasPut(before))
  {
    var more := before + [a];
    assert more[|before|] == a && forall i :: 0 <= i < |before| ==> more[i] == before[i];
  }

  lemma StepSession(s: Session, a: Access)
    ensures Step(s, a).Session? <==> s.Session? && !(a.Fetch? && s.seenWrite)
    ensures Step(s, a).Session? ==> (Step(s, a).seenWrite <==> s.seenWrite || a.Put?)
  {
  }

  /** Exactly the calls that read nothing after a write can be recorded. */
  lemma {:induction false} RecordsIff(f: Flat, accesses: seq<Access>)
    ensures Record(f, accesses).Session? <==> ReadsFirst(accesses)
    ensures Record(f, accesses).Session? ==> (Record(f, accesses).seenWrite <==> HasPut(accesses))
  {
    if accesses != [] {
      var n := |accesses| - 1;
      RecordsIff(f, accesses[..n]);
      StepSession(Record(f, accesses[..n]), accesses[n]);
      OneAccessMore(accesses[..n], accesses[n]);
      Snoc(accesses);
    }
  }

  // ------------------------------------------------------------------ how blobs are merged

  /** Byte writes at consecutive addresses, the first `n`. */
  function ByteWrites(rec: Recording, addr: Addr, data: seq<Byte>): Recording {
    if data == [] then rec
    else ByteWrites(rec, addr, data[..|data| - 1]).Add(Plus(addr, |data| - 1), [data[|data| - 1]])
  }

  /** Up to 256 of them make one blob. */
  lemma {:induction false} BytesMerge(addr: Addr, data: seq<Byte>)
    requires 0 < |data| <= 256
    ensures ByteWrites(NOTHING, addr, data) == Recording([MemBlob(addr, data)], 257)
  {
    var n := |data| - 1;
    if n == 0 {
      assert data == [data[0]] && data[..0] == [];
    } else {
      BytesMerge(addr, data[..n]);
      Snoc(data);
    }
  }

  /** The next one begins another. */
  lemma BytesSplit(addr: Addr, data: seq<Byte>)
    requires |data| == 257
    ensures ByteWrites(NOTHING, addr, data).blobs == [MemBlob(addr, data[..256]), MemBlob(Plus(addr, 256), [data[256]])]
  {
    BytesMerge(addr, data[..256]);
  }

  // -------------------------------------------------------------------- whole runs

  /** One system call of a run: when it happens, what it accesses, what it returns. */
  datatype Call = Call(icnt: U64, accesses: seq<Access>, after: Regs, brk: Addr)

  /** The program between system calls: a function of the call's number and the state. */
  type Program = (nat, State) -> State

  /** A call that is no exit, with every read before the first write. */
  predicate Recordable(u: State, c: Call) {
    u.regs.Valid() && c.after.Valid() && u.regs.r[0] != 1 && Record(u.mem, c.accesses).Session?
  }

  /** A call a transaction can reproduce. */
  predicate Reproducible(u: State, c: Call) {
    Recordable(u, c) && OnlyOutputsChanged(u.regs, c.after) && FaultsHarmless(u.mem, c.accesses)
  }

  /** The run with every call executed for real, and the trace it leaves; `Broken` once a call can
      not be recorded. */
  datatype Run = Live(state: State, trace: seq<Transaction>) | Broken

  function RecordRun(s: State, calls: seq<Call>, user: Program): (r: Run)
    ensures r.Live? ==> |r.trace| == |calls|
  {
    if calls == [] then Live(s, [])
    else
      var n := |calls| - 1;
      var c := calls[n];
      match RecordRun(s, calls[..n], user)
      case Broken => Broken
      case Live(t, trace) =>
        var u := user(n, t);
        if !Recordable(u, c) then Broken
        else
          var session := Record(u.mem, c.accesses);
          Live(State(c.after, c.brk, session.mem), trace + [Transact(c.icnt, u.regs, c.after, c.brk, session)])
  }

  /** The run with every call replayed from the trace. */
  function ReplayRun(s: State, icnts: seq<U64>, trace: seq<Transaction>, user: Program): Replaying
    requires |icnts| == |trace|
  {
    if trace == [] then Replayed(s)
    else
      var n := |trace| - 1;
      match ReplayRun(s, icnts[..n], trace[..n], user)
      case Replayed(t) => if user(n, t).regs.Valid() then Replay(user(n, t), icnts[n], trace[n]) else Inconsistent
      case other => other
  }

  /** Every call of a run is one a transaction can reproduce. */
  predicate AllReproducible(s: State, calls: seq<Call>, user: Program) {
    if calls == [] then true
    else
      var n := |calls| - 1;
      && AllReproducible(s, calls[..n], user)
      && (match RecordRun(s, calls[..n], user)
          case Broken => false
          case Live(t, _) => Reproducible(user(n, t), calls[n]))
  }

  /** Behind every call, the replayed run is in the state of the recorded one. */
  predicate Follows(s: State, calls: seq<Call>, user: Program) {
    match RecordRun(s, calls, user)
    case Broken => false
    case Live(t, trace) =>
      ReplayRun(s, Icnts(calls), trace, user) == Replayed(t) && (calls == [] || Follows(s, calls[..|calls| - 1], user))
  }

  /** A run replayed from its own trace goes through every check and is in the same state behind
      every call, if and only if all its calls are reproducible. */
  lemma {:induction false} TraceReproducesRunIff(s: State, calls: seq<Call>, user: Program)
    requires RecordRun(s, calls, user).Live?
    ensures Follows(s, calls, user) <==> AllReproducible(s, calls, user)
  {
    if calls != [] {
      var before := calls[..|calls| - 1];
      TraceReproducesRunIff(s, before, user);
      if Follows(s, before, user) { LastCallReplays(s, calls, user); }
    }
  }

  lemma LastCallReplays(s: State, calls: seq<Call>, user: Program)
    requires RecordRun(s, calls, user).Live? && calls != []
    requires var n := |calls| - 1; var before := RecordRun(s, calls[..n], user);
             before.Live? && ReplayRun(s, Icnts(calls[..n]), before.trace, user) == Replayed(before.state)
    ensures var n := |calls| - 1;
            ReplayRun(s, Icnts(calls), RecordRun(s, calls, user).trace, user) == Replayed(RecordRun(s, calls, user).state)
            <==> Reproducible(user(n, RecordRun(s, calls[..n], user).state), calls[n])
  {
    var n := |calls| - 1;
    var c, before := calls[n], RecordRun(s, calls[..n], user);
    IcntsSnoc(calls);
    LastRecorded(s, calls, user);
    CallReplays(s, Icnts(calls[..n]), before.trace, user, before.state, c);
  }

  lemma IcntsSnoc(calls: seq<Call>)
    requires calls != []
    ensures Icnts(calls) == Icnts(calls[..|calls| - 1]) + [calls[|calls| - 1].icnt]
  {
  }

  lemma LastRecorded(s: State, calls: seq<Call>, user: Program)
    requires RecordRun(s, calls, user).Live? && calls != []
    ensures var c, before := calls[|calls| - 1], RecordRun(s, calls[..|calls| - 1], user);
            && before.Live? && Recordable(user(|before.trace|, before.state), c)
            && var u := user(|before.trace|, before.state);
               var session := Record(u.mem, c.accesses);
               RecordRun(s, calls, user) == Live(State(c.after, c.brk, session.mem),
                                                 before.trace + [Transact(c.icnt, u.regs, c.after, c.brk, session)])
  {
  }

  lemma CallReplays(s: State, icnts: seq<U64>, trace: seq<Transaction>, user: Program, t: State, c: Call)
    requires |icnts| == |trace| && ReplayRun(s, icnts, trace, user) == Replayed(t) && Recordable(user(|trace|, t), c)
    ensures var u := user(|trace|, t);
            var session := Record(u.mem, c.accesses);
            var tx := Transact(c.icnt, u.regs, c.after, c.brk, session);
            ReplayRun(s, icnts + [c.icnt], trace + [tx], user) == Replayed(State(c.after, c.brk, session.mem))
            <==> Reproducible(u, c)
  {
    var u := user(|trace|, t);
    var tx := Transact(c.icnt, u.regs, c.after, c.brk, Record(u.mem, c.accesses));
    ReplayIff(u, c.icnt, c.accesses, c.after, c.brk);
    ReplayOneMore(s, icnts, c.icnt, trace, tx, user, t);
  }

  lemma ReplayOneMore(s: State, icnts: seq<U64>, icnt: U64, trace: seq<Transaction>, tx: Transaction, user: Program, t: State)
    requires |icnts| == |trace| && ReplayRun(s, icnts, trace, user) == Replayed(t) && user(|trace|, t).regs.Valid()
    ensures ReplayRun(s, icnts + [icnt], trace + [tx], user) == Replay(user(|trace|, t), icnt, tx)
  {
    assert (trace + [tx])[..|trace|] == trace && (icnts + [icnt])[..|icnts|] == icnts;
  }

  function Icnts(calls: seq<Call>): (r: seq<U64>)
    ensures |r| == |calls|
  {
    seq(|calls|, i requires 0 <= i < |calls| => calls[i].icnt)
  }
}
