/** Recording and replaying as they work: on a page table, registers and streams. */
module Eio {
  import opened Machine
  import opened Memory
  import opened Numbers
  import opened Exo
  import opened ExoRoundTrip
  import opened ExoStream
  import opened Trace
  import opened TraceText

  // ------------------------------------------------------------------- recording calls

  /** The tracing memory accessor and what it has recorded of the current call. */
  class Recorder {
    const mem: PageTable
    var inputs: Recording
    var outputs: Recording
    var seenWrite: bool

    constructor (mem: PageTable)
      requires mem.Valid()
      ensures this.mem == mem && Current() == Record(mem.flat, [])
    {
      this.mem, inputs, outputs, seenWrite := mem, NOTHING, NOTHING, false;
    }

    ghost function Current(): Session
      reads this, mem
    {
      Session(mem.flat, inputs, outputs, seenWrite)
    }

    /** Performs one access and records it; `ok` is false for the fatal read after a write.
        A read is performed first, so that its data can be recorded. */
    method MemFn(a: Access) returns (ok: bool, fault: Fault, buf: seq<Byte>)
      requires mem.Valid()
      modifies this, mem, mem.ptab, mem.nodes, mem.pages
      ensures mem.Valid() && mem.Grew()
      ensures Step(old(Current()), a) == if ok then Current() else Fatal
      ensures !ok ==> Current() == old(Current())
      ensures ok ==> fault == Check(a.Request())
      ensures ok && a.Fetch? ==> buf == if fault == NoFault then Load(old(mem.flat), a.addr, |a.buf|) else a.buf
    {
      ok, fault, buf := true, NoFault, [];
      match a
      case Fetch(addr, host) =>
        if seenWrite {
          return false, NoFault, host;
        }
        var r := mem.Access(a.Request());
        fault, buf := r.fault, if r.fault == NoFault then r.data else host;
        inputs := inputs.Add(addr, buf);
      case Put(addr, data) =>
        seenWrite := true;
        outputs := outputs.Add(addr, data);
        var r := mem.Access(a.Request());
        fault := r.fault;
    }

    /** A whole system call, seen as the accesses it makes. */
    method Call(accesses: seq<Access>) returns (ok: bool)
      requires mem.Valid() && Current() == Record(mem.flat, [])
      modifies this, mem, mem.ptab, mem.nodes, mem.pages
      ensures mem.Valid() && mem.Grew()
      ensures Record(old(mem.flat), accesses) == if ok then Current() else Fatal
    {
      var i := 0;
      while i < |accesses|
        invariant 0 <= i <= |accesses| && mem.Valid() && mem.Grew()
        invariant Current() == Record(old(mem.flat), accesses[..i])
      {
        var fault, buf;
        ok, fault, buf := MemFn(accesses[i]);
        i := i + 1;
        assert accesses[..i][..i - 1] == accesses[..i - 1];
        if !ok {
          FatalStays(old(mem.flat), accesses, i);
          return;
        }
      }
      assert accesses[..i] == accesses;
      ok := true;
    }
  }

  lemma {:induction false} FatalStays(f: Flat, accesses: seq<Access>, i: nat)
    requires i <= |accesses| && Record(f, accesses[..i]).Fatal?
    ensures Record(f, accesses).Fatal?
  {
    if i == |accesses| {
      assert accesses[..i] == accesses;
    } else {
      assert accesses[..|accesses| - 1][..i] == accesses[..i];
      FatalStays(f, accesses[..|accesses| - 1], i);
    }
  }

  // ------------------------------------------------------------------- replaying calls

  /** A blob matches memory when each of its bytes does. */
  lemma BytesAgree(f: Flat, addr: Addr, data: seq<Byte>)
    requires Agree(f, addr, data, |data|)
    ensures Matches(f, ByteLog(addr, data))
  {
    forall i | 0 <= i < |data| ensures Load(f, addr, |data|)[i] == data[i] {
      LoadAt(f, addr, |data|, i);
    }
    BytesMatch(f, addr, data);
  }

  lemma ByteDiffers(f: Flat, addr: Addr, data: seq<Byte>, i: nat)
    requires i < |data| && Get(f, Plus(addr, i)) != data[i]
    ensures !Matches(f, ByteLog(addr, data))
  {
    LoadAt(f, addr, |data|, i);
    BytesMatch(f, addr, data);
  }

  /** Memory has the first `n` bytes of `data`. */
  predicate Agree(f: Flat, addr: Addr, data: seq<Byte>, n: nat)
    requires n <= |data|
  {
    forall k :: 0 <= k < n ==> Get(f, Plus(addr, k)) == data[k]
  }

  lemma FlattenStep(blobs: seq<MemBlob>, i: nat)
    requires i < |blobs|
    ensures FlatLog(blobs[..i + 1]) == FlatLog(blobs[..i]) + ByteLog(blobs[i].addr, blobs[i].data)
  {
    assert blobs[..i + 1][..i] == blobs[..i];
  }

  lemma {:induction false} MatchesPrefix(f: Flat, blobs: seq<MemBlob>, i: nat)
    requires i <= |blobs| && Matches(f, FlatLog(blobs))
    ensures Matches(f, FlatLog(blobs[..i]))
    decreases |blobs| - i
  {
    if i == |blobs| {
      assert blobs[..i] == blobs;
    } else {
      MatchesPrefix(f, blobs, i + 1);
      FlattenStep(blobs, i);
      MatchesAppend(f, FlatLog(blobs[..i]), ByteLog(blobs[i].addr, blobs[i].data));
    }
  }

  /** After the first `i` blobs, the next one is found to match or not. */
  lemma BlobChecked(f: Flat, blobs: seq<MemBlob>, i: nat, ok: bool)
    requires i < |blobs| && Matches(f, FlatLog(blobs[..i])) && ok == Matches(f, ByteLog(blobs[i].addr, blobs[i].data))
    ensures ok ==> Matches(f, FlatLog(blobs[..i + 1]))
    ensures !ok ==> !Matches(f, FlatLog(blobs))
  {
    FlattenStep(blobs, i);
    MatchesAppend(f, FlatLog(blobs[..i]), ByteLog(blobs[i].addr, blobs[i].data));
    if Matches(f, FlatLog(blobs)) { MatchesPrefix(f, blobs, i + 1); }
  }

  /** The machine a trace is replayed on. */
  class Cpu {
    const mem: PageTable
    const r: array<U64>
    var rest: Regs
    var brk: Addr

    ghost predicate Valid()
      reads this, r, mem, mem.ptab, mem.nodes, mem.pages
    {
      mem.Valid() && r.Length == 32 && |rest.f| == 32
    }

    /** The registers: the integer ones are in the array. */
    ghost function Regs(): Regs
      reads this, r
    {
      rest.(r := r[..])
    }

    ghost function State(): State
      reads this, r, mem
    {
      Trace.State(Regs(), brk, mem.flat)
    }

    constructor (mem: PageTable, regs: Regs, brk: Addr)
      requires mem.Valid() && regs.Valid()
      ensures Valid() && this.mem == mem && fresh(r) && State() == Trace.State(regs, brk, mem.flat)
    {
      this.mem, rest, this.brk := mem, regs, brk;
      r := new U64[32](i requires 0 <= i < 32 => regs.r[i]);
      new;
      assert r[..] == regs.r;
    }

    /** A checked access that fetches one byte. */
    method Fetch1(a: Addr) returns (val: Byte)
      requires mem.Valid()
      modifies mem, mem.ptab, mem.nodes, mem.pages
      ensures mem.Valid() && mem.Grew() && mem.flat == old(mem.flat) && val == Get(mem.flat, a)
    {
      var reply := mem.Access(Read(a, 1));
      assert reply.data == Load(mem.flat, a, 1) == [Get(mem.flat, a)];
      val := reply.data[0];
    }

    /** Checks one input blob, byte by byte. */
    method CheckBlob(b: MemBlob) returns (ok: bool)
      requires mem.Valid()
      modifies mem, mem.ptab, mem.nodes, mem.pages
      ensures mem.Valid() && mem.Grew() && mem.flat == old(mem.flat)
      ensures ok <==> Matches(mem.flat, ByteLog(b.addr, b.data))
    {
      ok := true;
      var i := 0;
      while i < |b.data| && ok
        invariant 0 <= i <= |b.data| && mem.Valid() && mem.Grew() && mem.flat == old(mem.flat)
        invariant if ok then Agree(mem.flat, b.addr, b.data, i) else !Matches(mem.flat, ByteLog(b.addr, b.data))
        decreases |b.data| - i, ok
      {
        ok := CheckByte(b, i);
        if ok {
          i := i + 1;
        }
      }
      if ok {
        BytesAgree(mem.flat, b.addr, b.data);
      }
    }

    method CheckByte(b: MemBlob, i: nat) returns (ok: bool)
      requires mem.Valid() && i < |b.data| && Agree(mem.flat, b.addr, b.data, i)
      modifies mem, mem.ptab, mem.nodes, mem.pages
      ensures mem.Valid() && mem.Grew() && mem.flat == old(mem.flat)
      ensures if ok then Agree(mem.flat, b.addr, b.data, i + 1) else !Matches(mem.flat, ByteLog(b.addr, b.data))
    {
      var val := Fetch1(Plus(b.addr, i));
      ok := val == b.data[i];
      if !ok {
        ByteDiffers(mem.flat, b.addr, b.data, i);
      }
    }

    method CheckInputs(blobs: seq<MemBlob>) returns (ok: bool)
      requires mem.Valid()
      modifies mem, mem.ptab, mem.nodes, mem.pages
      ensures mem.Valid() && mem.Grew() && mem.flat == old(mem.flat)
      ensures ok <==> Matches(mem.flat, FlatLog(blobs))
    {
      var i := 0;
      while i < |blobs|
        invariant 0 <= i <= |blobs| && mem.Valid() && mem.Grew() && mem.flat == old(mem.flat)
        invariant Matches(mem.flat, FlatLog(blobs[..i]))
      {
        ok := CheckBlob(blobs[i]);
        BlobChecked(mem.flat, blobs, i, ok);
        if !ok {
          return;
        }
        i := i + 1;
      }
      assert blobs[..i] == blobs;
      return true;
    }

    method WriteBlob(b: MemBlob)
      requires mem.Valid()
      modifies mem, mem.ptab, mem.nodes, mem.pages
      ensures mem.Valid() && mem.Grew() && mem.flat == WriteLog(old(mem.flat), ByteLog(b.addr, b.data))
    {
      var i := 0;
      while i < |b.data|
        invariant 0 <= i <= |b.data| && mem.Valid() && mem.Grew()
        invariant mem.flat == Store(old(mem.flat), b.addr, b.data[..i])
      {
        var reply := mem.Access(Write(Plus(b.addr, i), [b.data[i]]));
        StoreAppend(old(mem.flat), b.addr, b.data[..i], [b.data[i]]);
        i := i + 1;
        assert b.data[..i] == b.data[..i - 1] + [b.data[i - 1]];
      }
      assert b.data[..i] == b.data;
      WriteBytes(old(mem.flat), b.addr, b.data);
    }

    method WriteOutputs(blobs: seq<MemBlob>)
      requires mem.Valid()
      modifies mem, mem.ptab, mem.nodes, mem.pages
      ensures mem.Valid() && mem.Grew() && mem.flat == WriteLog(old(mem.flat), FlatLog(blobs))
    {
      var i := 0;
      while i < |blobs|
        invariant 0 <= i <= |blobs| && mem.Valid() && mem.Grew()
        invariant mem.flat == WriteLog(old(mem.flat), FlatLog(blobs[..i]))
      {
        WriteBlob(blobs[i]);
        FlattenStep(blobs, i);
        WriteLogAppend(old(mem.flat), FlatLog(blobs[..i]), ByteLog(blobs[i].addr, blobs[i].data));
        i := i + 1;
      }
      assert blobs[..i] == blobs;
    }

    method CheckRegs(ins: seq<U64>) returns (ok: bool)
      requires r.Length == 32
      ensures ok <==> ins == r[..22]
    {
      var i := 0;
      while i < 22
        invariant 0 <= i <= 22 && i <= |ins|
        invariant forall k :: 0 <= k < i ==> ins[k] == r[k]
      {
        if i == |ins| || ins[i] != r[i] {
          assert r[..22][i] == r[i];
          return false;
        }
        i := i + 1;
      }
      return |ins| == 22;
    }

    /** Too few or too many output registers are found out while writing them. */
    method WriteRegs(outs: seq<U64>) returns (ok: bool)
      requires r.Length == 32
      modifies r
      ensures ok <==> |outs| == 22
      ensures ok ==> r[..] == outs + old(r[22..])
    {
      var i := 0;
      while i < 22
        invariant 0 <= i <= 22 && i <= |outs|
        invariant forall k :: 0 <= k < 32 ==> r[k] == if k < i then outs[k] else old(r[k])
      {
        if i == |outs| {
          return false;
        }
        r[i] := outs[i];
        i := i + 1;
      }
      return |outs| == 22;
    }

    /** All of a transaction's inputs: time, place, registers and memory. */
    method Check(icnt: U64, tx: Transaction) returns (ok: bool)
      requires Valid()
      modifies mem, mem.ptab, mem.nodes, mem.pages
      ensures Valid() && mem.Grew() && mem.flat == old(mem.flat)
      ensures ok <==> icnt == tx.icnt && rest.pc == tx.pc && tx.inRegs == r[..22] && Matches(mem.flat, FlatLog(tx.inputs))
    {
      ok := false;
      if icnt == tx.icnt && rest.pc == tx.pc {
        ok := CheckRegs(tx.inRegs);
        if ok {
          ok := CheckInputs(tx.inputs);
        }
      }
    }

    /** The break point and the output registers. */
    method ApplyRegs(tx: Transaction) returns (ok: bool)
      requires Valid()
      modifies this`brk, r
      ensures Valid() && (ok <==> |tx.outRegs| == 22)
      ensures ok ==> brk == tx.brk && r[..] == tx.outRegs + old(r[22..])
    {
      brk := tx.brk;
      ok := WriteRegs(tx.outRegs);
    }

    /** Replays a transaction, unless the call is an exit; `ok` is false where the source stops
        with a trace inconsistency. */
    method Replay(icnt: U64, tx: Transaction) returns (ok: bool, exits: bool)
      requires Valid()
      modifies this`brk, r, mem, mem.ptab, mem.nodes, mem.pages
      ensures Valid() && mem.Grew()
      ensures Trace.Replay(old(State()), icnt, tx) == if exits then Exits else if ok then Replayed(State()) else Inconsistent
      ensures !ok ==> mem.flat == old(mem.flat)
    {
      exits := r[0] == 1;
      if exits {
        return false, true;
      }
      ok := Check(icnt, tx);
      if ok {
        ok := ApplyRegs(tx);
      }
      if ok {
        WriteOutputs(tx.outputs);
      }
    }

    /** What a system call leaves in the registers and the break point. */
    method Return(after: Regs, brk: Addr)
      requires Valid() && after.Valid()
      modifies this`rest, this`brk, r
      ensures Valid() && Regs() == after && this.brk == brk
    {
      forall i | 0 <= i < 32 {
        r[i] := after.r[i];
      }
      rest, this.brk := after, brk;
      assert r[..] == after.r;
    }

    /** The inputs of a call are taken before it runs, its outputs behind it; the transaction goes to
        the trace.  `ok` is false for a read after a write. */
    method WriteTrace(out: Output, c: Call) returns (ok: bool)
      requires Valid() && c.after.Valid()
      modifies this`rest, this`brk, r, mem, mem.ptab, mem.nodes, mem.pages, out
      ensures Valid() && mem.Grew()
      ensures ok <==> Record(old(mem.flat), c.accesses).Session?
      ensures ok ==>
        var s := Record(old(mem.flat), c.accesses);
        && State() == Trace.State(c.after, c.brk, s.mem)
        && out.text == old(out.text) + StreamOn(Items([Transact(c.icnt, old(Regs()), c.after, c.brk, s)]), "")
    {
      var ins := r[..22];
      var inputs, outputs;
      ok, inputs, outputs := Perform(c.accesses);
      if ok {
        Return(c.after, c.brk);
        Emit(out, Transaction(c.icnt, rest.pc, ins, inputs, brk, r[..22], outputs));
      }
    }

    /** The accesses of a call, made through a recorder. */
    method Perform(accesses: seq<Access>) returns (ok: bool, inputs: seq<MemBlob>, outputs: seq<MemBlob>)
      requires mem.Valid()
      modifies mem, mem.ptab, mem.nodes, mem.pages
      ensures mem.Valid() && mem.Grew()
      ensures ok <==> Record(old(mem.flat), accesses).Session?
      ensures ok ==> var s := Record(old(mem.flat), accesses);
                     s.mem == mem.flat && s.inputs.blobs == inputs && s.outputs.blobs == outputs
    {
      var rec := new Recorder(mem);
      ok := rec.Call(accesses);
      inputs, outputs := rec.inputs.blobs, rec.outputs.blobs;
    }

    /** One term of the trace; an exit is run for real, and nothing is read. */
    method ReadTrace(input: Input, icnt: U64) returns (ok: bool, exits: bool)
      requires Valid() && input.mode == Initial
      modifies this`brk, r, mem, mem.ptab, mem.nodes, mem.pages, input
      ensures Valid() && mem.Grew()
      ensures ReplayText(old(State()), icnt, old(input.text)).0 == if exits then Exits else if ok then Replayed(State()) else Inconsistent
      ensures ok || exits ==> ReplayText(old(State()), icnt, old(input.text)).1 == input.text && input.mode == Initial
    {
      ok, exits := false, r[0] == 1;
      if !exits {
        var t := input.Read();
        if t.Parsed? && Decode(t.term).Some? {
          ListKeepsMode(old(input.text), Initial);
          ok, exits := Replay(icnt, Decode(t.term).value);
        }
      }
    }
  }

  method Emit(out: Output, tx: Transaction)
    modifies out
    ensures out.text == old(out.text) + StreamOn(Items([tx]), "")
  {
    var t := Encode(tx);
    out.Print(t);
    out.text := out.text + "\n\n";
    OneItem(tx);
  }

  lemma OneItem(tx: Transaction)
    ensures StreamOn(Items([tx]), "") == Exo.Print(Encode(tx)) + "\n\n"
  {
    assert Items([tx])[1..] == [] && Blank("") == "\n\n";
    PrintThen(Encode(tx), "\n\n");
  }
}
