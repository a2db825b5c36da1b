/** Transactions as EXO terms and as text: what actually goes through an EIO file. */
module TraceText {
  import opened Basics
  import opened Machine
  import opened Numbers
  import opened Exo
  import opened ExoRoundTrip
  import opened Trace

  // ------------------------------------------------------------------------- encoding

  function Addresses(vs: seq<U64>): (r: seq<Term>)
    ensures |r| == |vs| && forall i :: 0 <= i < |vs| ==> r[i] == Address(vs[i])
  {
    seq(|vs|, i requires 0 <= i < |vs| => Address(vs[i]))
  }

  function BlobTerms(blobs: seq<MemBlob>): (r: seq<Term>)
    ensures |r| == |blobs| && forall i :: 0 <= i < |blobs| ==> r[i] == List([Address(blobs[i].addr), Blob(blobs[i].data)])
  {
    seq(|blobs|, i requires 0 <= i < |blobs| => List([Address(blobs[i].addr), Blob(blobs[i].data)]))
  }

  function Encode(tx: Transaction): Term {
    List([Integer(tx.icnt), Address(tx.pc),
          List(Addresses(tx.inRegs)), List(BlobTerms(tx.inputs)),
          List([Address(tx.brk)] + Addresses(tx.outRegs)), List(BlobTerms(tx.outputs))])
  }

  // ------------------------------------------------------------------------- decoding

  /** The values of a list of addresses, if that is what it is. */
  function AddressValues(ts: seq<Term>): Option<seq<U64>> {
    if forall i :: 0 <= i < |ts| ==> ts[i].Address?
    then Some(seq(|ts|, i requires 0 <= i < |ts| => ts[i].v)) else None
  }

  predicate IsMemRecord(t: Term) {
    t.List? && |t.elts| == 2 && t.elts[0].Address? && t.elts[1].Blob?
  }

  function MemRecords(ts: seq<Term>): Option<seq<MemBlob>> {
    if forall i :: 0 <= i < |ts| ==> IsMemRecord(ts[i])
    then Some(seq(|ts|, i requires 0 <= i < |ts| => MemBlob(ts[i].elts[0].v, ts[i].elts[1].data))) else None
  }

  /** Pulls a term apart; anything unexpected is an inconsistent trace. */
  function Decode(t: Term): Option<Transaction> {
    if !(t.List? && |t.elts| == 6 && t.elts[0].Integer? && t.elts[1].Address?
         && t.elts[2].List? && t.elts[3].List? && t.elts[4].List? && t.elts[5].List?) then None
    else
      match (AddressValues(t.elts[2].elts), MemRecords(t.elts[3].elts), AddressValues(t.elts[4].elts), MemRecords(t.elts[5].elts))
      case (Some(ins), Some(inputs), Some(outs), Some(outputs)) =>
        if |ins| == 22 && |outs| == 23
        then Some(Transaction(t.elts[0].v, t.elts[1].v, ins, inputs, outs[0], outs[1..], outputs)) else None
      case _ => None
  }

  lemma AddressesDecode(vs: seq<U64>)
    ensures AddressValues(Addresses(vs)) == Some(vs)
  {
    assert AddressValues(Addresses(vs)).value == vs;
  }

  lemma BlobsDecode(blobs: seq<MemBlob>)
    ensures MemRecords(BlobTerms(blobs)) == Some(blobs)
  {
    var ts := BlobTerms(blobs);
    forall i | 0 <= i < |ts| ensures IsMemRecord(ts[i]) && MemBlob(ts[i].elts[0].v, ts[i].elts[1].data) == blobs[i] {
    }
    assert MemRecords(ts).value == blobs;
  }

  lemma DecodeEncode(tx: Transaction)
    requires |tx.inRegs| == |tx.outRegs| == 22
    ensures Decode(Encode(tx)) == Some(tx)
  {
    AddressesDecode(tx.inRegs);
    AddressesDecode([tx.brk] + tx.outRegs);
    assert Addresses([tx.brk] + tx.outRegs) == [Address(tx.brk)] + Addresses(tx.outRegs);
    BlobsDecode(tx.inputs);
    BlobsDecode(tx.outputs);
    assert ([tx.brk] + tx.outRegs)[1..] == tx.outRegs;
  }

  /** Exactly the terms with these six parts, in this order, are transactions: the count, the PC, 22 registers,
      the memory read, the break with 22 registers, and the memory written. */
  lemma DecodesIff(t: Term, tx: Transaction)
    ensures Decode(t) == Some(tx) <==>
              && |tx.inRegs| == 22 && |tx.outRegs| == 22
              && t == List([Integer(tx.icnt), Address(tx.pc), List(Addresses(tx.inRegs)), List(BlobTerms(tx.inputs)),
                            List(Addresses([tx.brk] + tx.outRegs)), List(BlobTerms(tx.outputs))])
  {
    if |tx.inRegs| == 22 && |tx.outRegs| == 22 {
      DecodeEncode(tx);
      assert Addresses([tx.brk] + tx.outRegs) == [Address(tx.brk)] + Addresses(tx.outRegs);
    }
    if Decode(t) == Some(tx) {
      AddressesEncode(t.elts[2].elts);
      AddressesEncode(t.elts[4].elts);
      BlobsEncode(t.elts[3].elts);
      BlobsEncode(t.elts[5].elts);
      var outs := AddressValues(t.elts[4].elts).value;
      assert outs == [outs[0]] + outs[1..];
    }
  }

  lemma AddressesEncode(ts: seq<Term>)
    requires AddressValues(ts).Some?
    ensures Addresses(AddressValues(ts).value) == ts
  {
  }

  lemma BlobsEncode(ts: seq<Term>)
    requires MemRecords(ts).Some?
    ensures BlobTerms(MemRecords(ts).value) == ts
  {
    var r := BlobTerms(MemRecords(ts).value);
    forall i | 0 <= i < |ts| ensures r[i] == ts[i] {
      assert IsMemRecord(ts[i]);
      assert ts[i].elts == [ts[i].elts[0], ts[i].elts[1]];
    }
  }

  // ----------------------------------------------------------------------------- text

  ghost predicate SomeEmpty(blobs: seq<MemBlob>) {
    exists i :: 0 <= i < |blobs| && blobs[i].data == []
  }

  lemma BlobTermsBlobs(blobs: seq<MemBlob>)
    requires forall i :: 0 <= i < |blobs| ==> |blobs[i].data| < 0x8000_0000
    ensures Fits(List(BlobTerms(blobs)))
    ensures HasEmptyBlob(List(BlobTerms(blobs))) <==> SomeEmpty(blobs)
  {
    var ts := BlobTerms(blobs);
    forall i | 0 <= i < |ts| ensures Fits(ts[i]) && (HasEmptyBlob(ts[i]) <==> blobs[i].data == []) {
      var t := List([Address(blobs[i].addr), Blob(blobs[i].data)]);
      assert ts[i] == t && t.elts[1] == Blob(blobs[i].data);
      assert HasEmptyBlob(t) <==> HasEmptyBlob(t.elts[0]) || HasEmptyBlob(t.elts[1]);
    }
    if SomeEmpty(blobs) {
      var i :| 0 <= i < |blobs| && blobs[i].data == [];
      assert HasEmptyBlob(ts[i]);
    }
  }

  lemma AddressesPlain(ts: seq<Term>)
    requires forall i :: 0 <= i < |ts| ==> ts[i].Address?
    ensures Fits(List(ts)) && !HasEmptyBlob(List(ts))
  {
  }

  lemma EncodedBlobs(tx: Transaction)
    requires forall i :: 0 <= i < |tx.inputs| ==> |tx.inputs[i].data| < 0x8000_0000
    requires forall i :: 0 <= i < |tx.outputs| ==> |tx.outputs[i].data| < 0x8000_0000
    ensures Fits(Encode(tx)) && (HasEmptyBlob(Encode(tx)) <==> SomeEmpty(tx.inputs) || SomeEmpty(tx.outputs))
  {
    var es := Encode(tx).elts;
    AddressesPlain(es[2].elts);
    AddressesPlain(es[4].elts);
    BlobTermsBlobs(tx.inputs);
    BlobTermsBlobs(tx.outputs);
    assert forall i :: 0 <= i < 6 ==> Fits(es[i]);
    assert HasEmptyBlob(es[3]) ==> HasEmptyBlob(Encode(tx));
    assert HasEmptyBlob(es[5]) ==> HasEmptyBlob(Encode(tx));
  }

  /** Recorded sizes are C ints, with room for the tail of a blob. */
  predicate Sized(accesses: seq<Access>) {
    forall i :: 0 <= i < |accesses| ==> |accesses[i].Bytes()| + 256 < 0x8000_0000
  }

  /** A recorder's blobs stay small, and are not empty if no access is. */
  lemma {:induction false} RecordedBlobs(f: Flat, accesses: seq<Access>)
    requires Record(f, accesses).Session? && Sized(accesses)
    ensures var s := Record(f, accesses); WellSized(s.inputs) && WellSized(s.outputs)
    ensures (forall i :: 0 <= i < |accesses| ==> accesses[i].Bytes() != [])
            ==> var s := Record(f, accesses); !SomeEmpty(s.inputs.blobs) && !SomeEmpty(s.outputs.blobs)
  {
    if accesses != [] {
      var n := |accesses| - 1;
      RecordedBlobs(f, accesses[..n]);
      var s, a := Record(f, accesses[..n]), accesses[n];
      match a
      case Fetch(addr, buf) =>
        StepFetch(s, a);
        AddWellSized(s.inputs, addr, Seen(s.mem, a));
      case Put(addr, data) =>
        StepPut(s, a);
        AddWellSized(s.outputs, addr, data);
    }
  }

  ghost predicate WellSized(rec: Recording) {
    && rec.maxsize < 0x8000_0000
    && forall i :: 0 <= i < |rec.blobs| ==> |rec.blobs[i].data| < 0x8000_0000
  }

  lemma AddWellSized(rec: Recording, addr: Addr, data: seq<Byte>)
    requires WellSized(rec) && |data| + 256 < 0x8000_0000
    ensures WellSized(rec.Add(addr, data))
    ensures |data| > 0 && !SomeEmpty(rec.blobs) ==> !SomeEmpty(rec.Add(addr, data).blobs)
  {
  }

  /** What the trace reader does with a stream: exits run for real, else one term is read, pulled
      apart, checked and applied.  Nothing is said of a stream on which reading fails. */
  function ReplayText(s: State, icnt: U64, text: string): (Replaying, string)
    requires s.regs.Valid()
  {
    if s.regs.r[0] == 1 then (Exits, text)
    else
      match Exo.Read(text, Initial)
      case Ok(t, rest, _) =>
        (match Decode(t)
         case Some(tx) => (Replay(s, icnt, tx), rest)
         case None => (Inconsistent, rest))
      case _ => (Inconsistent, "")
  }

  /** The text of a term in the trace, read and applied: an empty blob in it can not be read. */
  lemma TermText(s: State, icnt: U64, t: Term, rest: string)
    requires s.regs.Valid() && s.regs.r[0] != 1 && Fits(t) && t.List?
    ensures !HasEmptyBlob(t) && Decode(t).Some?
            ==> ReplayText(s, icnt, PrintOn(t, rest)) == (Replay(s, icnt, Decode(t).value), rest)
    ensures HasEmptyBlob(t) ==> ReplayText(s, icnt, PrintOn(t, rest)).0 == Inconsistent
  {
    if HasEmptyBlob(t) {
      LeaksOrFails(t, rest);
    } else {
      ReadPrint(t, rest);
    }
  }

  /** The transaction has no empty blob.  It has none unless an access transfers no bytes: see
      `RecordedBlobs`. */
  ghost predicate Readable(tx: Transaction) {
    !SomeEmpty(tx.inputs) && !SomeEmpty(tx.outputs)
  }

  /** From call to file and back: the text a recorded call leaves in the trace, read with
      anything behind it, reproduces the call and leaves the stream behind the transaction, if
      and only if the call changed no register but the output registers, its faulting accesses
      do no harm, and no empty blob was recorded. */
  lemma TracedCallReplaysIff(pre: State, c: Call, rest: string)
    requires Recordable(pre, c) && Sized(c.accesses)
    ensures var s := Record(pre.mem, c.accesses);
            var tx := Transact(c.icnt, pre.regs, c.after, c.brk, s);
            ReplayText(pre, c.icnt, PrintOn(Encode(tx), rest)) == (Replayed(State(c.after, c.brk, s.mem)), rest)
            <==> OnlyOutputsChanged(pre.regs, c.after) && FaultsHarmless(pre.mem, c.accesses) && Readable(tx)
  {
    var s := Record(pre.mem, c.accesses);
    var tx := Transact(c.icnt, pre.regs, c.after, c.brk, s);
    RecordedBlobs(pre.mem, c.accesses);
    EncodedBlobs(tx);
    ReplayIff(pre, c.icnt, c.accesses, c.after, c.brk);
    DecodeEncode(tx);
    TermText(pre, c.icnt, Encode(tx), rest);
  }

  // ----------------------------------------------------------------------- whole files

  /** A trace as it stands in the file. */
  function Items(trace: seq<Transaction>): (items: seq<Item>)
    ensures |items| == |trace| && forall i :: 0 <= i < |trace| ==> items[i] == Item("", Encode(trace[i]))
  {
    seq(|trace|, i requires 0 <= i < |trace| => Item("", Encode(trace[i])))
  }

  /** What is left of the file behind its first `k` transactions. */
  function Remaining(trace: seq<Transaction>, k: nat, rest: string): string
    requires k <= |trace|
  {
    if k == 0 then StreamOn(Items(trace), rest) else Blank(StreamOn(Items(trace[k..]), rest))
  }

  /** The run with every call replayed from the file's text. */
  function ReplayFile(s: State, icnts: seq<U64>, text: string, user: Program): (Replaying, string) {
    if icnts == [] then (Replayed(s), text)
    else
      var n := |icnts| - 1;
      match ReplayFile(s, icnts[..n], text, user)
      case (Replayed(t), more) =>
        if user(n, t).regs.Valid() then ReplayText(user(n, t), icnts[n], more) else (Inconsistent, more)
      case other => other
  }

  /** Up to call `k`, the replayed run is in the state of the recorded one behind every call, and
      the file is read up to that call's transaction. */
  ghost predicate FollowsFile(s: State, calls: seq<Call>, k: nat, user: Program, rest: string)
    requires k <= |calls| && RecordRun(s, calls, user).Live?
  {
    var trace := RecordRun(s, calls, user).trace;
    && RecordRun(s, calls[..k], user).Live?
    && ReplayFile(s, Icnts(calls[..k]), Remaining(trace, 0, rest), user)
       == (Replayed(RecordRun(s, calls[..k], user).state), Remaining(trace, k, rest))
    && (k > 0 ==> FollowsFile(s, calls, k - 1, user, rest))
  }

  ghost predicate AllReadable(trace: seq<Transaction>, k: nat)
    requires k <= |trace|
  {
    forall i :: 0 <= i < k ==> Readable(trace[i])
  }

  /** Before the last call the run was recorded as it was. */
  lemma {:induction false} RunPrefix(s: State, calls: seq<Call>, k: nat, user: Program)
    requires k <= |calls| && RecordRun(s, calls, user).Live?
    ensures RecordRun(s, calls[..k], user).Live?
    ensures RecordRun(s, calls[..k], user).trace == RecordRun(s, calls, user).trace[..k]
    decreases |calls|
  {
    var trace := RecordRun(s, calls, user).trace;
    if k == |calls| {
      assert calls[..k] == calls && trace[..k] == trace;
    } else {
      var n := |calls| - 1;
      RunPrefix(s, calls[..n], k, user);
      assert calls[..n][..k] == calls[..k];
      assert trace[..n] == RecordRun(s, calls[..n], user).trace;
      assert trace[..n][..k] == trace[..k];
    }
  }

  /** The next transaction of the file, at whatever place the last one left. */
  lemma NextTransaction(u: State, icnt: U64, trace: seq<Transaction>, k: nat, rest: string)
    requires k < |trace| && u.regs.Valid() && u.regs.r[0] != 1
    ensures ReplayText(u, icnt, Remaining(trace, k, rest))
            == ReplayText(u, icnt, PrintOn(Encode(trace[k]), Remaining(trace, k + 1, rest)))
  {
    var here, own := StreamOn(Items(trace[k..]), rest), PrintOn(Encode(trace[k]), Remaining(trace, k + 1, rest));
    assert trace[0..] == trace;
    assert Items(trace[k..])[1..] == Items(trace[k + 1..]);
    assert here == own;
    BlankSkipped(here);
  }

  /** One more call recorded, and replayed. */
  lemma RecordStep(s: State, calls: seq<Call>, k: nat, user: Program) returns (u: State)
    requires k < |calls| && RecordRun(s, calls, user).Live?
    ensures RecordRun(s, calls[..k], user).Live? && u == user(k, RecordRun(s, calls[..k], user).state)
    ensures var c := calls[k];
            && Recordable(u, c)
            && RecordRun(s, calls, user).trace[k] == Transact(c.icnt, u.regs, c.after, c.brk, Record(u.mem, c.accesses))
            && RecordRun(s, calls[..k + 1], user).Live?
            && RecordRun(s, calls[..k + 1], user).state == State(c.after, c.brk, Record(u.mem, c.accesses).mem)
  {
    RunPrefix(s, calls, k, user);
    RunPrefix(s, calls, k + 1, user);
    var more, trace := calls[..k + 1], RecordRun(s, calls, user).trace;
    assert more[..k] == calls[..k] && more[k] == calls[k];
    assert trace[k] == trace[..k + 1][k];
    u := user(k, RecordRun(s, calls[..k], user).state);
  }

  lemma IcntsStep(calls: seq<Call>, k: nat)
    requires k < |calls|
    ensures Icnts(calls[..k + 1]) == Icnts(calls[..k]) + [calls[k].icnt]
  {
  }

  lemma FileSnoc(s: State, icnts: seq<U64>, icnt: U64, text: string, user: Program, t: State, more: string)
    requires ReplayFile(s, icnts, text, user) == (Replayed(t), more) && user(|icnts|, t).regs.Valid()
    ensures ReplayFile(s, icnts + [icnt], text, user) == ReplayText(user(|icnts|, t), icnt, more)
  {
    assert (icnts + [icnt])[..|icnts|] == icnts;
  }

  lemma FollowsStep(s: State, calls: seq<Call>, k: nat, user: Program, rest: string)
    requires k < |calls| && RecordRun(s, calls, user).Live? && FollowsFile(s, calls, k, user, rest)
    requires Sized(calls[k].accesses)
    ensures FollowsFile(s, calls, k + 1, user, rest)
            <==> Reproducible(user(k, RecordRun(s, calls[..k], user).state), calls[k]) && Readable(RecordRun(s, calls, user).trace[k])
  {
    var trace, c := RecordRun(s, calls, user).trace, calls[k];
    var u := RecordStep(s, calls, k, user);
    IcntsStep(calls, k);
    FileSnoc(s, Icnts(calls[..k]), c.icnt, Remaining(trace, 0, rest), user, RecordRun(s, calls[..k], user).state, Remaining(trace, k, rest));
    NextTransaction(u, c.icnt, trace, k, rest);
    TracedCallReplaysIff(u, c, Remaining(trace, k + 1, rest));
  }

  /** Two properties that hold at 0 and go on under the same condition. */
  lemma {:induction false} InStep(p: nat -> bool, q: nat -> bool, n: nat)
    requires p(0) && q(0)
    requires forall k: nat :: k < n && p(k) && q(k) ==> (p(k + 1) <==> q(k + 1))
    requires forall k: nat :: k < n && !p(k) ==> !p(k + 1)
    requires forall k: nat :: k < n && !q(k) ==> !q(k + 1)
    ensures p(n) <==> q(n)
  {
    if n > 0 {
      InStep(p, q, n - 1);
      assert p(n - 1 + 1) == p(n);
    }
  }

  ghost predicate AllFaithful(s: State, calls: seq<Call>, k: nat, user: Program)
    requires k <= |calls| && RecordRun(s, calls, user).Live?
  {
    AllReproducible(s, calls[..k], user) && AllReadable(RecordRun(s, calls, user).trace, k)
  }

  /** Faithful one call further. */
  lemma NextFaithful(s: State, calls: seq<Call>, k: nat, user: Program)
    requires k < |calls| && RecordRun(s, calls, user).Live?
    ensures RecordRun(s, calls[..k], user).Live?
    ensures AllFaithful(s, calls, k + 1, user)
            <==> && AllFaithful(s, calls, k, user)
                 && Reproducible(user(k, RecordRun(s, calls[..k], user).state), calls[k])
                 && Readable(RecordRun(s, calls, user).trace[k])
  {
    ReproducibleStep(s, calls, k, user);
  }

  lemma NextFollows(s: State, calls: seq<Call>, k: nat, user: Program, rest: string)
    requires k < |calls| && RecordRun(s, calls, user).Live? && Sized(calls[k].accesses)
    ensures RecordRun(s, calls[..k], user).Live?
    ensures FollowsFile(s, calls, k + 1, user, rest)
            <==> && FollowsFile(s, calls, k, user, rest)
                 && Reproducible(user(k, RecordRun(s, calls[..k], user).state), calls[k])
                 && Readable(RecordRun(s, calls, user).trace[k])
  {
    RunPrefix(s, calls, k, user);
    if FollowsFile(s, calls, k, user, rest) { FollowsStep(s, calls, k, user, rest); }
  }

  lemma FollowsNone(s: State, calls: seq<Call>, user: Program, rest: string)
    requires RecordRun(s, calls, user).Live?
    ensures FollowsFile(s, calls, 0, user, rest) && AllReproducible(s, calls[..0], user)
  {
    assert calls[..0] == [] && Icnts(calls[..0]) == [];
  }

  lemma ReproducibleStep(s: State, calls: seq<Call>, k: nat, user: Program)
    requires k < |calls| && RecordRun(s, calls, user).Live?
    ensures RecordRun(s, calls[..k], user).Live?
    ensures AllReproducible(s, calls[..k + 1], user)
            <==> AllReproducible(s, calls[..k], user) && Reproducible(user(k, RecordRun(s, calls[..k], user).state), calls[k])
  {
    RunPrefix(s, calls, k, user);
    assert calls[..k + 1][..k] == calls[..k];
  }

  /** A whole run replayed from the text of its own trace file: behind every call the replayed run
      is in the state of the recorded one, and the file is read up to there, if and only if every
      call is reproducible and no empty blob was recorded. */
  lemma FileReproducesRunIff(s: State, calls: seq<Call>, user: Program, rest: string)
    requires RecordRun(s, calls, user).Live?
    requires forall i :: 0 <= i < |calls| ==> Sized(calls[i].accesses)
    ensures FollowsFile(s, calls, |calls|, user, rest)
            <==> AllReproducible(s, calls, user) && AllReadable(RecordRun(s, calls, user).trace, |calls|)
  {
    var p := (k: nat) => k <= |calls| && FollowsFile(s, calls, k, user, rest);
    var q := (k: nat) => k <= |calls| && AllFaithful(s, calls, k, user);
    forall k: nat | k < |calls| ensures p(k) && q(k) ==> (p(k + 1) <==> q(k + 1)) ensures !p(k) ==> !p(k + 1) ensures !q(k) ==> !q(k + 1) {
      NextFollows(s, calls, k, user, rest);
      NextFaithful(s, calls, k, user);
    }
    FollowsNone(s, calls, user, rest);
    InStep(p, q, |calls|);
    assert calls[..|calls|] == calls;
  }
}
