/** Whole runs on the machine: every call recorded to a stream, and every call replayed from one. */
module EioRun {
  import opened Basics
  import opened Machine
  import opened Memory
  import opened Numbers
  import opened Exo
  import opened ExoRoundTrip
  import opened ExoStream
  import opened Trace
  import opened TraceText
  import opened Eio

  /** What the program does before a system call: its memory operations, and what it leaves in the
      registers and the break point. */
  datatype Activity = Activity(ops: seq<Op>, regs: Regs, brk: Addr)

  function Acted(t: State, act: Activity): State {
    State(act.regs, act.brk, RunFlat(t.mem, act.ops).0)
  }

  /** The program that does just that. */
  function UserOf(acts: seq<Activity>): Program {
    (n: nat, t: State) => if n < |acts| then Acted(t, acts[n]) else t
  }

  predicate ActsValid(acts: seq<Activity>) { forall k :: 0 <= k < |acts| ==> acts[k].regs.Valid() }

  predicate CallsValid(calls: seq<Call>) { forall k :: 0 <= k < |calls| ==> calls[k].after.Valid() }

  method Act(cpu: Cpu, act: Activity)
    requires cpu.Valid() && act.regs.Valid()
    modifies cpu, cpu.r, cpu.mem, cpu.mem.ptab, cpu.mem.nodes, cpu.mem.pages
    ensures cpu.Valid() && cpu.mem.Grew() && cpu.State() == Acted(old(cpu.State()), act)
  {
    var _ := cpu.mem.Run(act.ops);
    cpu.Return(act.regs, act.brk);
  }

  // --------------------------------------------------------------------------- recording

  /** The transaction of call `c` made in state `u`. */
  function TransactionOf(u: State, c: Call): Transaction
    requires Recordable(u, c)
  {
    Transact(c.icnt, u.regs, c.after, c.brk, Record(u.mem, c.accesses))
  }

  function AfterCall(u: State, c: Call): State
    requires Recordable(u, c)
  {
    State(c.after, c.brk, Record(u.mem, c.accesses).mem)
  }

  /** The program up to a call, and the call, recorded; not if it is an exit, or reads after it wrote. */
  method RecordOne(cpu: Cpu, out: Output, c: Call, act: Activity) returns (ok: bool)
    requires cpu.Valid() && act.regs.Valid() && c.after.Valid()
    modifies cpu, cpu.r, cpu.mem, cpu.mem.ptab, cpu.mem.nodes, cpu.mem.pages, out
    ensures cpu.Valid() && cpu.mem.Grew()
    ensures ok <==> Recordable(Acted(old(cpu.State()), act), c)
    ensures ok ==> var u := Acted(old(cpu.State()), act);
                   cpu.State() == AfterCall(u, c) && out.text == old(out.text) + StreamOn(Items([TransactionOf(u, c)]), "")
  {
    Act(cpu, act);
    ok := cpu.r[0] != 1;
    if ok {
      ok := cpu.WriteTrace(out, c);
    }
  }

  lemma RecordMore(s: State, calls: seq<Call>, i: nat, user: Program, t: State, trace: seq<Transaction>)
    requires i < |calls| && RecordRun(s, calls[..i], user) == Live(t, trace)
    ensures var u, c := user(i, t), calls[i];
            RecordRun(s, calls[..i + 1], user) ==
            if Recordable(u, c) then Live(AfterCall(u, c), trace + [TransactionOf(u, c)]) else Broken
  {
    TakeMore(calls, i);
  }

  lemma BrokenStays(s: State, calls: seq<Call>, i: nat, user: Program)
    requires i <= |calls| && RecordRun(s, calls[..i], user).Broken?
    ensures RecordRun(s, calls, user).Broken?
  {
    if RecordRun(s, calls, user).Live? { RunPrefix(s, calls, i, user); }
  }

  lemma TextMore(trace: seq<Transaction>, tx: Transaction)
    ensures StreamOn(Items(trace + [tx]), "") == StreamOn(Items(trace), "") + StreamOn(Items([tx]), "")
  {
    assert Items(trace + [tx]) == Items(trace) + Items([tx]);
    StreamAppend(Items(trace), Items([tx]), "");
    StreamThen(Items(trace), StreamOn(Items([tx]), ""));
  }

  /** State `t` is the one behind the run's first `i` calls, and `text` has their trace behind `before`. */
  ghost predicate RecordedSo(s: State, calls: seq<Call>, i: nat, user: Program, t: State, before: string, text: string)
    requires i <= |calls|
  {
    var run := RecordRun(s, calls[..i], user);
    run.Live? && run.state == t && text == before + StreamOn(Items(run.trace), "")
  }

  lemma NextRecorded(s: State, calls: seq<Call>, i: nat, user: Program, t: State, u: State, before: string, text: string)
    requires i < |calls| && RecordedSo(s, calls, i, user, t, before, text) && u == user(i, t)
    ensures Recordable(u, calls[i]) ==>
              RecordedSo(s, calls, i + 1, user, AfterCall(u, calls[i]), before, text + StreamOn(Items([TransactionOf(u, calls[i])]), ""))
    ensures !Recordable(u, calls[i]) ==> RecordRun(s, calls[..i + 1], user).Broken?
  {
    var trace := RecordRun(s, calls[..i], user).trace;
    RecordMore(s, calls, i, user, t, trace);
    if Recordable(u, calls[i]) { TextBehind(before, trace, TransactionOf(u, calls[i])); }
  }

  lemma TextBehind(before: string, trace: seq<Transaction>, tx: Transaction)
    ensures before + StreamOn(Items(trace), "") + StreamOn(Items([tx]), "") == before + StreamOn(Items(trace + [tx]), "")
  {
    TextMore(trace, tx);
    Reassociate(before, StreamOn(Items(trace), ""), StreamOn(Items([tx]), ""));
  }

  lemma Reassociate(x: string, y: string, z: string)
    ensures x + y + z == x + (y + z)
  {
  }

  method RecordNext(cpu: Cpu, out: Output, calls: seq<Call>, i: nat, act: Activity, ghost s: State, ghost user: Program, ghost before: string)
    returns (ok: bool)
    requires cpu.Valid() && i < |calls| && act.regs.Valid() && calls[i].after.Valid()
    requires user(i, cpu.State()) == Acted(cpu.State(), act)
    requires RecordedSo(s, calls, i, user, cpu.State(), before, out.text)
    modifies cpu, cpu.r, cpu.mem, cpu.mem.ptab, cpu.mem.nodes, cpu.mem.pages, out
    ensures cpu.Valid() && cpu.mem.Grew()
    ensures Progress(s, calls, i + 1, user, cpu.State(), before, out.text, ok)
  {
    NextRecorded(s, calls, i, user, cpu.State(), Acted(cpu.State(), act), before, out.text);
    ok := RecordOne(cpu, out, calls[i], act);
  }

  /** A whole run recorded: the machine ends in the state of the run, and the stream has its trace. */
  method RecordAll(cpu: Cpu, out: Output, calls: seq<Call>, acts: seq<Activity>) returns (ok: bool)
    requires cpu.Valid() && |acts| == |calls| && ActsValid(acts) && CallsValid(calls)
    modifies cpu, cpu.r, cpu.mem, cpu.mem.ptab, cpu.mem.nodes, cpu.mem.pages, out
    ensures cpu.Valid() && cpu.mem.Grew()
    ensures ok <==> RecordRun(old(cpu.State()), calls, UserOf(acts)).Live?
    ensures ok ==> RecordedSo(old(cpu.State()), calls, |calls|, UserOf(acts), cpu.State(), old(out.text), out.text)
  {
    ghost var s, user, before := cpu.State(), UserOf(acts), out.text;
    var i := 0;
    ok := true;
    NoneRecorded(s, calls, user, before);
    while i < |calls| && ok
      invariant 0 <= i <= |calls| && cpu.Valid() && cpu.mem.Grew()
      invariant Progress(s, calls, i, user, cpu.State(), before, out.text, ok)
      decreases |calls| - i
    {
      ok := RecordNext(cpu, out, calls, i, acts[i], s, user, before);
      i := i + 1;
    }
    Finished(s, calls, i, user, cpu.State(), before, out.text, ok);
  }

  /** Where a recording stands, or that it broke off. */
  ghost predicate Progress(s: State, calls: seq<Call>, i: nat, user: Program, t: State, before: string, text: string, ok: bool)
    requires i <= |calls|
  {
    if ok then RecordedSo(s, calls, i, user, t, before, text) else RecordRun(s, calls[..i], user).Broken?
  }

  lemma Finished(s: State, calls: seq<Call>, i: nat, user: Program, t: State, before: string, text: string, ok: bool)
    requires i <= |calls| && Progress(s, calls, i, user, t, before, text, ok) && (ok ==> i == |calls|)
    ensures ok <==> RecordRun(s, calls, user).Live?
    ensures ok ==> RecordedSo(s, calls, |calls|, user, t, before, text)
  {
    if ok {
      assert calls[..|calls|] == calls;
    } else {
      BrokenStays(s, calls, i, user);
    }
  }

  lemma NoneRecorded(s: State, calls: seq<Call>, user: Program, text: string)
    ensures RecordedSo(s, calls, 0, user, s, text, text)
  {
    assert calls[..0] == [] && Items([]) == [];
  }

  // --------------------------------------------------------------------------- replaying

  method ReplayOne(cpu: Cpu, input: Input, icnt: U64, act: Activity) returns (ok: bool)
    requires cpu.Valid() && act.regs.Valid() && input.mode == Initial
    modifies cpu, cpu.r, cpu.mem, cpu.mem.ptab, cpu.mem.nodes, cpu.mem.pages, input
    ensures cpu.Valid() && cpu.mem.Grew()
    ensures var (r, text) := ReplayText(Acted(old(cpu.State()), act), icnt, old(input.text));
            if ok then r == Replayed(cpu.State()) && text == input.text && input.mode == Initial else !r.Replayed?
  {
    Act(cpu, act);
    var exits;
    ok, exits := cpu.ReadTrace(input, icnt);
    ok := ok && !exits;
  }

  lemma ReplayMore(s: State, icnts: seq<U64>, i: nat, text: string, user: Program, t: State, more: string)
    requires i < |icnts| && ReplayFile(s, icnts[..i], text, user) == (Replayed(t), more) && user(i, t).regs.Valid()
    ensures ReplayFile(s, icnts[..i + 1], text, user) == ReplayText(user(i, t), icnts[i], more)
  {
    TakeMore(icnts, i);
    FileSnoc(s, icnts[..i], icnts[i], text, user, t, more);
  }

  lemma {:induction false} StoppedStays(s: State, icnts: seq<U64>, i: nat, text: string, user: Program)
    requires i <= |icnts| && !ReplayFile(s, icnts[..i], text, user).0.Replayed?
    ensures !ReplayFile(s, icnts, text, user).0.Replayed?
    decreases |icnts|
  {
    if i == |icnts| {
      assert icnts[..i] == icnts;
    } else {
      assert icnts[..|icnts| - 1][..i] == icnts[..i];
      StoppedStays(s, icnts[..|icnts| - 1], i, text, user);
    }
  }

  /** A whole run replayed from a stream. */
  method ReplayAll(cpu: Cpu, input: Input, icnts: seq<U64>, acts: seq<Activity>) returns (ok: bool)
    requires cpu.Valid() && |acts| == |icnts| && ActsValid(acts) && input.mode == Initial
    modifies cpu, cpu.r, cpu.mem, cpu.mem.ptab, cpu.mem.nodes, cpu.mem.pages, input
    ensures cpu.Valid() && cpu.mem.Grew()
    ensures var (r, text) := ReplayFile(old(cpu.State()), icnts, old(input.text), UserOf(acts));
            if ok then r == Replayed(cpu.State()) && text == input.text && input.mode == Initial else !r.Replayed?
  {
    ghost var s, user, text := cpu.State(), UserOf(acts), input.text;
    var i := 0;
    while i < |icnts|
      invariant 0 <= i <= |icnts| && cpu.Valid() && cpu.mem.Grew() && input.mode == Initial
      invariant ReplayFile(s, icnts[..i], text, user) == (Replayed(cpu.State()), input.text)
    {
      ReplayMore(s, icnts, i, text, user, cpu.State(), input.text);
      ok := ReplayOne(cpu, input, icnts[i], acts[i]);
      i := i + 1;
      if !ok {
        StoppedStays(s, icnts, i, text, user);
        return;
      }
    }
    assert icnts[..i] == icnts;
    ok := true;
  }

  // ------------------------------------------------------------------ one after the other

  /** Replays the text that `RecordAll` left of a run, on a machine in the state where that run began:
      if every call is reproducible and no empty blob was recorded, it ends in the state `t` where the
      recorded run did. */
  method ReplayOwn(cpu: Cpu, text: string, calls: seq<Call>, acts: seq<Activity>, ghost t: State) returns (ok: bool)
    requires cpu.Valid() && |acts| == |calls| && ActsValid(acts)
    requires forall i :: 0 <= i < |calls| ==> Sized(calls[i].accesses)
    requires RecordRun(cpu.State(), calls, UserOf(acts)).Live?
    requires RecordedSo(cpu.State(), calls, |calls|, UserOf(acts), t, "", text)
    modifies cpu, cpu.r, cpu.mem, cpu.mem.ptab, cpu.mem.nodes, cpu.mem.pages
    ensures cpu.Valid()
    ensures var s := old(cpu.State());
            AllReproducible(s, calls, UserOf(acts)) && AllReadable(RecordRun(s, calls, UserOf(acts)).trace, |calls|)
            ==> ok && cpu.State() == t
  {
    OwnText(cpu.State(), calls, UserOf(acts), t, text);
    var input := new Input(text);
    ok := ReplayAll(cpu, input, Icnts(calls), acts);
  }

  /** What replay makes of the text that a run left. */
  lemma OwnText(s: State, calls: seq<Call>, user: Program, t: State, text: string)
    requires RecordRun(s, calls, user).Live? && RecordedSo(s, calls, |calls|, user, t, "", text)
    requires forall i :: 0 <= i < |calls| ==> Sized(calls[i].accesses)
    ensures t == RecordRun(s, calls, user).state
    ensures AllReproducible(s, calls, user) && AllReadable(RecordRun(s, calls, user).trace, |calls|)
            ==> ReplayFile(s, Icnts(calls), text, user).0 == Replayed(t)
  {
    assert calls[..|calls|] == calls;
    var trace := RecordRun(s, calls, user).trace;
    assert text == Remaining(trace, 0, "");
    FileReproducesRunIff(s, calls, user, "");
  }
}
