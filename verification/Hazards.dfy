/**
 The RAW-hazard accounting that sim-safe performs per executed instruction.

 Two scoreboards (`Q1`: no forwarding, `Q2`: full forwarding) keep for every register
 the instruction count at which its value is ready.  A stall is not simulated with a
 clock: the scoreboard pretends that NOPs were inserted by shifting every pending
 ready time down.  The reference here is a pipeline with an explicit cycle counter,
 and, more abstractly, the set of all legal in-order issue schedules.
 */
module Hazards {
  import opened Basics

  /** Register 0 stands for "no operand".  `load`/`store` are F_MEM combined with F_LOAD/F_STORE. */
  datatype Insn = Insn(outs: seq<nat>, ins: seq<nat>, load: bool, store: bool) {
    predicate Valid(regs: nat) {
      && |outs| == 2 && |ins| == 3
      && (forall i :: 0 <= i < 2 ==> outs[i] < regs)
      && (forall i :: 0 <= i < 3 ==> ins[i] < regs)
    }

    predicate Writes(r: nat) {
      r != 0 && r in outs
    }
  }

  datatype Model = Q1 | Q2

  ghost predicate ValidProgram(prog: seq<Insn>, regs: nat) {
    forall i :: 0 <= i < |prog| ==> prog[i].Valid(regs)
  }

  /** Is input operand `i` needed before the instruction may proceed?  With forwarding,
      the datum of a store (operand 0) is not. */
  predicate Checked(m: Model, insn: Insn, i: nat)
    requires i < |insn.ins|
  {
    insn.ins[i] != 0 && !(m == Q2 && i == 0 && insn.store)
  }

  /** Distance, in issue slots, from an instruction to the first one that can use its result unstalled. */
  function Latency(m: Model, insn: Insn): int {
    match m
    case Q1 => 3
    case Q2 => if insn.store then 1 else if insn.load then 3 else 2
  }

  /** Pending time as every reader sees it: never negative. */
  function Clamp(x: int): int { Max(x, 0) }

  // ---------------------------------------------------------------- the scoreboard

  /** Largest outstanding ready time among the first `k` operands. */
  function StallUpTo(m: Model, ready: seq<int>, now: int, insn: Insn, k: nat): int
    requires insn.Valid(|ready|) && k <= 3
  {
    if k == 0 then 0
    else
      var rest := StallUpTo(m, ready, now, insn, k - 1);
      if Checked(m, insn, k - 1) then Max(rest, ready[insn.ins[k - 1]] - now) else rest
  }

  function Stall(m: Model, ready: seq<int>, now: int, insn: Insn): int
    requires insn.Valid(|ready|)
  {
    StallUpTo(m, ready, now, insn, 3)
  }

  function Shift(ready: seq<int>, now: int, stall: int): seq<int> {
    seq(|ready|, i requires 0 <= i < |ready| => if ready[i] > now then ready[i] - stall else ready[i])
  }

  function MarkOutputs(ready: seq<int>, insn: Insn, at: int): seq<int>
    requires insn.Valid(|ready|)
  {
    seq(|ready|, r requires 0 <= r < |ready| => if insn.Writes(r) then at else ready[r])
  }

  /** Ready times after executing `prog` from all-zero tables. */
  function Board(m: Model, regs: nat, prog: seq<Insn>): (ready: seq<int>)
    requires ValidProgram(prog, regs)
    ensures |ready| == regs
  {
    if prog == [] then seq(regs, _ => 0)
    else
      var n, insn := |prog|, prog[|prog| - 1];
      var ready := Board(m, regs, prog[..n - 1]);
      MarkOutputs(Shift(ready, n, Stall(m, ready, n, insn)), insn, n + Latency(m, insn))
  }

  /** Stall charged to the last instruction of `prog`. */
  function LastStall(m: Model, regs: nat, prog: seq<Insn>): int
    requires ValidProgram(prog, regs) && prog != []
  {
    var n := |prog|;
    Stall(m, Board(m, regs, prog[..n - 1]), n, prog[n - 1])
  }

  /** How many instructions of `prog` were charged a stall of exactly `k` cycles. */
  function StallCount(m: Model, regs: nat, prog: seq<Insn>, k: int): nat
    requires ValidProgram(prog, regs)
  {
    if prog == [] then 0
    else
      StallCount(m, regs, prog[..|prog| - 1], k) + (if LastStall(m, regs, prog) == k then 1 else 0)
  }

  /** How many instructions of `prog` were charged any stall. */
  function HazardCount(m: Model, regs: nat, prog: seq<Insn>): nat
    requires ValidProgram(prog, regs)
  {
    if prog == [] then 0
    else
      HazardCount(m, regs, prog[..|prog| - 1]) + (if LastStall(m, regs, prog) > 0 then 1 else 0)
  }

  // ------------------------------------------------- the explicit in-order pipeline

  /** Issue cycle of the last instruction of `prog` (0 before the first): one after its
      predecessor, or later if a checked operand is not there yet. */
  ghost function Cycle(m: Model, regs: nat, prog: seq<Insn>): int
    requires ValidProgram(prog, regs)
    decreases |prog|, 1
  {
    if prog == [] then 0
    else Max(Cycle(m, regs, prog[..|prog| - 1]) + 1, OperandCycle(m, regs, prog, 3))
  }

  /** Latest cycle at which the first `k` operands of the last instruction become available. */
  ghost function OperandCycle(m: Model, regs: nat, prog: seq<Insn>, k: nat): int
    requires ValidProgram(prog, regs) && prog != [] && k <= 3
    decreases |prog|, 0, k
  {
    if k == 0 then 0
    else
      var n, rest := |prog| - 1, OperandCycle(m, regs, prog, k - 1);
      if Checked(m, prog[n], k - 1) then Max(rest, ReadyCycle(m, regs, prog[..n], prog[n].ins[k - 1])) else rest
  }

  /** Cycle at which register `r` is available once all of `prog` has issued. */
  ghost function ReadyCycle(m: Model, regs: nat, prog: seq<Insn>, r: nat): int
    requires ValidProgram(prog, regs)
    decreases |prog|, 2
  {
    if prog == [] then 0
    else
      var n := |prog| - 1;
      if prog[n].Writes(r) then Cycle(m, regs, prog) + Latency(m, prog[n]) else ReadyCycle(m, regs, prog[..n], r)
  }

  /** Relative to the current instruction, register `r` is exactly as late on the board as in the pipeline. */
  ghost predicate InStep(m: Model, regs: nat, prog: seq<Insn>, r: nat)
    requires ValidProgram(prog, regs) && r < regs
  {
    Clamp(Board(m, regs, prog)[r] - |prog|) == Clamp(ReadyCycle(m, regs, prog, r) - Cycle(m, regs, prog))
  }

  /** Shifting ready times instead of keeping a clock is invisible: every register stays in
      step with the explicit pipeline, and each stall is the gap that pipeline leaves before
      the instruction. */
  lemma {:induction false} ScoreboardRefinesPipeline(m: Model, regs: nat, prog: seq<Insn>)
    requires ValidProgram(prog, regs)
    ensures forall r: nat :: r < regs && r != 0 ==> InStep(m, regs, prog, r)
    ensures prog != [] ==>
              LastStall(m, regs, prog) == Cycle(m, regs, prog) - Cycle(m, regs, prog[..|prog| - 1]) - 1
  {
    if prog != [] {
      ScoreboardRefinesPipeline(m, regs, prog[..|prog| - 1]);
      StallIsGap(m, regs, prog, prog[..|prog| - 1], 3);
      forall r: nat | r < regs && r != 0 ensures InStep(m, regs, prog, r) {
        StaysInStep(m, regs, prog, r);
      }
    }
  }

  lemma StaysInStep(m: Model, regs: nat, prog: seq<Insn>, r: nat)
    requires ValidProgram(prog, regs) && prog != [] && 0 < r < regs
    requires InStep(m, regs, prog[..|prog| - 1], r)
    requires LastStall(m, regs, prog) == Cycle(m, regs, prog) - Cycle(m, regs, prog[..|prog| - 1]) - 1
    requires LastStall(m, regs, prog) >= 0
    ensures InStep(m, regs, prog, r)
  {
    var n, insn, before := |prog|, prog[|prog| - 1], prog[..|prog| - 1];
    var ready := Board(m, regs, before);
    var stall := LastStall(m, regs, prog);
    assert Board(m, regs, prog) == MarkOutputs(Shift(ready, n, stall), insn, n + Latency(m, insn));
    if !insn.Writes(r) {
      assert ReadyCycle(m, regs, prog, r) == ReadyCycle(m, regs, before, r);
      assert Board(m, regs, prog)[r] == if ready[r] > n then ready[r] - stall else ready[r];
    }
  }

  lemma {:induction false} StallIsGap(m: Model, regs: nat, prog: seq<Insn>, before: seq<Insn>, k: nat)
    requires ValidProgram(prog, regs) && prog != [] && k <= 3
    requires before == prog[..|prog| - 1]
    requires forall r: nat :: r < regs && r != 0 ==> InStep(m, regs, before, r)
    ensures StallUpTo(m, Board(m, regs, before), |prog|, prog[|prog| - 1], k)
            == Clamp(OperandCycle(m, regs, prog, k) - Cycle(m, regs, before) - 1)
  {
    var insn := prog[|prog| - 1];
    CycleNonNegative(m, regs, before);
    if k > 0 {
      StallIsGap(m, regs, prog, before, k - 1);
      if Checked(m, insn, k - 1) {
        assert InStep(m, regs, before, insn.ins[k - 1]);
      }
    }
  }

  lemma {:induction false} CycleNonNegative(m: Model, regs: nat, prog: seq<Insn>)
    requires ValidProgram(prog, regs)
    ensures Cycle(m, regs, prog) >= |prog|
  {
    if prog != [] {
      CycleNonNegative(m, regs, prog[..|prog| - 1]);
    }
  }

  // ------------------------------------------------------------- legal schedules

  /** Instruction `j` produced the value that operand `c` of instruction `i` reads. */
  ghost predicate Produces(prog: seq<Insn>, j: int, i: int, c: nat) {
    && 0 <= j < i < |prog| && c < |prog[i].ins|
    && prog[j].Writes(prog[i].ins[c])
    && forall k :: j < k < i ==> !prog[k].Writes(prog[i].ins[c])
  }

  /** `t` issues in order, one instruction per cycle at most, and never before a checked operand is there. */
  ghost predicate Legal(m: Model, prog: seq<Insn>, t: seq<int>) {
    && |t| == |prog|
    && (|t| > 0 ==> t[0] >= 1)
    && (forall i :: 0 < i < |t| ==> t[i - 1] + 1 <= t[i])
    && (forall i, j, c: nat :: Produces(prog, j, i, c) && Checked(m, prog[i], c) ==> t[i] >= t[j] + Latency(m, prog[j]))
  }

  /** The schedule the scoreboard accounts for: position plus all stalls charged so far. */
  ghost function Schedule(m: Model, regs: nat, prog: seq<Insn>): (t: seq<int>)
    requires ValidProgram(prog, regs)
  {
    if prog == [] then []
    else
      var before := Schedule(m, regs, prog[..|prog| - 1]);
      before + [(if before == [] then 0 else before[|before| - 1]) + 1 + LastStall(m, regs, prog)]
  }

  lemma {:induction false} ScheduleIsCycles(m: Model, regs: nat, prog: seq<Insn>)
    requires ValidProgram(prog, regs)
    ensures |Schedule(m, regs, prog)| == |prog|
    ensures forall i :: 0 <= i < |prog| ==> Schedule(m, regs, prog)[i] == Cycle(m, regs, prog[..i + 1])
  {
    if prog != [] {
      var n := |prog|;
      var before := prog[..n - 1];
      ScheduleIsCycles(m, regs, before);
      ScoreboardRefinesPipeline(m, regs, prog);
      assert prog[..n] == prog && before[..n - 1] == before;
      forall i | 0 <= i < n - 1 ensures Schedule(m, regs, prog)[i] == Cycle(m, regs, prog[..i + 1]) {
        assert before[..i + 1] == prog[..i + 1];
      }
    }
  }

  /** A producer's result is ready at its cycle plus latency until somebody overwrites the register. */
  lemma {:induction false} ReadyFromProducer(m: Model, regs: nat, prog: seq<Insn>, j: int, n: nat, r: nat)
    requires ValidProgram(prog, regs) && 0 <= j < n <= |prog|
    requires prog[j].Writes(r) && forall k :: j < k < n ==> !prog[k].Writes(r)
    ensures ReadyCycle(m, regs, prog[..n], r) == Cycle(m, regs, prog[..j + 1]) + Latency(m, prog[j])
  {
    if n > j + 1 {
      ReadyFromProducer(m, regs, prog, j, n - 1, r);
      assert prog[..n][..n - 1] == prog[..n - 1];
    }
  }

  lemma {:induction false} OperandAvailable(m: Model, regs: nat, prog: seq<Insn>, c: nat, k: nat)
    requires ValidProgram(prog, regs) && prog != [] && c < k <= 3
    requires Checked(m, prog[|prog| - 1], c)
    ensures OperandCycle(m, regs, prog, k) >= ReadyCycle(m, regs, prog[..|prog| - 1], prog[|prog| - 1].ins[c])
  {
    if k > c + 1 { OperandAvailable(m, regs, prog, c, k - 1); }
  }

  /** The stalls charged are sufficient: the resulting schedule violates no dependence. */
  lemma ScheduleIsLegal(m: Model, regs: nat, prog: seq<Insn>)
    requires ValidProgram(prog, regs)
    ensures Legal(m, prog, Schedule(m, regs, prog))
  {
    ScheduleIsCycles(m, regs, prog);
    var t := Schedule(m, regs, prog);
    forall i | 0 <= i < |prog| ensures t[i] >= (if i == 0 then 0 else t[i - 1]) + 1 {
      assert prog[..i + 1][..i] == prog[..i];
      assert t[i] == Cycle(m, regs, prog[..i + 1]) >= Cycle(m, regs, prog[..i]) + 1;
    }
    if prog != [] { CycleNonNegative(m, regs, prog[..1]); }
    forall i, j, c: nat | Produces(prog, j, i, c) && Checked(m, prog[i], c)
      ensures t[i] >= t[j] + Latency(m, prog[j])
    {
      DependenceMet(m, regs, prog, i, j, c);
    }
  }

  lemma DependenceMet(m: Model, regs: nat, prog: seq<Insn>, i: nat, j: nat, c: nat)
    requires ValidProgram(prog, regs) && Produces(prog, j, i, c) && Checked(m, prog[i], c)
    ensures Cycle(m, regs, prog[..i + 1]) >= Cycle(m, regs, prog[..j + 1]) + Latency(m, prog[j])
  {
    ReadyFromProducer(m, regs, prog, j, i, prog[i].ins[c]);
    assert prog[..i + 1][..i] == prog[..i];
    OperandAvailable(m, regs, prog[..i + 1], c, 3);
  }

  lemma {:induction false} OperandWithin(m: Model, regs: nat, prog: seq<Insn>, t: seq<int>, k: nat)
    requires ValidProgram(prog, regs) && prog != [] && k <= 3 && Legal(m, prog, t)
    requires forall i :: 0 <= i < |prog| - 1 ==> Cycle(m, regs, prog[..i + 1]) <= t[i]
    ensures OperandCycle(m, regs, prog, k) <= t[|prog| - 1]
  {
    var n := |prog| - 1;
    LegalIsPositive(m, prog, t, n);
    if k > 0 {
      OperandWithin(m, regs, prog, t, k - 1);
      if Checked(m, prog[n], k - 1) {
        ReadyWithin(m, regs, prog, t, n, k - 1);
        assert prog[..n] == prog[..|prog| - 1];
      }
    }
  }

  lemma {:induction false} LegalIsPositive(m: Model, prog: seq<Insn>, t: seq<int>, i: nat)
    requires Legal(m, prog, t) && i < |t|
    ensures t[i] > 0
  {
    if i > 0 { LegalIsPositive(m, prog, t, i - 1); }
  }

  lemma {:induction false} ReadyWithin(m: Model, regs: nat, prog: seq<Insn>, t: seq<int>, n: nat, c: nat)
    requires ValidProgram(prog, regs) && prog != [] && n < |prog| && c < 3 && Legal(m, prog, t)
    requires forall i :: 0 <= i < |prog| - 1 ==> Cycle(m, regs, prog[..i + 1]) <= t[i]
    requires Checked(m, prog[|prog| - 1], c)
    requires forall k :: n <= k < |prog| - 1 ==> !prog[k].Writes(prog[|prog| - 1].ins[c])
    ensures ReadyCycle(m, regs, prog[..n], prog[|prog| - 1].ins[c]) <= t[|prog| - 1]
  {
    var last := |prog| - 1;
    LegalIsPositive(m, prog, t, last);
    if n > 0 {
      assert prog[..n][..n - 1] == prog[..n - 1];
      if prog[n - 1].Writes(prog[last].ins[c]) {
        assert Produces(prog, n - 1, last, c);
      } else {
        ReadyWithin(m, regs, prog, t, n - 1, c);
      }
    }
  }

  lemma LegalPrefix(m: Model, regs: nat, prog: seq<Insn>, t: seq<int>, n: nat)
    requires Legal(m, prog, t) && n <= |t|
    ensures Legal(m, prog[..n], t[..n])
  {
    var before, t' := prog[..n], t[..n];
    forall i, j, c: nat | Produces(before, j, i, c) && Checked(m, before[i], c)
      ensures t'[i] >= t'[j] + Latency(m, before[j])
    {
      assert forall k :: 0 <= k < n ==> before[k] == prog[k];
      assert Produces(prog, j, i, c);
    }
  }

  lemma {:induction false} CyclesWithin(m: Model, regs: nat, prog: seq<Insn>, t: seq<int>)
    requires ValidProgram(prog, regs) && Legal(m, prog, t)
    ensures forall i :: 0 <= i < |t| ==> Cycle(m, regs, prog[..i + 1]) <= t[i]
  {
    if prog != [] {
      var n := |prog| - 1;
      LegalPrefix(m, regs, prog, t, n);
      CyclesWithin(m, regs, prog[..n], t[..n]);
      forall i | 0 <= i < n ensures Cycle(m, regs, prog[..i + 1]) <= t[i] {
        assert prog[..n][..i + 1] == prog[..i + 1];
        assert t[..n][i] == t[i];
      }
      OperandWithin(m, regs, prog, t, 3);
      LegalIsPositive(m, prog, t, n);
      assert n > 0 ==> prog[..n] == prog[..(n - 1) + 1] && Cycle(m, regs, prog[..(n - 1) + 1]) <= t[n - 1];
      assert Cycle(m, regs, prog) <= t[n];
      assert prog[..n + 1] == prog;
    }
  }

  /** The stalls charged are necessary: no legal schedule issues any instruction earlier. */
  lemma ScheduleIsEarliest(m: Model, regs: nat, prog: seq<Insn>, t: seq<int>)
    requires ValidProgram(prog, regs) && Legal(m, prog, t)
    ensures |Schedule(m, regs, prog)| == |t|
    ensures forall i :: 0 <= i < |t| ==> Schedule(m, regs, prog)[i] <= t[i]
  {
    ScheduleIsCycles(m, regs, prog);
    CyclesWithin(m, regs, prog, t);
  }

  // ------------------------------------------------------- counters and the CPI formula

  lemma {:induction false} BoardBound(m: Model, regs: nat, prog: seq<Insn>)
    requires ValidProgram(prog, regs)
    ensures forall r: nat :: r < regs ==> Board(m, regs, prog)[r] <= |prog| + 3
  {
    if prog != [] {
      BoardBound(m, regs, prog[..|prog| - 1]);
      StallRange(m, Board(m, regs, prog[..|prog| - 1]), |prog|, prog[|prog| - 1], 3);
    }
  }

  lemma {:induction false} StallRange(m: Model, ready: seq<int>, now: int, insn: Insn, k: nat)
    requires insn.Valid(|ready|) && k <= 3
    requires forall r: nat :: r < |ready| ==> ready[r] <= now + 2
    ensures 0 <= StallUpTo(m, ready, now, insn, k) <= 2
  {
    if k > 0 { StallRange(m, ready, now, insn, k - 1); }
  }

  /** Every stall is 0, 1 or 2 cycles, hence each hazard is counted as exactly one of the
      two stall kinds; and instructions plus stall cycles are the cycles the pipeline takes. */
  lemma {:induction false} StallConservation(m: Model, regs: nat, prog: seq<Insn>)
    requires ValidProgram(prog, regs)
    ensures prog != [] ==> 0 <= LastStall(m, regs, prog) <= 2
    ensures HazardCount(m, regs, prog) == StallCount(m, regs, prog, 1) + StallCount(m, regs, prog, 2)
    ensures Cycle(m, regs, prog) == |prog| + StallCount(m, regs, prog, 1) + 2 * StallCount(m, regs, prog, 2)
  {
    if prog != [] {
      var before := prog[..|prog| - 1];
      StallConservation(m, regs, before);
      BoardBound(m, regs, before);
      StallRange(m, Board(m, regs, before), |prog|, prog[|prog| - 1], 3);
      ScoreboardRefinesPipeline(m, regs, prog);
    }
  }

  /** The formula text registered with the statistics package, over exact rationals. */
  function CPI(insns: int, one: int, two: int): real
    requires insns > 0
  {
    1.0 + (one as real / insns as real) * 1.0 + (two as real / insns as real) * 2.0
  }

  /** CPI times instruction count is the issue cycle of the last instruction. */
  lemma CPIMeasuresCycles(m: Model, regs: nat, prog: seq<Insn>)
    requires ValidProgram(prog, regs) && prog != []
    ensures CPI(|prog|, StallCount(m, regs, prog, 1), StallCount(m, regs, prog, 2)) == PerInsn(Cycle(m, regs, prog), |prog|)
  {
    StallConservation(m, regs, prog);
    CPIScales(|prog|, StallCount(m, regs, prog, 1), StallCount(m, regs, prog, 2));
  }

  function PerInsn(cycles: int, n: int): (r: real)
    requires n > 0
  {
    cycles as real / n as real
  }

  lemma CPIScales(n: int, one: int, two: int)
    requires n > 0
    ensures CPI(n, one, two) == PerInsn(n + one + 2 * two, n)
  {
    var r, x, y := n as real, one as real / n as real, two as real / n as real;
    assert r * x == one as real && r * y == two as real;
    assert r * (1.0 + x * 1.0 + y * 2.0) == r + r * x + 2.0 * (r * y);
  }

  /** Forwarding never hurts: after every run, the cycles stalled with forwarding are at
      most those stalled without. */
  lemma ForwardingNeverHurts(regs: nat, prog: seq<Insn>)
    requires ValidProgram(prog, regs)
    ensures StallCount(Q2, regs, prog, 1) + 2 * StallCount(Q2, regs, prog, 2)
         <= StallCount(Q1, regs, prog, 1) + 2 * StallCount(Q1, regs, prog, 2)
  {
    StallConservation(Q1, regs, prog);
    StallConservation(Q2, regs, prog);
    if prog != [] {
      var t := Schedule(Q1, regs, prog);
      ScheduleIsLegal(Q1, regs, prog);
      assert Legal(Q2, prog, t);
      CyclesWithin(Q2, regs, prog, t);
      ScheduleIsCycles(Q1, regs, prog);
      var n := |prog| - 1;
      assert prog[..n + 1] == prog;
      assert Cycle(Q2, regs, prog[..n + 1]) <= t[n] == Cycle(Q1, regs, prog[..n + 1]);
    }
  }

  // ------------------------------------------------------------- load-use hazards

  /** The third table: written by loads only, two ahead, and never shifted. */
  function LoadBoard(regs: nat, prog: seq<Insn>): (ready: seq<int>)
    requires ValidProgram(prog, regs)
    ensures |ready| == regs
  {
    if prog == [] then seq(regs, _ => 0)
    else
      var n, insn := |prog|, prog[|prog| - 1];
      var ready := LoadBoard(regs, prog[..n - 1]);
      if insn.load then MarkOutputs(ready, insn, n + 2) else ready
  }

  predicate LoadUse(ready: seq<int>, now: int, insn: Insn)
    requires insn.Valid(|ready|)
  {
    exists i: nat :: i < 3 && Checked(Q2, insn, i) && ready[insn.ins[i]] > now
  }

  function LoadUseCount(regs: nat, prog: seq<Insn>): nat
    requires ValidProgram(prog, regs)
  {
    if prog == [] then 0
    else
      var n := |prog|;
      LoadUseCount(regs, prog[..n - 1])
      + (if LoadUse(LoadBoard(regs, prog[..n - 1]), n, prog[n - 1]) then 1 else 0)
  }

  /** `user` needs a result of the instruction right before it. */
  ghost predicate Feeds(producer: Insn, user: Insn)
    requires |user.ins| == 3
  {
    exists i: nat :: i < 3 && Checked(Q2, user, i) && producer.Writes(user.ins[i])
  }

  /** Instruction `i` is fed by a predecessor whose opcode both loads and stores. */
  ghost predicate MixedFeedAt(prog: seq<Insn>, i: int) {
    0 < i < |prog| && |prog[i].ins| == 3 && prog[i - 1].load && prog[i - 1].store && Feeds(prog[i - 1], prog[i])
  }

  ghost function MixedFeeds(prog: seq<Insn>): nat {
    if prog == [] then 0
    else MixedFeeds(prog[..|prog| - 1]) + (if MixedFeedAt(prog, |prog| - 1) then 1 else 0)
  }

  lemma {:induction false} LoadBoardBound(regs: nat, prog: seq<Insn>)
    requires ValidProgram(prog, regs)
    ensures forall r: nat :: r < regs ==> LoadBoard(regs, prog)[r] <= |prog| + 2
    ensures forall r: nat :: r < regs && r != 0 ==>
              (LoadBoard(regs, prog)[r] == |prog| + 2 <==> prog != [] && prog[|prog| - 1].load && prog[|prog| - 1].Writes(r))
  {
    if prog != [] { LoadBoardBound(regs, prog[..|prog| - 1]); }
  }

  lemma {:induction false} FreshLatencies(regs: nat, prog: seq<Insn>)
    requires ValidProgram(prog, regs)
    ensures forall r: nat :: r < regs && r != 0 ==>
              (Board(Q2, regs, prog)[r] == |prog| + 3
               <==> prog != [] && Latency(Q2, prog[|prog| - 1]) == 3 && prog[|prog| - 1].Writes(r))
  {
    if prog != [] {
      var before := prog[..|prog| - 1];
      BoardBound(Q2, regs, before);
      StallRange(Q2, Board(Q2, regs, before), |prog|, prog[|prog| - 1], 3);
    }
  }

  /** A maximum reaches its bound exactly when some operand does. */
  lemma {:induction false} StallTwo(m: Model, ready: seq<int>, now: int, insn: Insn, k: nat)
    requires insn.Valid(|ready|) && k <= 3
    requires forall r: nat :: r < |ready| ==> ready[r] <= now + 2
    ensures StallUpTo(m, ready, now, insn, k) == 2
            <==> exists i: nat :: i < k && Checked(m, insn, i) && ready[insn.ins[i]] == now + 2
  {
    StallRange(m, ready, now, insn, k);
    if k > 0 {
      StallTwo(m, ready, now, insn, k - 1);
    }
  }

  /** What the two scoreboards say about the last instruction. */
  lemma LastPair(regs: nat, prog: seq<Insn>)
    requires ValidProgram(prog, regs) && prog != []
    ensures var n, before, insn := |prog|, prog[..|prog| - 1], prog[|prog| - 1];
            && (n == 1 ==> !LoadUse(LoadBoard(regs, before), n, insn) && LastStall(Q2, regs, prog) != 2)
            && (n > 1 ==> (LoadUse(LoadBoard(regs, before), n, insn) <==> prog[n - 2].load && Feeds(prog[n - 2], insn)))
            && (n > 1 ==> (LastStall(Q2, regs, prog) == 2 <==> Latency(Q2, prog[n - 2]) == 3 && Feeds(prog[n - 2], insn)))
  {
    var n, before, insn := |prog|, prog[..|prog| - 1], prog[|prog| - 1];
    BoardBound(Q2, regs, before);
    FreshLatencies(regs, before);
    LoadBoardBound(regs, before);
    StallTwo(Q2, Board(Q2, regs, before), n, insn, 3);
    if n > 1 {
      assert prog[n - 2] == before[n - 2];
    } else {
      assert before == [];
    }
  }

  /** Two scoreboards with different latencies, only one of them shifted, agree on load-use
      hazards up to the feeds from opcodes that are both load and store. */
  lemma {:induction false} LoadUseMatchesTwoCycleStalls(regs: nat, prog: seq<Insn>)
    requires ValidProgram(prog, regs)
    ensures LoadUseCount(regs, prog) == StallCount(Q2, regs, prog, 2) + MixedFeeds(prog)
  {
    if prog != [] {
      LoadUseMatchesTwoCycleStalls(regs, prog[..|prog| - 1]);
      LastPair(regs, prog);
    }
  }

  /** The two counters are equal exactly when no such feed occurs in the run. */
  lemma LoadUseEqualsTwoCycleIff(regs: nat, prog: seq<Insn>)
    requires ValidProgram(prog, regs)
    ensures LoadUseCount(regs, prog) == StallCount(Q2, regs, prog, 2) <==> forall i :: !MixedFeedAt(prog, i)
  {
    LoadUseMatchesTwoCycleStalls(regs, prog);
    MixedFeedsZero(prog);
  }

  /** So they are for instruction sets in which no opcode both loads and stores ... */
  lemma LoadUseEqualsTwoCycle(regs: nat, prog: seq<Insn>)
    requires ValidProgram(prog, regs) && forall i :: 0 <= i < |prog| ==> !(prog[i].load && prog[i].store)
    ensures LoadUseCount(regs, prog) == StallCount(Q2, regs, prog, 2)
  {
    LoadUseEqualsTwoCycleIff(regs, prog);
  }

  /** ... and they differ in the shortest run with one that does and feeds its successor. */
  lemma MixedFeedDiffers(regs: nat, x: Insn, y: Insn)
    requires x.Valid(regs) && y.Valid(regs) && x.load && x.store && Feeds(x, y)
    ensures LoadUseCount(regs, [x, y]) == StallCount(Q2, regs, [x, y], 2) + 1
  {
    var prog := [x, y];
    assert prog[..1] == [x] && [x][..0] == [];
    assert MixedFeeds([x]) == 0 && MixedFeedAt(prog, 1);
    LoadUseMatchesTwoCycleStalls(regs, prog);
  }

  lemma {:induction false} MixedFeedsZero(prog: seq<Insn>)
    ensures MixedFeeds(prog) == 0 <==> forall i :: !MixedFeedAt(prog, i)
  {
    if prog != [] {
      var n := |prog| - 1;
      var before := prog[..n];
      MixedFeedsZero(before);
      assert forall i :: 0 <= i < n ==> before[i] == prog[i];
      assert forall i :: i < n ==> (MixedFeedAt(before, i) <==> MixedFeedAt(prog, i));
    }
  }

  // --------------------------------------------------- which stalls there are, in numbers

  /** The instruction has register `r` as an output. */
  ghost predicate Gives(x: Insn, r: nat)
    requires |x.outs| == 2
  {
    r != 0 && (x.outs[0] == r || x.outs[1] == r)
  }

  /** It waits for its operand `i`; with forwarding not for the datum of a store. */
  ghost predicate Needs(m: Model, y: Insn, i: nat)
    requires i < |y.ins|
  {
    y.ins[i] != 0 && (m == Q1 || i > 0 || !y.store)
  }

  /** `y` waits for a result of `x`, which stands right before it. */
  ghost predicate From(m: Model, x: Insn, y: Insn)
    requires |x.outs| == 2 && |y.ins| == 3
  {
    exists i: nat :: i < 3 && Needs(m, y, i) && Gives(x, y.ins[i])
  }

  /** `y` waits for a result of `w` that `x`, which stands between them, does not overwrite. */
  ghost predicate FromEarlier(m: Model, w: Insn, x: Insn, y: Insn)
    requires |w.outs| == 2 && |x.outs| == 2 && |y.ins| == 3
  {
    exists i: nat :: i < 3 && Needs(m, y, i) && Gives(w, y.ins[i]) && !Gives(x, y.ins[i])
  }

  lemma {:induction false} StallIs(m: Model, ready: seq<int>, now: int, insn: Insn, k: nat, d: nat)
    requires insn.Valid(|ready|) && k <= 3
    requires forall i: nat :: i < k && Checked(m, insn, i) ==> ready[insn.ins[i]] - now <= d
    requires d == 0 || exists i: nat :: i < k && Checked(m, insn, i) && ready[insn.ins[i]] - now == d
    ensures StallUpTo(m, ready, now, insn, k) == d
  {
    if k > 0 {
      var last := ready[insn.ins[k - 1]] - now;
      if Checked(m, insn, k - 1) && last == d && d > 0 {
        StallAtMost(m, ready, now, insn, k - 1, d);
      } else {
        StallIs(m, ready, now, insn, k - 1, d);
      }
    }
  }

  lemma {:induction false} StallAtMost(m: Model, ready: seq<int>, now: int, insn: Insn, k: nat, d: nat)
    requires insn.Valid(|ready|) && k <= 3
    requires forall i: nat :: i < k && Checked(m, insn, i) ==> ready[insn.ins[i]] - now <= d
    ensures 0 <= StallUpTo(m, ready, now, insn, k) <= d
  {
    if k > 0 { StallAtMost(m, ready, now, insn, k - 1, d); }
  }

  lemma WritesIsGives(x: Insn, r: nat)
    requires |x.outs| == 2
    ensures x.Writes(r) <==> Gives(x, r)
  {
  }

  /** What one instruction does to the ready time of a register. */
  lemma ReadyStep(m: Model, regs: nat, prog: seq<Insn>, r: nat)
    requires ValidProgram(prog, regs) && prog != [] && 0 < r < regs
    ensures var n, was := |prog|, Board(m, regs, prog[..|prog| - 1])[r];
            Board(m, regs, prog)[r] ==
            if Gives(prog[n - 1], r) then n + Latency(m, prog[n - 1])
            else if was > n then was - LastStall(m, regs, prog) else was
  {
    WritesIsGives(prog[|prog| - 1], r);
  }

  /** When a register will be ready, by who wrote it last. */
  lemma PendingTimes(m: Model, regs: nat, prog: seq<Insn>, r: nat)
    requires ValidProgram(prog, regs) && prog != [] && 0 < r < regs
    ensures var n, ready := |prog|, Board(m, regs, prog)[r];
            && (Gives(prog[n - 1], r) ==> ready == n + Latency(m, prog[n - 1]))
            && (!Gives(prog[n - 1], r) && n > 1 && Gives(prog[n - 2], r) ==>
                  var v := n - 1 + Latency(m, prog[n - 2]); ready == if v > n then v - LastStall(m, regs, prog) else v)
            && (!Gives(prog[n - 1], r) && (n == 1 || !Gives(prog[n - 2], r)) ==> ready <= n + 1)
  {
    var n := |prog|;
    var before := prog[..n - 1];
    ReadyStep(m, regs, prog, r);
    StallInRange(m, regs, prog, r);
    if n > 1 {
      assert before[n - 2] == prog[n - 2];
      ReadyStep(m, regs, before, r);
      StallInRange(m, regs, before, r);
    }
  }

  lemma StallInRange(m: Model, regs: nat, prog: seq<Insn>, r: nat)
    requires ValidProgram(prog, regs) && prog != [] && r < regs
    ensures 0 <= LastStall(m, regs, prog) <= 2
    ensures Board(m, regs, prog[..|prog| - 1])[r] <= |prog| + 2
  {
    BoardBound(m, regs, prog[..|prog| - 1]);
    StallRange(m, Board(m, regs, prog[..|prog| - 1]), |prog|, prog[|prog| - 1], 3);
  }

  /** How long the last instruction of any run waits.  Without forwarding: two cycles for the instruction
      right before it, one for the one before that unless the instruction between waited itself. */
  lemma StallsWithoutForwarding(regs: nat, prog: seq<Insn>)
    requires ValidProgram(prog, regs) && prog != []
    ensures var n, y := |prog|, prog[|prog| - 1];
            LastStall(Q1, regs, prog) ==
            if n > 1 && From(Q1, prog[n - 2], y) then 2
            else if n > 2 && FromEarlier(Q1, prog[n - 3], prog[n - 2], y) && LastStall(Q1, regs, prog[..n - 1]) == 0 then 1
            else 0
  {
    StallsByRule(Q1, regs, prog);
  }

  /** With forwarding: two cycles for a load right before it, one for another instruction that is no
      store, none for a store; one for a load before that unless the instruction between waited. */
  lemma StallsWithForwarding(regs: nat, prog: seq<Insn>)
    requires ValidProgram(prog, regs) && prog != []
    ensures var n, y := |prog|, prog[|prog| - 1];
            LastStall(Q2, regs, prog) ==
            if n > 1 && From(Q2, prog[n - 2], y) && !prog[n - 2].store then (if prog[n - 2].load then 2 else 1)
            else if && n > 2 && FromEarlier(Q2, prog[n - 3], prog[n - 2], y) && prog[n - 3].load && !prog[n - 3].store
                    && LastStall(Q2, regs, prog[..n - 1]) == 0 then 1
            else 0
  {
    StallsByRule(Q2, regs, prog);
  }

  /** The same for both, by latencies. */
  ghost function RuleStall(m: Model, regs: nat, prog: seq<Insn>): nat
    requires ValidProgram(prog, regs) && prog != []
  {
    var n, y := |prog|, prog[|prog| - 1];
    if n > 1 && From(m, prog[n - 2], y) && Latency(m, prog[n - 2]) > 1 then Latency(m, prog[n - 2]) - 1
    else if && n > 2 && FromEarlier(m, prog[n - 3], prog[n - 2], y) && Latency(m, prog[n - 3]) == 3
            && LastStall(m, regs, prog[..n - 1]) == 0 then 1
    else 0
  }

  lemma StallsByRule(m: Model, regs: nat, prog: seq<Insn>)
    requires ValidProgram(prog, regs) && prog != []
    ensures LastStall(m, regs, prog) == RuleStall(m, regs, prog)
  {
    var n, y, d := |prog|, prog[|prog| - 1], RuleStall(m, regs, prog);
    var ready := Board(m, regs, prog[..n - 1]);
    forall i: nat | i < 3 && Checked(m, y, i) ensures ready[y.ins[i]] - n <= d {
      RuleCovers(m, regs, prog, i);
    }
    if d > 0 {
      var i := RuleReached(m, regs, prog);
      assert Checked(m, y, i) && ready[y.ins[i]] - n == d;
    }
    StallIs(m, ready, n, y, 3, d);
  }

  /** No operand takes longer than the rule says ... */
  lemma RuleCovers(m: Model, regs: nat, prog: seq<Insn>, i: nat)
    requires ValidProgram(prog, regs) && prog != [] && i < 3 && Checked(m, prog[|prog| - 1], i)
    ensures Board(m, regs, prog[..|prog| - 1])[prog[|prog| - 1].ins[i]] - |prog| <= RuleStall(m, regs, prog)
  {
    var n, before, y := |prog|, prog[..|prog| - 1], prog[|prog| - 1];
    assert Needs(m, y, i);
    if n > 1 {
      assert before[n - 2] == prog[n - 2] && (n > 2 ==> before[n - 3] == prog[n - 3]);
      StallInRange(m, regs, before, y.ins[i]);
      PendingTimes(m, regs, before, y.ins[i]);
    }
  }

  /** ... and one takes that long. */
  lemma RuleReached(m: Model, regs: nat, prog: seq<Insn>) returns (i: nat)
    requires ValidProgram(prog, regs) && prog != [] && RuleStall(m, regs, prog) > 0
    ensures i < 3 && Checked(m, prog[|prog| - 1], i)
    ensures Board(m, regs, prog[..|prog| - 1])[prog[|prog| - 1].ins[i]] - |prog| == RuleStall(m, regs, prog)
  {
    var n, before, y := |prog|, prog[..|prog| - 1], prog[|prog| - 1];
    assert before[n - 2] == prog[n - 2] && (n > 2 ==> before[n - 3] == prog[n - 3]);
    if From(m, prog[n - 2], y) && Latency(m, prog[n - 2]) > 1 {
      i :| i < 3 && Needs(m, y, i) && Gives(prog[n - 2], y.ins[i]);
    } else {
      i :| i < 3 && Needs(m, y, i) && Gives(prog[n - 3], y.ins[i]) && !Gives(prog[n - 2], y.ins[i]);
    }
    PendingTimes(m, regs, before, y.ins[i]);
  }

  /** A load-use hazard is counted exactly if the instruction before is a load that the last one waits for. */
  lemma LoadUseMeans(regs: nat, prog: seq<Insn>)
    requires ValidProgram(prog, regs) && prog != []
    ensures var n, y := |prog|, prog[|prog| - 1];
            LoadUse(LoadBoard(regs, prog[..n - 1]), n, y) <==> n > 1 && prog[n - 2].load && From(Q2, prog[n - 2], y)
  {
    var n, y := |prog|, prog[|prog| - 1];
    LastPair(regs, prog);
    if n > 1 {
      var x := prog[n - 2];
      if From(Q2, x, y) {
        var i: nat :| i < 3 && Needs(Q2, y, i) && Gives(x, y.ins[i]);
        assert Checked(Q2, y, i) && x.Writes(y.ins[i]);
      }
      if Feeds(x, y) {
        var i: nat :| i < 3 && Checked(Q2, y, i) && x.Writes(y.ins[i]);
        assert Needs(Q2, y, i) && Gives(x, y.ins[i]);
      }
    }
  }

  // ------------------------------------------------------------- the simulator's state

  /** One ready-time table with its counters; sim-safe keeps one per model. */
  class Scoreboard {
    const m: Model
    const regs: nat
    const ready: array<int>
    var hazards: nat
    var oneCycle: nat
    var twoCycle: nat

    /** The table and the counters are those of the run `trace`. */
    ghost predicate Valid(trace: seq<Insn>)
      reads this, ready
    {
      && ValidProgram(trace, regs)
      && ready[..] == Board(m, regs, trace)
      && hazards == HazardCount(m, regs, trace)
      && oneCycle == StallCount(m, regs, trace, 1)
      && twoCycle == StallCount(m, regs, trace, 2)
    }

    constructor (m: Model, regs: nat)
      ensures Valid([]) && this.m == m && this.regs == regs && fresh(ready)
    {
      this.m, this.regs := m, regs;
      hazards, oneCycle, twoCycle := 0, 0, 0;
      ready := new int[regs](_ => 0);
    }

    method Execute(insn: Insn, now: nat, ghost before: seq<Insn>)
      requires Valid(before) && insn.Valid(regs) && now == |before| + 1
      modifies this, ready
      ensures Valid(before + [insn])
    {
      ghost var trace := before + [insn];
      assert trace[..|trace| - 1] == before;
      var stall := Charge(m, ready, now, insn);
      if stall > 0 { hazards := hazards + 1; }
      if stall == 1 { oneCycle := oneCycle + 1; }
      if stall == 2 { twoCycle := twoCycle + 1; }
    }
  }

  /** The hazard state of sim-safe; `trace` is the instruction history it summarises. */
  class HazardCounters {
    const regs: nat
    const loadReady: array<int>
    const q1: Scoreboard
    const q2: Scoreboard
    var numInsn: nat
    var numLoadUse: nat
    ghost var trace: seq<Insn>

    ghost predicate Valid()
      reads this, loadReady, q1, q1.ready, q2, q2.ready
    {
      && q1 != q2 && loadReady != q1.ready && loadReady != q2.ready && q1.ready != q2.ready
      && q1.m == Q1 && q2.m == Q2 && q1.regs == q2.regs == regs
      && ValidProgram(trace, regs)
      && numInsn == |trace|
      && loadReady[..] == LoadBoard(regs, trace)
      && numLoadUse == LoadUseCount(regs, trace)
      && q1.Valid(trace) && q2.Valid(trace)
    }

    constructor (regs: nat)
      ensures Valid() && this.regs == regs && trace == []
      ensures fresh(loadReady) && fresh(q1) && fresh(q1.ready) && fresh(q2) && fresh(q2.ready)
    {
      this.regs := regs;
      numInsn, numLoadUse, trace := 0, 0, [];
      loadReady := new int[regs](_ => 0);
      q1 := new Scoreboard(Q1, regs);
      q2 := new Scoreboard(Q2, regs);
    }

    /** One trip round the hazard blocks of the main loop. */
    method Execute(insn: Insn)
      requires Valid() && insn.Valid(regs)
      modifies this, loadReady, q1, q1.ready, q2, q2.ready
      ensures Valid() && trace == old(trace) + [insn]
    {
      ghost var before := trace;
      numInsn := numInsn + 1;
      var used := CheckLoadUse(loadReady, numInsn, insn);
      if used { numLoadUse := numLoadUse + 1; }
      if insn.load { Mark(loadReady, insn, numInsn + 2); }
      q1.Execute(insn, numInsn, before);
      q2.Execute(insn, numInsn, before);
      trace := before + [insn];
      assert trace[..|trace| - 1] == before;
    }

    /** What every reachable state reports, for every program. */
    lemma Reported()
      requires Valid()
      ensures q1.hazards == q1.oneCycle + q1.twoCycle && q2.hazards == q2.oneCycle + q2.twoCycle
      ensures q2.oneCycle + 2 * q2.twoCycle <= q1.oneCycle + 2 * q1.twoCycle
      ensures numLoadUse == q2.twoCycle <==> forall i :: !MixedFeedAt(trace, i)
      ensures numInsn > 0 ==> CPI(numInsn, q1.oneCycle, q1.twoCycle) == PerInsn(Cycle(Q1, regs, trace), numInsn)
      ensures numInsn > 0 ==> CPI(numInsn, q2.oneCycle, q2.twoCycle) == PerInsn(Cycle(Q2, regs, trace), numInsn)
    {
      StallConservation(Q1, regs, trace);
      StallConservation(Q2, regs, trace);
      ForwardingNeverHurts(regs, trace);
      LoadUseEqualsTwoCycleIff(regs, trace);
      if trace != [] {
        CPIMeasuresCycles(Q1, regs, trace);
        CPIMeasuresCycles(Q2, regs, trace);
      }
    }
  }

  /** The load-use loop: skips the datum of a store, stops at the first late operand. */
  method CheckLoadUse(ready: array<int>, now: int, insn: Insn) returns (used: bool)
    requires insn.Valid(ready.Length)
    ensures used == LoadUse(ready[..], now, insn)
  {
    var i := 0;
    while i < 3
      invariant 0 <= i <= 3
      invariant forall j: nat :: j < i ==> !(Checked(Q2, insn, j) && ready[insn.ins[j]] > now)
    {
      if insn.ins[i] != 0 && ready[insn.ins[i]] > now {
        if !(i == 0 && insn.store) {
          assert Checked(Q2, insn, i);
          return true;
        }
      }
      i := i + 1;
    }
    return false;
  }

  /** Finds the longest wait, shifts every pending ready time by it, then marks the outputs. */
  method Charge(m: Model, ready: array<int>, now: int, insn: Insn) returns (stall: int)
    requires insn.Valid(ready.Length)
    modifies ready
    ensures stall == Stall(m, old(ready[..]), now, insn)
    ensures ready[..] == MarkOutputs(Shift(old(ready[..]), now, stall), insn, now + Latency(m, insn))
  {
    stall := 0;
    var i := 0;
    while i < 3
      invariant 0 <= i <= 3
      invariant ready[..] == old(ready[..])
      invariant stall == StallUpTo(m, ready[..], now, insn, i)
    {
      if insn.ins[i] != 0 && ready[insn.ins[i]] > now {
        if !(m == Q2 && i == 0 && insn.store) && ready[insn.ins[i]] - now > stall {
          stall := ready[insn.ins[i]] - now;
        }
      }
      i := i + 1;
    }
    var r := 0;
    while r < ready.Length
      invariant 0 <= r <= ready.Length
      invariant forall k :: 0 <= k < r ==> ready[k] == Shift(old(ready[..]), now, stall)[k]
      invariant forall k :: r <= k < ready.Length ==> ready[k] == old(ready[k])
    {
      if ready[r] > now { ready[r] := ready[r] - stall; }
      r := r + 1;
    }
    Mark(ready, insn, now + Latency(m, insn));
    assert ready[..] == MarkOutputs(Shift(old(ready[..]), now, stall), insn, now + Latency(m, insn));
  }

  method Mark(ready: array<int>, insn: Insn, at: int)
    requires insn.Valid(ready.Length)
    modifies ready
    ensures ready[..] == MarkOutputs(old(ready[..]), insn, at)
  {
    if insn.outs[0] != 0 { ready[insn.outs[0]] := at; }
    if insn.outs[1] != 0 { ready[insn.outs[1]] := at; }
  }
}
