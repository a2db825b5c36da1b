/**
 The event queue: pending events in a list sorted by time, spent descriptors in a free
 list.  First what the queue is meant to do, as a machine on values; then the linked
 lists, proved to do just that.
 */
module EventQueue {
  import opened Basics

  // -------------------------------------------------------------------------- events

  datatype Action =
    | SetBit(bmap: nat, bit: nat)
    | ClearBit(bmap: nat, bit: nat)
    | SetFlag(flag: nat, value: int)
    | AddOp(summand: nat, addend: int)
    | Callback(fn: nat, arg: int)

  datatype Event = Event(when: int, id: nat, action: Action)

  /** What actions act upon: bitmaps, integers, and the callbacks made so far. */
  datatype World = World(bits: map<(nat, nat), bool>, cells: map<nat, int>, calls: seq<(nat, int, int)>) {
    function Cell(c: nat): int { if c in cells then cells[c] else 0 }

    function Do(a: Action, now: int): World {
      match a
      case SetBit(bmap, bit) => this.(bits := bits[(bmap, bit) := true])
      case ClearBit(bmap, bit) => this.(bits := bits[(bmap, bit) := false])
      case SetFlag(flag, value) => this.(cells := cells[flag := value])
      case AddOp(c, addend) => this.(cells := cells[c := Cell(c) + addend])
      case Callback(fn, arg) => this.(calls := calls + [(fn, now, arg)])
    }
  }

  /** An event that was executed, with the time its action was told. */
  datatype Firing = Firing(event: Event, now: int)

  function Effects(w: World, fired: seq<Firing>): World {
    if fired == [] then w
    else
      var last := fired[|fired| - 1];
      Effects(w, fired[..|fired| - 1]).Do(last.event.action, last.now)
  }

  // --------------------------------------------------------------- the abstract queue

  /** `peak` is the largest number of events that were ever pending at once. */
  datatype State = State(pending: seq<Event>, nextId: nat, fired: seq<Firing>, cancelled: seq<Event>, peak: nat)

  const START := State([], 1, [], [], 0)

  /** How many of the first events are earlier than `when`. */
  function Position(q: seq<Event>, when: int): (k: nat)
    ensures k <= |q| && (k < |q| ==> q[k].when >= when)
    ensures forall i :: 0 <= i < k ==> q[i].when < when
  {
    if q == [] || q[0].when >= when then 0 else 1 + Position(q[1..], when)
  }

  /** How many of the first events are due at `now`. */
  function DueCount(q: seq<Event>, now: int): (k: nat)
    ensures k <= |q| && (k < |q| ==> q[k].when > now)
    ensures forall i :: 0 <= i < k ==> q[i].when <= now
  {
    if q == [] || q[0].when > now then 0 else 1 + DueCount(q[1..], now)
  }

  /** Where the event `id` is first found; the length of `q` if nowhere. */
  function IndexOf(q: seq<Event>, id: nat): (k: nat)
    ensures k <= |q| && (k < |q| ==> q[k].id == id)
    ensures forall i :: 0 <= i < k ==> q[i].id != id
  {
    if q == [] || q[0].id == id then 0 else 1 + IndexOf(q[1..], id)
  }

  function InsertAt<T>(q: seq<T>, k: nat, x: T): seq<T>
    requires k <= |q|
  {
    q[..k] + [x] + q[k..]
  }

  function RemoveAt<T>(q: seq<T>, k: nat): seq<T>
    requires k < |q|
  {
    q[..k] + q[k + 1..]
  }

  function FiringsAt(events: seq<Event>, now: int): (fs: seq<Firing>)
    ensures |fs| == |events| && forall i :: 0 <= i < |fs| ==> fs[i] == Firing(events[i], now)
  {
    seq(|events|, i requires 0 <= i < |events| => Firing(events[i], now))
  }

  datatype Op = Queue(when: int, action: Action) | Execute(id: nat) | Remove(id: nat) | Service(now: int)

  /** One operation.  An event executed out of order is told the time 0. */
  function Step(s: State, op: Op): State {
    match op
    case Queue(when, action) =>
      var q := InsertAt(s.pending, Position(s.pending, when), Event(when, s.nextId, action));
      s.(pending := q, nextId := s.nextId + 1, peak := Max(s.peak, |q|))
    case Execute(id) =>
      var k := IndexOf(s.pending, id);
      if k == |s.pending| then s
      else s.(pending := RemoveAt(s.pending, k), fired := s.fired + [Firing(s.pending[k], 0)])
    case Remove(id) =>
      var k := IndexOf(s.pending, id);
      if k == |s.pending| then s
      else s.(pending := RemoveAt(s.pending, k), cancelled := s.cancelled + [s.pending[k]])
    case Service(now) =>
      var k := DueCount(s.pending, now);
      s.(pending := s.pending[k..], fired := s.fired + FiringsAt(s.pending[..k], now))
  }

  function Run(ops: seq<Op>): State {
    if ops == [] then START else Step(Run(ops[..|ops| - 1]), ops[|ops| - 1])
  }

  // ------------------------------------------------------------------ every run keeps

  /** By time, and among equal times the latest-queued first. */
  predicate Before(a: Event, b: Event) { a.when < b.when || (a.when == b.when && a.id > b.id) }

  ghost predicate Ordered(q: seq<Event>) {
    forall i, j :: 0 <= i < j < |q| ==> Before(q[i], q[j])
  }

  /** Pending events are ordered and were given ids in turn. */
  ghost predicate Consistent(s: State) {
    s.nextId > 0 && Ordered(s.pending) && IdsBelow(s.pending, s.nextId)
  }

  ghost predicate IdsBelow(q: seq<Event>, n: nat) { forall i :: 0 <= i < |q| ==> 0 < q[i].id < n }

  lemma InsertKeepsOrder(q: seq<Event>, e: Event)
    requires Ordered(q) && forall i :: 0 <= i < |q| ==> q[i].id < e.id
    ensures Ordered(InsertAt(q, Position(q, e.when), e))
  {
    var k := Position(q, e.when);
    InsertedAt(q, k, e);
    forall i, j | 0 <= i < j <= |q| ensures Before(Inserted(q, k, e, i), Inserted(q, k, e, j)) {
      if i == k {
        assert j - 1 == k || Before(q[k], q[j - 1]);
      } else if j != k {
        assert Before(q[if i < k then i else i - 1], q[if j < k then j else j - 1]);
      }
    }
  }

  /** What is at place `i` after an insertion at `k`. */
  function Inserted(q: seq<Event>, k: nat, e: Event, i: nat): Event
    requires k <= |q| && i <= |q|
  {
    if i < k then q[i] else if i == k then e else q[i - 1]
  }

  lemma InsertedAt(q: seq<Event>, k: nat, e: Event)
    requires k <= |q|
    ensures |InsertAt(q, k, e)| == |q| + 1
    ensures forall i :: 0 <= i <= |q| ==> InsertAt(q, k, e)[i] == Inserted(q, k, e, i)
  {
  }

  lemma RemoveKeepsOrder(q: seq<Event>, k: nat)
    requires Ordered(q) && k < |q|
    ensures Ordered(RemoveAt(q, k))
    ensures forall n :: IdsBelow(q, n) ==> IdsBelow(RemoveAt(q, k), n)
  {
    var r := RemoveAt(q, k);
    forall i, j | 0 <= i < j < |r| ensures Before(r[i], r[j]) {
      assert Before(q[if i < k then i else i + 1], q[if j < k then j else j + 1]);
    }
    assert forall i :: 0 <= i < |r| ==> r[i] == q[if i < k then i else i + 1];
  }

  lemma StepConsistent(s: State, op: Op)
    requires Consistent(s)
    ensures Consistent(Step(s, op))
  {
    match op
    case Queue(when, action) => InsertKeepsOrder(s.pending, Event(when, s.nextId, action));
    case Service(_) =>
    case _ =>
      var k := IndexOf(s.pending, op.id);
      if k < |s.pending| { RemoveKeepsOrder(s.pending, k); }
  }

  /** In every reachable state the pending list is sorted. */
  lemma {:induction false} RunConsistent(ops: seq<Op>)
    ensures Consistent(Run(ops))
  {
    if ops != [] {
      RunConsistent(ops[..|ops| - 1]);
      StepConsistent(Run(ops[..|ops| - 1]), ops[|ops| - 1]);
    }
  }

  /** The events queued in a run. */
  function Queued(ops: seq<Op>): seq<Event> {
    if ops == [] then []
    else
      var n := |ops| - 1;
      match ops[n]
      case Queue(when, action) => Queued(ops[..n]) + [Event(when, Run(ops[..n]).nextId, action)]
      case _ => Queued(ops[..n])
  }

  function EventsOf(fired: seq<Firing>): (es: seq<Event>)
    ensures |es| == |fired| && forall i :: 0 <= i < |es| ==> es[i] == fired[i].event
  {
    seq(|fired|, i requires 0 <= i < |fired| => fired[i].event)
  }

  lemma EventsAppend(x: seq<Firing>, y: seq<Firing>)
    ensures EventsOf(x + y) == EventsOf(x) + EventsOf(y)
  {
  }

  lemma Removal(q: seq<Event>, k: nat)
    requires k < |q|
    ensures multiset(RemoveAt(q, k)) + multiset{q[k]} == multiset(q)
  {
    assert q == q[..k] + [q[k]] + q[k + 1..];
  }

  lemma Insertion(q: seq<Event>, k: nat, e: Event)
    requires k <= |q|
    ensures multiset(InsertAt(q, k, e)) == multiset(q) + multiset{e}
  {
    assert q == q[..k] + q[k..];
  }

  /** Where an event can be. */
  ghost function Everything(s: State): multiset<Event> {
    multiset(s.pending) + multiset(EventsOf(s.fired)) + multiset(s.cancelled)
  }

  lemma FiredMore(s: State, es: seq<Event>, now: int)
    ensures multiset(EventsOf(s.fired + FiringsAt(es, now))) == multiset(EventsOf(s.fired)) + multiset(es)
  {
    EventsAppend(s.fired, FiringsAt(es, now));
    assert EventsOf(FiringsAt(es, now)) == es;
  }

  lemma StepConserves(s: State, op: Op)
    ensures Everything(Step(s, op))
            == Everything(s) + if op.Queue? then multiset{Event(op.when, s.nextId, op.action)} else multiset{}
  {
    match op
    case Queue(when, action) =>
      Insertion(s.pending, Position(s.pending, when), Event(when, s.nextId, action));
    case Service(now) => ServiceConserves(s, now);
    case _ => RemovalConserves(s, op.id);
  }

  lemma ServiceConserves(s: State, now: int)
    ensures Everything(Step(s, Service(now))) == Everything(s)
  {
    var k := DueCount(s.pending, now);
    FiredMore(s, s.pending[..k], now);
    Cut(s.pending, k);
  }

  lemma RemovalConserves(s: State, id: nat)
    ensures Everything(Step(s, Execute(id))) == Everything(s) == Everything(Step(s, Remove(id)))
  {
    var k := IndexOf(s.pending, id);
    if k < |s.pending| {
      Removal(s.pending, k);
      FiredMore(s, [s.pending[k]], 0);
      assert FiringsAt([s.pending[k]], 0) == [Firing(s.pending[k], 0)];
    }
  }

  lemma Cut(q: seq<Event>, k: nat)
    requires k <= |q|
    ensures multiset(q[..k]) + multiset(q[k..]) == multiset(q)
  {
    assert q == q[..k] + q[k..];
  }

  /** Ids are given in turn, so no two events are the same. */
  lemma {:induction false} QueuedInTurn(ops: seq<Op>)
    ensures forall i :: 0 <= i < |Queued(ops)| ==> Queued(ops)[i].id < Run(ops).nextId
    ensures forall i, j :: 0 <= i < j < |Queued(ops)| ==> Queued(ops)[i].id < Queued(ops)[j].id
  {
    if ops != [] { QueuedInTurn(ops[..|ops| - 1]); }
  }

  lemma {:induction false} NoneTwice(q: seq<Event>)
    requires forall i, j :: 0 <= i < j < |q| ==> q[i].id < q[j].id
    ensures forall e :: multiset(q)[e] <= 1
  {
    if q != [] {
      var n := |q| - 1;
      NoneTwice(q[..n]);
      assert q == q[..n] + [q[n]];
      assert forall i :: 0 <= i < n ==> q[..n][i] != q[n];
      assert q[n] !in q[..n];
    }
  }

  /** No event is lost, and none fires twice: what was queued, each event with an id of its own,
      is pending, fired or cancelled, and only one of these and only once. */
  lemma {:induction false} EveryEventOnce(ops: seq<Op>)
    ensures Everything(Run(ops)) == multiset(Queued(ops))
    ensures forall i, j :: 0 <= i < j < |Queued(ops)| ==> Queued(ops)[i].id < Queued(ops)[j].id
    ensures forall e :: Everything(Run(ops))[e] <= 1
  {
    QueuedInTurn(ops);
    NoneTwice(Queued(ops));
    Conserved(ops);
  }

  lemma {:induction false} Conserved(ops: seq<Op>)
    ensures Everything(Run(ops)) == multiset(Queued(ops))
  {
    if ops != [] {
      Conserved(ops[..|ops| - 1]);
      StepConserves(Run(ops[..|ops| - 1]), ops[|ops| - 1]);
    }
  }

  /** `peak` is the high-water mark: no state of the run had more events pending ... */
  lemma {:induction false} PeakBounds(ops: seq<Op>, i: nat)
    requires i <= |ops|
    ensures |Run(ops[..i]).pending| <= Run(ops).peak
  {
    var n := |ops|;
    if i == n {
      assert ops[..n] == ops;
      PeakCovers(ops);
    } else {
      PeakBounds(ops[..n - 1], i);
      assert ops[..n - 1][..i] == ops[..i];
      StepPeak(Run(ops[..n - 1]), ops[n - 1]);
    }
  }

  lemma StepPeak(s: State, op: Op)
    ensures s.peak <= Step(s, op).peak
    ensures |s.pending| <= s.peak ==> |Step(s, op).pending| <= Step(s, op).peak
  {
  }

  lemma {:induction false} PeakCovers(ops: seq<Op>)
    ensures |Run(ops).pending| <= Run(ops).peak
  {
    if ops != [] {
      PeakCovers(ops[..|ops| - 1]);
      StepPeak(Run(ops[..|ops| - 1]), ops[|ops| - 1]);
    }
  }

  /** ... and one state had that many. */
  lemma {:induction false} PeakReached(ops: seq<Op>) returns (i: nat)
    ensures i <= |ops| && |Run(ops[..i]).pending| == Run(ops).peak
  {
    var n := |ops|;
    i := n;
    assert ops[..n] == ops;
    if n > 0 && Run(ops).peak == Run(ops[..n - 1]).peak {
      i := PeakReached(ops[..n - 1]);
      assert ops[..n - 1][..i] == ops[..i];
    }
  }

  // ------------------------------------------------------------ what becomes of an event

  ghost predicate DistinctIds(q: seq<Event>) { forall i, j :: 0 <= i < j < |q| ==> q[i].id != q[j].id }

  /** No two pending events have the same id. */
  lemma {:induction false} RunDistinct(ops: seq<Op>)
    ensures DistinctIds(Run(ops).pending)
  {
    if ops != [] {
      var s, op := Run(ops[..|ops| - 1]), ops[|ops| - 1];
      RunDistinct(ops[..|ops| - 1]);
      RunConsistent(ops[..|ops| - 1]);
      match op
      case Queue(when, action) => InsertedDistinct(s.pending, Position(s.pending, when), Event(when, s.nextId, action));
      case Service(_) =>
      case _ =>
        var k := IndexOf(s.pending, op.id);
        if k < |s.pending| { RemovedDistinct(s.pending, k); }
    }
  }

  lemma InsertedDistinct(q: seq<Event>, k: nat, e: Event)
    requires DistinctIds(q) && IdsBelow(q, e.id) && k <= |q|
    ensures DistinctIds(InsertAt(q, k, e))
  {
    InsertedAt(q, k, e);
    forall i, j | 0 <= i < j <= |q| ensures Inserted(q, k, e, i).id != Inserted(q, k, e, j).id {
      if i != k && j != k { assert q[if i < k then i else i - 1].id != q[if j < k then j else j - 1].id; }
    }
  }

  lemma RemovedDistinct(q: seq<Event>, k: nat)
    requires DistinctIds(q) && k < |q|
    ensures DistinctIds(RemoveAt(q, k))
    ensures forall e :: e in RemoveAt(q, k) <==> e in q && e.id != q[k].id
  {
    var r := RemoveAt(q, k);
    assert forall i :: 0 <= i < |r| ==> r[i] == q[if i < k then i else i + 1];
    forall e | e in q && e.id != q[k].id ensures e in r {
      var i :| 0 <= i < |q| && q[i] == e;
      assert r[if i < k then i else i - 1] == e;
    }
    forall e | e in r ensures e in q && e.id != q[k].id {
      var i :| 0 <= i < |r| && r[i] == e;
      assert q[if i < k then i else i + 1] == e;
    }
  }

  /** The operation executes the event, telling it the time `t`. */
  ghost predicate Fires(op: Op, e: Event, t: int) {
    (op == Execute(e.id) && t == 0) || (op == Service(t) && e.when <= t)
  }

  /** What one operation does with one event: only a `Remove` of its id cancels it and only an `Execute`
      of its id or a service at its time or later fires it, if it is pending; else it stays where it is. */
  lemma StepOfEvent(s: State, op: Op, e: Event)
    requires Consistent(s) && DistinctIds(s.pending)
    ensures var s' := Step(s, op);
            && (e in s'.cancelled <==> e in s.cancelled || (e in s.pending && op == Remove(e.id)))
            && (forall t :: Firing(e, t) in s'.fired <==> Firing(e, t) in s.fired || (e in s.pending && Fires(op, e, t)))
            && (e in s'.pending <==>
                  || (e in s.pending && op != Remove(e.id) && op != Execute(e.id) && !(op.Service? && e.when <= op.now))
                  || (op == Queue(e.when, e.action) && e.id == s.nextId))
  {
    match op
    case Queue(when, action) => InsertedEvents(s.pending, Position(s.pending, when), Event(when, s.nextId, action));
    case Service(now) => ServiceOfEvent(s, now, e);
    case _ =>
      var k := IndexOf(s.pending, op.id);
      if k < |s.pending| { RemovedDistinct(s.pending, k); }
      FoundById(s.pending, op.id, e);
  }

  lemma InsertedEvents(q: seq<Event>, k: nat, e: Event)
    requires k <= |q|
    ensures forall x :: x in InsertAt(q, k, e) <==> x in q || x == e
  {
    assert q == q[..k] + q[k..];
  }

  /** Looking for the id of a pending event finds that event. */
  lemma FoundById(q: seq<Event>, id: nat, e: Event)
    requires DistinctIds(q)
    ensures e in q && e.id == id <==> IndexOf(q, id) < |q| && q[IndexOf(q, id)] == e
  {
  }

  lemma ServiceOfEvent(s: State, now: int, e: Event)
    requires Consistent(s)
    ensures var k := DueCount(s.pending, now);
            && (e in s.pending[..k] <==> e in s.pending && e.when <= now)
            && (e in s.pending[k..] <==> e in s.pending && e.when > now)
            && (forall t :: Firing(e, t) in FiringsAt(s.pending[..k], now) <==> e in s.pending[..k] && t == now)
  {
    var q, k := s.pending, DueCount(s.pending, now);
    forall i: nat | i < |q| ensures i < k <==> q[i].when <= now {
      ServiceFiresDue(s, now, i);
    }
    assert q == q[..k] + q[k..];
    if e in q[..k] {
      var i :| 0 <= i < k && q[..k][i] == e;
      assert FiringsAt(q[..k], now)[i] == Firing(e, now);
    }
  }

  /** Operation `i` of the run cancels the event, or fires it telling it the time `t`. */
  ghost predicate CancelsAt(ops: seq<Op>, i: nat, e: Event) {
    i < |ops| && ops[i] == Remove(e.id) && e in Run(ops[..i]).pending
  }

  ghost predicate FiresAt(ops: seq<Op>, i: nat, e: Event, t: int) {
    i < |ops| && Fires(ops[i], e, t) && e in Run(ops[..i]).pending
  }

  ghost predicate Cancels(ops: seq<Op>, e: Event) { exists i: nat :: CancelsAt(ops, i, e) }

  ghost predicate FiresSome(ops: seq<Op>, e: Event, t: int) { exists i: nat :: FiresAt(ops, i, e, t) }

  lemma CancelsStep(ops: seq<Op>, e: Event)
    requires ops != []
    ensures Cancels(ops, e) <==> Cancels(ops[..|ops| - 1], e) || CancelsAt(ops, |ops| - 1, e)
  {
    var less := ops[..|ops| - 1];
    forall i: nat | i < |less| ensures CancelsAt(ops, i, e) <==> CancelsAt(less, i, e) {
      assert less[..i] == ops[..i];
    }
  }

  lemma FiresStep(ops: seq<Op>, e: Event, t: int)
    requires ops != []
    ensures FiresSome(ops, e, t) <==> FiresSome(ops[..|ops| - 1], e, t) || FiresAt(ops, |ops| - 1, e, t)
  {
    var less := ops[..|ops| - 1];
    forall i: nat | i < |less| ensures FiresAt(ops, i, e, t) <==> FiresAt(less, i, e, t) {
      assert less[..i] == ops[..i];
    }
  }

  /** In every run an event was cancelled exactly if a `Remove` found it pending, and was fired, told
      the time `t`, exactly if an `Execute` or a service at `t` found it pending. */
  lemma {:induction false} HistoryOfEvent(ops: seq<Op>, e: Event, t: int)
    ensures e in Run(ops).cancelled <==> Cancels(ops, e)
    ensures Firing(e, t) in Run(ops).fired <==> FiresSome(ops, e, t)
  {
    if ops != [] {
      var less := ops[..|ops| - 1];
      HistoryOfEvent(less, e, t);
      RunConsistent(less);
      RunDistinct(less);
      StepOfEvent(Run(less), ops[|ops| - 1], e);
      CancelsStep(ops, e);
      FiresStep(ops, e, t);
    }
  }

  /** The events of a run are numbered 1, 2, 3 and so on, in the order they were queued. */
  lemma {:induction false} IdsCountUp(ops: seq<Op>)
    ensures Run(ops).nextId == |Queued(ops)| + 1
    ensures forall i :: 0 <= i < |Queued(ops)| ==> Queued(ops)[i].id == i + 1
  {
    if ops != [] { IdsCountUp(ops[..|ops| - 1]); }
  }

  // -------------------------------------------------------------- what the actions do

  predicate OnBit(a: Action, bmap: nat, bit: nat) { a == SetBit(bmap, bit) || a == ClearBit(bmap, bit) }

  predicate OnCell(a: Action, c: nat) { (a.SetFlag? && a.flag == c) || (a.AddOp? && a.summand == c) }

  /** One action changes one bit or one integer, or makes one callback. */
  lemma ActionEffect(w: World, a: Action, now: int)
    ensures a.SetBit? ==> (a.bmap, a.bit) in w.Do(a, now).bits && w.Do(a, now).bits[(a.bmap, a.bit)]
    ensures a.ClearBit? ==> (a.bmap, a.bit) in w.Do(a, now).bits && !w.Do(a, now).bits[(a.bmap, a.bit)]
    ensures a.SetFlag? ==> w.Do(a, now).Cell(a.flag) == a.value
    ensures a.AddOp? ==> w.Do(a, now).Cell(a.summand) == w.Cell(a.summand) + a.addend
    ensures w.Do(a, now).calls == w.calls + if a.Callback? then [(a.fn, now, a.arg)] else []
    ensures forall m: nat, b: nat :: !OnBit(a, m, b) ==>
              && ((m, b) in w.Do(a, now).bits <==> (m, b) in w.bits)
              && ((m, b) in w.bits ==> w.Do(a, now).bits[(m, b)] == w.bits[(m, b)])
    ensures forall c: nat :: !OnCell(a, c) ==> w.Do(a, now).Cell(c) == w.Cell(c)
  {
  }

  /** A bit is as the last event fired on it left it. */
  lemma {:induction false} BitIsLast(w: World, fired: seq<Firing>, bmap: nat, bit: nat, k: nat)
    requires k < |fired| && OnBit(fired[k].event.action, bmap, bit)
    requires forall i :: k < i < |fired| ==> !OnBit(fired[i].event.action, bmap, bit)
    ensures (bmap, bit) in Effects(w, fired).bits && Effects(w, fired).bits[(bmap, bit)] == fired[k].event.action.SetBit?
  {
    var n := |fired| - 1;
    ActionEffect(Effects(w, fired[..n]), fired[n].event.action, fired[n].now);
    if k < n { BitIsLast(w, fired[..n], bmap, bit, k); }
  }

  /** What the events from place `k` on add to an integer. */
  function Added(fired: seq<Firing>, c: nat, k: nat): int
    requires k <= |fired|
    decreases |fired|
  {
    if k == |fired| then 0
    else
      var a := fired[|fired| - 1].event.action;
      Added(fired[..|fired| - 1], c, k) + if a.AddOp? && a.summand == c then a.addend else 0
  }

  /** An integer is what the last event fired on it set it to, plus all that was added since. */
  lemma {:induction false} CellIsSum(w: World, fired: seq<Firing>, c: nat, k: nat)
    requires k <= |fired| && (k > 0 ==> fired[k - 1].event.action.SetFlag? && fired[k - 1].event.action.flag == c)
    requires forall i :: k <= i < |fired| ==> !(fired[i].event.action.SetFlag? && fired[i].event.action.flag == c)
    ensures Effects(w, fired).Cell(c) == (if k > 0 then fired[k - 1].event.action.value else w.Cell(c)) + Added(fired, c, k)
  {
    if fired != [] {
      var n := |fired| - 1;
      ActionEffect(Effects(w, fired[..n]), fired[n].event.action, fired[n].now);
      if k <= n { CellIsSum(w, fired[..n], c, k); }
    }
  }

  // -------------------------------------------------------------------------- service

  /** Exactly the due events fire: no event that stays is due, whatever its place. */
  lemma ServiceFiresDue(s: State, now: int, i: nat)
    requires Consistent(s) && i < |s.pending|
    ensures i < DueCount(s.pending, now) <==> s.pending[i].when <= now
  {
    var k := DueCount(s.pending, now);
    if k < i { assert Before(s.pending[k], s.pending[i]); }
  }

  function Calls(fired: seq<Firing>): seq<(nat, int, int)> {
    if fired == [] then []
    else
      var last := fired[|fired| - 1];
      Calls(fired[..|fired| - 1]) +
      if last.event.action.Callback? then [(last.event.action.fn, last.now, last.event.action.arg)] else []
  }

  ghost predicate SameEvents(x: seq<Firing>, y: seq<Firing>) {
    |x| == |y| && forall i :: 0 <= i < |x| ==> x[i].event == y[i].event
  }

  /** Everything but the callbacks is independent of the time events are told. */
  lemma {:induction false} EffectsApart(w: World, x: seq<Firing>, y: seq<Firing>)
    requires SameEvents(x, y)
    ensures Effects(w, x).bits == Effects(w, y).bits && Effects(w, x).cells == Effects(w, y).cells
  {
    if x != [] {
      var n := |x| - 1;
      EffectsApart(w, x[..n], y[..n]);
      assert x[n].event == y[n].event;
    }
  }

  lemma {:induction false} EffectsCalls(w: World, x: seq<Firing>)
    ensures Effects(w, x).calls == w.calls + Calls(x)
  {
    if x != [] { EffectsCalls(w, x[..|x| - 1]); }
  }

  lemma {:induction false} CallsAppend(x: seq<Firing>, y: seq<Firing>)
    ensures Calls(x + y) == Calls(x) + Calls(y)
  {
    if y == [] {
      assert x + y == x;
    } else {
      assert (x + y)[..|x + y| - 1] == x + y[..|y| - 1];
      CallsAppend(x, y[..|y| - 1]);
    }
  }

  lemma EffectsStep(w: World, fired: seq<Firing>, f: Firing)
    ensures Effects(w, fired + [f]) == Effects(w, fired).Do(f.event.action, f.now)
  {
    assert (fired + [f])[..|fired|] == fired;
  }

  ghost predicate HasCallback(es: seq<Event>) { exists i :: 0 <= i < |es| && es[i].action.Callback? }

  /** The same events told different times make different calls, if they make any. */
  lemma {:induction false} CallsTell(es: seq<Event>, t: int, u: int)
    ensures |Calls(FiringsAt(es, t))| == |Calls(FiringsAt(es, u))|
    ensures Calls(FiringsAt(es, t)) == Calls(FiringsAt(es, u)) <==> t == u || !HasCallback(es)
  {
    if es != [] {
      var n := |es| - 1;
      CallsTell(es[..n], t, u);
      assert FiringsAt(es, t)[..n] == FiringsAt(es[..n], t) && FiringsAt(es, u)[..n] == FiringsAt(es[..n], u);
      assert HasCallback(es) <==> HasCallback(es[..n]) || es[n].action.Callback?;
      var x, y := Calls(FiringsAt(es[..n], t)), Calls(FiringsAt(es[..n], u));
      if es[n].action.Callback? && t != u {
        assert Calls(FiringsAt(es, t))[|x|] != Calls(FiringsAt(es, u))[|y|];
      } else if !es[n].action.Callback? {
        assert Calls(FiringsAt(es, t)) == x && Calls(FiringsAt(es, u)) == y;
      }
    }
  }

  lemma {:induction false} DueSplit(q: seq<Event>, t: int, u: int)
    requires t <= u
    ensures DueCount(q, t) <= DueCount(q, u)
    ensures DueCount(q[DueCount(q, t)..], u) == DueCount(q, u) - DueCount(q, t)
  {
    if q != [] && q[0].when <= t {
      DueSplit(q[1..], t, u);
      assert q[1..][DueCount(q[1..], t)..] == q[DueCount(q, t)..];
    } else {
      assert q[0..] == q;
    }
  }

  /** What fires in two steps, and in one. */
  lemma ServiceSplit(s: State, t: int, u: int)
    requires t <= u
    ensures var two, one := Step(Step(s, Service(t)), Service(u)), Step(s, Service(u));
            var k, n := DueCount(s.pending, t), DueCount(s.pending, u);
            && k <= n && two.pending == one.pending
            && two.fired == s.fired + FiringsAt(s.pending[..k], t) + FiringsAt(s.pending[k..n], u)
            && one.fired == s.fired + (FiringsAt(s.pending[..k], u) + FiringsAt(s.pending[k..n], u))
  {
    var q, k, n := s.pending, DueCount(s.pending, t), DueCount(s.pending, u);
    DueSplit(q, t, u);
    Slices(q, k, n);
    FiringsSplit(q, k, n, u);
  }

  lemma Slices(q: seq<Event>, k: nat, n: nat)
    requires k <= n <= |q|
    ensures q[k..][..n - k] == q[k..n] && q[k..][n - k..] == q[n..]
  {
  }

  lemma FiringsSplit(q: seq<Event>, k: nat, n: nat, u: int)
    requires k <= n <= |q|
    ensures FiringsAt(q[..n], u) == FiringsAt(q[..k], u) + FiringsAt(q[k..n], u)
  {
  }

  lemma EffectsTold(w: World, f: seq<Firing>, first: seq<Event>, second: seq<Firing>, t: int, u: int)
    ensures var two, one := f + FiringsAt(first, t) + second, f + (FiringsAt(first, u) + second);
            SameEvents(two, one)
            && (Effects(w, two) == Effects(w, one) <==> t == u || !HasCallback(first))
  {
    var a, b := FiringsAt(first, t), FiringsAt(first, u);
    var two, one := f + a + second, f + (b + second);
    assert SameEvents(two, one);
    EffectsApart(w, two, one);
    EffectsCalls(w, two);
    EffectsCalls(w, one);
    CallsAppend(f + a, second);
    CallsAppend(f, a);
    CallsAppend(f, b + second);
    CallsAppend(b, second);
    CallsTell(first, t, u);
    Sandwich(w.calls, Calls(f), Calls(a), Calls(b), Calls(second));
  }

  /** Servicing in two steps fires the same events in the same order and leaves the same queue
      as servicing once; the actions have the same effect if and only if no callback was due in
      the first step, since callbacks are told the time of the service. */
  lemma ServiceTwice(s: State, t: int, u: int, w: World)
    requires t <= u
    ensures var two, one := Step(Step(s, Service(t)), Service(u)), Step(s, Service(u));
            && two.pending == one.pending && SameEvents(two.fired, one.fired)
            && (Effects(w, two.fired) == Effects(w, one.fired)
                <==> t == u || !HasCallback(s.pending[..DueCount(s.pending, t)]))
  {
    var q, k, n := s.pending, DueCount(s.pending, t), DueCount(s.pending, u);
    ServiceSplit(s, t, u);
    EffectsTold(w, s.fired, q[..k], FiringsAt(q[k..n], u), t, u);
  }

  lemma Sandwich<T>(v: seq<T>, w: seq<T>, x: seq<T>, y: seq<T>, z: seq<T>)
    requires |x| == |y|
    ensures v + (w + x + z) == v + (w + (y + z)) <==> x == y
  {
    var l, r := v + (w + x + z), v + (w + (y + z));
    var n := |v| + |w|;
    assert l[n..n + |x|] == x && r[n..n + |x|] == y;
  }

  /** Removing an event right after queueing it leaves the queue as it was. */
  lemma RemoveUndoesQueue(s: State, when: int, action: Action)
    requires Consistent(s)
    ensures Step(Step(s, Queue(when, action)), Remove(s.nextId)).pending == s.pending
  {
    var k := Position(s.pending, when);
    FoundWhereInserted(s.pending, k, Event(when, s.nextId, action));
  }

  lemma FoundWhereInserted(q: seq<Event>, k: nat, e: Event)
    requires k <= |q| && IdsBelow(q, e.id)
    ensures IndexOf(InsertAt(q, k, e), e.id) == k && RemoveAt(InsertAt(q, k, e), k) == q
  {
    InsertedAt(q, k, e);
    var more := InsertAt(q, k, e);
    assert more[k] == e && forall i :: 0 <= i < k ==> more[i] == q[i];
    assert RemoveAt(more, k) == q;
  }
}
