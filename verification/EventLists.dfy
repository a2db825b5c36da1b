/** The event queue's linked lists: descriptors move between the pending and the free list. */
module EventLists {
  import opened Basics
  import opened EventQueue

  /** An event descriptor. */
  class Node {
    var next: Node?
    var event: Event

    constructor ()
      ensures next == null
    {
      next, event := null, Event(0, 0, SetBit(0, 0));
    }
  }

  /** `chain` is the list that starts at `head`; it ends, so it has no cycle. */
  ghost predicate Linked(head: Node?, chain: seq<Node>)
    reads chain
  {
    && head == (if chain == [] then null else chain[0])
    && forall i {:trigger chain[i].next} :: 0 <= i < |chain| ==> chain[i].next == (if i + 1 < |chain| then chain[i + 1] else null)
  }

  /** No descriptor is in two places. */
  ghost predicate Apart(x: seq<Node>, y: seq<Node>) {
    && (forall i, j :: 0 <= i < j < |x| ==> x[i] != x[j])
    && (forall i, j :: 0 <= i < j < |y| ==> y[i] != y[j])
    && (forall i, j :: 0 <= i < |x| && 0 <= j < |y| ==> x[i] != y[j])
  }

  ghost function Elements(x: seq<Node>): set<Node> { set n | n in x }

  lemma {:induction false} ElementsCount(x: seq<Node>)
    requires forall i, j :: 0 <= i < j < |x| ==> x[i] != x[j]
    ensures |Elements(x)| == |x|
  {
    if x != [] {
      var n := |x| - 1;
      ElementsCount(x[..n]);
      assert Elements(x) == Elements(x[..n]) + {x[n]};
    }
  }

  /** A pending descriptor goes to the front of the free list. */
  lemma Freed(x: seq<Node>, y: seq<Node>, k: nat)
    requires Apart(x, y) && k < |x|
    ensures Apart(RemoveAt(x, k), [x[k]] + y)
    ensures Elements(RemoveAt(x, k)) + Elements([x[k]] + y) == Elements(x) + Elements(y)
  {
    assert x == x[..k] + [x[k]] + x[k + 1..];
  }

  /** The first free descriptor goes to place `k` of the pending list. */
  lemma Taken(x: seq<Node>, y: seq<Node>, k: nat)
    requires Apart(x, y) && k <= |x| && y != []
    ensures Apart(InsertAt(x, k, y[0]), y[1..])
    ensures Elements(InsertAt(x, k, y[0])) + Elements(y[1..]) == Elements(x) + Elements(y)
  {
    assert x == x[..k] + x[k..] && y == [y[0]] + y[1..];
  }

  ghost predicate Holds(chain: seq<Node>, q: seq<Event>)
    reads chain
  {
    |chain| == |q| && forall i :: 0 <= i < |q| ==> chain[i].event == q[i]
  }

  lemma HoldsInserted(chain: seq<Node>, q: seq<Event>, k: nat, n: Node)
    requires Holds(chain, q) && k <= |q|
    ensures Holds(InsertAt(chain, k, n), InsertAt(q, k, n.event))
  {
  }

  lemma HoldsRemoved(chain: seq<Node>, q: seq<Event>, k: nat)
    requires Holds(chain, q) && k < |q|
    ensures Holds(RemoveAt(chain, k), RemoveAt(q, k))
  {
  }

  /** A list with one node more at place `k`, once the two links there are set. */
  lemma LinkedInserted(head: Node?, chain: seq<Node>, k: nat, n: Node)
    requires k <= |chain| && head == (if k == 0 then n else chain[0])
    requires n.next == if k < |chain| then chain[k] else null
    requires forall i {:trigger chain[i].next} :: 0 <= i < |chain| ==>
               chain[i].next == if i + 1 == k then n else if i + 1 < |chain| then chain[i + 1] else null
    ensures Linked(head, InsertAt(chain, k, n))
  {
    var more := InsertAt(chain, k, n);
    forall i | 0 <= i < |more| ensures more[i].next == (if i + 1 < |more| then more[i + 1] else null) {
      if i < k { assert more[i] == chain[i]; } else if i > k { assert more[i] == chain[i - 1]; }
    }
  }

  /** A list without the node at place `k`, once the link there is set. */
  lemma LinkedRemoved(head: Node?, chain: seq<Node>, k: nat)
    requires k < |chain|
    requires head == (if k > 0 then chain[0] else if |chain| > 1 then chain[1] else null)
    requires forall i {:trigger chain[i].next} :: 0 <= i < |chain| && i != k ==>
               var next := if i + 1 == k then i + 2 else i + 1; chain[i].next == if next < |chain| then chain[next] else null
    ensures Linked(head, RemoveAt(chain, k))
  {
    var less := RemoveAt(chain, k);
    forall i | 0 <= i < |less| ensures less[i].next == (if i + 1 < |less| then less[i + 1] else null) {
      assert less[i] == chain[if i < k then i else i + 1];
    }
  }

  /** A list with a new first node. */
  lemma LinkedFront(n: Node, chain: seq<Node>)
    requires Linked(n.next, chain)
    ensures Linked(n, [n] + chain)
  {
    var more := [n] + chain;
    forall i | 0 <= i < |more| ensures more[i].next == (if i + 1 < |more| then more[i + 1] else null) {
      if i > 0 { assert more[i] == chain[i - 1]; }
    }
  }

  class EventList {
    var pending: Node?
    var free: Node?
    var nextId: nat
    var world: World
    /** What the queue stands for. */
    ghost var state: State
    /** The two lists, and all descriptors ever allocated. */
    ghost var pend: seq<Node>
    ghost var spare: seq<Node>
    ghost var nodes: set<Node>
    ghost const start: World

    ghost predicate Lists()
      reads this, nodes
    {
      && Elements(pend) + Elements(spare) == nodes
      && Apart(pend, spare)
      && Linked(pending, pend) && Linked(free, spare)
    }

    ghost predicate Valid()
      reads this, nodes
    {
      && Lists()
      && Holds(pend, state.pending) && nextId == state.nextId
      && world == Effects(start, state.fired)
      && |pend| + |spare| == state.peak
    }

    constructor (world: World)
      ensures Valid() && state == START && nodes == {} && start == world
    {
      pending, free, nextId, this.world := null, null, 1, world;
      state, pend, spare, nodes, start := START, [], [], {}, world;
    }

    /** The descriptors allocated are as many as were ever pending at once. */
    lemma AllocatedIsPeak()
      requires Valid()
      ensures |nodes| == state.peak
    {
      var all := pend + spare;
      assert Elements(all) == nodes;
      ElementsCount(all);
    }

    /** Finds the insertion point for time `when`. */
    method Locate(when: int) returns (prev: Node?, ghost k: nat)
      requires Lists() && Holds(pend, state.pending)
      ensures k == Position(state.pending, when)
      ensures prev == if Position(state.pending, when) == 0 then null else pend[Position(state.pending, when) - 1]
    {
      var ev := pending;
      prev, k := null, 0;
      while ev != null && ev.event.when < when
        invariant 0 <= k <= |pend| && ev == (if k < |pend| then pend[k] else null)
        invariant prev == if k == 0 then null else pend[k - 1]
        invariant forall i :: 0 <= i < k ==> state.pending[i].when < when
        decreases |pend| - k
      {
        assert pend[k].next == if k + 1 < |pend| then pend[k + 1] else null;
        prev, ev, k := ev, ev.next, k + 1;
      }
    }

    /** Finds the event `id`. */
    method Find(id: nat) returns (prev: Node?, ev: Node?, ghost k: nat)
      requires Lists() && Holds(pend, state.pending)
      ensures k == IndexOf(state.pending, id)
      ensures ev == if IndexOf(state.pending, id) < |pend| then pend[IndexOf(state.pending, id)] else null
      ensures prev == if IndexOf(state.pending, id) == 0 then null else pend[IndexOf(state.pending, id) - 1]
    {
      prev, ev, k := null, pending, 0;
      while ev != null && ev.event.id != id
        invariant 0 <= k <= |pend| && ev == (if k < |pend| then pend[k] else null)
        invariant prev == if k == 0 then null else pend[k - 1]
        invariant forall i :: 0 <= i < k ==> state.pending[i].id != id
        decreases |pend| - k
      {
        assert pend[k].next == if k + 1 < |pend| then pend[k + 1] else null;
        prev, ev, k := ev, ev.next, k + 1;
      }
    }

    /** Makes sure there is a free descriptor. */
    method Provide()
      requires Lists()
      modifies this`free, this`spare, this`nodes
      ensures Lists() && spare != []
      ensures |pend| + |spare| == Max(|pend| + |old(spare)|, |pend| + 1)
      ensures old(nodes) <= nodes && fresh(nodes - old(nodes))
    {
      if free == null {
        var n := new Node();
        free, spare, nodes := n, [n], nodes + {n};
      }
    }

    /** Sets the links that put `n` at place `k` of the pending list. */
    method Splice(prev: Node?, ghost k: nat, n: Node)
      requires Lists() && n in nodes && n !in pend && k <= |pend| && prev == (if k == 0 then null else pend[k - 1])
      modifies this`pending, nodes`next
      ensures Linked(pending, InsertAt(pend, k, n))
      ensures forall i :: 0 <= i < |spare| && spare[i] != n ==> spare[i].next == old(spare[i].next)
    {
      if prev != null {
        n.next := prev.next;
        prev.next := n;
      } else {
        n.next := pending;
        pending := n;
      }
      LinkedInserted(pending, pend, k, n);
    }

    /** Puts the first free descriptor, with event `e`, at place `k` of the pending list. */
    method Link(prev: Node?, ghost k: nat, e: Event, ghost q: seq<Event>)
      requires Lists() && Holds(pend, q) && spare != [] && k <= |pend| && prev == (if k == 0 then null else pend[k - 1])
      modifies this`pending, this`free, this`pend, this`spare, nodes
      ensures Lists() && |pend| == |old(pend)| + 1 && |spare| == |old(spare)| - 1
      ensures Holds(pend, InsertAt(q, k, e))
    {
      var n := free;
      var rest := n.next;
      Taken(pend, spare, k);
      Splice(prev, k, n);
      n.event := e;
      free := rest;
      HoldsInserted(pend, q, k, n);
      pend, spare := InsertAt(pend, k, n), spare[1..];
    }

    /** Moves the pending descriptor at place `k` to the free list. */
    method Unlink(prev: Node?, ev: Node, ghost k: nat, ghost q: seq<Event>)
      requires Lists() && Holds(pend, q) && k < |pend| && ev == pend[k] && prev == (if k == 0 then null else pend[k - 1])
      modifies this`pending, this`free, this`pend, this`spare, nodes`next
      ensures Lists() && |pend| == |old(pend)| - 1 && |spare| == |old(spare)| + 1
      ensures Holds(pend, RemoveAt(q, k))
    {
      if prev != null {
        prev.next := ev.next;
      } else {
        pending := ev.next;
      }
      ev.next := free;
      free := ev;
      Freed(pend, spare, k);
      HoldsRemoved(pend, q, k);
      LinkedRemoved(pending, pend, k);
      LinkedFront(ev, spare);
      pend, spare := RemoveAt(pend, k), [ev] + spare;
    }

    method Queue(when: int, action: Action) returns (id: nat)
      requires Valid()
      modifies this, nodes
      ensures Valid() && state == Step(old(state), EventQueue.Queue(when, action)) && id == old(state).nextId
      ensures old(nodes) <= nodes && fresh(nodes - old(nodes))
    {
      Provide();
      id := nextId;
      Enter(when, action);
    }

    /** Enters an event into the pending list, with a descriptor that is free. */
    method Enter(when: int, action: Action)
      requires Lists() && spare != [] && Holds(pend, state.pending)
      modifies this`pending, this`free, this`pend, this`spare, this`nextId, this`state, nodes
      ensures Lists() && |pend| + |spare| == old(|pend| + |spare|) && |pend| == |old(pend)| + 1
      ensures Holds(pend, state.pending) && nextId == old(nextId) + 1
      ensures old(nextId == state.nextId) ==> state == Step(old(state), EventQueue.Queue(when, action))
    {
      var prev;
      ghost var k;
      prev, k := Locate(when);
      ghost var e := Event(when, nextId, action);
      Link(prev, k, Event(when, nextId, action), state.pending);
      nextId := nextId + 1;
      state := state.(pending := InsertAt(state.pending, k, e), nextId := nextId, peak := Max(state.peak, |state.pending| + 1));
    }

    /** Executes the event at place `k` and frees its descriptor. */
    method Fire(prev: Node?, ev: Node, ghost k: nat, now: int)
      requires Valid() && k < |pend| && ev == pend[k] && prev == (if k == 0 then null else pend[k - 1])
      modifies this`pending, this`free, this`pend, this`spare, this`world, this`state, nodes
      ensures Valid()
      ensures state == old(state).(pending := RemoveAt(old(state).pending, k),
                                   fired := old(state).fired + [Firing(old(state).pending[k], now)])
    {
      Act(ev.event, now);
      Discard(prev, ev, k);
    }

    /** Gives up the event at place `k` and frees its descriptor. */
    method Cancel(prev: Node?, ev: Node, ghost k: nat)
      requires Valid() && k < |pend| && ev == pend[k] && prev == (if k == 0 then null else pend[k - 1])
      modifies this`pending, this`free, this`pend, this`spare, this`state, nodes`next
      ensures Valid() && world == old(world)
      ensures state == old(state).(pending := RemoveAt(old(state).pending, k),
                                   cancelled := old(state).cancelled + [old(state).pending[k]])
    {
      ghost var e := state.pending[k];
      Discard(prev, ev, k);
      state := state.(cancelled := state.cancelled + [e]);
    }

    /** Frees the descriptor at place `k`. */
    method Discard(prev: Node?, ev: Node, ghost k: nat)
      requires Valid() && k < |pend| && ev == pend[k] && prev == (if k == 0 then null else pend[k - 1])
      modifies this`pending, this`free, this`pend, this`spare, this`state, nodes`next
      ensures Valid() && state == old(state).(pending := RemoveAt(old(state).pending, k))
    {
      Unlink(prev, ev, k, state.pending);
      state := state.(pending := RemoveAt(state.pending, k));
    }

    method Act(e: Event, now: int)
      requires world == Effects(start, state.fired)
      modifies this`world, this`state
      ensures world == Effects(start, state.fired)
      ensures state == old(state).(fired := old(state).fired + [Firing(e, now)])
    {
      world := world.Do(e.action, now);
      EffectsStep(start, state.fired, Firing(e, now));
      state := state.(fired := state.fired + [Firing(e, now)]);
    }

    /** Executes an event now, whatever its time. */
    method Execute(id: nat) returns (found: bool)
      requires Valid()
      modifies this, nodes
      ensures Valid() && nodes == old(nodes) && state == Step(old(state), EventQueue.Execute(id))
      ensures found <==> exists i :: 0 <= i < |old(state).pending| && old(state).pending[i].id == id
      ensures state.cancelled == old(state).cancelled && (!found ==> state == old(state) && world == old(world))
    {
      var prev, ev;
      ghost var k;
      prev, ev, k := Find(id);
      found := ev != null;
      if found {
        Fire(prev, ev, k, 0);
      }
    }

    method Remove(id: nat) returns (found: bool)
      requires Valid()
      modifies this, nodes
      ensures Valid() && nodes == old(nodes) && state == Step(old(state), EventQueue.Remove(id))
      ensures found <==> exists i :: 0 <= i < |old(state).pending| && old(state).pending[i].id == id
      ensures world == old(world) && state.fired == old(state).fired
    {
      var prev, ev;
      ghost var k;
      prev, ev, k := Find(id);
      found := ev != null;
      if found {
        Cancel(prev, ev, k);
      }
    }

    /** Executes all events that are due, the earliest first. */
    method Service(now: int)
      requires Valid()
      modifies this, nodes
      ensures Valid() && nodes == old(nodes) && state == Step(old(state), EventQueue.Service(now))
    {
      ghost var s, i := state, 0;
      NoneServed(s, now);
      while pending != null && pending.event.when <= now
        invariant Valid() && nodes == old(nodes)
        invariant 0 <= i <= DueCount(s.pending, now) && state == Served(s, i, now)
        decreases |s.pending| - i
      {
        FireHead(s, i, now);
        i := i + 1;
      }
      assert i < |s.pending| ==> pend[0].event == s.pending[i];
    }

    /** Executes the earliest event, which is due. */
    method FireHead(ghost s: State, ghost i: nat, now: int)
      requires Valid() && i <= DueCount(s.pending, now) && state == Served(s, i, now)
      requires pending != null && pending in nodes && pending.event.when <= now
      modifies this`pending, this`free, this`pend, this`spare, this`world, this`state, nodes
      ensures Valid() && i < DueCount(s.pending, now) && state == Served(s, i + 1, now)
    {
      assert pend[0].event == s.pending[i];
      Fire(null, pending, 0, now);
      ServedStep(s.fired, s.pending, i, now);
    }

    /** Any sequence of operations takes the queue through the states it stands for. */
    method RunAll(ops: seq<Op>)
      requires Valid() && state == START
      modifies this, nodes
      ensures Valid() && state == Run(ops)
    {
      var i := 0;
      while i < |ops|
        invariant 0 <= i <= |ops| && Valid() && state == Run(ops[..i])
        invariant old(nodes) <= nodes && fresh(nodes - old(nodes))
      {
        match ops[i] {
          case Queue(when, action) => var _ := Queue(when, action);
          case Execute(id) => var _ := Execute(id);
          case Remove(id) => var _ := Remove(id);
          case Service(now) => Service(now);
        }
        i := i + 1;
        assert ops[..i][..i - 1] == ops[..i - 1];
      }
      assert ops[..i] == ops;
    }
  }

  /** The state when the first `i` events have been executed. */
  ghost function Served(s: State, i: nat, now: int): State
    requires i <= |s.pending|
  {
    s.(pending := s.pending[i..], fired := s.fired + FiringsAt(s.pending[..i], now))
  }

  lemma NoneServed(s: State, now: int)
    ensures Served(s, 0, now) == s
  {
    assert s.pending[0..] == s.pending && s.fired + FiringsAt(s.pending[..0], now) == s.fired;
  }

  lemma ServedStep(fired: seq<Firing>, q: seq<Event>, i: nat, now: int)
    requires i < |q|
    ensures RemoveAt(q[i..], 0) == q[i + 1..] && q[i..][0] == q[i]
    ensures fired + FiringsAt(q[..i], now) + [Firing(q[i], now)] == fired + FiringsAt(q[..i + 1], now)
  {
  }
}
