/**
 The instruction decoder: a tree of opcode fields, flattened into one table while the
 definitions are read, and walked by looking up one field after the other.
 */
module Decoder {
  import opened Basics

  /** A definition: an instruction or a link to a further level with value `msk` in the current
      group, or the start of the group that a link leads to. */
  datatype Item =
    | Inst(op: nat, msk: nat)
    | Link(op: nat, msk: nat, shift: nat, mask: nat)
    | Connect(op: nat)

  /** Opcode 0 marks a slot without definition. */
  datatype Tables = Tables(slots: map<nat, nat>, opoffset: map<nat, nat>, offset: nat, max: nat) {
    function Slot(i: nat): nat { if i in slots then slots[i] else 0 }

    function OpOffset(op: nat): nat { if op in opoffset then opoffset[op] else 0 }
  }

  /** One definition; too large an index or a slot used twice is fatal. */
  function Add(t: Tables, item: Item): Option<Tables> {
    if item.Connect? then Some(t.(offset := t.max + 1, opoffset := t.opoffset[item.op := t.max + 1]))
    else
      var i := item.msk + t.offset;
      if i >= 2048 || t.Slot(i) != 0 then None
      else Some(t.(slots := t.slots[i := item.op], max := Max(t.max, i)))
  }

  function Build(items: seq<Item>): Option<Tables> {
    if items == [] then Some(Tables(map[], map[], 0, 0))
    else
      match Build(items[..|items| - 1])
      case None => None
      case Some(t) => Add(t, items[|items| - 1])
  }

  // -------------------------------------------------------------------------- decoding

  /** Bitwise and. */
  function And(a: nat, b: nat): (r: nat)
    ensures r <= b
    decreases b, a
  {
    if b == 0 then 0 else (if a % 2 == 1 && b % 2 == 1 then 1 else 0) + 2 * And(a / 2, b / 2)
  }

  function Field(inst: nat, shift: nat, mask: nat): (r: nat)
    ensures r <= mask
  {
    And(Shr(inst, shift), mask)
  }

  /** An instruction as the decoder sees it: the field for a shift and a mask. */
  type Fields = (nat, nat) -> nat

  function FieldsOf(inst: nat): Fields { (shift: nat, mask: nat) => Field(inst, shift, mask) }

  ghost predicate Masked(inst: Fields) { forall shift, mask :: inst(shift, mask) <= mask }

  lemma FieldsMasked(inst: nat)
    ensures Masked(FieldsOf(inst))
  {
  }

  function TopOp(inst: Fields): nat { inst(26, 0x3f) }

  /** Whether bit `i` is set. */
  predicate Bit(a: nat, i: nat) { Shr(a, i) % 2 == 1 }

  /** A bit of the conjunction is set exactly if it is set in both. */
  lemma {:induction false} AndBits(a: nat, b: nat, i: nat)
    ensures Bit(And(a, b), i) <==> Bit(a, i) && Bit(b, i)
    decreases i
  {
    if i > 0 {
      ShrHalf(a, i);
      ShrHalf(b, i);
      ShrHalf(And(a, b), i);
      AndBits(a / 2, b / 2, i - 1);
    } else if b > 0 {
      assert And(a, b) / 2 == And(a / 2, b / 2);
    }
  }

  lemma AndStep(a: nat, m: nat)
    requires m > 0 && And(a / 2, m - 1) == a / 2 % m
    ensures And(a, 2 * m - 1) == a % (2 * m)
  {
    assert (2 * m - 1) / 2 == m - 1 && (2 * m - 1) % 2 == 1;
    HalveFirst(a, m);
  }

  /** Masking with `k` ones keeps the `k` lowest bits. */
  lemma {:induction false} AndLow(a: nat, k: nat, m: nat)
    requires m == Pow2(k)
    ensures m > 0 && And(a, m - 1) == a % m
    decreases k
  {
    if k > 0 {
      AndLow(a / 2, k - 1, Pow2(k - 1));
      AndStep(a, Pow2(k - 1));
    }
  }

  /** A field of `k` bits, as a number. */
  lemma FieldBits(inst: nat, shift: nat, k: nat)
    ensures FieldsOf(inst)(shift, Pow2(k) - 1) == inst / Pow2(shift) % Pow2(k)
  {
    ShrDivides(inst, shift);
    AndLow(Shr(inst, shift), k, Pow2(k));
  }

  /** Decoding starts from the six highest bits of an instruction word. */
  lemma TopOpBits(inst: nat)
    ensures TopOp(FieldsOf(inst)) == inst / 67108864 % 64
  {
    Pow2Values();
    FieldBits(inst, 26, 6);
  }

  /** Where opcode `op` is defined; the length if nowhere. */
  function Find(items: seq<Item>, op: nat): (p: nat)
    ensures p <= |items| && (p < |items| ==> !items[p].Connect? && items[p].op == op)
    ensures forall i :: 0 <= i < p ==> items[i].Connect? || items[i].op != op
  {
    if items == [] then 0
    else
      var p := Find(items[..|items| - 1], op);
      if p < |items| - 1 then p
      else if !items[p].Connect? && items[p].op == op then p else |items|
  }

  /** The mask and the shift for the level behind an opcode; instructions have none. */
  function MaskOf(items: seq<Item>, op: nat): nat {
    var p := Find(items, op);
    if p < |items| && items[p].Link? then items[p].mask else 0
  }

  function ShiftOf(items: seq<Item>, op: nat): nat {
    var p := Find(items, op);
    if p < |items| && items[p].Link? then items[p].shift else 0
  }

  /** What decoding consults: the slots, where each opcode's group starts, and its field. */
  datatype Lookup = Lookup(slot: nat -> nat, off: nat -> nat, shift: nat -> nat, mask: nat -> nat)

  function LookupOf(items: seq<Item>, t: Tables): Lookup {
    Lookup((i: nat) => t.Slot(i), (op: nat) => t.OpOffset(op), (op: nat) => ShiftOf(items, op), (op: nat) => MaskOf(items, op))
  }

  /** Every link's group lies behind the link itself. */
  ghost predicate Increasing(l: Lookup) { forall i: nat {:trigger Grows(l, i)} :: Grows(l, i) }

  predicate Grows(l: Lookup, i: nat) { l.mask(l.slot(i)) != 0 ==> i < l.off(l.slot(i)) }

  datatype Decoded = Opcode(op: nat) | OutOfRange

  /** From table index `i` on: fields are looked up until an opcode has no further level.  It
      ends since the index grows. */
  ghost function Walk(l: Lookup, inst: Fields, i: nat): Decoded
    requires Increasing(l)
    decreases if i <= 2048 then 2049 - i else 0
  {
    if i > 2048 then OutOfRange
    else if l.mask(l.slot(i)) == 0 then Opcode(l.slot(i))
    else
      assert Grows(l, i);
      Walk(l, inst, inst(l.shift(l.slot(i)), l.mask(l.slot(i))) + l.off(l.slot(i)))
  }

  // --------------------------------------------------------------- definitions in order

  /** Opcodes are named once, and not zero. */
  ghost predicate WellNamed(items: seq<Item>) {
    && (forall p :: 0 <= p < |items| && !items[p].Connect? ==> items[p].op > 0)
    && (forall p, q :: 0 <= p < q < |items| && !items[p].Connect? && !items[q].Connect? ==> items[p].op != items[q].op)
  }

  lemma FindsItself(items: seq<Item>, p: nat)
    requires WellNamed(items) && p < |items| && !items[p].Connect?
    ensures Find(items, items[p].op) == p
  {
  }

  lemma {:induction false} BuildPrefix(items: seq<Item>, p: nat)
    requires Build(items).Some? && p <= |items|
    ensures Build(items[..p]).Some?
  {
    if p == |items| {
      assert items[..p] == items;
    } else {
      var n := |items| - 1;
      BuildPrefix(items[..n], p);
      assert items[..n][..p] == items[..p];
    }
  }

  /** The tables after `p` definitions. */
  function At(items: seq<Item>, p: nat): Tables
    requires p <= |items| && Build(items[..p]).Some?
  {
    Build(items[..p]).value
  }

  lemma Stepped(items: seq<Item>, p: nat)
    requires Build(items).Some? && p < |items|
    ensures Build(items[..p]).Some? && Build(items[..p + 1]).Some?
    ensures Add(At(items, p), items[p]) == Some(At(items, p + 1))
  {
    BuildPrefix(items, p);
    BuildPrefix(items, p + 1);
    assert items[..p + 1][..p] == items[..p];
  }

  /** Where definition `p` goes. */
  function Index(items: seq<Item>, p: nat): nat
    requires p < |items| && !items[p].Connect? && Build(items[..p]).Some?
  {
    items[p].msk + At(items, p).offset
  }

  /** Offsets and the largest index only grow; what is defined lies between them. */
  lemma {:induction false} Monotone(items: seq<Item>, p: nat, q: nat)
    requires Build(items).Some? && p <= q <= |items|
    ensures Build(items[..p]).Some? && Build(items[..q]).Some?
    ensures At(items, p).offset <= At(items, q).offset && At(items, p).max <= At(items, q).max
    ensures At(items, q).offset <= At(items, q).max + 1
    decreases q
  {
    BuildPrefix(items, p);
    if p < q {
      Stepped(items, q - 1);
      Monotone(items, p, q - 1);
    } else if q > 0 {
      Stepped(items, q - 1);
      Monotone(items, q - 1, q - 1);
    }
  }

  /** A definition keeps its slot. */
  lemma {:induction false} SlotKept(items: seq<Item>, p: nat, q: nat)
    requires Build(items).Some? && WellNamed(items) && p < q <= |items| && !items[p].Connect?
    ensures Build(items[..p]).Some? && Build(items[..q]).Some?
    ensures Index(items, p) in At(items, q).slots && At(items, q).slots[Index(items, p)] == items[p].op
    decreases q
  {
    Stepped(items, q - 1);
    if p < q - 1 {
      SlotKept(items, p, q - 1);
    } else {
      BuildPrefix(items, p);
    }
  }

  /** Every slot has its definition. */
  lemma {:induction false} SlotDefined(items: seq<Item>, q: nat, i: nat) returns (p: nat)
    requires Build(items).Some? && q <= |items| && Build(items[..q]).Some? && i in At(items, q).slots
    ensures p < q && !items[p].Connect? && Build(items[..p]).Some?
    ensures Index(items, p) == i && At(items, q).slots[i] == items[p].op
    decreases q
  {
    assert q > 0 by { assert items[..0] == []; }
    Stepped(items, q - 1);
    if !items[q - 1].Connect? && i == items[q - 1].msk + At(items, q - 1).offset {
      p := q - 1;
    } else {
      p := SlotDefined(items, q - 1, i);
    }
  }

  /** A definition more is refused exactly if its index is too large or an earlier one is there. */
  lemma RefusedIff(items: seq<Item>, item: Item)
    requires Build(items).Some? && WellNamed(items)
    ensures var t := Build(items).value;
            Build(items + [item]).None? <==>
              && !item.Connect?
              && (|| item.msk + t.offset > 2047
                  || Taken(items, item.msk + t.offset))
  {
    assert (items + [item])[..|items|] == items;
    if !item.Connect? { TakenIffSlot(items, item.msk + Build(items).value.offset); }
  }

  lemma TakenIffSlot(items: seq<Item>, i: nat)
    requires Build(items).Some? && WellNamed(items)
    ensures Taken(items, i) <==> Build(items).value.Slot(i) != 0
  {
    var t := Build(items).value;
    assert items[..|items|] == items;
    if t.Slot(i) != 0 {
      var p := SlotDefined(items, |items|, i);
      assert Occupies(items, p, i);
    }
    if Taken(items, i) {
      var p: nat :| p < |items| && Occupies(items, p, i);
      SlotKept(items, p, |items|);
    }
  }

  /** Definition `p` has the slot `i`. */
  ghost predicate Occupies(items: seq<Item>, p: nat, i: nat)
    requires p < |items|
  {
    !items[p].Connect? && Build(items[..p]).Some? && Index(items, p) == i
  }

  ghost predicate Taken(items: seq<Item>, i: nat) { exists p: nat :: p < |items| && Occupies(items, p, i) }

  // ----------------------------------------------------------------- groups and links

  /** The Connect that began the group of definition `p`; -1 for the top group. */
  function Head(items: seq<Item>, p: nat): (h: int)
    requires p <= |items|
    ensures -1 <= h < p && (h >= 0 ==> items[h].Connect?)
    ensures forall i :: h < i < p ==> !items[i].Connect?
  {
    if p == 0 then -1 else if items[p - 1].Connect? then p - 1 else Head(items, p - 1)
  }

  /** Definitions of a group share its offset. */
  lemma {:induction false} GroupOffset(items: seq<Item>, p: nat)
    requires Build(items).Some? && p <= |items|
    ensures Build(items[..p]).Some? && (Head(items, p) >= 0 ==> Build(items[..Head(items, p) + 1]).Some?)
    ensures At(items, p).offset == if Head(items, p) < 0 then 0 else At(items, Head(items, p) + 1).offset
  {
    BuildPrefix(items, p);
    BuildPrefix(items, Head(items, p) + 1);
    if p == 0 {
      assert items[..0] == [];
    } else if !items[p - 1].Connect? {
      OffsetStays(items, p - 1);
      GroupOffset(items, p - 1);
    }
  }

  lemma OffsetStays(items: seq<Item>, p: nat)
    requires Build(items).Some? && p < |items| && !items[p].Connect?
    ensures Build(items[..p]).Some? && Build(items[..p + 1]).Some? && At(items, p + 1).offset == At(items, p).offset
  {
    Stepped(items, p);
  }

  ghost predicate Connects(items: seq<Item>, h: nat, op: nat) {
    h < |items| && items[h] == Connect(op)
  }

  /** No later group for the same link. */
  ghost predicate LastConnect(items: seq<Item>, h: nat)
    requires h < |items| && items[h].Connect?
  {
    forall j :: h < j < |items| ==> !Connects(items, j, items[h].op)
  }

  /** A link leads behind any group that was connected to it, and to the last one. */
  lemma {:induction false} OpOffsetAt(items: seq<Item>, h: nat, q: nat)
    requires Build(items).Some? && h < q <= |items| && items[h].Connect?
    ensures Build(items[..h + 1]).Some? && Build(items[..q]).Some?
    ensures At(items, q).OpOffset(items[h].op) >= At(items, h + 1).offset
    ensures (forall j :: h < j < q ==> !Connects(items, j, items[h].op))
            ==> At(items, q).OpOffset(items[h].op) == At(items, h + 1).offset
    decreases q
  {
    Stepped(items, q - 1);
    BuildPrefix(items, h + 1);
    if h < q - 1 {
      OpOffsetAt(items, h, q - 1);
      Monotone(items, h + 1, q - 1);
      if items[q - 1] == Connect(items[h].op) {
        assert Connects(items, q - 1, items[h].op);
      }
    }
  }

  /** What is defined before a Connect lies below its group, what is defined after does not. */
  lemma IndexSides(items: seq<Item>, p: nat, h: nat)
    requires Build(items).Some? && p < |items| && !items[p].Connect? && h < |items| && items[h].Connect?
    ensures Build(items[..p]).Some? && Build(items[..h + 1]).Some?
    ensures Index(items, p) < At(items, h + 1).offset <==> p < h
  {
    Stepped(items, h);
    if p < h {
      IndexBelow(items, p, h);
    } else {
      BuildPrefix(items, p);
      Monotone(items, h + 1, p);
    }
  }

  lemma IndexBelow(items: seq<Item>, p: nat, h: nat)
    requires Build(items).Some? && p < h <= |items| && !items[p].Connect?
    ensures Build(items[..p]).Some? && Build(items[..h]).Some? && Index(items, p) <= At(items, h).max
  {
    Stepped(items, p);
    Monotone(items, p + 1, h);
  }

  /** Every link that decodes further is connected to a group behind it. */
  ghost predicate LinksFirst(items: seq<Item>) {
    forall q :: 0 <= q < |items| && items[q].Link? && items[q].mask != 0 ==> exists h :: q < h < |items| && Connects(items, h, items[q].op)
  }

  // ------------------------------------------------------------ what the tables amount to

  /** Where definitions and groups are: the index of each definition, the start of each group, and
      the definition in each slot. */
  datatype Layout = Layout(index: nat -> nat, start: nat -> nat, from: nat -> nat)

  predicate Defines(items: seq<Item>, p: nat) { p < |items| && !items[p].Connect? }

  predicate Begins(items: seq<Item>, h: nat) { h < |items| && items[h].Connect? }

  /** A definition is where its group and its value say, and known with its level. */
  predicate Placed(items: seq<Item>, l: Lookup, y: Layout, p: nat)
    requires Defines(items, p)
  {
    && y.index(p) < 2048 && l.slot(y.index(p)) == items[p].op
    && y.index(p) == items[p].msk + (if Head(items, p) < 0 then 0 else y.start(Head(items, p)))
    && l.mask(items[p].op) == (if items[p].Link? then items[p].mask else 0)
    && (items[p].Link? ==> l.shift(items[p].op) == items[p].shift)
  }

  /** What is in a slot was put there by a definition. */
  predicate Sourced(items: seq<Item>, l: Lookup, y: Layout, i: nat) {
    l.slot(i) != 0 ==> Defines(items, y.from(i)) && y.index(y.from(i)) == i
  }

  /** Groups follow each other: what is defined before a group lies below it. */
  predicate Sided(y: Layout, p: nat, h: nat) { y.index(p) < y.start(h) <==> p < h }

  /** A link leads to its last group. */
  ghost predicate Led(items: seq<Item>, l: Lookup, y: Layout, h: nat)
    requires Begins(items, h)
  {
    LastConnect(items, h) ==> l.off(items[h].op) == y.start(h)
  }

  ghost predicate Laid(items: seq<Item>, l: Lookup, y: Layout) {
    && (forall p: nat {:trigger Placed(items, l, y, p)} :: Defines(items, p) ==> Placed(items, l, y, p))
    && (forall i: nat {:trigger Sourced(items, l, y, i)} :: Sourced(items, l, y, i))
    && (forall p: nat, h: nat {:trigger Sided(y, p, h)} :: Defines(items, p) && Begins(items, h) ==> Sided(y, p, h))
    && (forall h: nat {:trigger Led(items, l, y, h)} :: Begins(items, h) ==> Led(items, l, y, h))
    && l.mask(0) == 0
  }

  /** The last group of a link. */
  ghost function LastGroup(items: seq<Item>, q: nat, n: nat): (h: nat)
    requires q < n <= |items| && items[q].Link? && exists h :: q < h < n && Connects(items, h, items[q].op)
    ensures q < h < n && Connects(items, h, items[q].op)
    ensures forall j :: h < j < n ==> !Connects(items, j, items[q].op)
  {
    if Connects(items, n - 1, items[q].op) then n - 1 else LastGroup(items, q, n - 1)
  }

  lemma GroupOf(items: seq<Item>, q: nat) returns (h: nat)
    requires LinksFirst(items) && Defines(items, q) && items[q].Link? && items[q].mask != 0
    ensures q < h < |items| && items[h] == Connect(items[q].op) && LastConnect(items, h)
  {
    h := LastGroup(items, q, |items|);
  }

  /** With links defined before they are connected, decoding ends. */
  lemma DecodingEnds(items: seq<Item>, l: Lookup, y: Layout)
    requires Laid(items, l, y) && LinksFirst(items)
    ensures Increasing(l)
  {
    forall i: nat ensures Grows(l, i) {
      if l.mask(l.slot(i)) != 0 {
        var q := y.from(i);
        assert Sourced(items, l, y, i) && Placed(items, l, y, q);
        var h := GroupOf(items, q);
        assert Led(items, l, y, h) && Sided(y, q, h);
      }
    }
  }

  // ------------------------------------------------------------------ paths to opcodes

  /** The instruction's fields have the values that lead to definition `p`: in the top group its
      top field, otherwise the field of the link that its group is connected to, and so on up. */
  ghost predicate Follows(items: seq<Item>, inst: Fields, p: nat)
    requires Defines(items, p)
    decreases p
  {
    var h := Head(items, p);
    if h < 0 then TopOp(inst) == items[p].msk
    else
      var q := Find(items, items[h].op);
      q < h && items[q].Link? && items[q].mask != 0 && LastConnect(items, h)
      && inst(items[q].shift, items[q].mask) == items[p].msk && Follows(items, inst, q)
  }

  /** From a link, decoding goes to its last group. */
  lemma LinkStep(items: seq<Item>, l: Lookup, y: Layout, inst: Fields, q: nat, h: nat)
    requires Laid(items, l, y) && Increasing(l)
    requires q < h < |items| && items[q].Link? && items[q].mask != 0 && items[h] == Connect(items[q].op) && LastConnect(items, h)
    ensures Walk(l, inst, y.index(q)) == Walk(l, inst, inst(items[q].shift, items[q].mask) + y.start(h))
  {
    assert Placed(items, l, y, q) && Led(items, l, y, h);
  }

  /** Decoding an instruction passes through every definition its fields lead to. */
  lemma {:induction false} WalkReaches(items: seq<Item>, l: Lookup, y: Layout, inst: Fields, p: nat)
    requires Laid(items, l, y) && Increasing(l) && Defines(items, p) && Follows(items, inst, p)
    ensures Walk(l, inst, TopOp(inst)) == Walk(l, inst, y.index(p))
    decreases p
  {
    var h := Head(items, p);
    assert Placed(items, l, y, p);
    if h >= 0 {
      var q := Find(items, items[h].op);
      WalkReaches(items, l, y, inst, q);
      LinkStep(items, l, y, inst, q, h);
    }
  }

  /** An instruction whose fields lead to a definition without a further level decodes to it. */
  lemma DecodesPath(items: seq<Item>, l: Lookup, y: Layout, inst: Fields, p: nat)
    requires Laid(items, l, y) && LinksFirst(items)
    requires Defines(items, p) && Follows(items, inst, p) && l.mask(items[p].op) == 0
    ensures Increasing(l) && Walk(l, inst, TopOp(inst)) == Opcode(items[p].op)
  {
    DecodingEnds(items, l, y);
    WalkReaches(items, l, y, inst, p);
    assert Placed(items, l, y, p);
  }

  // ------------------------------------------------------------------- and the converse

  ghost function Next(l: Lookup, inst: Fields, i: nat): nat {
    inst(l.shift(l.slot(i)), l.mask(l.slot(i))) + l.off(l.slot(i))
  }

  /** The group of definition `p`. */
  function GroupAt(items: seq<Item>, p: nat): int { if p < |items| then Head(items, p) else -1 }

  /** What the field of link `q` selects, if anything, is defined in the link's own group. */
  ghost predicate Kept(items: seq<Item>, l: Lookup, y: Layout, inst: Fields, q: nat, h: nat)
    requires Defines(items, q) && Begins(items, h)
  {
    var i := Next(l, inst, y.index(q));
    l.slot(i) != 0 ==> GroupAt(items, y.from(i)) == h
  }

  ghost predicate IsLink(items: seq<Item>, q: nat, h: nat) {
    && q < h && Defines(items, q) && Begins(items, h) && items[q].Link? && items[q].mask != 0
    && items[h].op == items[q].op && LastConnect(items, h)
  }

  /** No field of the instruction selects from another group than the one it is meant for: not
      the top field, and not the field of any link the instruction leads to. */
  ghost predicate Contained(items: seq<Item>, l: Lookup, y: Layout, inst: Fields) {
    && (l.slot(TopOp(inst)) != 0 ==> GroupAt(items, y.from(TopOp(inst))) < 0)
    && (forall q: nat, h: nat {:trigger Kept(items, l, y, inst, q, h)} ::
          IsLink(items, q, h) && Follows(items, inst, q) ==> Kept(items, l, y, inst, q, h))
  }

  /** What a link's field selects, if it is in the link's group, is a definition the instruction
      leads to. */
  lemma NextDefinition(items: seq<Item>, l: Lookup, y: Layout, inst: Fields, q: nat, h: nat) returns (p: nat)
    requires Laid(items, l, y) && WellNamed(items) && IsLink(items, q, h) && Follows(items, inst, q)
    requires Kept(items, l, y, inst, q, h) && l.slot(Next(l, inst, y.index(q))) != 0
    ensures Defines(items, p) && Follows(items, inst, p) && y.index(p) == Next(l, inst, y.index(q))
  {
    var i := Next(l, inst, y.index(q));
    p := y.from(i);
    assert Sourced(items, l, y, i) && Placed(items, l, y, p) && Placed(items, l, y, q) && Led(items, l, y, h);
    FindsItself(items, q);
  }

  /** From a definition the instruction leads to, decoding ends at one it leads to, if the fields
      are contained. */
  lemma {:induction false} WalkFollows(items: seq<Item>, l: Lookup, y: Layout, inst: Fields, p: nat) returns (r: nat)
    requires Laid(items, l, y) && WellNamed(items) && LinksFirst(items) && Contained(items, l, y, inst) && Increasing(l)
    requires Defines(items, p) && Follows(items, inst, p)
    requires Walk(l, inst, y.index(p)).Opcode? && Walk(l, inst, y.index(p)).op != 0
    ensures Defines(items, r) && Follows(items, inst, r) && Walk(l, inst, y.index(p)) == Opcode(items[r].op)
    decreases 2048 - y.index(p)
  {
    assert Placed(items, l, y, p);
    if items[p].Inst? || items[p].mask == 0 {
      r := p;
    } else {
      var h := GroupOf(items, p);
      assert Kept(items, l, y, inst, p, h) && Grows(l, y.index(p));
      assert l.slot(Next(l, inst, y.index(p))) != 0;
      var p' := NextDefinition(items, l, y, inst, p, h);
      r := WalkFollows(items, l, y, inst, p');
    }
  }

  /** The walk from index `i` comes to index `j`. */
  ghost predicate Passes(l: Lookup, inst: Fields, i: nat, j: nat)
    requires Increasing(l)
    decreases if i <= 2048 then 2049 - i else 0
  {
    || i == j
    || (i <= 2048 && l.mask(l.slot(i)) != 0 && assert Grows(l, i); Passes(l, inst, Next(l, inst, i), j))
  }

  lemma {:induction false} PassesForward(l: Lookup, inst: Fields, i: nat, j: nat)
    requires Increasing(l) && Passes(l, inst, i, j)
    ensures i <= j
    decreases if i <= 2048 then 2049 - i else 0
  {
    if i != j {
      assert Grows(l, i);
      PassesForward(l, inst, Next(l, inst, i), j);
    }
  }

  lemma {:induction false} PassesOn(l: Lookup, inst: Fields, i: nat, j: nat)
    requires Increasing(l) && Passes(l, inst, i, j) && j <= 2048 && l.mask(l.slot(j)) != 0
    ensures Passes(l, inst, i, Next(l, inst, j))
    decreases if i <= 2048 then 2049 - i else 0
  {
    if i != j {
      assert Grows(l, i);
      PassesOn(l, inst, Next(l, inst, i), j);
    }
  }

  /** The walk is one line: what comes later comes after the next step. */
  lemma {:induction false} PassesBetween(l: Lookup, inst: Fields, i: nat, j: nat, k: nat)
    requires Increasing(l) && Passes(l, inst, i, j) && Passes(l, inst, i, k) && j < k
    ensures Next(l, inst, j) <= k
    decreases if i <= 2048 then 2049 - i else 0
  {
    if i == j {
      PassesForward(l, inst, Next(l, inst, i), k);
    } else {
      assert Grows(l, i);
      PassesForward(l, inst, Next(l, inst, i), j);
      PassesBetween(l, inst, Next(l, inst, i), j, k);
    }
  }

  /** The walk passes through what the instruction leads to, and comes there from its link. */
  lemma {:induction false} FollowedPasses(items: seq<Item>, l: Lookup, y: Layout, inst: Fields, p: nat)
    requires Laid(items, l, y) && Increasing(l) && Defines(items, p) && Follows(items, inst, p)
    ensures Passes(l, inst, TopOp(inst), y.index(p))
    ensures Head(items, p) >= 0 ==> y.index(p) == Next(l, inst, y.index(Find(items, items[Head(items, p)].op)))
    decreases p
  {
    var h := Head(items, p);
    assert Placed(items, l, y, p);
    if h >= 0 {
      var q := Find(items, items[h].op);
      assert Placed(items, l, y, q) && Led(items, l, y, h);
      FollowedPasses(items, l, y, inst, q);
      PassesOn(l, inst, TopOp(inst), y.index(q));
    }
  }

  lemma SameIndex(items: seq<Item>, l: Lookup, y: Layout, p: nat, q: nat)
    requires Laid(items, l, y) && WellNamed(items) && Defines(items, p) && Defines(items, q) && y.index(p) == y.index(q)
    ensures p == q
  {
    assert Placed(items, l, y, p) && Placed(items, l, y, q);
    FindsItself(items, p);
    FindsItself(items, q);
  }

  /** On the way to a definition the instruction leads to, no field is misled. */
  lemma {:induction false} KeptOnTheWay(items: seq<Item>, l: Lookup, y: Layout, inst: Fields, p: nat, q: nat, h: nat)
    requires Laid(items, l, y) && WellNamed(items) && Increasing(l)
    requires Defines(items, p) && Follows(items, inst, p) && IsLink(items, q, h) && Follows(items, inst, q) && y.index(q) < y.index(p)
    ensures Kept(items, l, y, inst, q, h)
    decreases p
  {
    FollowedPasses(items, l, y, inst, p);
    FollowedPasses(items, l, y, inst, q);
    assert Placed(items, l, y, p);
    var g := Head(items, p);
    if g < 0 {
      PassesForward(l, inst, TopOp(inst), y.index(q));
      assert false;
    }
    var a := Find(items, items[g].op);
    FollowedPasses(items, l, y, inst, a);
    if y.index(a) < y.index(q) {
      PassesBetween(l, inst, TopOp(inst), y.index(a), y.index(q));
      assert false;
    } else if y.index(q) < y.index(a) {
      KeptOnTheWay(items, l, y, inst, a, q, h);
    } else {
      SameIndex(items, l, y, a, q);
      var i := y.index(p);
      assert Sourced(items, l, y, i);
      SameIndex(items, l, y, y.from(i), p);
      SameConnect(items, g, h);
    }
  }

  lemma SameConnect(items: seq<Item>, g: nat, h: nat)
    requires Begins(items, g) && Begins(items, h) && items[g] == items[h] && LastConnect(items, g) && LastConnect(items, h)
    ensures g == h
  {
    if g < h { assert Connects(items, h, items[g].op); }
    if h < g { assert Connects(items, g, items[h].op); }
  }

  /** An instruction that decodes to an opcode leads to it if and only if none of its fields
      selects from another group than the one it is meant for. */
  lemma DecodedFollowsIff(items: seq<Item>, l: Lookup, y: Layout, inst: Fields, p: nat)
    requires Laid(items, l, y) && WellNamed(items) && LinksFirst(items) && Increasing(l)
    requires Defines(items, p) && l.mask(items[p].op) == 0 && Walk(l, inst, TopOp(inst)) == Opcode(items[p].op)
    ensures Follows(items, inst, p) <==> Contained(items, l, y, inst)
  {
    assert items[p].op > 0 && l.slot(TopOp(inst)) != 0;
    var first := y.from(TopOp(inst));
    assert Sourced(items, l, y, TopOp(inst)) && Placed(items, l, y, first);
    if Contained(items, l, y, inst) {
      var r := WalkFollows(items, l, y, inst, first);
      FindsItself(items, r);
      FindsItself(items, p);
    }
    if Follows(items, inst, p) {
      FollowedContained(items, l, y, inst, p);
    }
  }

  lemma FollowedContained(items: seq<Item>, l: Lookup, y: Layout, inst: Fields, p: nat)
    requires Laid(items, l, y) && WellNamed(items) && Increasing(l)
    requires Defines(items, p) && l.mask(items[p].op) == 0 && Follows(items, inst, p)
    ensures Contained(items, l, y, inst)
  {
    forall q: nat, h: nat | IsLink(items, q, h) && Follows(items, inst, q) ensures Kept(items, l, y, inst, q, h) {
      FollowedPasses(items, l, y, inst, p);
      FollowedPasses(items, l, y, inst, q);
      assert Placed(items, l, y, p) && Placed(items, l, y, q);
      if y.index(p) < y.index(q) {
        LeafIsLast(l, inst, TopOp(inst), y.index(p), y.index(q));
      } else if y.index(p) == y.index(q) {
        SameIndex(items, l, y, p, q);
      } else {
        KeptOnTheWay(items, l, y, inst, p, q, h);
      }
    }
    TopContained(items, l, y, inst, p);
  }

  lemma {:induction false} LeafIsLast(l: Lookup, inst: Fields, i: nat, j: nat, k: nat)
    requires Increasing(l) && Passes(l, inst, i, j) && Passes(l, inst, i, k) && l.mask(l.slot(j)) == 0
    ensures k <= j
    decreases if i <= 2048 then 2049 - i else 0
  {
    if i != j && i != k {
      assert Grows(l, i);
      LeafIsLast(l, inst, Next(l, inst, i), j, k);
    } else if i == k {
      PassesForward(l, inst, i, j);
    }
  }

  /** What an instruction leads to descends from a definition of the top group. */
  lemma {:induction false} TopContained(items: seq<Item>, l: Lookup, y: Layout, inst: Fields, p: nat)
    requires Laid(items, l, y) && WellNamed(items) && Defines(items, p) && Follows(items, inst, p)
    ensures l.slot(TopOp(inst)) != 0 ==> GroupAt(items, y.from(TopOp(inst))) < 0
    decreases p
  {
    var h := Head(items, p);
    if h >= 0 {
      TopContained(items, l, y, inst, Find(items, items[h].op));
    } else {
      assert Placed(items, l, y, p) && Sourced(items, l, y, TopOp(inst));
      if l.slot(TopOp(inst)) != 0 { SameIndex(items, l, y, y.from(TopOp(inst)), p); }
    }
  }

  // ------------------------------------------------- a condition on the definitions alone

  /** Groups with room for all values of the field that selects from them: the entries of the top
      group reach 63, those of every other group reach the mask of its link. */
  ghost predicate Filled(items: seq<Item>, y: Layout) {
    && (forall j: nat {:trigger Begins(items, j)} :: Begins(items, j) ==> 63 < y.start(j))
    && (forall q: nat, h: nat, j: nat {:trigger IsLink(items, q, h), Begins(items, j)} ::
          IsLink(items, q, h) && h < j && Begins(items, j) ==> y.start(h) + items[q].mask < y.start(j))
  }

  /** Then every instruction's fields are contained. */
  lemma FilledContains(items: seq<Item>, l: Lookup, y: Layout, inst: Fields)
    requires Laid(items, l, y) && Filled(items, y) && Masked(inst)
    ensures Contained(items, l, y, inst)
  {
    var top := TopOp(inst);
    if l.slot(top) != 0 {
      assert Sourced(items, l, y, top);
      var g := Head(items, y.from(top));
      assert g >= 0 ==> Begins(items, g) && Sided(y, y.from(top), g);
    }
    forall q: nat, h: nat | IsLink(items, q, h) && Follows(items, inst, q) ensures Kept(items, l, y, inst, q, h) {
      FilledKeeps(items, l, y, inst, q, h);
    }
  }

  lemma FilledKeeps(items: seq<Item>, l: Lookup, y: Layout, inst: Fields, q: nat, h: nat)
    requires Laid(items, l, y) && Filled(items, y) && Masked(inst) && IsLink(items, q, h)
    ensures Kept(items, l, y, inst, q, h)
  {
    var i := Next(l, inst, y.index(q));
    assert Placed(items, l, y, q) && Led(items, l, y, h);
    if l.slot(i) != 0 {
      var p := y.from(i);
      assert Sourced(items, l, y, i) && Sided(y, p, h);
      var g := Head(items, p);
      assert g >= 0 ==> Begins(items, g) && Sided(y, p, g);
    }
  }

  // --------------------------------------------------- the tables are laid out like this

  ghost predicate IsAt(items: seq<Item>, p: nat, i: nat) {
    Defines(items, p) && Build(items[..p]).Some? && Index(items, p) == i
  }

  ghost function IndexOf(items: seq<Item>, p: nat): nat {
    if Defines(items, p) && Build(items[..p]).Some? then Index(items, p) else 0
  }

  ghost function StartOf(items: seq<Item>, h: nat): nat {
    if h < |items| && Build(items[..h + 1]).Some? then At(items, h + 1).offset else 0
  }

  ghost function SourceOf(items: seq<Item>, i: nat): nat {
    if p: nat :| IsAt(items, p, i) then p else 0
  }

  ghost function LayoutOf(items: seq<Item>): Layout {
    Layout((p: nat) => IndexOf(items, p), (h: nat) => StartOf(items, h), (i: nat) => SourceOf(items, i))
  }

  lemma PlacedByBuild(items: seq<Item>, p: nat)
    requires Build(items).Some? && WellNamed(items) && Defines(items, p)
    ensures Placed(items, LookupOf(items, Build(items).value), LayoutOf(items), p)
  {
    IndexByBuild(items, p);
    StartByBuild(items, p);
    FindsItself(items, p);
  }

  lemma IndexByBuild(items: seq<Item>, p: nat)
    requires Build(items).Some? && WellNamed(items) && Defines(items, p)
    ensures IndexOf(items, p) < 2048 && Build(items).value.Slot(IndexOf(items, p)) == items[p].op
  {
    Stepped(items, p);
    assert items[..|items|] == items;
    SlotKept(items, p, |items|);
  }

  lemma StartByBuild(items: seq<Item>, p: nat)
    requires Build(items).Some? && Defines(items, p)
    ensures IndexOf(items, p) == items[p].msk + if Head(items, p) < 0 then 0 else StartOf(items, Head(items, p))
  {
    GroupOffset(items, p);
  }

  lemma SourcedByBuild(items: seq<Item>, i: nat)
    requires Build(items).Some?
    ensures Sourced(items, LookupOf(items, Build(items).value), LayoutOf(items), i)
  {
    var t := Build(items).value;
    if t.Slot(i) != 0 {
      assert items[..|items|] == items;
      var p := SlotDefined(items, |items|, i);
      assert IsAt(items, p, i);
    }
  }

  lemma LedByBuild(items: seq<Item>, h: nat)
    requires Build(items).Some? && Begins(items, h)
    ensures Led(items, LookupOf(items, Build(items).value), LayoutOf(items), h)
  {
    if LastConnect(items, h) {
      assert items[..|items|] == items;
      OpOffsetAt(items, h, |items|);
    }
  }

  lemma NothingIsZero(items: seq<Item>)
    requires WellNamed(items)
    ensures MaskOf(items, 0) == 0
  {
  }

  /** The tables built from definitions without error are laid out as described. */
  lemma BuildLays(items: seq<Item>)
    requires Build(items).Some? && WellNamed(items)
    ensures Laid(items, LookupOf(items, Build(items).value), LayoutOf(items))
  {
    var l, y := LookupOf(items, Build(items).value), LayoutOf(items);
    forall p: nat | Defines(items, p) ensures Placed(items, l, y, p) { PlacedByBuild(items, p); }
    forall i: nat ensures Sourced(items, l, y, i) { SourcedByBuild(items, i); }
    forall p: nat, h: nat | Defines(items, p) && Begins(items, h) ensures Sided(y, p, h) { IndexSides(items, p, h); }
    forall h: nat | Begins(items, h) ensures Led(items, l, y, h) { LedByBuild(items, h); }
    NothingIsZero(items);
  }

  /** The decoder on its own tables: it ends; it finds the opcode for every instruction whose
      fields lead there; and if it finds an opcode, the instruction's fields lead there exactly
      when none of them selects from a wrong group, which no instruction's do if the groups are
      filled. */
  lemma DecoderIsRight(items: seq<Item>, inst: nat, p: nat)
    requires Build(items).Some? && WellNamed(items) && LinksFirst(items)
    requires Defines(items, p) && MaskOf(items, items[p].op) == 0
    ensures var l, y, f := LookupOf(items, Build(items).value), LayoutOf(items), FieldsOf(inst);
            && Increasing(l)
            && (Follows(items, f, p) ==> Walk(l, f, TopOp(f)) == Opcode(items[p].op))
            && (Walk(l, f, TopOp(f)) == Opcode(items[p].op) ==> (Follows(items, f, p) <==> Contained(items, l, y, f)))
            && (Filled(items, y) ==> Contained(items, l, y, f))
  {
    var l, y, f := LookupOf(items, Build(items).value), LayoutOf(items), FieldsOf(inst);
    BuildLays(items);
    FieldsMasked(inst);
    DecodingEnds(items, l, y);
    if Follows(items, f, p) { DecodesPath(items, l, y, f, p); }
    if Walk(l, f, TopOp(f)) == Opcode(items[p].op) { DecodedFollowsIff(items, l, y, f, p); }
    if Filled(items, y) { FilledContains(items, l, y, f); }
  }

  /** Two links with one entry each: the field of the first has a value its group does not define. */
  const GAP: seq<Item> := [Link(1, 0, 0, 1), Link(2, 1, 0, 1), Connect(1), Inst(3, 0), Connect(2), Inst(4, 0)]

  lemma AddedTo(items: seq<Item>, t: Tables, item: Item)
    requires Build(items) == Some(t)
    ensures Build(items + [item]) == Add(t, item)
  {
    assert (items + [item])[..|items|] == items;
  }

  lemma GapBuilds()
    ensures Build(GAP) == Some(Tables(map[0 := 1, 1 := 2, 2 := 3, 3 := 4], map[1 := 2, 2 := 3], 3, 3))
  {
    AddedTo([], Tables(map[], map[], 0, 0), GAP[0]);
    var t1 := Tables(map[0 := 1], map[], 0, 0);
    assert [] + [GAP[0]] == [GAP[0]];
    AddedTo([GAP[0]], t1, GAP[1]);
    var t2 := Tables(map[0 := 1, 1 := 2], map[], 0, 1);
    assert t1.slots[1 := 2] == t2.slots;
    AddedTo([GAP[0]] + [GAP[1]], t2, GAP[2]);
    var t3 := Tables(t2.slots, map[1 := 2], 2, 1);
    assert t2.opoffset[1 := 2] == t3.opoffset;
    AddedTo([GAP[0]] + [GAP[1]] + [GAP[2]], t3, GAP[3]);
    var t4 := Tables(map[0 := 1, 1 := 2, 2 := 3], map[1 := 2], 2, 2);
    assert t3.slots[2 := 3] == t4.slots;
    AddedTo([GAP[0]] + [GAP[1]] + [GAP[2]] + [GAP[3]], t4, GAP[4]);
    var t5 := Tables(t4.slots, map[1 := 2, 2 := 3], 3, 2);
    assert t4.opoffset[2 := 3] == t5.opoffset;
    AddedTo([GAP[0]] + [GAP[1]] + [GAP[2]] + [GAP[3]] + [GAP[4]], t5, GAP[5]);
    assert t5.slots[3 := 4] == map[0 := 1, 1 := 2, 2 := 3, 3 := 4];
    assert [GAP[0]] + [GAP[1]] + [GAP[2]] + [GAP[3]] + [GAP[4]] + [GAP[5]] == GAP;
  }

  /** The undefined value decodes to the opcode of the next group, which the instruction does not
      lead to. */
  lemma GapMisleads(inst: Fields)
    requires TopOp(inst) == 0 && inst(0, 1) == 1
    ensures Build(GAP).Some? && WellNamed(GAP) && LinksFirst(GAP)
    ensures var l := LookupOf(GAP, Build(GAP).value);
            Increasing(l) && Walk(l, inst, TopOp(inst)) == Opcode(4) && Defines(GAP, 5) && GAP[5].op == 4 && !Follows(GAP, inst, 5)
  {
    GapBuilds();
    GapNames();
    BuildLays(GAP);
    var l := LookupOf(GAP, Build(GAP).value);
    DecodingEnds(GAP, l, LayoutOf(GAP));
    GapLookup(l);
    assert Walk(l, inst, 3) == Opcode(4);
    assert Head(GAP, 5) == 4 && Head(GAP, 1) == -1;
  }

  /** Machine instruction 1 is one. */
  lemma GapMisleadsOne()
    ensures Build(GAP).Some?
    ensures var l, f := LookupOf(GAP, Build(GAP).value), FieldsOf(1);
            Increasing(l) && Walk(l, f, TopOp(f)) == Opcode(4) && GAP[5].op == 4 && !Follows(GAP, f, 5)
  {
    FieldsOfOne();
    GapMisleads(FieldsOf(1));
  }

  lemma FieldsOfOne()
    ensures FieldsOf(1)(0, 1) == 1 && TopOp(FieldsOf(1)) == 0
  {
    assert And(1, 1) == 1;
    ShiftedOne(26);
    NoBits(0x3f);
  }

  lemma {:induction false} ShiftedOne(n: nat)
    requires n > 0
    ensures Shr(1, n) == 0
  {
    if n > 1 { ShiftedOne(n - 1); }
  }

  lemma {:induction false} NoBits(b: nat)
    ensures And(0, b) == 0
  {
    if b > 0 { NoBits(b / 2); }
  }

  lemma GapNames()
    ensures WellNamed(GAP) && LinksFirst(GAP) && Find(GAP, 1) == 0 && Find(GAP, 2) == 1 && Find(GAP, 4) == 5
  {
    assert Connects(GAP, 2, 1) && Connects(GAP, 4, 2);
    FindsItself(GAP, 0);
    FindsItself(GAP, 1);
    FindsItself(GAP, 5);
  }

  lemma GapLookup(l: Lookup)
    requires Build(GAP).Some? && l == LookupOf(GAP, Build(GAP).value)
    ensures l.slot(0) == 1 && l.slot(3) == 4 && l.mask(1) == 1 && l.shift(1) == 0 && l.off(1) == 2 && l.mask(4) == 0
  {
    GapBuilds();
    GapNames();
  }

  // ------------------------------------------------------------------------- the code

  class Decoder {
    const mask2op: array<nat>
    var opoffset: map<nat, nat>
    const items: seq<Item>

    ghost predicate Holds(t: Tables)
      reads this, mask2op
    {
      && mask2op.Length == 2049 && opoffset == t.opoffset
      && forall i :: 0 <= i < 2049 ==> mask2op[i] == t.Slot(i)
    }

    ghost predicate Valid()
      reads this, mask2op
    {
      && Build(items).Some? && WellNamed(items) && LinksFirst(items)
      && Holds(Build(items).value)
    }

    constructor (items: seq<Item>)
      ensures this.items == items && fresh(mask2op) && Holds(Tables(map[], map[], 0, 0))
    {
      this.items := items;
      opoffset := map[];
      mask2op := new nat[2049](_ => 0);
    }

    /** Fills the tables from the definitions in order; false where the source stops. */
    method Init() returns (ok: bool)
      requires Holds(Tables(map[], map[], 0, 0))
      modifies this, mask2op
      ensures ok <==> Build(items).Some?
      ensures ok ==> Holds(Build(items).value)
    {
      var offset, max, k := 0, 0, 0;
      ghost var t := Tables(map[], map[], 0, 0);
      while k < |items|
        invariant 0 <= k <= |items| && Build(items[..k]) == Some(t)
        invariant Holds(t) && offset == t.offset && max == t.max
      {
        var item := items[k];
        assert items[..k + 1][..k] == items[..k];
        k := k + 1;
        match item {
          case Connect(op) =>
            offset := max + 1;
            opoffset := opoffset[op := offset];
          case _ =>
            var i := item.msk + offset;
            if i >= 2048 || mask2op[i] != 0 {
              if Build(items).Some? {
                BuildPrefix(items, k);
              }
              return false;
            }
            mask2op[i] := item.op;
            max := if max < i then i else max;
        }
        t := Add(t, item).value;
      }
      assert items[..k] == items;
      return true;
    }

    /** Looks up one field after the other. */
    method Decode(inst: nat) returns (r: Decoded)
      requires Valid()
      ensures var l, f := LookupOf(items, Build(items).value), FieldsOf(inst);
              Increasing(l) && r == Walk(l, f, TopOp(f))
    {
      ghost var t := Build(items).value;
      ghost var l, f := LookupOf(items, t), FieldsOf(inst);
      BuildLays(items);
      DecodingEnds(items, l, LayoutOf(items));
      var i := Field(inst, 26, 0x3f);
      var op := mask2op[i];
      while MaskOf(items, op) != 0
        invariant i <= 2048 && op == mask2op[i] == l.slot(i) && Holds(t)
        invariant Walk(l, f, i) == Walk(l, f, TopOp(f))
        decreases 2048 - i
      {
        assert Grows(l, i);
        i := Field(inst, ShiftOf(items, op), MaskOf(items, op)) + (if op in opoffset then opoffset[op] else 0);
        if i > 2048 {
          return OutOfRange;
        }
        op := mask2op[i];
      }
      return Opcode(op);
    }
  }
}
