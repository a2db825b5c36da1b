/** The debugger's symbol tables: sizes from neighbouring addresses, and binary searches. */
module Symbols {
  import opened Basics

  // --------------------------------------------------------------------------- entries

  /** What a search by address looks at. */
  datatype Entry = Entry(addr: nat, size: int) {
    /** A symbol covers at least its own address. */
    function End(): int { addr + if size > 1 then size else 1 }

    predicate Covers(a: nat) { addr <= a < End() }

    predicate Matches(a: nat, exact: bool) { if exact then addr == a else Covers(a) }
  }

  /** Searched for exactly, a symbol is found by its own address; else by that and by all below its end. */
  lemma MatchesMeans(e: Entry, a: nat)
    ensures e.Matches(a, true) <==> a == e.addr
    ensures e.Matches(a, false) <==> a == e.addr || e.addr < a < e.addr + e.size
  {
  }

  ghost predicate Sorted(es: seq<Entry>) {
    forall i, j :: 0 <= i < j < |es| ==> es[i].addr <= es[j].addr
  }

  /** Sizes reach to the next symbol, the last one's to the end of the segment. */
  predicate SizeIs(es: seq<Entry>, end: int, i: nat)
    requires i < |es|
  {
    es[i].size == (if i + 1 < |es| then es[i + 1].addr else end) - es[i].addr
  }

  ghost predicate Sized(es: seq<Entry>, end: int) {
    forall i :: 0 <= i < |es| ==> SizeIs(es, end, i)
  }

  /** No symbol reaches past a later one, except that symbols at one address share that address. */
  ghost predicate Tidy(es: seq<Entry>) {
    forall i, j :: 0 <= i < j < |es| ==> es[i].End() <= es[j].addr || (es[i].addr == es[j].addr && es[i].End() == es[i].addr + 1)
  }

  /** Computed sizes make a sorted table tidy, duplicate addresses included. */
  lemma SizedIsTidy(es: seq<Entry>, end: int)
    requires Sorted(es) && Sized(es, end)
    ensures Tidy(es)
  {
    forall i, j | 0 <= i < j < |es|
      ensures es[i].End() <= es[j].addr || (es[i].addr == es[j].addr && es[i].End() == es[i].addr + 1)
    {
      assert SizeIs(es, end, i);
      assert es[i].addr <= es[i + 1].addr && (i + 1 < j ==> es[i + 1].addr <= es[j].addr);
    }
  }

  /** No symbol reaches another that begins at a higher address, in whatever order they are. */
  ghost predicate Spread(es: seq<Entry>) {
    forall x, y :: x in es && y in es && x.addr < y.addr ==> x.End() <= y.addr
  }

  lemma TidyIsSpread(es: seq<Entry>)
    requires Sorted(es) && Tidy(es)
    ensures Spread(es)
  {
    forall x, y | x in es && y in es && x.addr < y.addr ensures x.End() <= y.addr {
      var i :| 0 <= i < |es| && es[i] == x;
      var j :| 0 <= j < |es| && es[j] == y;
      assert i < j;
    }
  }

  /** The symbols of segments that lie one above the other, sorted anew in whatever order of
      duplicates: none reaches another at a higher address. */
  lemma SegmentsAreSpread(text: seq<Entry>, textEnd: int, data: seq<Entry>, dataEnd: int, all: seq<Entry>)
    requires Sorted(text) && Sized(text, textEnd) && Sorted(data) && Sized(data, dataEnd)
    requires forall i :: 0 <= i < |text| ==> text[i].addr < textEnd
    requires forall j :: 0 <= j < |data| ==> textEnd <= data[j].addr
    requires multiset(all) == multiset(text + data)
    ensures Spread(all)
  {
    SizedIsTidy(text, textEnd);
    SizedIsTidy(data, dataEnd);
    TidyIsSpread(text);
    TidyIsSpread(data);
    forall x, y | x in all && y in all && x.addr < y.addr ensures x.End() <= y.addr {
      assert x in multiset(text + data) && y in multiset(text + data);
      assert (x in text || x in data) && (y in text || y in data);
      if x in text && y in data { EndsBelow(text, textEnd, x); }
    }
  }

  lemma EndsBelow(es: seq<Entry>, end: int, x: Entry)
    requires Sorted(es) && Sized(es, end) && x in es && forall i :: 0 <= i < |es| ==> es[i].addr < end
    ensures x.End() <= end
  {
    var i :| 0 <= i < |es| && es[i] == x;
    assert SizeIs(es, end, i);
    assert i + 1 < |es| ==> es[i + 1].addr < end;
  }

  // --------------------------------------------------------------- searching by address

  function Middle(low: int, high: int): (pos: int)
    requires low <= high
    ensures low <= pos <= high
  {
    (low + high) / 2
  }

  /** The binary search between `low` and `high`. */
  function Search(es: seq<Entry>, a: nat, exact: bool, low: int, high: int): (pos: int)
    requires 0 <= low && high < |es|
    ensures pos == -1 || (low <= pos <= high && es[pos].Matches(a, exact))
    decreases high - low + 1
  {
    if low > high then -1
    else
      var pos := Middle(low, high);
      if es[pos].Matches(a, exact) then pos
      else if a < es[pos].addr then Search(es, a, exact, low, pos - 1)
      else Search(es, a, exact, pos + 1, high)
  }

  /** How many symbols the search looks at. */
  ghost function Looks(es: seq<Entry>, a: nat, exact: bool, low: int, high: int): nat
    requires 0 <= low && high < |es|
    decreases high - low + 1
  {
    if low > high then 0
    else
      var pos := Middle(low, high);
      if es[pos].Matches(a, exact) then 1
      else if a < es[pos].addr then 1 + Looks(es, a, exact, low, pos - 1)
      else 1 + Looks(es, a, exact, pos + 1, high)
  }

  /** A table of fewer than two to the `k` symbols is searched in `k` looks. */
  lemma {:induction false} LooksAtMost(es: seq<Entry>, a: nat, exact: bool, low: int, high: int, k: nat)
    requires 0 <= low && high < |es| && high - low + 1 < Pow2(k)
    ensures Looks(es, a, exact, low, high) <= k
    decreases k
  {
    if low <= high {
      var pos := Middle(low, high);
      if a < es[pos].addr {
        LooksAtMost(es, a, exact, low, pos - 1, k - 1);
      } else {
        LooksAtMost(es, a, exact, pos + 1, high, k - 1);
      }
    }
  }

  /** A later symbol begins at or below `a` but does not cover it. */
  ghost predicate Shadowed(es: seq<Entry>, a: nat, k: nat) {
    exists j :: k < j < |es| && es[j].addr <= a && !es[j].Covers(a)
  }

  /** In a sorted table an exact search misses no symbol, and an inexact one only those that are
      shadowed. */
  lemma {:induction false} MissesShadowed(es: seq<Entry>, a: nat, exact: bool, low: int, high: int, k: nat)
    requires Sorted(es) && 0 <= low <= k <= high < |es| && es[k].Matches(a, exact)
    requires Search(es, a, exact, low, high) < 0
    ensures !exact && Shadowed(es, a, k)
    decreases high - low
  {
    var pos := Middle(low, high);
    if a < es[pos].addr {
      MissesShadowed(es, a, exact, low, pos - 1, k);
    } else if k > pos {
      MissesShadowed(es, a, exact, pos + 1, high, k);
    } else {
      assert es[k].addr <= es[pos].addr <= a && !es[pos].Matches(a, exact);
      assert k < pos && !es[pos].Covers(a);
    }
  }

  /** In a tidy table no symbol that covers an address is shadowed. */
  lemma TidyUnshadowed(es: seq<Entry>, a: nat, k: nat)
    requires Sorted(es) && Tidy(es) && k < |es| && es[k].Covers(a)
    ensures !Shadowed(es, a, k)
  {
  }

  /** In a table of spread symbols only a duplicate shadows another symbol: one at the same
      address, that is shorter. */
  lemma OnlyDuplicatesShadow(es: seq<Entry>, a: nat, k: nat)
    requires Sorted(es) && Spread(es) && k < |es| && es[k].Covers(a) && Shadowed(es, a, k)
    ensures exists j :: k < j < |es| && es[j].addr == es[k].addr && es[j].End() < es[k].End()
  {
    var j :| k < j < |es| && es[j].addr <= a && !es[j].Covers(a);
    assert es[k] in es && es[j] in es && es[k].addr <= es[j].addr;
  }

  // ------------------------------------------------- what the search finds, exactly

  /** Whether a binary search between `low` and `high` that makes for place `h` looks at place `k`. */
  predicate Probed(low: int, high: int, h: int, k: int)
    decreases high - low + 1
  {
    low <= high
    && var pos := Middle(low, high);
       pos == k || (if pos > h then Probed(low, pos - 1, h, k) else Probed(pos + 1, high, h, k))
  }

  /** The place of the last symbol that begins at or below `a`; -1 if there is none. */
  function Last(es: seq<Entry>, a: nat): (h: int)
    ensures -1 <= h < |es|
    ensures h >= 0 ==> es[h].addr <= a
    ensures forall i :: h < i < |es| ==> es[i].addr > a
  {
    if es == [] || es[|es| - 1].addr <= a then |es| - 1 else Last(es[..|es| - 1], a)
  }

  /** A symbol that the search finds was looked at on the way to the last one at or below `a`. */
  lemma {:induction false} FoundWasProbed(es: seq<Entry>, a: nat, low: int, high: int)
    requires Sorted(es) && 0 <= low && high < |es| && Search(es, a, false, low, high) >= 0
    ensures Probed(low, high, Last(es, a), Search(es, a, false, low, high))
    decreases high - low + 1
  {
    var pos := Middle(low, high);
    if !es[pos].Covers(a) {
      if a < es[pos].addr { FoundWasProbed(es, a, low, pos - 1); } else { FoundWasProbed(es, a, pos + 1, high); }
    }
  }

  /** ... and one that is looked at and covers `a` lets the search succeed. */
  lemma {:induction false} ProbedIsFound(es: seq<Entry>, a: nat, low: int, high: int, k: nat)
    requires Sorted(es) && 0 <= low && high < |es| && k < |es|
    requires es[k].Covers(a) && Probed(low, high, Last(es, a), k)
    ensures Search(es, a, false, low, high) >= 0
    decreases high - low + 1
  {
    var pos := Middle(low, high);
    if !es[pos].Covers(a) {
      if a < es[pos].addr { ProbedIsFound(es, a, low, pos - 1, k); } else { ProbedIsFound(es, a, pos + 1, high, k); }
    }
  }

  ghost predicate FindsOne(es: seq<Entry>, a: nat) {
    exists k: nat :: k < |es| && es[k].Covers(a) && Probed(0, |es| - 1, Last(es, a), k)
  }

  /** In any sorted table the inexact search succeeds if and only if a symbol that covers the address
      is looked at on the way to the last one that begins at or below it. */
  lemma SearchFindsIff(es: seq<Entry>, a: nat)
    requires Sorted(es)
    ensures Search(es, a, false, 0, |es| - 1) >= 0 <==> FindsOne(es, a)
  {
    if Search(es, a, false, 0, |es| - 1) >= 0 { FoundWasProbed(es, a, 0, |es| - 1); }
    forall k: nat | k < |es| && es[k].Covers(a) && Probed(0, |es| - 1, Last(es, a), k)
      ensures Search(es, a, false, 0, |es| - 1) >= 0
    {
      ProbedIsFound(es, a, 0, |es| - 1, k);
    }
  }

  /** The last one itself is always looked at. */
  lemma {:induction false} LastIsProbed(low: int, high: int, h: int)
    requires low <= h <= high
    ensures Probed(low, high, h, h)
    decreases high - low
  {
    var pos := Middle(low, high);
    if pos > h { LastIsProbed(low, pos - 1, h); } else if pos < h { LastIsProbed(pos + 1, high, h); }
  }

  /** At most one symbol of an address is longer than one byte. */
  ghost predicate OneSized(es: seq<Entry>) {
    forall i, j :: 0 <= i < j < |es| && es[i].addr == es[j].addr ==> es[i].End() == es[i].addr + 1 || es[j].End() == es[j].addr + 1
  }

  lemma {:induction false} TwoPlaces(es: seq<Entry>, x: Entry) returns (i: nat, j: nat)
    requires multiset(es)[x] > 1
    ensures i < j < |es| && es[i] == x && es[j] == x
  {
    var n := |es| - 1;
    assert es == es[..n] + [es[n]];
    if multiset(es[..n])[x] > 1 {
      i, j := TwoPlaces(es[..n], x);
    } else {
      assert x in multiset(es[..n]);
      i :| 0 <= i < n && es[..n][i] == x;
      j := n;
    }
  }

  /** Sorting anew keeps that. */
  lemma OneSizedAnyOrder(es: seq<Entry>, all: seq<Entry>)
    requires OneSized(es) && multiset(all) == multiset(es)
    ensures OneSized(all)
  {
    forall i, j | 0 <= i < j < |all| && all[i].addr == all[j].addr
      ensures all[i].End() == all[i].addr + 1 || all[j].End() == all[j].addr + 1
    {
      var x, y := all[i], all[j];
      if x == y {
        TwiceCounted(all, i, j);
        var u, v := TwoPlaces(es, x);
      } else {
        assert x in multiset(all) && y in multiset(all);
        assert x in es && y in es;
        var u :| 0 <= u < |es| && es[u] == x;
        var v :| 0 <= v < |es| && es[v] == y;
      }
    }
  }

  lemma TwiceCounted(es: seq<Entry>, i: nat, j: nat)
    requires i < j < |es| && es[i] == es[j]
    ensures multiset(es)[es[i]] > 1
  {
    assert es == es[..j] + es[j..];
    assert es[..j][i] == es[i] && es[j..][0] == es[i];
    assert es[i] in multiset(es[..j]) && es[i] in multiset(es[j..]);
  }

  /** The table of both segments, however its duplicates are ordered: the search for an address
      behind the first byte of a symbol finds that symbol if its place is looked at on the way to
      the last symbol of the same address, and nothing if it is not.  The last one is looked at. */
  lemma JointSearch(text: seq<Entry>, textEnd: int, data: seq<Entry>, dataEnd: int, all: seq<Entry>, a: nat, k: nat)
    requires Sorted(text) && Sized(text, textEnd) && Sorted(data) && Sized(data, dataEnd)
    requires forall i :: 0 <= i < |text| ==> text[i].addr < textEnd
    requires forall j :: 0 <= j < |data| ==> textEnd <= data[j].addr
    requires multiset(all) == multiset(text + data) && Sorted(all)
    requires k < |all| && all[k].Covers(a) && all[k].addr < a
    ensures var h := Last(all, a);
            && k <= h && all[h].addr == all[k].addr
            && Search(all, a, false, 0, |all| - 1) == (if Probed(0, |all| - 1, h, k) then k else -1)
            && (k == h ==> Probed(0, |all| - 1, h, k))
  {
    SegmentsAreSpread(text, textEnd, data, dataEnd, all);
    SegmentsOneSized(text, textEnd, data, dataEnd);
    OneSizedAnyOrder(text + data, all);
    forall j: nat | j < |all| && all[j].Covers(a) ensures j == k {
      OnlyOneCovers(all, a, j, k);
    }
    assert all[k] in all && all[Last(all, a)] in all;
    LastIsProbed(0, |all| - 1, Last(all, a));
    SearchFindsIff(all, a);
  }

  lemma SegmentsOneSized(text: seq<Entry>, textEnd: int, data: seq<Entry>, dataEnd: int)
    requires Sorted(text) && Sized(text, textEnd) && Sorted(data) && Sized(data, dataEnd)
    requires forall i :: 0 <= i < |text| ==> text[i].addr < textEnd
    requires forall j :: 0 <= j < |data| ==> textEnd <= data[j].addr
    ensures OneSized(text + data)
  {
    SizedIsTidy(text, textEnd);
    SizedIsTidy(data, dataEnd);
  }

  lemma OnlyOneCovers(es: seq<Entry>, a: nat, j: nat, k: nat)
    requires Spread(es) && OneSized(es) && j < |es| && k < |es|
    requires es[j].Covers(a) && es[k].Covers(a) && es[k].addr < a
    ensures j == k
  {
    assert es[j] in es && es[k] in es;
    assert es[j].addr == es[k].addr;
  }

  /** The symbol may be missed: sorted apart from the segment tables, it may
      have the duplicate that got the size first; the search for an address inside it then goes
      past it. */
  lemma DuplicateMissed(x: Entry, y: Entry, z: Entry, a: nat)
    requires x.addr == y.addr && x.size == 0 && y.size == z.addr - y.addr && y.addr < a < z.addr
    ensures var text, all := [x, y, z], [y, x, z];
            && Sorted(text) && Sized(text, z.addr + z.size) && Sorted(all) && multiset(all) == multiset(text)
            && y.Covers(a) && Search(text, a, false, 0, 2) == 1 && Search(all, a, false, 0, 2) == -1
  {
    var text, all, end := [x, y, z], [y, x, z], z.addr + z.size;
    assert SizeIs(text, end, 0) && SizeIs(text, end, 1) && SizeIs(text, end, 2);
    assert Search(all, a, false, 2, 2) == -1;
  }

  // ---------------------------------------------------------------------------- names

  /** The order of strcmp: character by character, and a string before its extensions. */
  function Compare(s: string, t: string): int {
    if s == "" then (if t == "" then 0 else -1)
    else if t == "" then 1
    else if s[0] != t[0] then (if s[0] < t[0] then -1 else 1)
    else Compare(s[1..], t[1..])
  }

  /** `i` is the first place where the strings differ, or where one of them ends. */
  ghost predicate FirstDifference(s: string, t: string, i: nat) {
    i <= |s| && i <= |t| && s[..i] == t[..i] && (i < |s| && i < |t| ==> s[i] != t[i])
  }

  /** The first string comes first exactly if the first character that differs is smaller in it, or missing. */
  lemma {:induction false} CompareMeans(s: string, t: string, i: nat)
    requires FirstDifference(s, t, i)
    ensures Compare(s, t) < 0 <==> i < |t| && (i == |s| || s[i] < t[i])
    ensures Compare(s, t) > 0 <==> i < |s| && (i == |t| || s[i] > t[i])
  {
    if i > 0 {
      assert s[..i][0] == t[..i][0];
      assert s[1..][..i - 1] == s[..i][1..] && t[1..][..i - 1] == t[..i][1..];
      CompareMeans(s[1..], t[1..], i - 1);
    }
  }

  lemma {:induction false} CompareEqual(s: string, t: string)
    ensures Compare(s, t) == 0 <==> s == t
  {
    if s != "" && t != "" && s[0] == t[0] {
      CompareEqual(s[1..], t[1..]);
      assert s == [s[0]] + s[1..] && t == [t[0]] + t[1..];
    }
  }

  lemma {:induction false} CompareTransitive(s: string, t: string, u: string)
    requires Compare(s, t) <= 0 && Compare(t, u) <= 0
    ensures Compare(s, u) <= 0
    ensures Compare(s, t) < 0 || Compare(t, u) < 0 ==> Compare(s, u) < 0
  {
    if s != "" && t != "" && u != "" && s[0] == t[0] == u[0] {
      CompareTransitive(s[1..], t[1..], u[1..]);
    }
  }

  lemma {:induction false} CompareOpposite(s: string, t: string)
    ensures Compare(s, t) > 0 <==> Compare(t, s) < 0
  {
    if s != "" && t != "" && s[0] == t[0] { CompareOpposite(s[1..], t[1..]); }
  }

  ghost predicate SortedNames(names: seq<string>) {
    forall i, j :: 0 <= i < j < |names| ==> Compare(names[i], names[j]) <= 0
  }

  // --------------------------------------------------------------------------- tables

  class Symbol {
    const name: string
    const addr: nat
    var size: int

    constructor (name: string, addr: nat)
      ensures this.name == name && this.addr == addr
    {
      this.name, this.addr := name, addr;
      size := 0;
    }
  }

  ghost function Entries(syms: seq<Symbol>): (es: seq<Entry>)
    reads syms
    ensures |es| == |syms| && forall i :: 0 <= i < |es| ==> es[i] == Entry(syms[i].addr, syms[i].size)
  {
    seq(|syms|, i requires 0 <= i < |syms| reads syms => Entry(syms[i].addr, syms[i].size))
  }

  /** Computes the sizes of a segment's symbols in place, for every table that lists them. */
  method ComputeSizes(syms: seq<Symbol>, end: int)
    requires forall i, j :: 0 <= i < j < |syms| ==> syms[i] != syms[j]
    modifies syms
    ensures Sized(Entries(syms), end)
  {
    var i := 0;
    while i < |syms|
      invariant 0 <= i <= |syms|
      invariant forall k {:trigger syms[k].size} :: 0 <= k < i ==>
                  syms[k].size == (if k + 1 < |syms| then syms[k + 1].addr else end) - syms[k].addr
    {
      syms[i].size := (if i != |syms| - 1 then syms[i + 1].addr else end) - syms[i].addr;
      i := i + 1;
    }
    forall k | 0 <= k < |syms| ensures SizeIs(Entries(syms), end, k) {
      assert Entries(syms)[k].size == syms[k].size;
    }
  }

  /** The symbol at or around an address.  In any sorted table an exact search finds a symbol if
      there is one; an inexact one finds one unless all that cover the address are shadowed, and
      in a tidy table, as the segment tables are, whenever there is one.  Exactly, it finds one if
      and only if it looks at one on the way to the last symbol that begins at or below the address. */
  method BindAddr(syms: seq<Symbol>, a: nat, exact: bool) returns (pos: int)
    requires Sorted(Entries(syms))
    ensures pos == Search(Entries(syms), a, exact, 0, |syms| - 1) && Answers(Entries(syms), a, exact, pos)
  {
    pos := Probe(syms, a, exact);
    SearchAnswers(Entries(syms), a, exact);
  }

  /** What the answer `pos` to a search says. */
  ghost predicate Answers(es: seq<Entry>, a: nat, exact: bool, pos: int) {
    && -1 <= pos < |es| && (pos >= 0 ==> es[pos].Matches(a, exact))
    && (pos < 0 ==> forall k :: 0 <= k < |es| && es[k].Matches(a, exact) ==> !exact && Shadowed(es, a, k))
    && (pos < 0 && Tidy(es) ==> forall k :: 0 <= k < |es| ==> !es[k].Matches(a, exact))
    && (!exact ==> (pos >= 0 <==> FindsOne(es, a)))
  }

  lemma SearchAnswers(es: seq<Entry>, a: nat, exact: bool)
    requires Sorted(es)
    ensures Answers(es, a, exact, Search(es, a, exact, 0, |es| - 1))
  {
    if !exact { SearchFindsIff(es, a); }
    if Search(es, a, exact, 0, |es| - 1) < 0 { NotFound(es, a, exact); }
  }

  method Probe(syms: seq<Symbol>, a: nat, exact: bool) returns (pos: int)
    ensures pos == Search(Entries(syms), a, exact, 0, |syms| - 1)
  {
    ghost var es := Entries(syms);
    if |syms| == 0 {
      return -1;
    }
    var low, high := 0, |syms| - 1;
    pos := Middle(low, high);
    while !(Entry(syms[pos].addr, syms[pos].size).Matches(a, exact))
      invariant 0 <= low <= high < |syms| && pos == Middle(low, high)
      invariant Search(es, a, exact, low, high) == Search(es, a, exact, 0, |syms| - 1)
      decreases high - low
    {
      assert es[pos] == Entry(syms[pos].addr, syms[pos].size);
      if a < syms[pos].addr {
        high := pos - 1;
      } else {
        low := pos + 1;
      }
      if high >= low {
        pos := Middle(low, high);
      } else {
        return -1;
      }
    }
  }

  lemma NotFound(es: seq<Entry>, a: nat, exact: bool)
    requires Sorted(es) && Search(es, a, exact, 0, |es| - 1) < 0
    ensures forall k :: 0 <= k < |es| && es[k].Matches(a, exact) ==> !exact && Shadowed(es, a, k)
    ensures Tidy(es) ==> forall k :: 0 <= k < |es| ==> !es[k].Matches(a, exact)
  {
    forall k | 0 <= k < |es| && es[k].Matches(a, exact) ensures !exact && Shadowed(es, a, k) && !Tidy(es) {
      MissesShadowed(es, a, exact, 0, |es| - 1, k);
      if Tidy(es) { TidyUnshadowed(es, a, k); }
    }
  }

  /** The symbol of a name: found if there is one. */
  method BindName(names: seq<string>, name: string) returns (pos: int)
    requires SortedNames(names)
    ensures -1 <= pos < |names|
    ensures pos >= 0 ==> names[pos] == name
    ensures pos < 0 ==> name !in names
  {
    if |names| == 0 {
      return -1;
    }
    var low, high := 0, |names| - 1;
    pos := (low + high) / 2;
    var cmp := Compare(names[pos], name);
    while cmp != 0
      invariant 0 <= low <= pos <= high < |names| && cmp == Compare(names[pos], name)
      invariant forall k :: 0 <= k < low || high < k < |names| ==> names[k] != name
      decreases high - low
    {
      if cmp > 0 {
        high := pos - 1;
      } else {
        low := pos + 1;
      }
      NamesBeside(names, name, pos);
      if high >= low {
        pos := (low + high) / 2;
        cmp := Compare(names[pos], name);
      } else {
        return -1;
      }
    }
    CompareEqual(names[pos], name);
  }

  /** Where a name can not be, after a comparison in the middle. */
  lemma NamesBeside(names: seq<string>, name: string, pos: nat)
    requires SortedNames(names) && pos < |names|
    ensures Compare(names[pos], name) > 0 ==> forall k :: pos <= k < |names| ==> names[k] != name
    ensures Compare(names[pos], name) < 0 ==> forall k :: 0 <= k <= pos ==> names[k] != name
  {
    forall k | 0 <= k < |names| && (if k < pos then Compare(names[pos], name) < 0 else Compare(names[pos], name) > 0)
      ensures names[k] != name
    {
      CompareEqual(names[k], name);
      CompareOpposite(names[pos], name);
      CompareOpposite(names[k], name);
      if k < pos {
        CompareTransitive(names[k], names[pos], name);
      } else if k > pos {
        CompareTransitive(name, names[pos], names[k]);
      }
    }
    CompareEqual(names[pos], name);
  }
}
