/** Reading what was printed. */
module ExoRoundTrip {
  import opened Machine
  import opened Numbers
  import opened Exo

  /** Array and blob sizes are C ints. */
  ghost predicate Fits(t: Term) {
    match t
    case Integer(_) => true
    case Address(_) => true
    case List(elts) => forall i :: 0 <= i < |elts| ==> Fits(elts[i])
    case Array(slots) => |slots| < 0x8000_0000 && forall i :: 0 <= i < |slots| ==> slots[i].Filled? ==> Fits(slots[i].term)
    case Blob(data) => |data| < 0x8000_0000
  }

  ghost predicate HasEmptyBlob(t: Term) {
    match t
    case Integer(_) => false
    case Address(_) => false
    case List(elts) => exists i :: 0 <= i < |elts| && HasEmptyBlob(elts[i])
    case Array(slots) => exists i :: 0 <= i < |slots| && slots[i].Filled? && HasEmptyBlob(slots[i].term)
    case Blob(data) => data == []
  }

  /** Whether text behind a term would be read as a continuation of it: digits, a fraction or an
      exponent behind a number, what makes a zero the beginning of an address. */
  predicate RunsOn(t: Term, rest: string) {
    match t
    case Integer(v) =>
      || (rest != "" && DigitValue(rest[0]) < 10)
      || StartsFraction(rest)
      || (v == 0 && |rest| > 1 && (rest[0] == 'x' || rest[0] == 'X') && DigitValue(rest[1]) < 16)
    case Address(_) => rest != "" && DigitValue(rest[0]) < 16
    case _ => false
  }

  /** Text that continues no term. */
  ghost predicate Stops(rest: string) {
    rest == "" || (DigitValue(rest[0]) == 36 && rest[0] != '.')
  }

  lemma StopsAll(t: Term, rest: string)
    requires Stops(rest)
    ensures !RunsOn(t, rest)
  {
  }

  // ------------------------------------------------------------------------ tokens

  lemma LexPunct(c: char, rest: string)
    requires IsPunct(c)
    ensures Lex([c] + rest, Initial) == (Punct(c), rest) && NextChar([c] + rest) == c
  {
    assert ([c] + rest)[1..] == rest;
  }

  lemma LeadingBlank(c: char, s: string, mode: Mode)
    requires IsBlank(c)
    ensures SkipBlanks([c] + s) == SkipBlanks(s) && SkipGaps([c] + s, mode) == SkipGaps(s, mode)
    ensures Lex([c] + s, mode) == Lex(s, mode) && NextChar([c] + s) == NextChar(s)
  {
    assert ([c] + s)[1..] == s;
  }

  lemma LexDigits(num: string, rest: string)
    requires num != "" && AllDigits(num, 10) && (rest == "" || DigitValue(rest[0]) >= 10)
    requires !(num == "0" && |rest| > 1 && (rest[0] == 'x' || rest[0] == 'X') && DigitValue(rest[1]) < 16)
    ensures Lex(num + rest, Initial) == (if StartsFraction(rest) then Other else Int(num), rest)
  {
    var t := num + rest;
    assert DigitValue(t[0]) < 10;
    if |num| > 1 {
      assert t[1] == num[1];
    } else if |rest| > 1 {
      assert t[1] == rest[0] && t[2] == rest[1];
    }
    SkipAllDigits(num, rest, 0, 10);
    assert t[..|num|] == num && t[|num|..] == rest;
  }

  lemma LexHexDigits(num: string, rest: string)
    requires num != "" && AllDigits(num, 16) && (rest == "" || DigitValue(rest[0]) >= 16)
    ensures Lex("0x" + (num + rest), Initial) == (Hex("0x" + num), rest)
  {
    var all := "0x" + num;
    var t := "0x" + (num + rest);
    assert t == all + rest && t[2] == num[0];
    assert forall k :: 2 <= k < |all| ==> all[k] == num[k - 2];
    SkipAllDigits(all, rest, 2, 16);
    assert t[..|all|] == all && t[|all|..] == rest;
  }

  /** More digits behind a number are taken as part of it. */
  lemma LexLonger(num: string, rest: string)
    requires num != "" && AllDigits(num, 10) && rest != "" && DigitValue(rest[0]) < 10
    ensures |Lex(num + rest, Initial).1| < |rest|
  {
    var t, more := num + rest, num + [rest[0]];
    assert t == more + rest[1..] && DigitValue(t[0]) < 10 && DigitValue(t[1]) < 10;
    SkipSomeDigits(more, rest[1..], 0, 10);
  }

  lemma LexLongerHex(num: string, rest: string)
    requires num != "" && AllDigits(num, 16) && rest != "" && DigitValue(rest[0]) < 16
    ensures |Lex("0x" + (num + rest), Initial).1| < |rest|
  {
    var t, more := "0x" + (num + rest), "0x" + num + [rest[0]];
    assert t == more + rest[1..] && t[2] == num[0];
    assert forall k :: 2 <= k < |num| + 2 ==> more[k] == num[k - 2];
    SkipSomeDigits(more, rest[1..], 2, 16);
  }

  lemma {:induction false} SkipSomeDigits(s: string, t: string, i: nat, base: nat)
    requires i <= |s| && (forall k :: i <= k < |s| ==> DigitValue(s[k]) < base)
    ensures SkipDigits(s + t, i, base) >= |s|
    decreases |s| - i
  {
    if i < |s| { SkipSomeDigits(s, t, i + 1, base); }
  }

  lemma LexZeroX(rest: string)
    requires |rest| > 1 && (rest[0] == 'x' || rest[0] == 'X') && DigitValue(rest[1]) < 16
    ensures Lex("0" + rest, Initial).0.Hex?
  {
    var t := "0" + rest;
    assert t[1] == rest[0] && t[2] == rest[1];
  }

  /** A printed term starts with a digit or an opening delimiter. */
  lemma PrintStarts(t: Term, rest: string)
    ensures PrintOn(t, rest) != "" && var c := PrintOn(t, rest)[0]; DigitValue(c) < 10 || c == '(' || c == '{'
    ensures NextChar(PrintOn(t, rest)) == PrintOn(t, rest)[0]
  {
    match t
    case Integer(v) => NumeralValue(v, 10);
    case _ =>
  }

  // ------------------------------------------------------------------------- blobs

  lemma LexByte(b: Byte, rest: string)
    ensures Lex(PrintByte(b) + rest, BlobMode) == (HexByte(b), rest)
  {
    DigitRoundTrip(b / 16);
    DigitRoundTrip(b % 16);
    assert (PrintByte(b) + rest)[2..] == rest;
  }

  lemma LexBlobEnd(rest: string)
    ensures Lex(">" + rest, BlobMode) == (Punct('>'), rest)
  {
    assert (">" + rest)[1..] == rest;
  }

  lemma LexNextByte(i: nat, b: Byte, more: string)
    ensures Lex(LineBreak(i) + (PrintByte(b) + more), BlobMode) == (HexByte(b), more)
  {
    var t := PrintByte(b) + more;
    LexByte(b, more);
    if LineBreak(i) == "\n" { LeadingBlank('\n', t, BlobMode); } else { assert LineBreak(i) + t == t; }
  }

  lemma {:induction false} BytesRead(data: seq<Byte>, i: nat, rest: string)
    requires i <= |data|
    ensures ReadBytes(BytesOn(data, i, ">" + rest), |data|, data[..i]) == Ok(data, rest, Initial)
    decreases |data| - i
  {
    if i == |data| {
      BytesEnd(data, rest);
    } else {
      BytesRead(data, i + 1, rest);
      var more := BytesOn(data, i + 1, ">" + rest);
      LexNextByte(i, data[i], more);
      OneMoreByte(BytesOn(data, i, ">" + rest), |data|, data[..i], data[i], more);
      assert data[..i] + [data[i]] == data[..i + 1];
    }
  }

  lemma BytesEnd(data: seq<Byte>, rest: string)
    ensures ReadBytes(BytesOn(data, |data|, ">" + rest), |data|, data[..|data|]) == Ok(data, rest, Initial)
  {
    LexBlobEnd(rest);
    LeadingBlank('\n', ">" + rest, BlobMode);
    assert data[..|data|] + seq(0, _ => 0) == data;
  }

  lemma OneMoreByte(s: string, size: nat, acc: seq<Byte>, b: Byte, more: string)
    requires |acc| < size && Lex(s, BlobMode) == (HexByte(b), more)
    ensures ReadBytes(s, size, acc) == ReadBytes(more, size, acc + [b])
  {
  }

  // ---------------------------------------------------------------- one step of the reader

  lemma ZeroNumeral(v: U64)
    ensures Numeral(v, 10) == "0" <==> v == 0
  {
    NumeralValue(v, 10);
    NumeralValue(0, 10);
  }

  lemma ReadInteger(v: U64, rest: string)
    ensures Read(Numeral(v, 10) + rest, Initial) == Ok(Integer(v), rest, Initial) <==> !RunsOn(Integer(v), rest)
  {
    var num := Numeral(v, 10);
    NumeralValue(v, 10);
    ZeroNumeral(v);
    if rest != "" && DigitValue(rest[0]) < 10 {
      LexLonger(num, rest);
    } else if v == 0 && |rest| > 1 && (rest[0] == 'x' || rest[0] == 'X') && DigitValue(rest[1]) < 16 {
      LexZeroX(rest);
    } else {
      LexDigits(num, rest);
      DecimalRoundTrip(v);
    }
  }

  lemma ReadAddress(v: U64, rest: string)
    ensures Read("0x" + (Numeral(v, 16) + rest), Initial) == Ok(Address(v), rest, Initial) <==> !RunsOn(Address(v), rest)
  {
    NumeralValue(v, 16);
    if RunsOn(Address(v), rest) {
      LexLongerHex(Numeral(v, 16), rest);
    } else {
      LexHexDigits(Numeral(v, 16), rest);
      HexRoundTrip(v);
    }
  }

  lemma ReadOpen(c: char, s: string)
    requires c == '(' || c == '{'
    ensures Read([c] + s, Initial) == if c == '(' then ReadList(s) else ReadSized(s)
  {
    LexPunct(c, s);
  }

  lemma SizedStep(s: string, n: nat, c: char, body: string)
    requires n < 0x8000_0000 && (c == '[' || c == '<')
    requires Read(s, Initial) == Ok(Integer(n), "}" + ([c] + body), Initial)
    ensures ReadSized(s) == if c == '[' then ReadArray(body, n) else ReadBlob(body, n)
  {
    LexPunct('}', [c] + body);
    LexPunct(c, body);
    SmallInt32(n);
  }

  lemma SmallInt32(n: nat)
    requires n < 0x8000_0000
    ensures Int32(n) == n
  {
  }

  lemma SizeReads(n: nat, c: char, body: string)
    requires n < 0x8000_0000 && (c == '[' || c == '<')
    ensures Read(SizeOn(n, [c] + body), Initial) == if c == '[' then ReadArray(body, n) else ReadBlob(body, n)
  {
    var s := Numeral(n, 10) + ("}" + ([c] + body));
    ReadInteger(n, "}" + ([c] + body));
    SizedStep(s, n, c, body);
    ReadOpen('{', s);
  }

  lemma BlobStarts(data: seq<Byte>, rest: string)
    requires data != []
    ensures NextChar("\n" + BytesOn(data, 0, rest)) != '>'
  {
    var body := BytesOn(data, 0, rest);
    LeadingBlank('\n', body, BlobMode);
    DigitRoundTrip(data[0] / 16);
    assert body == PrintByte(data[0]) + BytesOn(data, 1, rest);
    assert body[0] == DigitChar(data[0] / 16);
  }

  lemma BlankBytes(s: string, size: nat)
    ensures ReadBytes("\n" + s, size, []) == ReadBytes(s, size, [])
  {
    LeadingBlank('\n', s, BlobMode);
  }

  lemma BlobStep(s: string, data: seq<Byte>, rest: string)
    requires NextChar(s) != '>' && ReadBytes(s, |data|, []) == Ok(data, rest, Initial)
    ensures ReadBlob(s, |data|) == Ok(Blob(data), rest, Initial)
  {
  }

  lemma BlobBody(data: seq<Byte>, rest: string)
    requires data != []
    ensures ReadBlob("\n" + BytesOn(data, 0, ">" + rest), |data|) == Ok(Blob(data), rest, Initial)
  {
    var body := BytesOn(data, 0, ">" + rest);
    BlobStarts(data, ">" + rest);
    BytesRead(data, 0, rest);
    assert data[..0] == [];
    BlankBytes(body, |data|);
    BlobStep("\n" + body, data, rest);
  }

  lemma BlobReads(data: seq<Byte>, rest: string)
    requires 0 < |data| < 0x8000_0000
    ensures Read(PrintOn(Blob(data), rest), Initial) == Ok(Blob(data), rest, Initial)
  {
    BlobBody(data, rest);
    BlobTextOn(data, rest);
    SizeReads(|data|, '<', "\n" + BytesOn(data, 0, ">" + rest));
  }

  lemma BlobTextOn(data: seq<Byte>, rest: string)
    ensures PrintOn(Blob(data), rest) == SizeOn(|data|, ['<'] + ("\n" + BytesOn(data, 0, ">" + rest)))
  {
  }

  // ---------------------------------------------------------------- lists and arrays

  ghost predicate Good(t: Term) {
    Fits(t) && !HasEmptyBlob(t)
  }

  /** A comma and a blank between two elements. */
  lemma Separator(more: string)
    ensures Lex("," + (" " + more), Initial) == (Punct(','), " " + more)
    ensures NextChar("," + (" " + more)) == ',' && NextChar(" " + more) == NextChar(more)
    ensures Read(" " + more, Initial) == Read(more, Initial)
  {
    LexPunct(',', " " + more);
    LeadingBlank(' ', more, Initial);
  }

  lemma LastItem(s: string, acc: seq<Term>, t: Term, rest: string)
    requires Read(s, Initial) == Ok(t, ")" + rest, Initial)
    ensures ReadItems(s, Initial, acc) == Ok(acc + [t], ")" + rest, Initial)
  {
    LexPunct(')', rest);
  }

  lemma OneMoreItem(s: string, acc: seq<Term>, t: Term, more: string)
    requires Read(s, Initial) == Ok(t, "," + (" " + more), Initial) && NextChar(more) != ')'
    ensures ReadItems(s, Initial, acc) == ReadItems(more, Initial, acc + [t])
  {
    Separator(more);
    assert ReadItems(" " + more, Initial, acc + [t]) == ReadItems(more, Initial, acc + [t]);
  }

  lemma ListStep(s: string, elts: seq<Term>, rest: string)
    requires NextChar(s) != ')' && ReadItems(s, Initial, []) == Ok(elts, ")" + rest, Initial)
    ensures ReadList(s) == Ok(List(elts), rest, Initial)
  {
    LexPunct(')', rest);
  }

  lemma ArrayStep(s: string, size: nat, slots: seq<Slot>, rest: string)
    requires |slots| <= size && NextChar(s) != ']' && ReadSlots(s, Initial, size, []) == Ok(slots, "]" + rest, Initial)
    ensures ReadArray(s, size) == Ok(Array(Padded(slots, size)), rest, Initial)
  {
    LexPunct(']', rest);
  }

  lemma {:induction false} ReadPrint(t: Term, rest: string)
    requires Good(t) && !RunsOn(t, rest)
    ensures Read(PrintOn(t, rest), Initial) == Ok(t, rest, Initial)
    decreases t, 1
  {
    match t
    case Integer(v) => ReadInteger(v, rest);
    case Address(v) => ReadAddress(v, rest);
    case Blob(data) => BlobReads(data, rest);
    case List(elts) =>
      var s := ItemsOn(elts, ")" + rest);
      ReadOpen('(', s);
      if elts == [] {
        LexPunct(')', rest);
      } else {
        ItemsStart(elts, ")" + rest);
        ItemsRead(elts, rest, []);
        assert [] + elts == elts;
        ListStep(s, elts, rest);
      }
    case Array(slots) =>
      ArrayReads(slots, rest);
  }

  lemma TrimPadded(slots: seq<Slot>)
    ensures Padded(Trim(slots), |slots|) == slots
  {
  }

  lemma {:induction false} ArrayBody(slots: seq<Slot>, rest: string)
    requires forall i :: 0 <= i < |slots| && slots[i].Filled? ==> Good(slots[i].term)
    ensures ReadArray(SlotsOn(Trim(slots), "]" + rest), |slots|) == Ok(Array(slots), rest, Initial)
    decreases slots, 2
  {
    var filled := Trim(slots);
    TrimPadded(slots);
    if filled == [] {
      LexPunct(']', rest);
    } else {
      assert forall i :: 0 <= i < |filled| ==> filled[i] == slots[i];
      SlotsRead(filled, rest, |slots|, []);
      FilledBody(filled, |slots|, rest);
    }
  }

  lemma FilledBody(filled: seq<Slot>, size: nat, rest: string)
    requires filled != [] && filled[|filled| - 1].Filled? && |filled| <= size
    requires ReadSlots(SlotsOn(filled, "]" + rest), Initial, size, []) == Ok([] + filled, "]" + rest, Initial)
    ensures ReadArray(SlotsOn(filled, "]" + rest), size) == Ok(Array(Padded(filled, size)), rest, Initial)
  {
    SlotsStart(filled, "]" + rest);
    assert [] + filled == filled;
    ArrayStep(SlotsOn(filled, "]" + rest), size, filled, rest);
  }

  lemma {:induction false} ArrayReads(slots: seq<Slot>, rest: string)
    requires |slots| < 0x8000_0000 && forall i :: 0 <= i < |slots| && slots[i].Filled? ==> Good(slots[i].term)
    ensures Read(PrintOn(Array(slots), rest), Initial) == Ok(Array(slots), rest, Initial)
    decreases slots, 3
  {
    ArrayBody(slots, rest);
    SizeReads(|slots|, '[', SlotsOn(Trim(slots), "]" + rest));
  }

  lemma ItemsStart(elts: seq<Term>, rest: string)
    requires elts != []
    ensures NextChar(ItemsOn(elts, rest)) !in ",)]"
  {
    PrintStarts(elts[0], rest);
    PrintStarts(elts[0], "," + (" " + ItemsOn(elts[1..], rest)));
  }

  lemma {:induction false} ItemsRead(elts: seq<Term>, rest: string, acc: seq<Term>)
    requires elts != [] && forall i :: 0 <= i < |elts| ==> Good(elts[i])
    ensures ReadItems(ItemsOn(elts, ")" + rest), Initial, acc) == Ok(acc + elts, ")" + rest, Initial)
    decreases elts, 1
  {
    if |elts| == 1 {
      OnlyItemReads(elts, rest, acc);
    } else {
      FirstItemReads(elts, ")" + rest, acc);
      ItemsRead(elts[1..], rest, acc + [elts[0]]);
      assert acc + [elts[0]] + elts[1..] == acc + elts;
    }
  }

  lemma OnlyItemReads(elts: seq<Term>, rest: string, acc: seq<Term>)
    requires |elts| == 1 && Good(elts[0])
    ensures ReadItems(ItemsOn(elts, ")" + rest), Initial, acc) == Ok(acc + elts, ")" + rest, Initial)
    decreases elts, 0
  {
    ReadPrint(elts[0], ")" + rest);
    LastItem(ItemsOn(elts, ")" + rest), acc, elts[0], rest);
    assert [elts[0]] == elts;
  }

  lemma FirstItemReads(elts: seq<Term>, rest: string, acc: seq<Term>)
    requires |elts| > 1 && Good(elts[0])
    ensures ReadItems(ItemsOn(elts, rest), Initial, acc) == ReadItems(ItemsOn(elts[1..], rest), Initial, acc + [elts[0]])
    decreases elts, 0
  {
    var tail := ItemsOn(elts[1..], rest);
    ReadPrint(elts[0], "," + (" " + tail));
    ItemsStart(elts[1..], rest);
    OneMoreItem(ItemsOn(elts, rest), acc, elts[0], tail);
  }

  lemma SlotsStart(slots: seq<Slot>, rest: string)
    requires slots != [] && slots[|slots| - 1].Filled?
    ensures NextChar(SlotsOn(slots, rest)) != ']'
    ensures NextChar(SlotsOn(slots, rest)) == ',' <==> slots[0].Hole?
  {
    var tail := SlotsOn(slots[1..], rest);
    match slots[0]
    case Filled(t) =>
      PrintStarts(t, rest);
      PrintStarts(t, "," + (" " + tail));
    case Hole =>
      LeadingBlank(' ', "," + (" " + tail), Initial);
  }

  lemma BlankSlots(s: string, size: nat, acc: seq<Slot>)
    ensures ReadSlots(" " + s, Initial, size, acc) == ReadSlots(s, Initial, size, acc)
  {
    Separator(s);
    LeadingBlank(' ', s, Initial);
    SameSlots(" " + s, s, size, acc);
  }

  /** What the slot loop sees of a text. */
  lemma SameSlots(s: string, t: string, size: nat, acc: seq<Slot>)
    requires Lex(s, Initial) == Lex(t, Initial) && NextChar(s) == NextChar(t) && Read(s, Initial) == Read(t, Initial)
    ensures ReadSlots(s, Initial, size, acc) == ReadSlots(t, Initial, size, acc)
  {
  }

  lemma LastSlot(s: string, size: nat, acc: seq<Slot>, t: Term, rest: string)
    requires |acc| < size && NextChar(s) != ',' && Read(s, Initial) == Ok(t, "]" + rest, Initial)
    ensures ReadSlots(s, Initial, size, acc) == Ok(acc + [Filled(t)], "]" + rest, Initial)
  {
    LexPunct(']', rest);
  }

  lemma OneMoreSlot(s: string, size: nat, acc: seq<Slot>, t: Term, more: string)
    requires |acc| < size && NextChar(s) != ',' && Read(s, Initial) == Ok(t, "," + (" " + more), Initial)
    requires NextChar(more) != ']'
    ensures ReadSlots(s, Initial, size, acc) == ReadSlots(more, Initial, size, acc + [Filled(t)])
  {
    Separator(more);
    BlankSlots(more, size, acc + [Filled(t)]);
  }

  lemma OneMoreHole(size: nat, acc: seq<Slot>, more: string)
    requires |acc| < size && NextChar(more) != ']'
    ensures ReadSlots(" " + ("," + (" " + more)), Initial, size, acc) == ReadSlots(more, Initial, size, acc + [Hole])
  {
    Separator(more);
    BlankSlots("," + (" " + more), size, acc);
    BlankSlots(more, size, acc + [Hole]);
  }

  lemma {:induction false} SlotReads(slot: Slot, rest: string)
    requires slot.Filled? && Good(slot.term) && Stops(rest)
    ensures Read(SlotOn(slot, rest), Initial) == Ok(slot.term, rest, Initial)
    decreases slot, 2
  {
    ReadPrint(slot.term, rest);
  }

  lemma FirstSlotReads(slots: seq<Slot>, rest: string, size: nat, acc: seq<Slot>)
    requires |slots| > 1 && slots[|slots| - 1].Filled? && |acc| < size
    requires slots[0].Filled? ==> Good(slots[0].term)
    ensures ReadSlots(SlotsOn(slots, rest), Initial, size, acc) == ReadSlots(SlotsOn(slots[1..], rest), Initial, size, acc + [slots[0]])
    decreases slots, 0
  {
    var s, x, tail := SlotsOn(slots, rest), slots[0], SlotsOn(slots[1..], rest);
    SlotsStart(slots, rest);
    SlotsStart(slots[1..], rest);
    if x.Filled? {
      SlotReads(x, "," + (" " + tail));
      OneMoreSlot(s, size, acc, x.term, tail);
    } else {
      OneMoreHole(size, acc, tail);
    }
  }

  lemma OnlySlotReads(slots: seq<Slot>, rest: string, size: nat, acc: seq<Slot>)
    requires |slots| == 1 && slots[0].Filled? && Good(slots[0].term) && |acc| < size
    ensures ReadSlots(SlotsOn(slots, "]" + rest), Initial, size, acc) == Ok(acc + slots, "]" + rest, Initial)
    decreases slots, 0
  {
    var s, x := SlotsOn(slots, "]" + rest), slots[0];
    SlotsStart(slots, "]" + rest);
    SlotReads(x, "]" + rest);
    LastSlot(s, size, acc, x.term, rest);
    assert [x] == slots;
  }

  lemma {:induction false} SlotsRead(slots: seq<Slot>, rest: string, size: nat, acc: seq<Slot>)
    requires slots != [] && slots[|slots| - 1].Filled? && |acc| + |slots| <= size
    requires forall i :: 0 <= i < |slots| && slots[i].Filled? ==> Good(slots[i].term)
    ensures ReadSlots(SlotsOn(slots, "]" + rest), Initial, size, acc) == Ok(acc + slots, "]" + rest, Initial)
    decreases slots, 1
  {
    if |slots| == 1 {
      OnlySlotReads(slots, rest, size, acc);
    } else {
      var tail, acc' := slots[1..], acc + [slots[0]];
      assert forall i :: 0 <= i < |tail| ==> tail[i] == slots[i + 1];
      assert acc' + tail == acc + slots;
      FirstSlotReads(slots, "]" + rest, size, acc);
      SlotsRead(tail, rest, size, acc');
    }
  }

  // ------------------------------------------------------------ the empty blob

  /** An empty blob leaves its closing delimiter, and the lexer in blob mode, to the next reader. */
  lemma EmptyBlobLeaks(rest: string)
    ensures Read(PrintOn(Blob([]), rest), Initial) == Ok(Blob([]), ">" + rest, BlobMode)
  {
    var close := ">" + rest;
    EmptyBlobText(rest);
    EmptyBlobBody(rest);
    SizeReads(0, '<', "\n" + ("\n" + close));
  }

  lemma EmptyBlobText(rest: string)
    ensures PrintOn(Blob([]), rest) == SizeOn(0, "<" + ("\n" + ("\n" + (">" + rest))))
  {
    assert BytesOn([], 0, ">" + rest) == "\n" + (">" + rest);
  }

  lemma EmptyBlobBody(rest: string)
    ensures ReadBlob("\n" + ("\n" + (">" + rest)), 0) == Ok(Blob([]), ">" + rest, BlobMode)
  {
    var close := ">" + rest;
    LeadingBlank('\n', "\n" + close, BlobMode);
    LeadingBlank('\n', close, BlobMode);
    assert seq<Byte>(0, _ => 0) == [];
  }

  lemma StrayDelimiter(rest: string)
    ensures Read(">" + rest, BlobMode) == Error && NextChar(">" + rest) == '>'
  {
    LexBlobEnd(rest);
  }

  lemma ItemLeaks(s: string, acc: seq<Term>, t: Term, rest: string)
    requires Read(s, Initial) == Error || Read(s, Initial) == Ok(t, ">" + rest, BlobMode)
    ensures ReadItems(s, Initial, acc) == Error
  {
    StrayDelimiter(rest);
  }

  lemma SlotLeaks(s: string, size: nat, acc: seq<Slot>, t: Term, rest: string)
    requires NextChar(s) != ','
    requires Read(s, Initial) == Error || Read(s, Initial) == Ok(t, ">" + rest, BlobMode)
    ensures ReadSlots(s, Initial, size, acc) == Error
  {
    StrayDelimiter(rest);
  }

  /** A term with an empty blob anywhere inside can not be read back: parsing fails, or,
      for the bare blob, stops one character early. */
  lemma {:induction false} LeaksOrFails(t: Term, rest: string)
    requires Fits(t) && HasEmptyBlob(t)
    ensures t == Blob([]) ==> Read(PrintOn(t, rest), Initial) == Ok(t, ">" + rest, BlobMode)
    ensures t != Blob([]) ==> Read(PrintOn(t, rest), Initial) == Error
    decreases t, 1
  {
    match t
    case Blob(_) => EmptyBlobLeaks(rest);
    case List(elts) =>
      var s := ItemsOn(elts, ")" + rest);
      ReadOpen('(', s);
      ItemsStart(elts, ")" + rest);
      ItemsFail(elts, ")" + rest, []);
    case Array(slots) => ArrayFails(slots, rest);
    case _ =>
  }

  lemma {:induction false} ArrayFails(slots: seq<Slot>, rest: string)
    requires Fits(Array(slots)) && HasEmptyBlob(Array(slots))
    ensures Read(PrintOn(Array(slots), rest), Initial) == Error
    decreases Array(slots), 0
  {
    var filled := Trim(slots);
    var i :| 0 <= i < |slots| && slots[i].Filled? && HasEmptyBlob(slots[i].term);
    assert filled[i] == slots[i];
    SizeReads(|slots|, '[', SlotsOn(filled, "]" + rest));
    SlotsStart(filled, "]" + rest);
    SlotsFail(filled, "]" + rest, |slots|, []);
  }

  lemma {:induction false} ItemsFail(elts: seq<Term>, rest: string, acc: seq<Term>)
    requires forall i :: 0 <= i < |elts| ==> Fits(elts[i])
    requires exists i :: 0 <= i < |elts| && HasEmptyBlob(elts[i])
    ensures ReadItems(ItemsOn(elts, rest), Initial, acc) == Error
    decreases elts, 0
  {
    var s, e, tail := ItemsOn(elts, rest), elts[0], ItemsOn(elts[1..], rest);
    var next := if |elts| == 1 then rest else "," + (" " + tail);
    if HasEmptyBlob(e) {
      LeaksOrFails(e, next);
      ItemLeaks(s, acc, e, next);
    } else {
      var i :| 0 <= i < |elts| && HasEmptyBlob(elts[i]);
      assert elts[1..][i - 1] == elts[i];
      FirstItemReads(elts, rest, acc);
      ItemsFail(elts[1..], rest, acc + [e]);
    }
  }

  lemma {:induction false} SlotFails(slot: Slot, rest: string)
    requires slot.Filled? && Fits(slot.term) && HasEmptyBlob(slot.term)
    ensures Read(SlotOn(slot, rest), Initial) == Error || Read(SlotOn(slot, rest), Initial) == Ok(slot.term, ">" + rest, BlobMode)
    decreases slot, 2
  {
    LeaksOrFails(slot.term, rest);
  }

  lemma {:induction false} SlotsFail(slots: seq<Slot>, rest: string, size: nat, acc: seq<Slot>)
    requires slots != [] && slots[|slots| - 1].Filled? && |acc| + |slots| <= size
    requires forall i :: 0 <= i < |slots| && slots[i].Filled? ==> Fits(slots[i].term)
    requires exists i :: 0 <= i < |slots| && slots[i].Filled? && HasEmptyBlob(slots[i].term)
    ensures ReadSlots(SlotsOn(slots, rest), Initial, size, acc) == Error
    decreases slots, 1
  {
    var x := slots[0];
    if x.Filled? && HasEmptyBlob(x.term) {
      FirstSlotFails(slots, rest, size, acc);
    } else {
      var tail := slots[1..];
      var i :| 0 <= i < |slots| && slots[i].Filled? && HasEmptyBlob(slots[i].term);
      assert tail[i - 1] == slots[i];
      assert forall k :: 0 <= k < |tail| ==> tail[k] == slots[k + 1];
      FirstSlotReads(slots, rest, size, acc);
      SlotsFail(tail, rest, size, acc + [x]);
    }
  }

  lemma FirstSlotFails(slots: seq<Slot>, rest: string, size: nat, acc: seq<Slot>)
    requires slots != [] && slots[|slots| - 1].Filled?
    requires slots[0].Filled? && Fits(slots[0].term) && HasEmptyBlob(slots[0].term)
    ensures ReadSlots(SlotsOn(slots, rest), Initial, size, acc) == Error
    decreases slots, 0
  {
    var next := if |slots| == 1 then rest else "," + (" " + SlotsOn(slots[1..], rest));
    SlotsStart(slots, rest);
    SlotFails(slots[0], next);
    SlotLeaks(SlotsOn(slots, rest), size, acc, slots[0].term, next);
  }

  // ------------------------------------------------------------ the round trip

  lemma {:induction false} PrintAppend(t: Term, a: string, b: string)
    ensures PrintOn(t, a + b) == PrintOn(t, a) + b
    decreases t, 1
  {
    match t
    case Integer(_) =>
    case Address(_) =>
    case List(elts) =>
      ItemsAppend(elts, ")" + a, b);
      assert ")" + (a + b) == ")" + a + b;
    case Array(slots) =>
      var body := SlotsOn(Trim(slots), "]" + a);
      SlotsAppend(Trim(slots), "]" + a, b);
      assert "]" + (a + b) == "]" + a + b;
      assert "[" + body + b == "[" + (body + b);
      SizeAppend(|slots|, "[" + body, b);
    case Blob(data) =>
      var body := BytesOn(data, 0, ">" + a);
      BytesAppend(data, 0, ">" + a, b);
      assert ">" + (a + b) == ">" + a + b;
      assert "<" + ("\n" + body) + b == "<" + ("\n" + (body + b));
      SizeAppend(|data|, "<" + ("\n" + body), b);
  }

  lemma {:induction false} ItemsAppend(elts: seq<Term>, a: string, b: string)
    ensures ItemsOn(elts, a + b) == ItemsOn(elts, a) + b
    decreases elts, 0
  {
    if |elts| == 1 {
      PrintAppend(elts[0], a, b);
    } else if |elts| > 1 {
      var more := ItemsOn(elts[1..], a);
      ItemsAppend(elts[1..], a, b);
      PrintAppend(elts[0], "," + (" " + more), b);
      assert "," + (" " + more) + b == "," + (" " + (more + b));
    }
  }

  lemma {:induction false} SlotAppend(slot: Slot, a: string, b: string)
    ensures SlotOn(slot, a + b) == SlotOn(slot, a) + b
    decreases slot, 2
  {
    if slot.Filled? { PrintAppend(slot.term, a, b); }
  }

  lemma {:induction false} SlotsAppend(slots: seq<Slot>, a: string, b: string)
    ensures SlotsOn(slots, a + b) == SlotsOn(slots, a) + b
    decreases slots, 0
  {
    if |slots| == 1 {
      SlotAppend(slots[0], a, b);
    } else if |slots| > 1 {
      var more := SlotsOn(slots[1..], a);
      SlotsAppend(slots[1..], a, b);
      SlotAppend(slots[0], "," + (" " + more), b);
      assert "," + (" " + more) + b == "," + (" " + (more + b));
    }
  }

  lemma {:induction false} BytesAppend(data: seq<Byte>, i: nat, a: string, b: string)
    requires i <= |data|
    ensures BytesOn(data, i, a + b) == BytesOn(data, i, a) + b
    decreases |data| - i
  {
    if i < |data| {
      BytesAppend(data, i + 1, a, b);
      var line, byte, more := LineBreak(i), PrintByte(data[i]), BytesOn(data, i + 1, a);
      assert line + (byte + more) + b == line + (byte + (more + b));
    } else {
      assert "\n" + (a + b) == "\n" + a + b;
    }
  }

  lemma SizeAppend(n: nat, a: string, b: string)
    ensures SizeOn(n, a + b) == SizeOn(n, a) + b
  {
    var num := Numeral(n, 10);
    assert "{" + (num + ("}" + (a + b))) == "{" + (num + ("}" + a)) + b;
  }

  /** Reading the printed text of a term returns that term and stops exactly behind it, if
      and only if the term holds no empty blob and the text behind it does not continue it. */
  lemma RoundTripIff(t: Term, rest: string)
    requires Fits(t)
    ensures Read(Print(t) + rest, Initial) == Ok(t, rest, Initial) <==> !HasEmptyBlob(t) && !RunsOn(t, rest)
  {
    PrintAppend(t, "", rest);
    assert "" + rest == rest;
    if HasEmptyBlob(t) {
      LeaksOrFails(t, rest);
    } else if RunsOn(t, rest) {
      match t
      case Integer(v) => ReadInteger(v, rest);
      case Address(v) => ReadAddress(v, rest);
    } else {
      ReadPrint(t, rest);
    }
  }

  // ------------------------------------------------------------ the lexer's mode

  /** No term begins inside a blob. */
  lemma NoneInBlob(s: string)
    ensures !Read(s, BlobMode).Ok?
  {
  }

  /** A list is read outside of blobs, and leaves the lexer there: what closes it is no token of a blob. */
  lemma ListKeepsMode(s: string, mode: Mode)
    requires Read(s, mode).Ok? && Read(s, mode).value.List?
    ensures mode == Initial && Read(s, mode).mode == Initial
  {
    var (tok, s1) := Lex(s, mode);
    NoneInBlob(s);
    if tok == Punct('(') { ListCloses(s1); }
    if tok == Punct('{') { SizedIsNoList(s1); }
  }

  lemma ListCloses(s: string)
    ensures ReadList(s).Ok? ==> ReadList(s).mode == Initial
  {
  }

  lemma SizedIsNoList(s: string)
    ensures ReadSized(s).Ok? ==> !ReadSized(s).value.List?
  {
  }

  // ------------------------------------------------------------ terms in a file

  /** Text that the reader does not see. */
  ghost predicate Inert(note: string) {
    forall s :: SkipGaps(note + s, Initial) == SkipGaps(s, Initial)
  }

  lemma InertRead(note: string, s: string)
    requires Inert(note)
    ensures Read(note + s, Initial) == Read(s, Initial)
  {
    assert SkipGaps(note + s, Initial) == SkipGaps(s, Initial);
  }

  lemma InertJoin(x: string, y: string)
    requires Inert(x) && Inert(y)
    ensures Inert(x + y)
  {
    forall s ensures SkipGaps(x + y + s, Initial) == SkipGaps(s, Initial) {
      assert x + y + s == x + (y + s);
    }
  }

  lemma InertBlank(c: char)
    requires IsBlank(c)
    ensures Inert([c]) && Inert("")
  {
    forall s ensures SkipGaps([c] + s, Initial) == SkipGaps(s, Initial) {
      LeadingBlank(c, s, Initial);
    }
    forall s ensures SkipGaps("" + s, Initial) == SkipGaps(s, Initial) {
      assert "" + s == s;
    }
  }

  function Comment(body: string): string { "/*" + (body + "*/") }

  lemma {:induction false} CommentEnds(body: string, rest: string)
    requires forall i :: 0 <= i < |body| - 1 ==> !(body[i] == '*' && body[i + 1] == '/')
    ensures AfterComment(body + ("*/" + rest)) == rest
  {
    var s := body + ("*/" + rest);
    if body == "" {
      assert s[2..] == rest;
    } else {
      assert s[1..] == body[1..] + ("*/" + rest);
      CommentEnds(body[1..], rest);
      assert |body| > 1 ==> s[1] == body[1];
    }
  }

  /** A comment is not seen, unless its text begins with a symbol or holds the end of a comment. */
  lemma CommentInert(body: string)
    requires body != "" && !IsSymbol(body[0])
    requires forall i :: 0 <= i < |body| - 1 ==> !(body[i] == '*' && body[i + 1] == '/')
    ensures Inert(Comment(body))
  {
    forall s ensures SkipGaps(Comment(body) + s, Initial) == SkipGaps(s, Initial) {
      var t, inside := Comment(body) + s, body + ("*/" + s);
      assert t == "/*" + inside && t[2] == body[0];
      assert t[2..] == inside;
      CommentEnds(body, s);
    }
  }

  /** A term in a file, behind a note. */
  datatype Item = Item(note: string, term: Term)

  /** Terms one after the other, an empty line behind each. */
  function StreamOn(items: seq<Item>, rest: string): string {
    if items == [] then rest
    else items[0].note + PrintOn(items[0].term, Blank(StreamOn(items[1..], rest)))
  }

  /** An empty line before `s`. */
  function Blank(s: string): string { "\n" + ("\n" + s) }

  lemma BlankSkipped(s: string)
    ensures Read(Blank(s), Initial) == Read(s, Initial)
  {
    LeadingBlank('\n', "\n" + s, Initial);
    LeadingBlank('\n', s, Initial);
  }

  lemma {:induction false} StreamAppend(x: seq<Item>, y: seq<Item>, rest: string)
    ensures StreamOn(x + y, rest) == StreamOn(x, StreamOn(y, rest))
  {
    if x == [] {
      assert x + y == y;
    } else {
      assert (x + y)[1..] == x[1..] + y;
      StreamAppend(x[1..], y, rest);
    }
  }

  lemma {:induction false} StreamThen(items: seq<Item>, rest: string)
    ensures StreamOn(items, rest) == StreamOn(items, "") + rest
  {
    if items != [] {
      StreamThen(items[1..], rest);
      var note, more := items[0].note, StreamOn(items[1..], "");
      assert Blank(more + rest) == Blank(more) + rest;
      PrintAppend(items[0].term, Blank(more), rest);
      assert note + (PrintOn(items[0].term, Blank(more)) + rest) == note + PrintOn(items[0].term, Blank(more)) + rest;
    }
  }
}
