/**
 The layout of printed terms, and texts that are no printer's output but read all the same:
 sizes that do not fit what follows, numbers that are too large, lists without commas.
 */
module ExoText {
  import opened Basics
  import opened Machine
  import opened Numbers
  import opened Exo
  import opened ExoRoundTrip

  // ------------------------------------------------------------------------- printing

  /** Texts with a comma and a blank between them. */
  function Joined(texts: seq<string>): string {
    if texts == [] then ""
    else if |texts| == 1 then texts[0]
    else texts[0] + ", " + Joined(texts[1..])
  }

  function TextOf(slot: Slot): string { if slot.Hole? then " " else Print(slot.term) }

  function Texts(slots: seq<Slot>): (texts: seq<string>)
    ensures |texts| == |slots| && forall i :: 0 <= i < |texts| ==> texts[i] == TextOf(slots[i])
  {
    seq(|slots|, i requires 0 <= i < |slots| => TextOf(slots[i]))
  }

  function AllFilled(elts: seq<Term>): (slots: seq<Slot>)
    ensures |slots| == |elts| && forall i :: 0 <= i < |slots| ==> slots[i] == Filled(elts[i])
  {
    seq(|elts|, i requires 0 <= i < |elts| => Filled(elts[i]))
  }

  lemma SlotText(slot: Slot, rest: string)
    ensures SlotOn(slot, rest) == TextOf(slot) + rest
  {
    if slot.Filled? {
      PrintAppend(slot.term, "", rest);
      assert "" + rest == rest;
    }
  }

  lemma {:induction false} SlotsJoined(slots: seq<Slot>, rest: string)
    ensures SlotsOn(slots, rest) == Joined(Texts(slots)) + rest
    decreases |slots|
  {
    if slots == [] {
      assert "" + rest == rest;
    } else if |slots| == 1 {
      SlotText(slots[0], rest);
    } else {
      var more := SlotsOn(slots[1..], rest);
      SlotText(slots[0], "," + (" " + more));
      SlotsJoined(slots[1..], rest);
      assert Texts(slots)[1..] == Texts(slots[1..]);
      CommaBetween(TextOf(slots[0]), Joined(Texts(slots[1..])), rest);
    }
  }

  lemma CommaBetween(x: string, y: string, rest: string)
    ensures x + ("," + (" " + (y + rest))) == x + ", " + y + rest
  {
  }

  /** The elements of a list are printed as the slots of a full array. */
  lemma {:induction false} ItemsAsSlots(elts: seq<Term>, rest: string)
    ensures ItemsOn(elts, rest) == SlotsOn(AllFilled(elts), rest)
    decreases |elts|
  {
    if |elts| > 1 {
      ItemsAsSlots(elts[1..], rest);
      assert AllFilled(elts)[1..] == AllFilled(elts[1..]);
    }
  }

  /** A list is its elements, a comma and a blank between them, in parentheses. */
  lemma ListLayout(elts: seq<Term>, rest: string)
    ensures PrintOn(List(elts), rest) == "(" + (Joined(Texts(AllFilled(elts))) + (")" + rest))
  {
    ItemsAsSlots(elts, ")" + rest);
    SlotsJoined(AllFilled(elts), ")" + rest);
  }

  /** An array is its size in braces and its slots in brackets, a blank for an empty one, up to the last
      that is filled. */
  lemma ArrayLayout(slots: seq<Slot>, rest: string)
    ensures PrintOn(Array(slots), rest)
            == "{" + (Numeral(|slots|, 10) + ("}" + ("[" + (Joined(Texts(Trim(slots))) + ("]" + rest)))))
  {
    SlotsJoined(Trim(slots), "]" + rest);
  }

  /** Two digits a byte, the high one first. */
  function HexText(data: seq<Byte>): (s: string)
    ensures |s| == 2 * |data|
  {
    if data == [] then ""
    else ["0123456789abcdef"[data[0] / 16], "0123456789abcdef"[data[0] % 16]] + HexText(data[1..])
  }

  /** Lines of 38 bytes; one byte alone on a line that is not the first has no end of line behind it. */
  function Lines(data: seq<Byte>, first: bool): string {
    if |data| <= 38 then HexText(data) + (if |data| == 1 && !first then "" else "\n")
    else HexText(data[..38]) + ("\n" + Lines(data[38..], false))
  }

  lemma ByteText(b: Byte)
    ensures PrintByte(b) == ["0123456789abcdef"[b / 16], "0123456789abcdef"[b % 16]]
  {
  }

  lemma HexTextFirst(data: seq<Byte>, k: nat, j: nat)
    requires k < j <= |data|
    ensures HexText(data[k..j]) == PrintByte(data[k]) + HexText(data[k + 1..j])
  {
    assert data[k..j][1..] == data[k + 1..j];
    ByteText(data[k]);
  }

  lemma Assoc(x: string, y: string, z: string)
    ensures x + (y + z) == x + y + z
  {
  }

  /** Within a line. */
  lemma {:induction false} RestOfLine(data: seq<Byte>, k: nat, j: nat, rest: string)
    requires k <= j <= |data| && forall m :: k <= m < j ==> LineBreak(m) == ""
    ensures BytesOn(data, k, rest) == HexText(data[k..j]) + BytesOn(data, j, rest)
    decreases j - k
  {
    var tail := BytesOn(data, j, rest);
    if k == j {
      assert data[k..j] == [];
      assert "" + tail == tail;
    } else {
      ByteOn(data, k, rest);
      RestOfLine(data, k + 1, j, rest);
      HexTextFirst(data, k, j);
      Assoc(PrintByte(data[k]), HexText(data[k + 1..j]), tail);
    }
  }

  /** Up to 38 bytes from a line's start on. */
  lemma LineOn(data: seq<Byte>, i: nat, j: nat, rest: string)
    requires i % 38 == 0 && i < j <= |data| && j <= i + 38
    ensures BytesOn(data, i, rest) == LineBreak(i) + (HexText(data[i..j]) + BytesOn(data, j, rest))
  {
    forall m | i < m < j ensures LineBreak(m) == "" {
      InsideLine(i, m);
    }
    RestOfLine(data, i + 1, j, rest);
    HexTextFirst(data, i, j);
    Assoc(PrintByte(data[i]), HexText(data[i + 1..j]), BytesOn(data, j, rest));
  }

  lemma ByteOn(data: seq<Byte>, k: nat, rest: string)
    requires k < |data| && LineBreak(k) == ""
    ensures BytesOn(data, k, rest) == PrintByte(data[k]) + BytesOn(data, k + 1, rest)
  {
    var s := PrintByte(data[k]) + BytesOn(data, k + 1, rest);
    assert "" + s == s;
  }

  lemma InsideLine(i: nat, k: nat)
    requires i % 38 == 0 && i < k < i + 38
    ensures LineBreak(k) == ""
  {
  }

  lemma {:induction false} LinesOn(data: seq<Byte>, i: nat, rest: string)
    requires i % 38 == 0 && i < |data|
    ensures BytesOn(data, i, rest) == LineBreak(i) + (Lines(data[i..], i == 0) + rest)
    decreases |data| - i
  {
    if |data| - i <= 38 {
      LineOn(data, i, |data|, rest);
      LastLine(data, i, rest);
    } else {
      LineOn(data, i, i + 38, rest);
      LinesOn(data, i + 38, rest);
      NextLine(data, i, rest);
    }
  }

  lemma LastLine(data: seq<Byte>, i: nat, rest: string)
    requires i % 38 == 0 && i < |data| <= i + 38
    ensures HexText(data[i..|data|]) + BytesOn(data, |data|, rest) == Lines(data[i..], i == 0) + rest
  {
    var n := |data|;
    if n > i + 1 { InsideLine(i, n - 1); }
    var end := if n == i + 1 && i != 0 then "" else "\n";
    assert BytesOn(data, n, rest) == end + rest by { assert "" + rest == rest; }
    assert data[i..n] == data[i..];
    Assoc(HexText(data[i..]), end, rest);
  }

  lemma NextLine(data: seq<Byte>, i: nat, rest: string)
    requires |data| - i > 38
    ensures HexText(data[i..i + 38]) + ("\n" + (Lines(data[i + 38..], false) + rest)) == Lines(data[i..], i == 0) + rest
  {
    var x, y := HexText(data[i..i + 38]), Lines(data[i + 38..], false);
    assert data[i..][..38] == data[i..i + 38] && data[i..][38..] == data[i + 38..];
    Assoc("\n", y, rest);
    Assoc(x, "\n" + y, rest);
  }

  /** A blob is its size in braces and its bytes in angle brackets, in lines of their own. */
  lemma BlobLayout(data: seq<Byte>, rest: string)
    ensures PrintOn(Blob(data), rest)
            == "{" + (Numeral(|data|, 10) + ("}" + ("<" + ("\n" + (Lines(data, true) + (">" + rest))))))
  {
    BlobLines(data, ">" + rest);
  }

  lemma BlobLines(data: seq<Byte>, rest: string)
    ensures BytesOn(data, 0, rest) == Lines(data, true) + rest
  {
    if data == [] {
      assert HexText([]) + "\n" == "\n";
    } else {
      LinesOn(data, 0, rest);
      assert data[0..] == data;
      var s := Lines(data, true) + rest;
      assert "" + s == s;
    }
  }

  // -------------------------------------------------------------- sizes that do not fit

  lemma {:induction false} BytesSized(data: seq<Byte>, i: nat, size: nat, rest: string)
    requires i <= |data| && i <= size
    ensures ReadBytes(BytesOn(data, i, ">" + rest), size, data[..i])
            == if |data| <= size then Ok(data + seq(size - |data|, _ => 0), rest, Initial) else Error
    decreases |data| - i
  {
    if i == |data| {
      LexBlobEnd(rest);
      LeadingBlank('\n', ">" + rest, BlobMode);
      assert data[..i] == data;
    } else {
      var more := BytesOn(data, i + 1, ">" + rest);
      LexNextByte(i, data[i], more);
      if i < size {
        BytesSized(data, i + 1, size, rest);
        OneMoreByte(BytesOn(data, i, ">" + rest), size, data[..i], data[i], more);
        TakeMore(data, i);
      }
    }
  }

  /** A blob with fewer bytes than its size says is filled up with zeros; more bytes are an error. */
  lemma SizedBlob(data: seq<Byte>, size: nat, rest: string)
    requires data != [] && size < 0x8000_0000
    ensures Read(SizeOn(size, "<" + ("\n" + BytesOn(data, 0, ">" + rest))), Initial)
            == if |data| <= size then Ok(Blob(data + seq(size - |data|, _ => 0)), rest, Initial) else Error
  {
    var body := BytesOn(data, 0, ">" + rest);
    SizeReads(size, '<', "\n" + body);
    BlobStarts(data, ">" + rest);
    BlankBytes(body, size);
    BytesSized(data, 0, size, rest);
    assert data[..0] == [];
  }

  lemma {:induction false} TooManySlots(slots: seq<Slot>, rest: string, size: nat, acc: seq<Slot>)
    requires slots != [] && slots[|slots| - 1].Filled? && |acc| <= size < |acc| + |slots|
    requires forall i :: 0 <= i < |slots| ==> GoodSlot(slots[i])
    ensures ReadSlots(SlotsOn(slots, rest), Initial, size, acc) == Error
    decreases |slots|
  {
    if |acc| < size {
      assert GoodSlot(slots[0]);
      FirstSlotReads(slots, rest, size, acc);
      TooManySlots(slots[1..], rest, size, acc + [slots[0]]);
    } else {
      NoRoom(SlotsOn(slots, rest), size, acc);
    }
  }

  ghost predicate GoodSlot(slot: Slot) { slot.Filled? ==> Good(slot.term) }

  lemma NoRoom(s: string, size: nat, acc: seq<Slot>)
    requires |acc| == size
    ensures ReadSlots(s, Initial, size, acc) == Error
  {
  }

  /** An array with fewer slots than its size says is filled up with empty ones; more are an error. */
  lemma SizedArray(slots: seq<Slot>, size: nat, rest: string)
    requires slots != [] && slots[|slots| - 1].Filled? && size < 0x8000_0000
    requires forall i :: 0 <= i < |slots| ==> GoodSlot(slots[i])
    ensures Read(SizeOn(size, "[" + SlotsOn(slots, "]" + rest)), Initial)
            == if |slots| <= size then Ok(Array(slots + seq(size - |slots|, _ => Hole)), rest, Initial) else Error
  {
    SizeReads(size, '[', SlotsOn(slots, "]" + rest));
    if |slots| <= size {
      SlotsRead(slots, rest, size, []);
      FilledBody(slots, size, rest);
    } else {
      SlotsStart(slots, "]" + rest);
      TooManySlots(slots, "]" + rest, size, []);
    }
  }

  /** A number of more than 64 bits is an error. */
  lemma TooLarge(v: nat, rest: string)
    requires v > 0xFFFF_FFFF_FFFF_FFFF && Stops(rest)
    ensures Read(Numeral(v, 10) + rest, Initial) == Error
    ensures Read("0x" + (Numeral(v, 16) + rest), Initial) == Error
  {
    var num, hex := Numeral(v, 10), Numeral(v, 16);
    NumeralValue(v, 10);
    NumeralValue(v, 16);
    assert num != "0" by { ValueAppend("", '0', 10); assert "" + ['0'] == "0"; }
    LexDigits(num, rest);
    DigitStrings(num, 10);
    LexHexDigits(hex, rest);
    HexDigitStrings(hex);
  }

  lemma HexDigitStrings(digits: string)
    requires digits != "" && AllDigits(digits, 16) && Value(digits, 16) > MAX
    ensures Meaning("0x" + digits, 16).outcome == OutOfRange
  {
    var s := "0x" + digits;
    assert s + [] == s && s[2..|s|] == digits;
    SkipAllDigits(s, [], 2, 16);
  }

  predicate IsDigit(c: char) { '0' <= c <= '9' }

  predicate IsHexDigit(c: char) { IsDigit(c) || 'a' <= c <= 'f' || 'A' <= c <= 'F' }

  /** A decimal point, or an exponent. */
  predicate IsFraction(s: string) {
    || (s != "" && s[0] == '.')
    || (|s| > 1 && (s[0] == 'e' || s[0] == 'E') && IsDigit(s[1]))
    || (|s| > 2 && (s[0] == 'e' || s[0] == 'E') && (s[1] == '+' || s[1] == '-') && IsDigit(s[2]))
  }

  /** An integer ends where no digit and no fraction follows, and behind a zero no hexadecimal digit after an
      `x`; an address ends where no hexadecimal digit follows. */
  lemma NumbersEnd(v: U64, rest: string)
    ensures Read(Numeral(v, 10) + rest, Initial) == Ok(Integer(v), rest, Initial) <==>
              && !(rest != "" && IsDigit(rest[0])) && !IsFraction(rest)
              && !(v == 0 && |rest| > 1 && (rest[0] == 'x' || rest[0] == 'X') && IsHexDigit(rest[1]))
    ensures Read("0x" + (Numeral(v, 16) + rest), Initial) == Ok(Address(v), rest, Initial) <==>
              !(rest != "" && IsHexDigit(rest[0]))
  {
    NumbersRunOn(v, rest);
    ReadInteger(v, rest);
    ReadAddress(v, rest);
  }

  lemma NumbersRunOn(v: U64, rest: string)
    ensures RunsOn(Integer(v), rest) <==>
              || (rest != "" && IsDigit(rest[0])) || IsFraction(rest)
              || (v == 0 && |rest| > 1 && (rest[0] == 'x' || rest[0] == 'X') && IsHexDigit(rest[1]))
    ensures RunsOn(Address(v), rest) <==> rest != "" && IsHexDigit(rest[0])
  {
  }

  /** Blanks, tabs and ends of lines and pages are skipped; other control characters are not. */
  lemma GapsSkipped(c: char, s: string)
    ensures c == ' ' || 9 <= c as int <= 12 ==> Read([c] + s, Initial) == Read(s, Initial)
    ensures c as int < 32 && !(9 <= c as int <= 12) ==> Read([c] + s, Initial) == Error
  {
    if c == ' ' || 9 <= c as int <= 12 {
      LeadingBlank(c, s, Initial);
    } else if c as int < 32 {
      LexControl(c, s);
    }
  }

  lemma LexControl(c: char, s: string)
    requires c as int < 32 && !(9 <= c as int <= 12)
    ensures Lex([c] + s, Initial).0 == Other
  {
    assert ([c] + s)[0] == c && DigitValue(c) == 36;
    assert SkipGaps([c] + s, Initial) == [c] + s;
  }

  /** What would begin a comment is a token, and no term, if another symbol follows. */
  lemma NoComment(c: char, s: string)
    requires c in ['~', '!', '@', '#', '$', '%', '^', '&', '*', '-', '+', '|', '/', '?']
    ensures Read("/*" + ([c] + s), Initial) == Error
  {
    var t := "/*" + ([c] + s);
    assert t[0] == '/' && t[1] == '*' && t[2] == c;
    assert !OpensComment(t) && SkipGaps(t, Initial) == t;
  }

  // ------------------------------------------------------------------ lists without commas

  /** Elements with a blank between them, and a comma before it where `commas` says so. */
  function LooseOn(elts: seq<Term>, commas: nat -> bool, rest: string): string
    decreases |elts|
  {
    if elts == [] then rest
    else if |elts| == 1 then PrintOn(elts[0], rest)
    else
      var more := " " + LooseOn(elts[1..], commas, rest);
      PrintOn(elts[0], if commas(|elts|) then "," + more else more)
  }

  lemma LooseStart(elts: seq<Term>, commas: nat -> bool, rest: string)
    requires elts != []
    ensures NextChar(LooseOn(elts, commas, rest)) !in ",)]"
  {
    var more := " " + LooseOn(elts[1..], commas, rest);
    PrintStarts(elts[0], rest);
    PrintStarts(elts[0], if commas(|elts|) then "," + more else more);
  }

  lemma OneMoreLoose(s: string, acc: seq<Term>, t: Term, more: string)
    requires Read(s, Initial) == Ok(t, " " + more, Initial) && NextChar(more) !in ",)"
    ensures ReadItems(s, Initial, acc) == ReadItems(more, Initial, acc + [t])
  {
    Separator(more);
    assert ReadItems(" " + more, Initial, acc + [t]) == ReadItems(more, Initial, acc + [t]);
  }

  lemma FirstLoose(elts: seq<Term>, commas: nat -> bool, rest: string, acc: seq<Term>)
    requires |elts| > 1 && Good(elts[0])
    ensures ReadItems(LooseOn(elts, commas, rest), Initial, acc)
            == ReadItems(LooseOn(elts[1..], commas, rest), Initial, acc + [elts[0]])
  {
    var s, tail := LooseOn(elts, commas, rest), LooseOn(elts[1..], commas, rest);
    LooseStart(elts[1..], commas, rest);
    if commas(|elts|) {
      ReadPrint(elts[0], "," + (" " + tail));
      OneMoreItem(s, acc, elts[0], tail);
    } else {
      ReadPrint(elts[0], " " + tail);
      OneMoreLoose(s, acc, elts[0], tail);
    }
  }

  lemma {:induction false} LooseRead(elts: seq<Term>, commas: nat -> bool, rest: string, acc: seq<Term>)
    requires elts != [] && forall i :: 0 <= i < |elts| ==> Good(elts[i])
    ensures ReadItems(LooseOn(elts, commas, ")" + rest), Initial, acc) == Ok(acc + elts, ")" + rest, Initial)
    decreases |elts|
  {
    if |elts| == 1 {
      OneLoose(elts, commas, ")" + rest);
      OnlyItemReads(elts, rest, acc);
    } else {
      FirstLoose(elts, commas, ")" + rest, acc);
      LooseRead(elts[1..], commas, rest, acc + [elts[0]]);
      assert acc + [elts[0]] + elts[1..] == acc + elts;
    }
  }

  lemma OneLoose(elts: seq<Term>, commas: nat -> bool, rest: string)
    requires |elts| == 1
    ensures LooseOn(elts, commas, rest) == ItemsOn(elts, rest)
  {
  }

  /** The commas of a list may be left out, all of them or some. */
  lemma LooseList(elts: seq<Term>, commas: nat -> bool, rest: string)
    requires elts != [] && forall i :: 0 <= i < |elts| ==> Good(elts[i])
    ensures Read("(" + LooseOn(elts, commas, ")" + rest), Initial) == Ok(List(elts), rest, Initial)
  {
    var s := LooseOn(elts, commas, ")" + rest);
    ReadOpen('(', s);
    LooseStart(elts, commas, ")" + rest);
    LooseRead(elts, commas, rest, []);
    assert [] + elts == elts;
    ListStep(s, elts, rest);
  }
}
