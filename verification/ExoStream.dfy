/** The reader and the printer as they work: on a stream, token by token, in loops. */
module ExoStream {
  import opened Machine
  import opened Numbers
  import opened Exo
  import opened ExoRoundTrip

  datatype Result = Parsed(term: Term) | EndOfFile | Failed

  lemma IntegerKeepsMode(s: string)
    ensures Exo.Read(s, Initial).Ok? && Exo.Read(s, Initial).value.Integer? ==> Exo.Read(s, Initial).mode == Initial
  {
  }

  lemma {:induction false} NoGapsTwice(s: string, mode: Mode)
    ensures SkipGaps(SkipGaps(s, mode), mode) == SkipGaps(s, mode)
    decreases |s|
  {
    var t := SkipBlanks(s);
    NoBlanksTwice(s);
    if mode == Initial && OpensComment(t) { NoGapsTwice(AfterComment(t[2..]), mode); }
  }

  lemma {:induction false} NoBlanksTwice(s: string)
    ensures SkipBlanks(SkipBlanks(s)) == SkipBlanks(s)
  {
    if s != "" && IsBlank(s[0]) { NoBlanksTwice(s[1..]); }
  }

  /** An input stream with the lexer's start condition. */
  class Input {
    var text: string
    var mode: Mode

    constructor (text: string)
      ensures this.text == text && mode == Initial
    {
      this.text, mode := text, Initial;
    }

    /** Reads up to the end of a comment. */
    method EatComment()
      modifies `text
      ensures text == AfterComment(old(text))
    {
      while text != "" && !(|text| > 1 && text[0] == '*' && text[1] == '/')
        invariant AfterComment(text) == AfterComment(old(text))
        decreases |text|
      {
        text := text[1..];
      }
      if text != "" {
        text := text[2..];
      }
    }

    /** Drops blanks, line breaks and, outside of blobs, comments. */
    method DropGaps()
      modifies `text
      ensures text == SkipGaps(old(text), mode)
    {
      var more := true;
      while more
        invariant SkipGaps(text, mode) == SkipGaps(old(text), mode)
        invariant !more ==> text == SkipGaps(old(text), mode)
        decreases more, |text|
      {
        if text != "" && IsBlank(text[0]) {
          text := text[1..];
        } else if mode == Initial && OpensComment(text) {
          text := text[2..];
          EatComment();
        } else {
          more := false;
        }
      }
    }

    /** How far the digits reach that begin at position `from`. */
    method MatchDigits(from: nat, base: nat) returns (n: nat)
      requires from <= |text|
      ensures n == SkipDigits(text, from, base)
    {
      n := from;
      while n < |text| && DigitValue(text[n]) < base
        invariant from <= n <= |text| && SkipDigits(text, n, base) == SkipDigits(text, from, base)
      {
        n := n + 1;
      }
    }

    /** The token at the front of a text without gaps. */
    method Match() returns (tok: Token, n: nat)
      requires text == SkipGaps(text, mode)
      ensures n <= |text| && (tok, text[n..]) == Lex(text, mode)
    {
      if text == "" {
        return Eof, 0;
      }
      tok, n := Other, 1;
      if mode == BlobMode {
        if |text| > 1 && DigitValue(text[0]) < 16 && DigitValue(text[1]) < 16 {
          tok, n := HexByte(DigitValue(text[0]) * 16 + DigitValue(text[1])), 2;
        } else if text[0] == '>' {
          tok := Punct('>');
        }
      } else if IsPunct(text[0]) {
        tok := Punct(text[0]);
      } else if HasHexPrefix(text, 0) && |text| > 2 && DigitValue(text[2]) < 16 {
        n := MatchDigits(2, 16);
        tok := Hex(text[..n]);
      } else if DigitValue(text[0]) < 10 {
        n := MatchDigits(0, 10);
        if !StartsFraction(text[n..]) {
          tok := Int(text[..n]);
        }
      }
    }

    /** The next token; opening a blob switches to byte tokens, closing it switches back. */
    method Yylex() returns (tok: Token)
      modifies this
      ensures (tok, text) == Lex(old(text), old(mode))
      ensures mode == if tok == Punct('<') then BlobMode else if tok == Punct('>') then Initial else old(mode)
    {
      DropGaps();
      NoGapsTwice(old(text), mode);
      var n;
      tok, n := Match();
      text := text[n..];
      if tok == Punct('<') { mode := BlobMode; } else if tok == Punct('>') { mode := Initial; }
    }

    /** What this object holds after a reading that succeeded. */
    ghost predicate Holds<T>(r: Reading<T>)
      reads this
    {
      r.Ok? && text == r.rest && mode == r.mode
    }

    ghost predicate Answers(r: Result, reading: Reading<Term>)
      reads this
    {
      match reading
      case Ok(t, _, _) => r == Parsed(t) && Holds(reading)
      case AtEof => r == EndOfFile
      case Error => r == Failed
    }

    method Read() returns (r: Result)
      modifies this
      ensures Answers(r, Exo.Read(old(text), old(mode)))
      decreases |text|, 2
    {
      var tok := Yylex();
      match tok {
        case Eof => r := EndOfFile;
        case Int(digits) =>
          var m := ParseUnsigned(digits, 10);
          r := if m.outcome == Converted && m.end == |digits| then Parsed(Integer(m.value)) else Failed;
        case Hex(digits) =>
          var m := ParseUnsigned(digits, 16);
          r := if m.outcome == Converted && m.end == |digits| then Parsed(Address(m.value)) else Failed;
        case Punct('(') => r := ReadListBody();
        case Punct('{') => r := ReadSizedBody();
        case _ => r := Failed;
      }
    }

    method ReadListBody() returns (r: Result)
      requires mode == Initial
      modifies this
      ensures Answers(r, ReadList(old(text)))
      decreases |text|, 3
    {
      var elts: seq<Term> := [];
      if NextChar(text) != ')' {
        ghost var whole := ReadItems(text, mode, elts);
        var more := true;
        while more
          invariant |text| <= old(|text|)
          invariant more ==> ReadItems(text, mode, elts) == whole
          invariant !more ==> whole == Ok(elts, text, mode)
          decreases more, |text|
        {
          var item := Read();
          if !item.Parsed? {
            return Failed;
          }
          elts := elts + [item.term];
          if NextChar(text) == ',' {
            var comma := Yylex();
            if comma == Other {
              return Failed;
            }
          }
          more := NextChar(text) != ')';
        }
      }
      var close := Yylex();
      r := if close == Punct(')') then Parsed(List(elts)) else Failed;
    }

    method ReadSizedBody() returns (r: Result)
      requires mode == Initial
      modifies this
      ensures Answers(r, ReadSized(old(text)))
      decreases |text|, 3
    {
      var size := Read();
      if !(size.Parsed? && size.term.Integer?) {
        return Failed;
      }
      var n := Int32(size.term.v);
      IntegerKeepsMode(old(text));
      var close := Yylex();
      if close != Punct('}') || n < 0 {
        return Failed;
      }
      r := ReadSizedContents(n);
    }

    method ReadSizedContents(size: nat) returns (r: Result)
      requires mode == Initial
      modifies this
      ensures Answers(r, ReadBody(old(text), size))
      decreases |text|, 3
    {
      var open := Yylex();
      if open == Punct('[') {
        r := ReadArrayBody(size);
      } else if open == Punct('<') {
        r := ReadBlobBody(size);
      } else {
        r := Failed;
      }
    }

    method ReadArrayBody(size: nat) returns (r: Result)
      requires mode == Initial
      modifies this
      ensures Answers(r, ReadArray(old(text), size))
      decreases |text|, 3
    {
      var slots: seq<Slot> := [];
      if NextChar(text) != ']' {
        ghost var whole := ReadSlots(text, mode, size, slots);
        var more := true;
        while more
          invariant |text| <= old(|text|)
          invariant more ==> ReadSlots(text, mode, size, slots) == whole
          invariant !more ==> whole == Ok(slots, text, mode)
          invariant |slots| <= size
          decreases more, |text|
        {
          var ok;
          ok, more, slots := ReadSlot(size, slots);
          if !ok {
            return Failed;
          }
        }
      }
      var close := Yylex();
      r := if close == Punct(']') then Parsed(Array(Padded(slots, size))) else Failed;
    }

    /** One slot, and the comma behind it. */
    method ReadSlot(size: nat, before: seq<Slot>) returns (ok: bool, more: bool, slots: seq<Slot>)
      requires |before| <= size
      modifies this
      ensures !ok ==> ReadSlots(old(text), old(mode), size, before) == Error
      ensures ok ==> |slots| <= size && |text| < |old(text)|
      ensures ok && more ==> ReadSlots(old(text), old(mode), size, before) == ReadSlots(text, mode, size, slots)
      ensures ok && !more ==> ReadSlots(old(text), old(mode), size, before) == Ok(slots, text, mode)
      decreases |text|, 3, 0
    {
      ok, more, slots := false, false, before;
      if |slots| == size {
        return;
      }
      if NextChar(text) == ',' {
        slots := slots + [Hole];
      } else {
        var item := Read();
        if !item.Parsed? {
          return;
        }
        slots := slots + [Filled(item.term)];
      }
      if NextChar(text) == ',' {
        var comma := Yylex();
        if comma == Other || comma == Eof {
          return;
        }
      }
      ok, more := true, NextChar(text) != ']';
    }

    method ReadBlobBody(size: nat) returns (r: Result)
      requires mode == BlobMode
      modifies this
      ensures Answers(r, ReadBlob(old(text), size))
    {
      if NextChar(text) == '>' {
        text := SkipBlanks(text);
        return Parsed(Blob(seq(size, _ => 0)));
      }
      var data: seq<Byte> := [];
      ghost var whole := ReadBytes(text, size, data);
      var more := true;
      while more
        invariant |data| <= size
        invariant more ==> mode == BlobMode && ReadBytes(text, size, data) == whole
        invariant !more ==> whole == Ok(data, text, mode)
        decreases more, |text|
      {
        var tok := Yylex();
        if tok.HexByte? {
          if |data| == size {
            return Failed;
          }
          data := data + [tok.b];
        } else if tok == Punct('>') {
          data := data + seq(size - |data|, _ => 0);
          more := false;
        } else {
          return Failed;
        }
      }
      r := Parsed(Blob(data));
    }
  }

  // ---------------------------------------------------------------------- printing

  lemma PrintThen(t: Term, rest: string)
    ensures PrintOn(t, rest) == Exo.Print(t) + rest
  {
    PrintAppend(t, "", rest);
    assert "" + rest == rest;
  }

  lemma SlotThen(slot: Slot, rest: string)
    ensures SlotOn(slot, rest) == SlotOn(slot, "") + rest
  {
    SlotAppend(slot, "", rest);
    assert "" + rest == rest;
  }

  lemma ListText(elts: seq<Term>)
    ensures Exo.Print(List(elts)) == "(" + (ItemsOn(elts, "") + ")")
  {
    ItemsAppend(elts, "", ")");
    assert "" + ")" == ")" == ")" + "";
  }

  lemma ArrayText(slots: seq<Slot>)
    ensures Exo.Print(Array(slots)) == SizeOn(|slots|, "") + ("[" + (SlotsOn(Trim(slots), "") + "]"))
  {
    var body := SlotsOn(Trim(slots), "");
    SlotsAppend(Trim(slots), "", "]");
    assert "" + "]" == "]" == "]" + "";
    SizeAppend(|slots|, "", "[" + (body + "]"));
    assert "" + ("[" + (body + "]")) == "[" + (body + "]");
  }

  lemma BlobText(data: seq<Byte>)
    ensures Exo.Print(Blob(data)) == SizeOn(|data|, "") + ("<" + ("\n" + (BytesOn(data, 0, "") + ">")))
  {
    var body := BytesOn(data, 0, "");
    BytesAppend(data, 0, "", ">");
    assert "" + ">" == ">" == ">" + "";
    SizeAppend(|data|, "", "<" + ("\n" + (body + ">")));
    assert "" + ("<" + ("\n" + (body + ">"))) == "<" + ("\n" + (body + ">"));
  }

  /** Searches backwards for the last slot that is filled. */
  method LastFilled(slots: seq<Slot>) returns (last: int)
    ensures last == |Trim(slots)| - 1
  {
    last := |slots| - 1;
    assert slots[..|slots|] == slots;
    while last >= 0 && slots[last].Hole?
      invariant -1 <= last < |slots| && Trim(slots[..last + 1]) == Trim(slots)
    {
      assert slots[..last + 1][..last] == slots[..last];
      last := last - 1;
    }
  }

  class Output {
    var text: string

    constructor ()
      ensures text == ""
    {
      text := "";
    }

    method Print(t: Term)
      modifies this
      ensures text == old(text) + Exo.Print(t)
      decreases t, 1
    {
      match t {
        case Integer(v) =>
          var digits := PrintDecimal(v);
          text := text + digits;
        case Address(v) =>
          var digits := PrintHex(v);
          text := text + ("0x" + digits);
        case List(elts) =>
          text := text + "(";
          PrintElements(elts);
          text := text + ")";
          ListText(elts);
        case Array(slots) => PrintArray(slots);
        case Blob(data) => PrintBlob(data);
      }
    }

    method PrintArray(slots: seq<Slot>)
      modifies this
      ensures text == old(text) + Exo.Print(Array(slots))
      decreases slots, 2
    {
      PrintSize(|slots|);
      text := text + "[";
      PrintSlots(slots);
      text := text + "]";
      ArrayText(slots);
    }

    method PrintBlob(data: seq<Byte>)
      modifies this
      ensures text == old(text) + Exo.Print(Blob(data))
    {
      PrintSize(|data|);
      text := text + ("<" + "\n");
      PrintData(data);
      text := text + ">";
      BlobText(data);
    }

    method PrintSize(n: nat)
      modifies this
      ensures text == old(text) + SizeOn(n, "")
    {
      text := text + ("{" + (Numeral(n, 10) + "}"));
    }

    method PrintElements(elts: seq<Term>)
      modifies this
      ensures text == old(text) + ItemsOn(elts, "")
      decreases elts, 0
    {
      var i := 0;
      assert elts[0..] == elts;
      while i < |elts|
        invariant 0 <= i <= |elts|
        invariant text + ItemsOn(elts[i..], "") == old(text) + ItemsOn(elts, "")
      {
        ghost var rest := if i + 1 == |elts| then "" else "," + (" " + ItemsOn(elts[i + 1..], ""));
        PrintThen(elts[i], rest);
        assert elts[i..][1..] == elts[i + 1..];
        Print(elts[i]);
        i := i + 1;
        if i < |elts| {
          text := text + ("," + " ");
        }
      }
    }

    /** Prints up to the last slot that is filled. */
    method PrintSlots(slots: seq<Slot>)
      modifies this
      ensures text == old(text) + SlotsOn(Trim(slots), "")
      decreases slots, 1
    {
      var last := LastFilled(slots);
      ghost var shown := Trim(slots);
      var i := 0;
      assert shown[0..] == shown;
      while i <= last
        invariant 0 <= i <= last + 1
        invariant text + SlotsOn(shown[i..], "") == old(text) + SlotsOn(shown, "")
      {
        ghost var rest := if i == last then "" else "," + (" " + SlotsOn(shown[i + 1..], ""));
        SlotThen(slots[i], rest);
        assert shown[i..][1..] == shown[i + 1..];
        PrintSlot(slots[i]);
        if i != last {
          text := text + ("," + " ");
        }
        i := i + 1;
      }
    }

    method PrintSlot(slot: Slot)
      modifies this
      ensures text == old(text) + SlotOn(slot, "")
      decreases slot, 2
    {
      match slot {
        case Hole => text := text + " ";
        case Filled(t) => Print(t);
      }
    }

    method PrintData(data: seq<Byte>)
      modifies this
      ensures text == old(text) + BytesOn(data, 0, "")
    {
      var i, cr := 0, false;
      while i < |data|
        invariant 0 <= i <= |data| && cr == (i > 0 && LineBreak(i - 1) != "")
        invariant text + BytesOn(data, i, "") == old(text) + BytesOn(data, 0, "")
      {
        ghost var more := BytesOn(data, i + 1, "");
        cr := LineBreak(i) != "";
        text := text + LineBreak(i);
        text := text + PrintByte(data[i]);
        assert text + more == old(text) + BytesOn(data, 0, "");
        i := i + 1;
      }
      if !cr {
        text := text + "\n";
      }
    }
  }
}
