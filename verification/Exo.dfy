/**
 EXO terms as EIO files use them: integers, addresses, lists, sized arrays and blobs,
 their printer and their reader.
 */
module Exo {
  import opened Machine
  import opened Numbers

  datatype Term =
    | Integer(v: U64)
    | Address(v: U64)
    | List(elts: seq<Term>)
    | Array(slots: seq<Slot>)
    | Blob(data: seq<Byte>)

  /** An array position may be empty. */
  datatype Slot = Hole | Filled(term: Term)

  // ------------------------------------------------------------------------ printer

  /** The stream that holds the text of `t` and then `rest`. */
  function PrintOn(t: Term, rest: string): string
    decreases t, 1
  {
    match t
    case Integer(v) => Numeral(v, 10) + rest
    case Address(v) => "0x" + (Numeral(v, 16) + rest)
    case List(elts) => "(" + ItemsOn(elts, ")" + rest)
    case Array(slots) => SizeOn(|slots|, "[" + SlotsOn(Trim(slots), "]" + rest))
    case Blob(data) => SizeOn(|data|, "<" + ("\n" + BytesOn(data, 0, ">" + rest)))
  }

  function Print(t: Term): string { PrintOn(t, "") }

  function SizeOn(n: nat, rest: string): string {
    "{" + (Numeral(n, 10) + ("}" + rest))
  }

  function ItemsOn(elts: seq<Term>, rest: string): string
    decreases elts, 0
  {
    if elts == [] then rest
    else if |elts| == 1 then PrintOn(elts[0], rest)
    else PrintOn(elts[0], "," + (" " + ItemsOn(elts[1..], rest)))
  }

  /** Holes behind the last filled slot are not printed. */
  function Trim(slots: seq<Slot>): (r: seq<Slot>)
    ensures |r| <= |slots| && r == slots[..|r|]
    ensures r != [] ==> r[|r| - 1].Filled?
    ensures forall i :: |r| <= i < |slots| ==> slots[i] == Hole
  {
    if slots == [] || slots[|slots| - 1].Filled? then slots else Trim(slots[..|slots| - 1])
  }

  function SlotsOn(slots: seq<Slot>, rest: string): string
    decreases slots, 0
  {
    if slots == [] then rest
    else if |slots| == 1 then SlotOn(slots[0], rest)
    else SlotOn(slots[0], "," + (" " + SlotsOn(slots[1..], rest)))
  }

  function SlotOn(slot: Slot, rest: string): string
    decreases slot, 0
  {
    match slot
    case Hole => " " + rest
    case Filled(t) => PrintOn(t, rest)
  }

  function PrintByte(b: Byte): string { [DigitChar(b / 16), DigitChar(b % 16)] }

  /** A new line before every 38th byte but the first. */
  function LineBreak(i: nat): string {
    if i != 0 && i % 38 == 0 then "\n" else ""
  }

  /** The bytes from position `i` on; a final line break unless the last byte just got one. */
  function BytesOn(data: seq<Byte>, i: nat, rest: string): string
    requires i <= |data|
    decreases |data| - i
  {
    if i < |data| then LineBreak(i) + (PrintByte(data[i]) + BytesOn(data, i + 1, rest))
    else if i > 0 && LineBreak(i - 1) != "" then rest
    else "\n" + rest
  }

  // ------------------------------------------------------------------ lexical analysis

  datatype Mode = Initial | BlobMode

  /** `Other` is any token that can not start or end one of the terms above. */
  datatype Token = Int(text: string) | Hex(text: string) | Punct(c: char) | HexByte(b: Byte) | Eof | Other

  predicate IsBlank(c: char) {
    c == ' ' || c == '\t' || c == '\n' || c == 11 as char || c == 12 as char
  }

  function SkipBlanks(s: string): (r: string)
    ensures |r| <= |s|
  {
    if s != "" && IsBlank(s[0]) then SkipBlanks(s[1..]) else s
  }

  predicate IsPunct(c: char) {
    c in "{},()[]<"
  }

  /** Characters of which runs are tokens. */
  predicate IsSymbol(c: char) {
    c in "~!@#$%^&*-+|/?"
  }

  /** A comment begins, unless a longer run of symbols makes a token. */
  predicate OpensComment(s: string) {
    |s| > 1 && s[0] == '/' && s[1] == '*' && !(|s| > 2 && IsSymbol(s[2]))
  }

  /** What is left behind the end of the comment. */
  function AfterComment(s: string): (r: string)
    ensures |r| <= |s|
  {
    if s == "" then ""
    else if |s| > 1 && s[0] == '*' && s[1] == '/' then s[2..]
    else AfterComment(s[1..])
  }

  /** Blanks are no token, nor are comments outside of blobs. */
  function SkipGaps(s: string, mode: Mode): (r: string)
    ensures |r| <= |s|
    decreases |s|
  {
    var t := SkipBlanks(s);
    if mode == Initial && OpensComment(t) then SkipGaps(AfterComment(t[2..]), mode) else t
  }

  /** A run of decimal digits followed by these would be a floating-point literal. */
  predicate StartsFraction(s: string) {
    s != "" && (s[0] == '.'
                || ((s[0] == 'e' || s[0] == 'E')
                    && (  (|s| > 1 && DigitValue(s[1]) < 10)
                       || (|s| > 2 && (s[1] == '+' || s[1] == '-') && DigitValue(s[2]) < 10))))
  }

  /** The next token and what is left, in either mode; longest match. */
  function Lex(s: string, mode: Mode): (r: (Token, string))
    ensures |r.1| <= |s|
    ensures r.0 != Eof ==> |r.1| < |s|
  {
    var t := SkipGaps(s, mode);
    if t == "" then (Eof, t)
    else if mode == BlobMode then
      if |t| > 1 && DigitValue(t[0]) < 16 && DigitValue(t[1]) < 16
      then (HexByte(DigitValue(t[0]) * 16 + DigitValue(t[1])), t[2..])
      else if t[0] == '>' then (Punct('>'), t[1..])
      else (Other, t[1..])
    else if IsPunct(t[0]) then (Punct(t[0]), t[1..])
    else if HasHexPrefix(t, 0) && |t| > 2 && DigitValue(t[2]) < 16 then
      var n := SkipDigits(t, 2, 16);
      (Hex(t[..n]), t[n..])
    else if DigitValue(t[0]) < 10 then
      var n := SkipDigits(t, 0, 10);
      if StartsFraction(t[n..]) then (Other, t[n..]) else (Int(t[..n]), t[n..])
    else (Other, t[1..])
  }

  /** The next character that is not blank; NUL at the end. */
  function NextChar(s: string): char {
    var t := SkipBlanks(s);
    if t == "" then '\0' else t[0]
  }

  // ------------------------------------------------------------------------- reader

  /** A value with the text left behind it and the lexer's mode, end of file, or a parse error. */
  datatype Reading<T> = Ok(value: T, rest: string, mode: Mode) | AtEof | Error

  function Read(s: string, mode: Mode): (r: Reading<Term>)
    ensures r.Ok? ==> |r.rest| < |s|
    decreases |s|, 1
  {
    var (tok, s1) := Lex(s, mode);
    match tok
    case Eof => AtEof
    case Int(text) =>
      var m := Meaning(text, 10);
      if m.outcome == Converted && m.end == |text| then Ok(Integer(m.value), s1, mode) else Error
    case Hex(text) =>
      var m := Meaning(text, 16);
      if m.outcome == Converted && m.end == |text| then Ok(Address(m.value), s1, mode) else Error
    case Punct('(') => ReadList(s1)
    case Punct('{') => ReadSized(s1)
    case _ => Error
  }

  function ReadList(s: string): (r: Reading<Term>)
    ensures r != AtEof
    ensures r.Ok? ==> |r.rest| <= |s| && r.value.List?
    decreases |s|, 3
  {
    if NextChar(s) == ')' then Ok(List([]), Lex(s, Initial).1, Initial)
    else
      match ReadItems(s, Initial, [])
      case Ok(elts, s1, m1) =>
        var (tok, s2) := Lex(s1, m1);
        if tok == Punct(')') then Ok(List(elts), s2, m1) else Error
      case _ => Error
  }

  /** The loop over list elements: a term, an optional comma, until the closing delimiter is next. */
  function ReadItems(s: string, mode: Mode, acc: seq<Term>): (r: Reading<seq<Term>>)
    ensures r.Ok? ==> |r.rest| <= |s|
    decreases |s|, 2
  {
    match Read(s, mode)
    case Ok(t, s1, m1) =>
      var (tok, s2) := Lex(s1, m1);
      if NextChar(s1) == ',' && tok == Other then Error
      else
        var s3 := if NextChar(s1) == ',' then s2 else s1;
        if NextChar(s3) == ')' then Ok(acc + [t], s3, m1) else ReadItems(s3, m1, acc + [t])
    case _ => Error
  }

  /** Behind an opening brace: a size, the closing brace, then an array or a blob. */
  function ReadSized(s: string): (r: Reading<Term>)
    ensures r != AtEof
    ensures r.Ok? ==> |r.rest| <= |s| && !r.value.Integer?
    decreases |s|, 2
  {
    match Read(s, Initial)
    case Ok(Integer(v), s1, m1) =>
      var (tok, s2) := Lex(s1, m1);
      if tok != Punct('}') || Int32(v) < 0 then Error else ReadBody(s2, Int32(v))
    case _ => Error
  }

  function ReadBody(s: string, size: nat): (r: Reading<Term>)
    ensures r != AtEof
    ensures r.Ok? ==> |r.rest| <= |s| && !r.value.Integer?
    decreases |s|, 4
  {
    var (tok, s1) := Lex(s, Initial);
    if tok == Punct('[') then ReadArray(s1, size)
    else if tok == Punct('<') then ReadBlob(s1, size)
    else Error
  }

  /** Slots that were not given are empty. */
  function Padded(filled: seq<Slot>, size: nat): seq<Slot>
    requires |filled| <= size
  {
    filled + seq(size - |filled|, _ => Hole)
  }

  function ReadArray(s: string, size: nat): (r: Reading<Term>)
    ensures r != AtEof
    ensures r.Ok? ==> |r.rest| <= |s| && r.value.Array?
    decreases |s|, 3
  {
    var slots := if NextChar(s) == ']' then Ok([], s, Initial) else ReadSlots(s, Initial, size, []);
    match slots
    case Ok(filled, s1, m1) =>
      var (tok, s2) := Lex(s1, m1);
      if tok == Punct(']') && |filled| <= size
      then Ok(Array(Padded(filled, size)), s2, m1) else Error
    case _ => Error
  }

  /** The loop over array slots; a comma where a term should be leaves the slot empty. */
  function ReadSlots(s: string, mode: Mode, size: nat, acc: seq<Slot>): (r: Reading<seq<Slot>>)
    ensures r.Ok? ==> |r.rest| <= |s|
    decreases |s|, 2
  {
    if |acc| == size then Error
    else if NextChar(s) == ',' then
      var (tok, s1) := Lex(s, mode);
      if tok == Other || tok == Eof then Error
      else if NextChar(s1) == ']' then Ok(acc + [Hole], s1, mode)
      else ReadSlots(s1, mode, size, acc + [Hole])
    else
      match Read(s, mode)
      case Ok(t, s1, m1) =>
        var (tok, s2) := Lex(s1, m1);
        if NextChar(s1) == ',' && tok == Other then Error
        else
          var s3 := if NextChar(s1) == ',' then s2 else s1;
          if NextChar(s3) == ']' then Ok(acc + [Filled(t)], s3, m1) else ReadSlots(s3, m1, size, acc + [Filled(t)])
      case _ => Error
  }

  /** A blob whose closing delimiter comes at once is returned without consuming it. */
  function ReadBlob(s: string, size: nat): (r: Reading<Term>)
    ensures r != AtEof
    ensures r.Ok? ==> |r.rest| <= |s| && r.value.Blob?
  {
    if NextChar(s) == '>' then Ok(Blob(seq(size, _ => 0)), SkipBlanks(s), BlobMode)
    else
      match ReadBytes(s, size, [])
      case Ok(data, s1, m1) => Ok(Blob(data), s1, m1)
      case _ => Error
  }

  /** Hexadecimal pairs up to the closing delimiter; missing bytes are zero. */
  function ReadBytes(s: string, size: nat, acc: seq<Byte>): (r: Reading<seq<Byte>>)
    requires |acc| <= size
    ensures r.Ok? ==> |r.rest| <= |s|
    decreases |s|
  {
    var (tok, s1) := Lex(s, BlobMode);
    match tok
    case HexByte(b) => if |acc| == size then Error else ReadBytes(s1, size, acc + [b])
    case Punct('>') => Ok(acc + seq(size - |acc|, _ => 0), s1, Initial)
    case _ => Error
  }
}
