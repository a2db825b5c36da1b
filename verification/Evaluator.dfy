/**
 The debugger's expression evaluator: a recursive-descent parser that evaluates while it
 parses, over a tokenizer with one token of look-ahead.
 */
module Evaluator {

  // --------------------------------------------------------------------------- tokens

  datatype Kind = Ident | Const | Plus | Minus | Times | Over | Open | Close | Eof | White | Invalid

  datatype Token = Token(kind: Kind, text: string)

  /** What kind of token a character begins; unmapped characters are invalid. */
  function KindOf(c: char): Kind {
    if 'a' <= c <= 'z' || 'A' <= c <= 'Z' || c == '_' || c == '$' then Ident
    else if '0' <= c <= '9' || c == '.' then Const
    else if c == '+' then Plus
    else if c == '-' then Minus
    else if c == '*' then Times
    else if c == '/' then Over
    else if c == '(' then Open
    else if c == ')' then Close
    else if c == ' ' || c == '\t' then White
    else Invalid
  }

  function SkipWhite(s: string, p: nat): (q: nat)
    requires p <= |s|
    ensures p <= q <= |s| && (q < |s| ==> KindOf(s[q]) != White)
    decreases |s| - p
  {
    if p < |s| && KindOf(s[p]) == White then SkipWhite(s, p + 1) else p
  }

  function IdentEnd(s: string, p: nat): (q: nat)
    requires p <= |s|
    ensures p <= q <= |s|
    decreases |s| - p
  {
    if p < |s| && (KindOf(s[p]) == Ident || KindOf(s[p]) == Const) then IdentEnd(s, p + 1) else p
  }

  function Lower(c: char): char { if 'A' <= c <= 'Z' then c - 'A' + 'a' else c }

  /** Whether `c` continues a constant; a sign does after an `e`, hexadecimal digits after an `x`. */
  predicate Continues(c: char, last: char, hex: bool) {
    || KindOf(c) == Const
    || ((c == '-' || c == '+') && last == 'e')
    || Lower(c) == 'e' || Lower(c) == 'x'
    || (hex && 'a' <= Lower(c) <= 'f')
  }

  function ConstEnd(s: string, p: nat, last: char, hex: bool): (q: nat)
    requires p <= |s|
    ensures p <= q <= |s|
    decreases |s| - p
  {
    if p < |s| && Continues(s[p], last, hex)
    then ConstEnd(s, p + 1, Lower(s[p]), hex || Lower(s[p]) == 'x') else p
  }

  /** Where the token that begins at `p` ends. */
  function TokenEnd(s: string, p: nat): (q: nat)
    requires p < |s|
    ensures p < q <= |s|
  {
    match KindOf(s[p])
    case Ident => IdentEnd(s, p + 1)
    case Const => ConstEnd(s, p + 1, '\0', false)
    case _ => p + 1
  }

  /** The next token at or after `p`, and where it ends. */
  function Lex(s: string, p: nat): (r: (Token, nat))
    requires p <= |s|
    ensures p <= r.1 <= |s| && (r.0.kind != Eof ==> p < r.1) && r.0.kind != White
  {
    var q := SkipWhite(s, p);
    if q == |s| then (Token(Eof, ""), q)
    else (Token(KindOf(s[q]), s[q..TokenEnd(s, q)]), TokenEnd(s, q))
  }

  // --------------------------------------------------------------------------- values

  datatype Error = UnmatchedParen | NoTerm | DivideByZero | BadConstant | BadExpression | UndefinedVariable

  datatype Result<V> = Val(v: V) | Err(e: Error)

  /** Values and what can be done with them; `failed` stands in for the value of a failed expression. */
  datatype Algebra<!V> = Algebra(
    failed: V, neg: V -> Result<V>, add: (V, V) -> Result<V>, sub: (V, V) -> Result<V>,
    mult: (V, V) -> Result<V>, div: (V, V) -> Result<V>, isZero: V -> bool,
    ident: string -> Result<V>, constant: string -> Result<V>)

  /** An operator is applied before it is checked whether its right operand failed, so its own
      error takes precedence. */
  function Combine<V>(failed: V, op: (V, V) -> Result<V>, x: V, y: Result<V>): (r: Result<V>)
    ensures y.Val? ==> r == op(x, y.v)
    ensures y.Err? ==> r.Err? && r == if op(x, failed).Err? then op(x, failed) else y
  {
    match y
    case Val(v) => op(x, v)
    case Err(_) => if op(x, failed).Err? then op(x, failed) else y
  }

  /** The quotient of `x` by `y`, in this order; a failed divisor and a zero one come first. */
  function Divide<V>(a: Algebra<V>, x: V, y: Result<V>): (r: Result<V>)
    ensures y.Err? ==> r == y
    ensures y.Val? && a.isZero(y.v) ==> r == Err(DivideByZero)
    ensures y.Val? && !a.isZero(y.v) ==> r == a.div(x, y.v)
  {
    if y.Err? then y else if a.isZero(y.v) then Err(DivideByZero) else a.div(x, y.v)
  }

  // ---------------------------------------------------------------- evaluation by position

  /** Looking ahead leaves a token where it is, except that an invalid one is lost. */
  function Peek(s: string, p: nat): (r: (Kind, nat))
    requires p <= |s|
    ensures p <= r.1 <= |s|
  {
    var (tok, q) := Lex(s, p);
    (tok.kind, if tok.kind == Invalid then q else p)
  }

  function EvalFactor<V>(a: Algebra<V>, s: string, p: nat): (r: (Result<V>, nat))
    requires p <= |s|
    ensures p <= r.1 <= |s| && (r.0.Val? ==> p < r.1)
    decreases |s| - p, 0
  {
    var (kind, f) := Peek(s, p);
    var (tok, e) := Lex(s, f);
    match kind
    case Open =>
      var (r, q) := EvalExpr(a, s, e);
      if r.Err? then (r, q)
      else
        var (k, g) := Peek(s, q);
        if k == Close then (r, Lex(s, g).1) else (Err(UnmatchedParen), g)
    case Minus =>
      var (r, q) := EvalFactor(a, s, e);
      (if r.Err? then r else a.neg(r.v), q)
    case Ident => (a.ident(tok.text), e)
    case Const => (a.constant(tok.text), e)
    case _ => (Err(NoTerm), f)
  }

  function EvalTerm<V>(a: Algebra<V>, s: string, p: nat): (r: (Result<V>, nat))
    requires p <= |s|
    ensures p <= r.1 <= |s| && (r.0.Val? ==> p < r.1)
    decreases |s| - p, 1
  {
    var (x, q) := EvalFactor(a, s, p);
    if x.Err? then (x, q)
    else
      var (kind, g) := Peek(s, q);
      if kind == Times then
        var (y, e) := EvalTerm(a, s, Lex(s, g).1);
        (Combine(a.failed, a.mult, x.v, y), e)
      else if kind == Over then
        var (y, e) := EvalTerm(a, s, Lex(s, g).1);
        (Divide(a, x.v, y), e)
      else (x, g)
  }

  function EvalExpr<V>(a: Algebra<V>, s: string, p: nat): (r: (Result<V>, nat))
    requires p <= |s|
    ensures p <= r.1 <= |s| && (r.0.Val? ==> p < r.1)
    decreases |s| - p, 2
  {
    var (x, q) := EvalTerm(a, s, p);
    if x.Err? then (x, q)
    else
      var (kind, g) := Peek(s, q);
      if kind == Plus then
        var (y, e) := EvalExpr(a, s, Lex(s, g).1);
        (Combine(a.failed, a.add, x.v, y), e)
      else if kind == Minus then
        var (y, e) := EvalExpr(a, s, Lex(s, g).1);
        (Combine(a.failed, a.sub, x.v, y), e)
      else (x, g)
  }

  // -------------------------------------------------------------------- the evaluator

  /** The evaluator's state: a string, a place in it, one token of look-ahead, and the error. */
  class EvalState<V> {
    const a: Algebra<V>
    var text: string
    var p: nat
    var lastp: nat
    /** `Invalid` when there is no look-ahead. */
    var peekTok: Kind
    var tokBuf: string
    /** The value `Val(())` stands for no error. */
    var error: Result<()>

    constructor (a: Algebra<V>)
      ensures this.a == a
    {
      this.a := a;
      text, p, lastp, peekTok, tokBuf, error := "", 0, 0, Invalid, "", Val(());
    }

    ghost predicate Valid()
      reads this
    {
      && p <= |text| && lastp <= |text|
      && (peekTok != Invalid ==> Lex(text, lastp) == (Token(peekTok, tokBuf), p))
    }

    /** The first position not consumed yet. */
    ghost function Front(): nat
      reads this
    {
      if peekTok != Invalid then lastp else p
    }

    /** Whether `v` and the error flag say `r`. */
    ghost predicate Says(v: V, r: Result<V>)
      reads this
    {
      match r
      case Val(x) => error == Val(()) && v == x
      case Err(e) => error == Err(e) && v == a.failed
    }

    method GetNextToken() returns (tok: Kind)
      requires Valid()
      modifies `p, `peekTok, `tokBuf
      ensures Valid() && peekTok == Invalid
      ensures (Token(tok, tokBuf), p) == Lex(text, old(Front()))
    {
      if peekTok != Invalid {
        tok := peekTok;
        peekTok := Invalid;
        return;
      }
      tokBuf := "";
      SkipBlanks();
      if p == |text| {
        return Eof;
      }
      tok := ScanToken();
    }

    method SkipBlanks()
      requires p <= |text|
      modifies `p
      ensures p == SkipWhite(text, old(p))
    {
      while p < |text| && KindOf(text[p]) == White
        invariant p <= |text| && SkipWhite(text, p) == SkipWhite(text, old(p))
      {
        p := p + 1;
      }
    }

    method ScanToken() returns (tok: Kind)
      requires p < |text|
      modifies `p, `tokBuf
      ensures tok == KindOf(text[old(p)]) && p == TokenEnd(text, old(p)) && tokBuf == text[old(p)..p]
    {
      ghost var q := p;
      tok := KindOf(text[p]);
      tokBuf := [text[p]];
      p := p + 1;
      if tok == Ident {
        ScanIdent(q);
      } else if tok == Const {
        ScanConst(q);
      }
    }

    method ScanIdent(ghost q: nat)
      requires q < p <= |text| && tokBuf == text[q..p]
      modifies `p, `tokBuf
      ensures p == IdentEnd(text, old(p)) && tokBuf == text[q..p]
    {
      while p < |text| && (KindOf(text[p]) == Ident || KindOf(text[p]) == Const)
        invariant q < p <= |text| && tokBuf == text[q..p] && IdentEnd(text, p) == IdentEnd(text, old(p))
      {
        tokBuf := tokBuf + [text[p]];
        p := p + 1;
      }
    }

    method ScanConst(ghost q: nat)
      requires q < p <= |text| && tokBuf == text[q..p]
      modifies `p, `tokBuf
      ensures p == ConstEnd(text, old(p), '\0', false) && tokBuf == text[q..p]
    {
      var last, hex := '\0', false;
      while p < |text| && Continues(text[p], last, hex)
        invariant q < p <= |text| && tokBuf == text[q..p]
        invariant ConstEnd(text, p, last, hex) == ConstEnd(text, old(p), '\0', false)
      {
        last := Lower(text[p]);
        if text[p] == 'x' || text[p] == 'X' {
          hex := true;
        }
        tokBuf := tokBuf + [text[p]];
        p := p + 1;
      }
    }

    method PeekNextToken() returns (tok: Kind)
      requires Valid()
      modifies `p, `lastp, `peekTok, `tokBuf
      ensures Valid() && tok == peekTok
      ensures (tok, Front()) == Peek(text, old(Front()))
    {
      if peekTok == Invalid {
        lastp := p;
        peekTok := GetNextToken();
      }
      return peekTok;
    }

    method Factor() returns (val: V)
      requires Valid() && error == Val(())
      modifies `p, `lastp, `peekTok, `tokBuf, `error
      ensures Valid() && Says(val, EvalFactor(a, text, old(Front())).0)
      ensures Front() == EvalFactor(a, text, old(Front())).1
      decreases |text| - Front(), 1
    {
      var tok := PeekNextToken();
      if tok == Open {
        val := Parenthesis();
      } else if tok == Minus {
        val := Negation();
      } else if tok == Ident {
        var _ := GetNextToken();
        val := Apply(a.ident(tokBuf));
      } else if tok == Const {
        var _ := GetNextToken();
        val := Apply(a.constant(tokBuf));
      } else {
        error := Err(NoTerm);
        return a.failed;
      }
    }

    /** Behind an opening parenthesis just seen. */
    method Parenthesis() returns (val: V)
      requires Valid() && error == Val(()) && peekTok == Open
      modifies `p, `lastp, `peekTok, `tokBuf, `error
      ensures Valid() && Says(val, EvalFactor(a, text, old(Front())).0)
      ensures Front() == EvalFactor(a, text, old(Front())).1
      decreases |text| - Front(), 0
    {
      var _ := GetNextToken();
      val := Expr();
      if error.Err? {
        return a.failed;
      }
      var tok := PeekNextToken();
      if tok != Close {
        error := Err(UnmatchedParen);
        return a.failed;
      }
      var _ := GetNextToken();
    }

    /** Behind a minus sign just seen. */
    method Negation() returns (val: V)
      requires Valid() && error == Val(()) && peekTok == Minus
      modifies `p, `lastp, `peekTok, `tokBuf, `error
      ensures Valid() && Says(val, EvalFactor(a, text, old(Front())).0)
      ensures Front() == EvalFactor(a, text, old(Front())).1
      decreases |text| - Front(), 0
    {
      var _ := GetNextToken();
      val := Factor();
      if error.Err? {
        return a.failed;
      }
      val := Apply(a.neg(val));
    }

    /** What an operation returns, its error put into the flag. */
    method Apply(r: Result<V>) returns (val: V)
      modifies `error
      ensures r.Val? ==> val == r.v && error == old(error)
      ensures r.Err? ==> val == a.failed && error == Err(r.e)
    {
      match r
      case Val(v) => val := v;
      case Err(e) =>
        error := Err(e);
        val := a.failed;
    }

    method Term() returns (val: V)
      requires Valid() && error == Val(())
      modifies `p, `lastp, `peekTok, `tokBuf, `error
      ensures Valid() && Says(val, EvalTerm(a, text, old(Front())).0)
      ensures Front() == EvalTerm(a, text, old(Front())).1
      decreases |text| - Front(), 2
    {
      val := Factor();
      if error.Err? {
        return a.failed;
      }
      var tok := PeekNextToken();
      if tok == Times {
        var right := RightTerm();
        val := Apply(a.mult(val, right));
        if error.Err? {
          return a.failed;
        }
      } else if tok == Over {
        var right := RightTerm();
        if error.Err? {
          return a.failed;
        }
        if a.isZero(right) {
          error := Err(DivideByZero);
          return a.failed;
        }
        val := Apply(a.div(val, right));
      }
    }

    /** The operand behind the operator just seen. */
    method RightTerm() returns (val: V)
      requires Valid() && error == Val(()) && peekTok != Invalid && peekTok != Eof
      modifies `p, `lastp, `peekTok, `tokBuf, `error
      ensures Valid() && Says(val, EvalTerm(a, text, Lex(text, old(Front())).1).0)
      ensures Front() == EvalTerm(a, text, Lex(text, old(Front())).1).1
      decreases |text| - Front(), 0
    {
      var _ := GetNextToken();
      val := Term();
    }

    method RightExpr() returns (val: V)
      requires Valid() && error == Val(()) && peekTok != Invalid && peekTok != Eof
      modifies `p, `lastp, `peekTok, `tokBuf, `error
      ensures Valid() && Says(val, EvalExpr(a, text, Lex(text, old(Front())).1).0)
      ensures Front() == EvalExpr(a, text, Lex(text, old(Front())).1).1
      decreases |text| - Front(), 0
    {
      var _ := GetNextToken();
      val := Expr();
    }

    method Expr() returns (val: V)
      requires Valid() && error == Val(())
      modifies `p, `lastp, `peekTok, `tokBuf, `error
      ensures Valid() && Says(val, EvalExpr(a, text, old(Front())).0)
      ensures Front() == EvalExpr(a, text, old(Front())).1
      decreases |text| - Front(), 3
    {
      val := Term();
      if error.Err? {
        return a.failed;
      }
      var tok := PeekNextToken();
      if tok == Plus {
        var right := RightExpr();
        val := Apply(a.add(val, right));
        if error.Err? {
          return a.failed;
        }
      } else if tok == Minus {
        var right := RightExpr();
        val := Apply(a.sub(val, right));
        if error.Err? {
          return a.failed;
        }
      }
    }

    /** Evaluates the expression `s` begins with; `endp` is the first character not used. */
    method Evaluate(s: string) returns (val: V, endp: nat)
      modifies this
      ensures Says(val, EvalExpr(a, s, 0).0) && endp == EvalExpr(a, s, 0).1
    {
      error := Val(());
      text, p, tokBuf, peekTok := s, 0, "", Invalid;
      lastp := 0;
      val := Expr();
      endp := if peekTok != Invalid then lastp else p;
    }
  }
}
