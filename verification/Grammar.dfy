/**
 The expression grammar, independent of the evaluator: operators associate to the right.
 The evaluator computes the value of the one syntax tree a string begins with.
 */
module Grammar {
  import opened Evaluator

  datatype Ast =
    | Number(text: string) | Name(text: string)
    | Parens(inner: Ast) | Negate(inner: Ast)
    | Binary(op: Kind, left: Ast, right: Ast)

  predicate IsFactor(t: Ast)
    decreases t, 0
  {
    match t
    case Number(_) => true
    case Name(_) => true
    case Parens(e) => IsExpr(e)
    case Negate(f) => IsFactor(f)
    case Binary(_, _, _) => false
  }

  predicate IsTerm(t: Ast)
    decreases t, 1
  {
    if t.Binary? then (t.op == Times || t.op == Over) && IsFactor(t.left) && IsTerm(t.right) else IsFactor(t)
  }

  predicate IsExpr(t: Ast)
    decreases t, 2
  {
    if t.Binary? && (t.op == Plus || t.op == Minus) then IsTerm(t.left) && IsExpr(t.right) else IsTerm(t)
  }

  function Sign(k: Kind): Token {
    Token(k, match k
             case Plus => "+" case Minus => "-" case Times => "*" case Over => "/"
             case Open => "(" case Close => ")" case _ => "")
  }

  /** The tokens of a syntax tree. */
  function Tokens(t: Ast): (ts: seq<Token>)
    ensures ts != []
  {
    match t
    case Number(x) => [Token(Const, x)]
    case Name(x) => [Token(Ident, x)]
    case Parens(e) => [Sign(Open)] + (Tokens(e) + [Sign(Close)])
    case Negate(f) => [Sign(Minus)] + Tokens(f)
    case Binary(op, l, r) => Tokens(l) + ([Sign(op)] + Tokens(r))
  }

  /** What a tree means: a quotient is of the left operand by the right one and fails if that is zero;
      for the other operators an error of their own on a failed right operand comes before its error. */
  function Value<V>(a: Algebra<V>, t: Ast): Result<V> {
    match t
    case Number(x) => a.constant(x)
    case Name(x) => a.ident(x)
    case Parens(e) => Value(a, e)
    case Negate(f) => if Value(a, f).Err? then Value(a, f) else a.neg(Value(a, f).v)
    case Binary(op, l, r) =>
      var x, y := Value(a, l), Value(a, r);
      if x.Err? then x
      else if op == Over then
        if y.Err? then y else if a.isZero(y.v) then Err(DivideByZero) else a.div(x.v, y.v)
      else
        var right := if y.Val? then y.v else a.failed;
        var z := if op == Times then a.mult(x.v, right) else if op == Plus then a.add(x.v, right) else a.sub(x.v, right);
        if y.Err? && z.Val? then y else z
  }

  // -------------------------------------------------------------------- tokens in text

  /** Reading on from `p`, the tokens are `ts`, and the last of them ends at `q`. */
  predicate Spans(s: string, p: nat, ts: seq<Token>, q: nat)
    requires p <= |s|
    decreases |ts|
  {
    if ts == [] then p == q
    else Lex(s, p).0 == ts[0] && ts[0].kind != Eof && Spans(s, Lex(s, p).1, ts[1..], q)
  }

  lemma Rest(x: seq<Token>, y: seq<Token>)
    requires x != []
    ensures x + y != [] && (x + y)[0] == x[0] && (x + y)[1..] == x[1..] + y
  {
  }

  lemma {:induction false} SpansSplit(s: string, p: nat, x: seq<Token>, y: seq<Token>, q: nat) returns (m: nat)
    requires p <= |s| && Spans(s, p, x + y, q)
    ensures p <= m <= |s| && Spans(s, p, x, m) && Spans(s, m, y, q)
    decreases |x|
  {
    if x == [] {
      m := p;
      assert x + y == y;
    } else {
      Rest(x, y);
      m := SpansSplit(s, Lex(s, p).1, x[1..], y, q);
    }
  }

  lemma {:induction false} SpansJoin(s: string, p: nat, x: seq<Token>, m: nat, y: seq<Token>, q: nat)
    requires p <= |s| && m <= |s| && Spans(s, p, x, m) && Spans(s, m, y, q)
    ensures Spans(s, p, x + y, q)
    decreases |x|
  {
    if x == [] {
      assert x + y == y;
    } else {
      SpansJoin(s, Lex(s, p).1, x[1..], m, y, q);
      Rest(x, y);
    }
  }

  /** The next token is no operator that would continue a term, or an expression. */
  predicate EndsTerm(s: string, q: nat)
    requires q <= |s|
  {
    Lex(s, q).0.kind !in {Times, Over}
  }

  predicate EndsExpr(s: string, q: nat)
    requires q <= |s|
  {
    EndsTerm(s, q) && Lex(s, q).0.kind !in {Plus, Minus}
  }

  /** The text of an operator token is the operator. */
  lemma SignText(s: string, p: nat)
    requires p <= |s| && Lex(s, p).0.kind in {Plus, Minus, Times, Over, Open, Close}
    ensures Lex(s, p).0 == Sign(Lex(s, p).0.kind)
  {
    var q := SkipWhite(s, p);
    assert s[q..q + 1] == [s[q]];
  }

  lemma OneToken(s: string, p: nat, t: Token, q: nat)
    requires p <= |s|
    ensures Spans(s, p, [t], q) <==> Lex(s, p) == (t, q) && t.kind != Eof
  {
    assert [t][1..] == [];
  }

  // ---------------------------------------------- the evaluator computes the tree's value

  /** On the text of a tree the evaluator gives the tree's value, or its error.  A factor ends
      right behind its last token, a term there or behind the one unmapped character that
      follows.  Behind an expression that is followed by an unmapped character the evaluator
      never stops. */
  lemma {:induction false} FactorValue<V>(a: Algebra<V>, s: string, p: nat, t: Ast, q: nat)
    requires p <= |s| && q <= |s| && IsFactor(t) && Spans(s, p, Tokens(t), q)
    ensures EvalFactor(a, s, p).0 == Value(a, t)
    ensures Value(a, t).Val? ==> EvalFactor(a, s, p).1 == q
    decreases t, 0
  {
    match t
    case Number(x) => OneToken(s, p, Token(Const, x), q);
    case Name(x) => OneToken(s, p, Token(Ident, x), q);
    case Parens(e) =>
      var m, n := ParensSplit(s, p, t, q);
      assert Lex(s, p).0 == Tokens(t)[0];
      ExprValue(a, s, m, e, n);
    case Negate(f) =>
      var m := SpansSplit(s, p, [Sign(Minus)], Tokens(f), q);
      OneToken(s, p, Sign(Minus), m);
      FactorValue(a, s, m, f, q);
  }

  lemma {:induction false} TermValue<V>(a: Algebra<V>, s: string, p: nat, t: Ast, q: nat)
    requires p <= |s| && q <= |s| && IsTerm(t) && Spans(s, p, Tokens(t), q) && EndsTerm(s, q)
    ensures EvalTerm(a, s, p).0 == Value(a, t)
    ensures Value(a, t).Val? ==> EvalTerm(a, s, p).1 == Peek(s, q).1
    decreases t, 1
  {
    if t.Binary? {
      var m, n := OperatorSplit(s, p, t, q);
      FactorValue(a, s, p, t.left, m);
      TermValue(a, s, n, t.right, q);
    } else {
      FactorValue(a, s, p, t, q);
    }
  }

  lemma SumStep<V>(a: Algebra<V>, s: string, p: nat, m: nat, op: Kind, n: nat)
    requires p <= |s| && m <= |s| && EvalTerm(a, s, p).0.Val? && EvalTerm(a, s, p).1 == m
    requires (op == Plus || op == Minus) && Lex(s, m) == (Sign(op), n)
    ensures var (y, e) := EvalExpr(a, s, n);
            EvalExpr(a, s, p) == (Combine(a.failed, if op == Plus then a.add else a.sub, EvalTerm(a, s, p).0.v, y), e)
  {
  }

  lemma {:induction false} ExprValue<V>(a: Algebra<V>, s: string, p: nat, t: Ast, q: nat)
    requires p <= |s| && q <= |s| && IsExpr(t) && Spans(s, p, Tokens(t), q) && EndsExpr(s, q)
    ensures Lex(s, q).0.kind != Invalid ==> EvalExpr(a, s, p).0 == Value(a, t)
    ensures Lex(s, q).0.kind != Invalid && Value(a, t).Val? ==> EvalExpr(a, s, p).1 == q
    ensures Lex(s, q).0.kind == Invalid && Value(a, t).Val? ==> EvalExpr(a, s, p).1 > q
    decreases t, 2
  {
    if t.Binary? && (t.op == Plus || t.op == Minus) {
      var m, n := OperatorSplit(s, p, t, q);
      TermValue(a, s, p, t.left, m);
      ExprValue(a, s, n, t.right, q);
      SumValue(a, s, p, t, m, n, q);
    } else {
      TermValue(a, s, p, t, q);
      LastTermValue(a, s, p, t, q);
    }
  }

  /** The value and the end of an expression are found, or something further on. */
  ghost predicate ExprFound<V>(a: Algebra<V>, s: string, p: nat, t: Ast, q: nat)
    requires p <= |s| && q <= |s|
  {
    if Lex(s, q).0.kind == Invalid then Value(a, t).Val? ==> EvalExpr(a, s, p).1 > q
    else EvalExpr(a, s, p).0 == Value(a, t) && (Value(a, t).Val? ==> EvalExpr(a, s, p).1 == q)
  }

  lemma SumValue<V>(a: Algebra<V>, s: string, p: nat, t: Ast, m: nat, n: nat, q: nat)
    requires p <= |s| && m <= |s| && q <= |s| && Sum(t) && Lex(s, m) == (Sign(t.op), n)
    requires EvalTerm(a, s, p).0 == Value(a, t.left) && (Value(a, t.left).Val? ==> EvalTerm(a, s, p).1 == m)
    requires ExprFound(a, s, n, t.right, q)
    ensures ExprFound(a, s, p, t, q)
  {
    SumMeans(a, t);
    if Value(a, t.left).Val? { SumStep(a, s, p, m, t.op, n); }
  }

  lemma SumMeans<V>(a: Algebra<V>, t: Ast)
    requires Sum(t)
    ensures Value(a, t) == if Value(a, t.left).Err? then Value(a, t.left)
                           else Combine(a.failed, if t.op == Plus then a.add else a.sub,
                                        Value(a, t.left).v, Value(a, t.right))
  {
  }

  lemma LastTermValue<V>(a: Algebra<V>, s: string, p: nat, t: Ast, q: nat)
    requires p <= |s| && q <= |s| && EndsExpr(s, q) && EvalTerm(a, s, p).0 == Value(a, t)
    requires Value(a, t).Val? ==> EvalTerm(a, s, p).1 == Peek(s, q).1
    ensures ExprFound(a, s, p, t, q)
  {
  }

  /** Left operand, operator, right operand. */
  lemma OperatorSplit(s: string, p: nat, t: Ast, q: nat) returns (m: nat, n: nat)
    requires p <= |s| && t.Binary? && t.op != Eof && Spans(s, p, Tokens(t), q)
    ensures p <= m <= n <= |s| && Lex(s, m) == (Sign(t.op), n)
    ensures Spans(s, p, Tokens(t.left), m) && Spans(s, n, Tokens(t.right), q)
  {
    m := SpansSplit(s, p, Tokens(t.left), [Sign(t.op)] + Tokens(t.right), q);
    n := SpansSplit(s, m, [Sign(t.op)], Tokens(t.right), q);
    OneToken(s, m, Sign(t.op), n);
  }

  lemma ParensSplit(s: string, p: nat, t: Ast, q: nat) returns (m: nat, n: nat)
    requires p <= |s| && t.Parens? && Spans(s, p, Tokens(t), q)
    ensures m == Lex(s, p).1 && n <= |s|
    ensures Spans(s, m, Tokens(t.inner), n) && Lex(s, n) == (Sign(Close), q)
  {
    m := SpansSplit(s, p, [Sign(Open)], Tokens(t.inner) + [Sign(Close)], q);
    OneToken(s, p, Sign(Open), m);
    n := SpansSplit(s, m, Tokens(t.inner), [Sign(Close)], q);
    OneToken(s, n, Sign(Close), q);
  }

  // ------------------------------------------------ without an error, there is a tree

  /** The tokens the evaluator acts on: unmapped characters are lost. */
  function Kept(ts: seq<Token>): (r: seq<Token>)
    ensures r == ts <==> NoneLost(ts)
    ensures |r| <= |ts|
  {
    if ts == [] then []
    else if ts[0].kind == Invalid then Kept(ts[1..])
    else [ts[0]] + Kept(ts[1..])
  }

  predicate NoneLost(ts: seq<Token>) { forall i :: 0 <= i < |ts| ==> ts[i].kind != Invalid }

  lemma {:induction false} KeptJoin(x: seq<Token>, y: seq<Token>)
    ensures Kept(x + y) == Kept(x) + Kept(y)
  {
    if x == [] {
      assert x + y == y;
    } else {
      Rest(x, y);
      KeptJoin(x[1..], y);
    }
  }

  /** The text from `p` to `e` spells `t`, unmapped characters left out. */
  ghost predicate Spells(s: string, p: nat, ts: seq<Token>, t: Ast, e: nat)
    requires p <= |s|
  {
    Spans(s, p, ts, e) && Kept(ts) == Tokens(t)
  }

  lemma SpellsOne(s: string, p: nat, t: Ast)
    requires p <= |s| && Tokens(t) == [Lex(s, p).0] && Lex(s, p).0.kind !in {Eof, Invalid}
    ensures Spells(s, p, Tokens(t), t, Lex(s, p).1)
  {
    OneToken(s, p, Lex(s, p).0, Lex(s, p).1);
  }

  lemma SpellsNegate(s: string, p: nat, ts: seq<Token>, t: Ast, e: nat)
    requires p <= |s| && Lex(s, p).0 == Sign(Minus) && Spells(s, Lex(s, p).1, ts, t, e)
    ensures Spells(s, p, [Sign(Minus)] + ts, Negate(t), e)
  {
    OneToken(s, p, Sign(Minus), Lex(s, p).1);
    SpansJoin(s, p, [Sign(Minus)], Lex(s, p).1, ts, e);
    KeptJoin([Sign(Minus)], ts);
  }

  lemma SpellsParens(s: string, p: nat, ts: seq<Token>, t: Ast, m: nat)
    requires p <= |s| && m <= |s| && Lex(s, p).0 == Sign(Open) && Lex(s, m).0 == Sign(Close)
    requires Spells(s, Lex(s, p).1, ts, t, m)
    ensures Spells(s, p, [Sign(Open)] + (ts + [Sign(Close)]), Parens(t), Lex(s, m).1)
  {
    var e := Lex(s, p).1;
    OneToken(s, p, Sign(Open), e);
    OneToken(s, m, Sign(Close), Lex(s, m).1);
    SpansJoin(s, e, ts, m, [Sign(Close)], Lex(s, m).1);
    SpansJoin(s, p, [Sign(Open)], e, ts + [Sign(Close)], Lex(s, m).1);
    KeptJoin(ts, [Sign(Close)]);
    KeptJoin([Sign(Open)], ts + [Sign(Close)]);
  }

  lemma SpellsBinary(s: string, p: nat, xs: seq<Token>, l: Ast, m: nat, op: Kind, ys: seq<Token>, r: Ast, e: nat)
    requires p <= |s| && m <= |s| && op in {Plus, Minus, Times, Over} && Lex(s, m).0 == Sign(op)
    requires Spells(s, p, xs, l, m) && Spells(s, Lex(s, m).1, ys, r, e)
    ensures Spells(s, p, xs + ([Sign(op)] + ys), Binary(op, l, r), e)
  {
    var n := Lex(s, m).1;
    OneToken(s, m, Sign(op), n);
    SpansJoin(s, m, [Sign(op)], n, ys, e);
    SpansJoin(s, p, xs, m, [Sign(op)] + ys, e);
    KeptJoin([Sign(op)], ys);
    KeptJoin(xs, [Sign(op)] + ys);
  }

  /** Looking ahead at the end of a term or an expression loses a token, or there was none to lose. */
  lemma SpellsPeek(s: string, p: nat, ts: seq<Token>, t: Ast, e: nat) returns (ts': seq<Token>)
    requires p <= |s| && e <= |s| && Spells(s, p, ts, t, e)
    ensures Spells(s, p, ts', t, Peek(s, e).1)
    ensures NoneLost(ts') ==> ts' == ts && Peek(s, e).1 == e && Lex(s, e).0.kind != Invalid
  {
    ts' := ts;
    var (tok, q) := Lex(s, e);
    if tok.kind == Invalid {
      ts' := ts + [tok];
      OneToken(s, e, tok, q);
      SpansJoin(s, p, ts, e, [tok], q);
      KeptJoin(ts, [tok]);
      assert ts'[|ts|].kind == Invalid;
    }
  }

  /** A value that the evaluator returns is that of a tree, which the text it read spells. */
  lemma {:induction false} FactorTree<V>(a: Algebra<V>, s: string, p: nat) returns (t: Ast, ts: seq<Token>)
    requires p <= |s| && EvalFactor(a, s, p).0.Val?
    ensures IsFactor(t) && Value(a, t) == EvalFactor(a, s, p).0 && Spells(s, p, ts, t, EvalFactor(a, s, p).1)
    decreases |s| - p, 0
  {
    var (tok, e) := Lex(s, p);
    match tok.kind
    case Open =>
      var m := EvalExpr(a, s, e).1;
      var inner, xs := ExprTree(a, s, e);
      SignText(s, p);
      SignText(s, m);
      t, ts := Parens(inner), [Sign(Open)] + (xs + [Sign(Close)]);
      SpellsParens(s, p, xs, inner, m);
    case Minus =>
      var inner, xs := FactorTree(a, s, e);
      SignText(s, p);
      t, ts := Negate(inner), [Sign(Minus)] + xs;
      SpellsNegate(s, p, xs, inner, EvalFactor(a, s, e).1);
    case Ident =>
      t := Name(tok.text);
      ts := Tokens(t);
      SpellsOne(s, p, t);
    case Const =>
      t := Number(tok.text);
      ts := Tokens(t);
      SpellsOne(s, p, t);
  }

  lemma {:induction false} TermTree<V>(a: Algebra<V>, s: string, p: nat) returns (t: Ast, ts: seq<Token>)
    requires p <= |s| && EvalTerm(a, s, p).0.Val?
    ensures IsTerm(t) && Value(a, t) == EvalTerm(a, s, p).0 && Spells(s, p, ts, t, EvalTerm(a, s, p).1)
    ensures NoneLost(ts) ==> EndsTerm(s, EvalTerm(a, s, p).1)
    decreases |s| - p, 1
  {
    var left, xs := FactorTree(a, s, p);
    var m := EvalFactor(a, s, p).1;
    var (tok, n) := Lex(s, m);
    if tok.kind in {Times, Over} {
      SignText(s, m);
      var right, ys := TermTree(a, s, n);
      t, ts := Binary(tok.kind, left, right), xs + ([tok] + ys);
      SpellsBinary(s, p, xs, left, m, tok.kind, ys, right, EvalTerm(a, s, p).1);
      if NoneLost(ts) { NoneLostRight(xs, tok, ys); }
    } else {
      t := left;
      ts := SpellsPeek(s, p, xs, t, m);
    }
  }

  lemma NoneLostRight(xs: seq<Token>, tok: Token, ys: seq<Token>)
    requires NoneLost(xs + ([tok] + ys))
    ensures NoneLost(ys)
  {
    forall i | 0 <= i < |ys| ensures ys[i].kind != Invalid {
      assert (xs + ([tok] + ys))[|xs| + 1 + i] == ys[i];
    }
  }

  lemma {:induction false} ExprTree<V>(a: Algebra<V>, s: string, p: nat) returns (t: Ast, ts: seq<Token>)
    requires p <= |s| && EvalExpr(a, s, p).0.Val?
    ensures IsExpr(t) && Value(a, t) == EvalExpr(a, s, p).0 && Spells(s, p, ts, t, EvalExpr(a, s, p).1)
    ensures NoneLost(ts) ==> EndsExpr(s, EvalExpr(a, s, p).1) && Lex(s, EvalExpr(a, s, p).1).0.kind != Invalid
    decreases |s| - p, 2
  {
    var left, xs := TermTree(a, s, p);
    var m := EvalTerm(a, s, p).1;
    var (tok, n) := Lex(s, m);
    if tok.kind in {Plus, Minus} {
      SignText(s, m);
      SumStep(a, s, p, m, tok.kind, n);
      var right, ys := ExprTree(a, s, n);
      t, ts := Binary(tok.kind, left, right), xs + ([tok] + ys);
      SumSpelled(a, s, p, left, xs, right, ys);
    } else {
      t := left;
      ts := SpellsPeek(s, p, xs, t, m);
    }
  }

  lemma SumSpelled<V>(a: Algebra<V>, s: string, p: nat, left: Ast, xs: seq<Token>, right: Ast, ys: seq<Token>)
    requires p <= |s| && EvalExpr(a, s, p).0.Val? && Lex(s, EvalTerm(a, s, p).1).0.kind in {Plus, Minus}
    requires IsTerm(left) && Value(a, left) == EvalTerm(a, s, p).0 && Spells(s, p, xs, left, EvalTerm(a, s, p).1)
    requires var (tok, n) := Lex(s, EvalTerm(a, s, p).1);
             && tok == Sign(tok.kind) && EvalExpr(a, s, n).0 == Value(a, right)
             && EvalExpr(a, s, p) == (Value(a, Binary(tok.kind, left, right)), EvalExpr(a, s, n).1)
             && Spells(s, n, ys, right, EvalExpr(a, s, n).1)
    ensures var tok := Lex(s, EvalTerm(a, s, p).1).0;
            var ts := xs + ([tok] + ys);
            && Spells(s, p, ts, Binary(tok.kind, left, right), EvalExpr(a, s, p).1)
            && (NoneLost(ts) ==> NoneLost(ys))
  {
    var m := EvalTerm(a, s, p).1;
    var tok := Lex(s, m).0;
    SpellsBinary(s, p, xs, left, m, tok.kind, ys, right, EvalExpr(a, s, p).1);
    if NoneLost(xs + ([tok] + ys)) { NoneLostRight(xs, tok, ys); }
  }

  /** All tokens that begin between `p` and `e`. */
  function Between(s: string, p: nat, e: nat): (ts: seq<Token>)
    requires p <= |s| && e <= |s|
    decreases |s| - p
  {
    if p >= e || Lex(s, p).0.kind == Eof then [] else [Lex(s, p).0] + Between(s, Lex(s, p).1, e)
  }

  lemma {:induction false} SpansBetween(s: string, p: nat, ts: seq<Token>, e: nat)
    requires p <= |s| && e <= |s| && Spans(s, p, ts, e)
    ensures p <= e && Between(s, p, e) == ts
    decreases |ts|
  {
    if ts != [] { SpansBetween(s, Lex(s, p).1, ts[1..], e); }
  }

  lemma Levels(t: Ast)
    ensures IsFactor(t) ==> IsTerm(t)
    ensures IsTerm(t) ==> IsExpr(t)
  {
  }

  /** No token of a syntax tree is unmapped. */
  lemma {:induction false} TreeTokens(t: Ast)
    requires IsExpr(t)
    ensures NoneLost(Tokens(t))
    decreases t
  {
    assert !Sum(t) ==> IsTerm(t);
    assert !t.Binary? ==> IsFactor(t);
    match t
    case Number(_) =>
    case Name(_) =>
    case Parens(e) => TreeTokens(e);
    case Negate(f) =>
      Levels(f);
      TreeTokens(f);
    case Binary(_, l, r) =>
      Levels(l);
      Levels(r);
      TreeTokens(l);
      TreeTokens(r);
  }

  // ------------------------------------------------------------------- only one tree

  lemma {:induction false} UniqueFactor(s: string, p: nat, t: Ast, q: nat, t': Ast, q': nat)
    requires p <= |s| && q <= |s| && q' <= |s|
    requires IsFactor(t) && Spans(s, p, Tokens(t), q) && IsFactor(t') && Spans(s, p, Tokens(t'), q')
    ensures t == t' && q == q'
    decreases t, 0
  {
    match t
    case Number(x) => OneToken(s, p, Token(Const, x), q); OneToken(s, p, Token(Const, x), q');
    case Name(x) => OneToken(s, p, Token(Ident, x), q); OneToken(s, p, Token(Ident, x), q');
    case Parens(e) =>
      var m, n := ParensSplit(s, p, t, q);
      assert Lex(s, p).0 == Tokens(t')[0];
      var m', n' := ParensSplit(s, p, t', q');
      UniqueExpr(s, m, e, n, t'.inner, n');
    case Negate(f) =>
      assert Lex(s, p).0 == Tokens(t')[0];
      assert Tokens(t)[1..] == Tokens(f) && Tokens(t')[1..] == Tokens(t'.inner);
      UniqueFactor(s, Lex(s, p).1, f, q, t'.inner, q');
  }

  lemma {:induction false} UniqueTerm(s: string, p: nat, t: Ast, q: nat, t': Ast, q': nat)
    requires p <= |s| && q <= |s| && q' <= |s|
    requires IsTerm(t) && Spans(s, p, Tokens(t), q) && EndsTerm(s, q)
    requires IsTerm(t') && Spans(s, p, Tokens(t'), q') && EndsTerm(s, q')
    ensures t == t' && q == q'
    decreases t, 1
  {
    var m, n, m', n' := q, 0, q', 0;
    if t.Binary? { m, n := OperatorSplit(s, p, t, q); }
    if t'.Binary? { m', n' := OperatorSplit(s, p, t', q'); }
    UniqueFactor(s, p, if t.Binary? then t.left else t, m, if t'.Binary? then t'.left else t', m');
    if t.Binary? && t'.Binary? { UniqueTerm(s, n, t.right, q, t'.right, q'); }
  }

  predicate Sum(t: Ast) { t.Binary? && (t.op == Plus || t.op == Minus) }

  lemma {:induction false} UniqueExpr(s: string, p: nat, t: Ast, q: nat, t': Ast, q': nat)
    requires p <= |s| && q <= |s| && q' <= |s|
    requires IsExpr(t) && Spans(s, p, Tokens(t), q) && EndsExpr(s, q)
    requires IsExpr(t') && Spans(s, p, Tokens(t'), q') && EndsExpr(s, q')
    ensures t == t' && q == q'
    decreases t, 2
  {
    var m, n, m', n' := q, 0, q', 0;
    if Sum(t) { m, n := OperatorSplit(s, p, t, q); }
    if Sum(t') { m', n' := OperatorSplit(s, p, t', q'); }
    UniqueTerm(s, p, if Sum(t) then t.left else t, m, if Sum(t') then t'.left else t', m');
    if Sum(t) && Sum(t') { UniqueExpr(s, n, t.right, q, t'.right, q'); }
  }

  // ------------------------------------------------------------------- main theorems

  /** The string begins with the expression `t`, whose last token ends at `q`. */
  ghost predicate BeginsWith(s: string, t: Ast, q: nat) {
    q <= |s| && IsExpr(t) && Spans(s, 0, Tokens(t), q) && EndsExpr(s, q)
  }

  /** Evaluation succeeds, and loses no unmapped character on the way, if and only if the
      string begins with an expression that has a value and no unmapped character behind it. */
  lemma EvaluationSucceedsIff<V>(a: Algebra<V>, s: string)
    ensures EvalExpr(a, s, 0).0.Val? && NoneLost(Between(s, 0, EvalExpr(a, s, 0).1))
            <==> exists t, q :: BeginsWith(s, t, q) && Value(a, t).Val? && Lex(s, q).0.kind != Invalid
  {
    if EvalExpr(a, s, 0).0.Val? && NoneLost(Between(s, 0, EvalExpr(a, s, 0).1)) {
      var t, ts := ExprTree(a, s, 0);
      SpansBetween(s, 0, ts, EvalExpr(a, s, 0).1);
      assert BeginsWith(s, t, EvalExpr(a, s, 0).1);
    }
    forall t, q | BeginsWith(s, t, q) && Value(a, t).Val? && Lex(s, q).0.kind != Invalid
      ensures EvalExpr(a, s, 0).0.Val? && NoneLost(Between(s, 0, EvalExpr(a, s, 0).1))
    {
      ExprValue(a, s, 0, t, q);
      SpansBetween(s, 0, Tokens(t), q);
      TreeTokens(t);
    }
  }

  /** If the string begins with an expression there is no other it begins with.  Without an
      unmapped character behind it the evaluator returns its value or its error.  A value is
      returned, and the end of the expression found, if and only if there is none. */
  lemma EvaluatesTheParse<V>(a: Algebra<V>, s: string, t: Ast, q: nat)
    requires BeginsWith(s, t, q)
    ensures Lex(s, q).0.kind != Invalid ==> EvalExpr(a, s, 0).0 == Value(a, t)
    ensures Value(a, t).Val? ==> (EvalExpr(a, s, 0) == (Value(a, t), q) <==> Lex(s, q).0.kind != Invalid)
    ensures forall t', q' :: BeginsWith(s, t', q') ==> t' == t && q' == q
  {
    ExprValue(a, s, 0, t, q);
    forall t', q' | BeginsWith(s, t', q') ensures t' == t && q' == q {
      UniqueExpr(s, 0, t, q, t', q');
    }
  }

  /** Whatever the string, a value that is returned is that of a tree spelled by the text up to
      the end reported, with the unmapped characters left out.  The string begins with that
      expression if and only if no character was lost. */
  lemma ValueIsSpelled<V>(a: Algebra<V>, s: string) returns (t: Ast)
    requires EvalExpr(a, s, 0).0.Val?
    ensures var (r, e) := EvalExpr(a, s, 0);
            && IsExpr(t) && Value(a, t) == r && Kept(Between(s, 0, e)) == Tokens(t)
            && (NoneLost(Between(s, 0, e)) ==> BeginsWith(s, t, e))
            && ((exists t' :: BeginsWith(s, t', e)) ==> NoneLost(Between(s, 0, e)))
  {
    var e := EvalExpr(a, s, 0).1;
    var ts;
    t, ts := ExprTree(a, s, 0);
    SpansBetween(s, 0, ts, e);
    forall t' | BeginsWith(s, t', e) ensures NoneLost(Between(s, 0, e)) {
      SpansBetween(s, 0, Tokens(t'), e);
      TreeTokens(t');
    }
  }

  /** Unmapped characters are not reported: the look-ahead loses one where it might have found
      an operator, so that the operator behind it is used. */
  lemma UnmappedIsLost<V>(a: Algebra<V>, s: string, p: nat, q: nat, r: nat, x: string, y: string)
    requires p <= q <= r <= |s| && a.constant(x).Val? && a.constant(y).Val?
    requires Lex(s, 0) == (Token(Const, x), p) && Lex(s, p).0.kind == Invalid && Lex(s, p).1 == q
    requires Lex(s, q).0.kind == Plus && Lex(s, q).1 == r && Lex(s, r) == (Token(Const, y), |s|)
    ensures EvalExpr(a, s, 0).0 == a.add(a.constant(x).v, a.constant(y).v)
  {
    assert EvalTerm(a, s, 0) == (a.constant(x), q);
    assert Lex(s, |s|).0.kind == Eof;
    assert EvalTerm(a, s, r) == (a.constant(y), |s|);
    assert EvalExpr(a, s, r) == (a.constant(y), |s|);
  }

  /** "1#+2" evaluates as "1+2" does, although no expression is spelled like that. */
  lemma UnmappedExample<V>(a: Algebra<V>)
    requires a.constant("1").Val? && a.constant("2").Val?
    ensures EvalExpr(a, "1#+2", 0).0 == a.add(a.constant("1").v, a.constant("2").v)
  {
    var s := "1#+2";
    LexOne(s, 0);
    LexOne(s, 1);
    LexOne(s, 2);
    LexOne(s, 3);
    UnmappedIsLost(a, s, 1, 2, 3, "1", "2");
  }

  /** "(1#)" evaluates as "1" does, although the string begins with no expression. */
  lemma UnmappedParens<V>(a: Algebra<V>)
    requires a.constant("1").Val?
    ensures EvalExpr(a, "(1#)", 0) == (a.constant("1"), 4)
    ensures forall t, q :: !BeginsWith("(1#)", t, q)
  {
    var s := "(1#)";
    LexOne(s, 0);
    LexOne(s, 1);
    LexOne(s, 2);
    LexOne(s, 3);
    LostInParens(a, s);
    forall t, q ensures !BeginsWith(s, t, q) {
      LostIsNoExpr(s, t, q);
    }
  }

  /** The tokens of "(1#)". */
  predicate OneLost(s: string) {
    && |s| == 4 && Lex(s, 0) == (Sign(Open), 1) && Lex(s, 1) == (Token(Const, "1"), 2)
    && Lex(s, 2).0.kind == Invalid && Lex(s, 2).1 == 3 && Lex(s, 3) == (Sign(Close), 4)
  }

  lemma LostInParens<V>(a: Algebra<V>, s: string)
    requires OneLost(s) && a.constant("1").Val?
    ensures EvalExpr(a, s, 0) == (a.constant("1"), 4)
  {
    assert EvalTerm(a, s, 1) == (a.constant("1"), 3);
    assert EvalExpr(a, s, 1) == (a.constant("1"), 3);
    assert EvalFactor(a, s, 0) == (a.constant("1"), 4);
    assert Lex(s, 4).0.kind == Eof;
  }

  lemma LostIsNoExpr(s: string, t: Ast, q: nat)
    requires OneLost(s)
    ensures !BeginsWith(s, t, q)
  {
    if BeginsWith(s, t, q) {
      var f, m := FirstFactor(s, 0, t, q);
      assert Lex(s, 0).0 == Tokens(f)[0];
      var i, n := ParensSplit(s, 0, f, m);
      OneToken(s, 1, Token(Const, "1"), 2);
      UniqueExpr(s, 1, f.inner, n, Number("1"), 2);
    }
  }

  /** An expression begins with a factor. */
  lemma FirstFactor(s: string, p: nat, t: Ast, q: nat) returns (f: Ast, m: nat)
    requires p <= |s| && q <= |s| && IsExpr(t) && Spans(s, p, Tokens(t), q)
    ensures m <= |s| && IsFactor(f) && Spans(s, p, Tokens(f), m)
  {
    f, m := t, q;
    var n;
    if Sum(f) {
      m, n := OperatorSplit(s, p, f, m);
      f := f.left;
    }
    if f.Binary? {
      m, n := OperatorSplit(s, p, f, m);
      f := f.left;
    }
  }

  /** A token of one character. */
  lemma LexOne(s: string, p: nat)
    requires p < |s| && KindOf(s[p]) != White && KindOf(s[p]) != Ident
    requires KindOf(s[p]) == Const && p + 1 < |s| ==> !Continues(s[p + 1], '\0', false)
    ensures Lex(s, p) == (Token(KindOf(s[p]), [s[p]]), p + 1)
  {
    assert s[p..p + 1] == [s[p]];
  }
}
