/**
 The tokens of the evaluator, by their spelling.  Where a literal ends depends on the
 character behind it, and for a sign also on the character before it.
 */
module Lexer {
  import opened Evaluator
  import opened Grammar

  predicate Digit(c: char) { '0' <= c <= '9' }

  predicate HexDigit(c: char) { Digit(c) || 'a' <= c <= 'f' || 'A' <= c <= 'F' }

  predicate Letter(c: char) { 'a' <= c <= 'z' || 'A' <= c <= 'Z' || c == '_' || c == '$' }

  predicate ExponentMark(c: char) { c == 'e' || c == 'E' }

  predicate HexMark(c: char) { c == 'x' || c == 'X' }

  predicate SignMark(c: char) { c == '+' || c == '-' }

  predicate Blank(c: char) { c == ' ' || c == '\t' }

  // --------------------------------------------------------------- one character each

  /** Blanks before a token do not matter, and at the end of the text there is none. */
  lemma BlanksAreSkipped(s: string, p: nat)
    requires p < |s| && Blank(s[p])
    ensures Lex(s, p) == Lex(s, p + 1)
    ensures Lex(s, |s|) == (Token(Eof, ""), |s|)
  {
  }

  /** An operator or a parenthesis is a token of its own, and so is a character without meaning. */
  lemma SingleToken(s: string, p: nat)
    requires p < |s| && !Blank(s[p]) && !Letter(s[p]) && !Digit(s[p]) && s[p] != '.'
    ensures Lex(s, p).0.text == [s[p]] && Lex(s, p).1 == p + 1
    ensures Lex(s, p).0.kind ==
            match s[p]
            case '+' => Plus
            case '-' => Minus
            case '*' => Times
            case '/' => Over
            case '(' => Open
            case ')' => Close
            case _ => Invalid
  {
  }

  // ---------------------------------------------------------------------- identifiers

  predicate InIdentifier(c: char) { Letter(c) || Digit(c) || c == '.' }

  lemma {:induction false} IdentRun(s: string, p: nat, e: nat)
    requires p <= e <= |s| && forall i :: p <= i < e ==> InIdentifier(s[i])
    ensures IdentEnd(s, p) == IdentEnd(s, e)
    decreases e - p
  {
    if p < e { IdentRun(s, p + 1, e); }
  }

  /** A letter, then letters, digits and dots, as many as there are. */
  lemma IdentifierToken(s: string, p: nat, e: nat)
    requires p < e <= |s| && Letter(s[p]) && forall i :: p < i < e ==> InIdentifier(s[i])
    ensures Lex(s, p) == (Token(Ident, s[p..e]), e) <==> e == |s| || !InIdentifier(s[e])
  {
    IdentRun(s, p + 1, e);
  }

  // ------------------------------------------------------------------------- literals

  /** The character before `i`, in lower case, as far as the literal that began at `p` remembers it. */
  function LastChar(s: string, p: nat, i: nat): char
    requires p < i <= |s|
  {
    if i == p + 1 then '\0' else Lower(s[i - 1])
  }

  /** Whether the character at `k` continues the literal that began at `p`. */
  predicate Takes(s: string, p: nat, k: nat, hex: bool)
    requires p < k < |s|
  {
    || Digit(s[k]) || s[k] == '.' || ExponentMark(s[k]) || HexMark(s[k])
    || (hex && HexDigit(s[k]))
    || (SignMark(s[k]) && k > p + 1 && ExponentMark(s[k - 1]))
  }

  lemma TakesMeans(s: string, p: nat, k: nat, hex: bool)
    requires p < k < |s|
    ensures Takes(s, p, k, hex) <==> Continues(s[k], LastChar(s, p, k), hex)
    ensures HexMark(s[k]) <==> Lower(s[k]) == 'x'
  {
  }

  lemma {:induction false} ConstRun(s: string, p: nat, i: nat, e: nat, hex: bool)
    requires p < i <= e <= |s| && forall k :: i <= k < e ==> !HexMark(s[k]) && Takes(s, p, k, hex)
    ensures ConstEnd(s, i, LastChar(s, p, i), hex) == ConstEnd(s, e, LastChar(s, p, e), hex)
    decreases e - i
  {
    if i < e {
      TakesMeans(s, p, i, hex);
      ConstRun(s, p, i + 1, e, hex);
    }
  }

  /** A literal stops at `e` exactly if the character there does not continue it. */
  lemma ConstStops(s: string, p: nat, e: nat, hex: bool)
    requires p < e <= |s|
    ensures ConstEnd(s, e, LastChar(s, p, e), hex) == e <==> e == |s| || !Takes(s, p, e, hex)
  {
    if e < |s| { TakesMeans(s, p, e, hex); }
  }

  lemma ConstToken(s: string, p: nat, e: nat)
    requires p < e <= |s| && (Digit(s[p]) || s[p] == '.')
    requires forall k :: p < k < e ==> !HexMark(s[k]) && Takes(s, p, k, false)
    ensures Lex(s, p) == (Token(Const, s[p..e]), e) <==> e == |s| || !Takes(s, p, e, false)
  {
    ConstRun(s, p, p + 1, e, false);
    ConstStops(s, p, e, false);
  }

  /** Digits and dots are a literal, up to a character that is none of these and no `e` or `x`. */
  lemma DecimalToken(s: string, p: nat, e: nat)
    requires p < e <= |s| && forall i :: p <= i < e ==> Digit(s[i]) || s[i] == '.'
    ensures Lex(s, p) == (Token(Const, s[p..e]), e)
            <==> e == |s| || !(Digit(s[e]) || s[e] == '.' || ExponentMark(s[e]) || HexMark(s[e]))
  {
    ConstToken(s, p, e);
  }

  /** With an exponent behind, whose sign belongs to the literal. */
  lemma ScientificToken(s: string, p: nat, m: nat, e: nat)
    requires p < m && m + 2 < e <= |s| && ExponentMark(s[m]) && SignMark(s[m + 1])
    requires forall i :: p <= i < e && i != m && i != m + 1 ==> Digit(s[i]) || s[i] == '.'
    ensures Lex(s, p) == (Token(Const, s[p..e]), e)
            <==> e == |s| || !(Digit(s[e]) || s[e] == '.' || ExponentMark(s[e]) || HexMark(s[e]))
  {
    ConstToken(s, p, e);
  }

  /** `0x` and hexadecimal digits.  A sign behind the last digit is a token of its own unless that
      digit is an `e`: it is then taken for the sign of an exponent. */
  lemma HexToken(s: string, p: nat, e: nat)
    requires p + 2 < e <= |s| && s[p] == '0' && HexMark(s[p + 1]) && forall i :: p + 2 <= i < e ==> HexDigit(s[i])
    ensures Lex(s, p) == (Token(Const, s[p..e]), e)
            <==> || e == |s|
                 || !(HexDigit(s[e]) || s[e] == '.' || HexMark(s[e]) || (SignMark(s[e]) && ExponentMark(s[e - 1])))
  {
    HexBegins(s, p);
    ConstRun(s, p, p + 2, e, true);
    ConstStops(s, p, e, true);
  }

  lemma HexBegins(s: string, p: nat)
    requires p + 1 < |s| && s[p] == '0' && HexMark(s[p + 1])
    ensures Lex(s, p).0.kind == Const && Lex(s, p).0.text == s[p..Lex(s, p).1]
    ensures Lex(s, p).1 == ConstEnd(s, p + 2, LastChar(s, p, p + 2), true)
  {
    TakesMeans(s, p, p + 1, false);
  }

  /** So "0x1e-1" is one literal, not a difference, and all the like. */
  lemma HexSwallowsSign(s: string, p: nat, m: nat)
    requires p + 2 < m && m + 1 < |s| && s[p] == '0' && HexMark(s[p + 1]) && SignMark(s[m]) && ExponentMark(s[m - 1])
    requires forall i :: p + 2 <= i < |s| && i != m ==> HexDigit(s[i])
    ensures Lex(s, p) == (Token(Const, s[p..]), |s|)
  {
    HexBegins(s, p);
    ConstRun(s, p, p + 2, |s|, true);
    ConstStops(s, p, |s|, true);
    assert s[p..|s|] == s[p..];
  }

  // --------------------------------------------------------------------------- errors

  /** Where no factor begins, the term is missing. */
  lemma MissingTerm<V>(a: Algebra<V>, s: string, p: nat)
    requires p <= |s| && Lex(s, p).0.kind !in {Open, Minus, Ident, Const}
    ensures EvalExpr(a, s, p).0 == EvalTerm(a, s, p).0 == EvalFactor(a, s, p).0 == Err(NoTerm)
  {
  }

  /** An expression in parentheses with a value, behind which another token than the closing one stands. */
  lemma UnclosedParenthesis<V>(a: Algebra<V>, s: string, p: nat, t: Ast, q: nat)
    requires p <= |s| && q <= |s| && Lex(s, p).0.kind == Open && IsExpr(t) && Value(a, t).Val?
    requires Spans(s, Lex(s, p).1, Tokens(t), q) && EndsExpr(s, q) && Lex(s, q).0.kind !in {Close, Invalid}
    ensures EvalExpr(a, s, p).0 == EvalTerm(a, s, p).0 == EvalFactor(a, s, p).0 == Err(UnmatchedParen)
  {
    ExprValue(a, s, Lex(s, p).1, t, q);
  }
}
