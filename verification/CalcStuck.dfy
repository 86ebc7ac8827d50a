/** When the calculator meets the division the machine does not do. */
module CalcStuck {
  import opened Bits
  import opened Calc

  lemma HalfAtMost(m: int, n: int)
    requires 0 <= m && 2 <= n
    ensures 0 <= m / n && 2 * (m / n) <= m
  {
    var q := m / n;
    assert m == n * q + m % n;
    MulMono(q, 2, n);
    assert q * n == n * q;
  }

  /** The quotient of the least number and -1 is the one quotient out of range. */
  lemma StuckIff(a: Long, b: Long)
    requires b != 0
    ensures Stuck(a, b) <==> !(-LONG_LIMIT <= TruncDiv(a, b) < LONG_LIMIT)
  {
    if Mag(b) >= 2 {
      HalfAtMost(Mag(a), Mag(b));
    } else {
      assert Mag(a) / 1 == Mag(a);
    }
  }

  /** Some quotient in the expression is that of the least number and -1. */
  predicate Divides(e: Tree) {
    e.Bin? && (Divides(e.l) || Divides(e.r) || (e.op.Over? && Stuck(e.l.Value(), e.r.Value())))
  }

  lemma FactNumFine(pre: nat, n: nat, rest: string)
    ensures !FactStuck((Spaces(pre) + Digits(n)) + rest)
  {
    hide ExprStuck;
    Assoc(Spaces(pre), Digits(n), rest);
    StripSpaces(pre, Digits(n) + rest);
    DigitsAll(n);
    assert Digit((Digits(n) + rest)[0]);
  }

  lemma FactParenStuck(open: nat, body: string, close: nat, rest: string)
    ensures FactStuck((Spaces(open) + (['('] + (body + (Spaces(close) + [')'])))) + rest)
         == ExprStuck(body + (Spaces(close) + ([')'] + rest)))
  {
    hide ExprStuck;
    var inner := body + (Spaces(close) + ([')'] + rest));
    Assoc(Spaces(open), ['('] + (body + (Spaces(close) + [')'])), rest);
    Assoc(['('], body + (Spaces(close) + [')']), rest);
    Assoc(body, Spaces(close) + [')'], rest);
    Assoc(Spaces(close), [')'], rest);
    StripSpaces(open, ['('] + inner);
    assert (['('] + inner)[1..] == inner;
  }

  lemma TermOpStuck(v: Long, op: Op, gap: nat, right: string)
    requires op.IsTerm()
    ensures TermRestStuck(v, Spaces(gap) + ([op.Char()] + right))
         == (|| FactStuck(right) || (op.Over? && Stuck(v, Fact(right).0))
             || TermRestStuck(op.Do(v, Fact(right).0), Fact(right).1))
  {
    hide Fact, FactStuck, Wrap;
    StripSpaces(gap, [op.Char()] + right);
    assert ([op.Char()] + right)[1..] == right;
  }

  lemma ExprOpStuck(v: Long, op: Op, right: string)
    requires !op.IsTerm()
    ensures ExprRestStuck(v, [op.Char()] + right)
         == (TermStuck(right) || ExprRestStuck(op.Do(v, Term(right).0), Term(right).1))
  {
    hide Term, TermStuck, Wrap;
    assert ([op.Char()] + right)[1..] == right;
  }

  lemma TermEndsFine(v: Long, rest: string)
    requires NoTimes(rest)
    ensures !TermRestStuck(v, rest)
  {
  }

  lemma {:induction false} FactStuckIff(e: Tree, rest: string)
    requires Stops(rest)
    ensures FactStuck(Print(e, 2) + rest) == Divides(e)
    decreases e, (e.Level() + 1) % 3
  {
    hide Expr, ExprStuck, FactStuck, Wrap;
    if e.Num? {
      FactNumFine(e.pre, e.n, rest);
    } else {
      var after := Spaces(e.close) + ([')'] + rest);
      SpacesStop(e.close, [')'] + rest);
      StripSpaces(e.close, [')'] + rest);
      ExprStuckIff(e, after);
      FactParenStuck(e.open, Body(e), e.close, rest);
    }
  }

  lemma {:induction false} TermStuckIff(e: Tree, rest: string)
    requires Stops(rest)
    ensures TermStuck(Print(e, 1) + rest) == (Divides(e) || TermRestStuck(e.Value(), rest))
    decreases e, (e.Level() + 2) % 3
  {
    hide Expr, Fact, FactStuck, Wrap, TermRest, TermRestStuck, Body;
    if e.Num? || !e.op.IsTerm() {
      FactStuckIff(e, rest);
      ReadFact(e, rest);
    } else {
      ReadBody(e, rest);
      var right := Print(e.r, 2) + rest;
      SpacesStop(e.gap, [e.op.Char()] + right);
      TermStuckIff(e.l, Spaces(e.gap) + ([e.op.Char()] + right));
      FactStuckIff(e.r, rest);
      ReadFact(e.r, rest);
      TermOpStuck(e.l.Value(), e.op, e.gap, right);
    }
  }

  lemma {:induction false} ExprStuckIff(e: Tree, rest: string)
    requires Stops(rest) && NoTimes(rest)
    ensures ExprStuck(Print(e, 0) + rest) == (Divides(e) || ExprRestStuck(e.Value(), Strip(rest)))
    decreases e, e.Level()
  {
    hide Fact, FactStuck, Term, TermStuck, Wrap, ExprRest, ExprRestStuck, TermRest, TermRestStuck, Body;
    if e.Num? || e.op.IsTerm() {
      TermStuckIff(e, rest);
      ReadTerm(e, rest);
      assert Print(e, 0) == Print(e, 1);
      TermEnds(e.Value(), rest);
      TermEndsFine(e.Value(), rest);
    } else {
      ReadBody(e, rest);
      var right := Print(e.r, 1) + rest;
      var mid := [e.op.Char()] + right;
      SpacesStop(e.gap, mid);
      StripSpaces(e.gap, mid);
      ExprStuckIff(e.l, Spaces(e.gap) + mid);
      TermStuckIff(e.r, rest);
      ReadTerm(e.r, rest);
      TermEnds(e.r.Value(), rest);
      TermEndsFine(e.r.Value(), rest);
      ExprOpStuck(e.l.Value(), e.op, right);
    }
  }

  /** Evaluating a printed expression meets such a division exactly when there is one in it. */
  lemma EvalStuckIff(e: Tree, trailing: nat)
    ensures ExprStuck(Print(e, 0) + Spaces(trailing)) <==> Divides(e)
  {
    hide ExprStuck;
    var rest := Spaces(trailing);
    Unit(rest);
    SpacesStop(trailing, []);
    StripSpaces(trailing, []);
    ExprStuckIff(e, rest);
  }

  function Sub(l: Tree, r: Tree): Tree { Bin(Minus, l, r, 0, 0, 0) }

  /** 0 less the greatest number, less 1, over 0 less 1. */
  const SHORT := Bin(Over, Sub(Sub(Num(0, 0), Num(0, LONG_LIMIT - 1)), Num(0, 1)), Sub(Num(0, 0), Num(0, 1)), 0, 0, 0)

  lemma NumValue(n: nat)
    requires n < LONG_LIMIT
    ensures Num(0, n).Value() == n
  {
    WrapSmall(n);
  }

  lemma SubValue(l: Tree, r: Tree)
    requires -LONG_LIMIT <= l.Value() - r.Value() < LONG_LIMIT
    ensures Sub(l, r).Value() == l.Value() - r.Value()
  {
    WrapSmall(l.Value() - r.Value());
  }

  lemma ShortDivides()
    ensures Divides(SHORT)
  {
    hide Wrap;
    NumValue(0);
    NumValue(1);
    NumValue(LONG_LIMIT - 1);
    SubValue(Num(0, 0), Num(0, LONG_LIMIT - 1));
    SubValue(Sub(Num(0, 0), Num(0, LONG_LIMIT - 1)), Num(0, 1));
    SubValue(Num(0, 0), Num(0, 1));
  }

  lemma NumSize(n: nat, place: nat)
    ensures |Print(Num(0, n), place)| == |Digits(n)|
  {
  }

  lemma SubSize(l: Tree, r: Tree)
    ensures |Body(Sub(l, r))| == |Print(l, 0)| + 1 + |Print(r, 1)|
    ensures |Print(Sub(l, r), 0)| == |Body(Sub(l, r))|
    ensures |Print(Sub(l, r), 1)| == |Print(Sub(l, r), 2)| == |Body(Sub(l, r))| + 2
  {
  }

  lemma ShortFits()
    ensures |Print(SHORT, 0)| < EXPR_CAP
  {
    LongDigits(LONG_LIMIT - 1);
    assert |Digits(0)| == 1 && |Digits(1)| == 1;
    NumSize(0, 0);
    NumSize(1, 1);
    NumSize(LONG_LIMIT - 1, 1);
    SubSize(Num(0, 0), Num(0, LONG_LIMIT - 1));
    SubSize(Sub(Num(0, 0), Num(0, LONG_LIMIT - 1)), Num(0, 1));
    SubSize(Num(0, 0), Num(0, 1));
    assert |Body(SHORT)| == |Print(SHORT.l, 1)| + 1 + |Print(SHORT.r, 2)|;
  }

  /** An expression that fits the text and stops the program when "=" is pressed. */
  lemma ShortStuck()
    ensures |Print(SHORT, 0)| < EXPR_CAP && ExprStuck(Print(SHORT, 0))
  {
    hide ExprStuck, Print;
    ShortFits();
    ShortDivides();
    EvalStuckIff(SHORT, 0);
    Unit(Print(SHORT, 0));
  }
}
