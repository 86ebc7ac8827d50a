/** The calculator: a recursive-descent evaluator over 64-bit integers, the printer it inverts, decimal
    output, and the key handler. */
module Calc {
  import opened Bits

  const LONG_LIMIT := 0x8000_0000_0000_0000
  const EXPR_CAP := 64

  type Long = n: int | -LONG_LIMIT <= n < LONG_LIMIT

  /** Two's complement wrap-around. */
  function Wrap(n: int): Long { (n + LONG_LIMIT) % (2 * LONG_LIMIT) - LONG_LIMIT }

  lemma WrapSmall(n: int)
    requires -LONG_LIMIT <= n < LONG_LIMIT
    ensures Wrap(n) == n
  {
  }

  /** Wrapping on the way does not matter for sums and products. */
  lemma WrapTen(v: int, d: int)
    ensures Wrap(10 * Wrap(v) + d) == Wrap(10 * v + d)
  {
    var m := 2 * LONG_LIMIT;
    var q := (v + LONG_LIMIT) / m;
    assert Wrap(v) == v - m * q;
    var x := 10 * v + d + LONG_LIMIT;
    ModShift(x, 10 * q, m);
  }

  lemma ModShift(x: int, k: int, m: int)
    requires m > 0
    ensures (x - m * k) % m == x % m
  {
    var a, b := x / m, (x - m * k) / m;
    assert x == m * a + x % m && x - m * k == m * b + (x - m * k) % m;
    var e := a - k - b;
    assert m * e == m * a - m * k - m * b;
    if e >= 1 {
      MulMono(m, 1, e);
    } else if e <= -1 {
      MulMono(m, 1, -e);
    }
  }

  function TruncDiv(a: int, b: int): int
    requires b != 0
  {
    var q := Mag(a) / Mag(b);
    if (a < 0) == (b < 0) then q else -q
  }

  function Mag(a: int): nat { if a < 0 then -a else a }

  datatype Op = Plus | Minus | Times | Over {
    function Char(): char {
      match this case Plus => '+' case Minus => '-' case Times => '*' case Over => '/'
    }

    /** Division by zero leaves the left operand. */
    function Do(a: Long, b: Long): Long {
      match this
      case Plus => Wrap(a + b)
      case Minus => Wrap(a - b)
      case Times => Wrap(a * b)
      case Over => if b == 0 then a else Wrap(TruncDiv(a, b))
    }

    predicate IsTerm() { Times? || Over? }
  }

  // ----- the evaluator, on the text still ahead of the cursor -----

  predicate Digit(c: char) { '0' <= c <= '9' }

  function Strip(s: string): (r: string)
    ensures |r| <= |s| && (r == [] || r[0] != ' ')
  {
    if s != [] && s[0] == ' ' then Strip(s[1..]) else s
  }

  function Number(s: string, v: Long): (r: (Long, string))
    ensures |r.1| <= |s|
    decreases |s|
  {
    if s != [] && Digit(s[0]) then Number(s[1..], Wrap(10 * v + (s[0] as int - '0' as int))) else (v, s)
  }

  function Fact(s0: string): (r: (Long, string))
    ensures |r.1| <= |s0|
    decreases |s0|, 0
  {
    var s := Strip(s0);
    if s != [] && s[0] == '(' then
      var r := Expr(s[1..]);
      (r.0, if r.1 != [] && r.1[0] == ')' then r.1[1..] else r.1)
    else Number(s, 0)
  }

  function TermRest(v: Long, s0: string): (r: (Long, string))
    ensures |r.1| <= |s0|
    decreases |s0|, 1
  {
    var s := Strip(s0);
    if s != [] && s[0] == '*' then
      var f := Fact(s[1..]);
      TermRest(Times.Do(v, f.0), f.1)
    else if s != [] && s[0] == '/' then
      var f := Fact(s[1..]);
      TermRest(Over.Do(v, f.0), f.1)
    else (v, s)
  }

  function Term(s: string): (r: (Long, string))
    ensures |r.1| <= |s|
    decreases |s|, 2
  {
    var f := Fact(s);
    TermRest(f.0, f.1)
  }

  function ExprRest(v: Long, s0: string): (r: (Long, string))
    ensures |r.1| <= |s0|
    decreases |s0|, 3
  {
    var s := Strip(s0);
    if s != [] && s[0] == '+' then
      var t := Term(s[1..]);
      ExprRest(Plus.Do(v, t.0), t.1)
    else if s != [] && s[0] == '-' then
      var t := Term(s[1..]);
      ExprRest(Minus.Do(v, t.0), t.1)
    else (v, s)
  }

  function Expr(s: string): (r: (Long, string))
    ensures |r.1| <= |s|
    decreases |s|, 4
  {
    var t := Term(s);
    ExprRest(t.0, t.1)
  }

  // ----- divisions the machine does not do -----

  /** The quotient is out of range: the machine stops the program instead of wrapping around. */
  predicate Stuck(a: Long, b: Long) { a == -LONG_LIMIT && b == -1 }

  predicate FactStuck(s0: string)
    decreases |s0|, 0
  {
    var s := Strip(s0);
    s != [] && s[0] == '(' && ExprStuck(s[1..])
  }

  predicate TermRestStuck(v: Long, s0: string)
    decreases |s0|, 1
  {
    var s := Strip(s0);
    if s != [] && s[0] == '*' then
      var f := Fact(s[1..]);
      FactStuck(s[1..]) || TermRestStuck(Times.Do(v, f.0), f.1)
    else if s != [] && s[0] == '/' then
      var f := Fact(s[1..]);
      FactStuck(s[1..]) || Stuck(v, f.0) || TermRestStuck(Over.Do(v, f.0), f.1)
    else false
  }

  predicate TermStuck(s: string)
    decreases |s|, 2
  {
    FactStuck(s) || TermRestStuck(Fact(s).0, Fact(s).1)
  }

  predicate ExprRestStuck(v: Long, s0: string)
    decreases |s0|, 3
  {
    var s := Strip(s0);
    if s != [] && s[0] == '+' then
      var t := Term(s[1..]);
      TermStuck(s[1..]) || ExprRestStuck(Plus.Do(v, t.0), t.1)
    else if s != [] && s[0] == '-' then
      var t := Term(s[1..]);
      TermStuck(s[1..]) || ExprRestStuck(Minus.Do(v, t.0), t.1)
    else false
  }

  /** Evaluation meets such a division. */
  predicate ExprStuck(s: string)
    decreases |s|, 4
  {
    TermStuck(s) || ExprRestStuck(Term(s).0, Term(s).1)
  }

  /** The evaluator with its cursor; `stuck` tells whether it meets a division the machine does not do. */
  method SkipSpaces(s: string, p0: nat) returns (p: nat)
    requires p0 <= |s|
    ensures p0 <= p <= |s| && s[p..] == Strip(s[p0..])
  {
    p := p0;
    while p < |s| && s[p] == ' '
      invariant p0 <= p <= |s| && Strip(s[p..]) == Strip(s[p0..])
    {
      assert s[p..][1..] == s[p + 1..];
      p := p + 1;
    }
  }

  method EvalFact(s: string, p0: nat) returns (v: Long, p: nat, stuck: bool)
    requires p0 <= |s|
    ensures p0 <= p <= |s| && (v, s[p..]) == Fact(s[p0..]) && stuck == FactStuck(s[p0..])
    decreases |s| - p0, 0
  {
    hide Expr, ExprStuck, Strip, Wrap;
    p := SkipSpaces(s, p0);
    stuck := false;
    if p < |s| && s[p] == '(' {
      assert s[p..][1..] == s[p + 1..];
      p := p + 1;
      v, p, stuck := EvalExpr(s, p);
      if p < |s| && s[p] == ')' {
        assert s[p..][1..] == s[p + 1..];
        p := p + 1;
      }
      return;
    }
    v := 0;
    ghost var all := Number(s[p..], 0);
    while p < |s| && '0' <= s[p] <= '9'
      invariant p0 <= p <= |s| && all == Number(s[p..], v)
    {
      assert s[p..][1..] == s[p + 1..];
      v := Wrap(10 * v + (s[p] as int - '0' as int));
      p := p + 1;
    }
  }

  method EvalTerm(s: string, p0: nat) returns (v: Long, p: nat, stuck: bool)
    requires p0 <= |s|
    ensures p0 <= p <= |s| && (v, s[p..]) == Term(s[p0..]) && stuck == TermStuck(s[p0..])
    decreases |s| - p0, 2
  {
    hide Fact, FactStuck, Strip, Wrap, TruncDiv;
    v, p, stuck := EvalFact(s, p0);
    while true
      invariant p0 <= p <= |s| && Term(s[p0..]) == TermRest(v, s[p..])
      invariant TermStuck(s[p0..]) == (stuck || TermRestStuck(v, s[p..]))
      decreases |s| - p
    {
      p := SkipSpaces(s, p);
      var f: Long;
      var inner: bool;
      if p < |s| && s[p] == '*' {
        assert s[p..][1..] == s[p + 1..];
        f, p, inner := EvalFact(s, p + 1);
        stuck := stuck || inner;
        v := Wrap(v * f);
      } else if p < |s| && s[p] == '/' {
        assert s[p..][1..] == s[p + 1..];
        f, p, inner := EvalFact(s, p + 1);
        stuck := stuck || inner || Stuck(v, f);
        if f != 0 {
          v := Wrap(TruncDiv(v, f));
        }
      } else {
        break;
      }
    }
  }

  method EvalExpr(s: string, p0: nat) returns (v: Long, p: nat, stuck: bool)
    requires p0 <= |s|
    ensures p0 <= p <= |s| && (v, s[p..]) == Expr(s[p0..]) && stuck == ExprStuck(s[p0..])
    decreases |s| - p0, 4
  {
    hide Term, TermStuck, Strip, Wrap;
    v, p, stuck := EvalTerm(s, p0);
    while true
      invariant p0 <= p <= |s| && Expr(s[p0..]) == ExprRest(v, s[p..])
      invariant ExprStuck(s[p0..]) == (stuck || ExprRestStuck(v, s[p..]))
      decreases |s| - p
    {
      p := SkipSpaces(s, p);
      var t: Long;
      var inner: bool;
      if p < |s| && s[p] == '+' {
        assert s[p..][1..] == s[p + 1..];
        t, p, inner := EvalTerm(s, p + 1);
        stuck := stuck || inner;
        v := Wrap(v + t);
      } else if p < |s| && s[p] == '-' {
        assert s[p..][1..] == s[p + 1..];
        t, p, inner := EvalTerm(s, p + 1);
        stuck := stuck || inner;
        v := Wrap(v - t);
      } else {
        break;
      }
    }
  }

  // ----- the printer -----

  /** An expression with the spaces in front of its tokens: `pre` for a number, `gap` for an operator,
      `open` and `close` for parentheses, which are printed only where they are needed. */
  datatype Tree = Num(pre: nat, n: nat) | Bin(op: Op, l: Tree, r: Tree, gap: nat, open: nat, close: nat) {
    /** Operators of one level group to the left. */
    function Value(): Long {
      match this
      case Num(_, n) => Wrap(n)
      case Bin(op, l, r, _, _, _) => op.Do(l.Value(), r.Value())
    }

    function Level(): nat { if Num? then 2 else if op.IsTerm() then 1 else 0 }
  }

  function Spaces(n: nat): string { if n == 0 then [] else [' '] + Spaces(n - 1) }

  function DigitChar(d: nat): (c: char)
    requires d < 10
    ensures Digit(c) && c as int - '0' as int == d
  {
    ('0' as int + d) as char
  }

  function Digits(n: nat): (s: string)
    ensures |s| >= 1
  {
    (if n < 10 then [] else Digits(n / 10)) + [DigitChar(n % 10)]
  }

  /** Prints for a place that takes expressions (0), terms (1) or factors (2). */
  function Print(e: Tree, place: nat): string
    decreases e, 1
  {
    if e.Num? then Spaces(e.pre) + Digits(e.n)
    else if e.Level() < place then Spaces(e.open) + (['('] + (Body(e) + (Spaces(e.close) + [')'])))
    else Body(e)
  }

  function Body(e: Tree): string
    requires e.Bin?
    decreases e, 0
  {
    Print(e.l, e.Level()) + (Spaces(e.gap) + ([e.op.Char()] + Print(e.r, e.Level() + 1)))
  }

  // ----- the evaluator inverts the printer -----

  /** A number ends here. */
  predicate Stops(rest: string) { rest == [] || !Digit(rest[0]) }

  lemma {:induction false} StripSpaces(n: nat, s: string)
    ensures Strip(Spaces(n) + s) == Strip(s)
  {
    if n == 0 {
      Unit(s);
    } else {
      StripSpaces(n - 1, s);
      Assoc([' '], Spaces(n - 1), s);
      assert ([' '] + (Spaces(n - 1) + s))[1..] == Spaces(n - 1) + s;
    }
  }

  lemma SpacesStop(n: nat, s: string)
    requires Stops(s)
    ensures Stops(Spaces(n) + s)
  {
    if n == 0 {
      Unit(s);
    }
  }

  lemma NumberStep(c: char, s: string, v: Long)
    requires Digit(c)
    ensures Number([c] + s, v) == Number(s, Wrap(10 * v + (c as int - '0' as int)))
  {
    assert ([c] + s)[1..] == s;
  }

  /** Reading a number's digits from the left computes it, up to wrap-around. */
  lemma {:induction false} NumberDigits(n: nat, s: string)
    ensures Number(Digits(n) + s, 0) == Number(s, Wrap(n))
  {
    hide Number, Wrap;
    var c := DigitChar(n % 10);
    if n < 10 {
      Unit([c]);
      NumberStep(c, s, 0);
    } else {
      Assoc(Digits(n / 10), [c], s);
      NumberDigits(n / 10, [c] + s);
      NumberStep(c, s, Wrap(n / 10));
      WrapTen(n / 10, n % 10);
      assert 10 * (n / 10) + n % 10 == n;
    }
  }

  lemma {:induction false} DigitsAll(n: nat)
    ensures forall i :: 0 <= i < |Digits(n)| ==> Digit(Digits(n)[i])
  {
    if n >= 10 {
      DigitsAll(n / 10);
    }
  }

  lemma NumberStop(s: string, v: Long)
    requires Stops(s)
    ensures Number(s, v) == (v, s)
  {
  }

  lemma FactNum(pre: nat, n: nat, rest: string)
    requires Stops(rest)
    ensures Fact((Spaces(pre) + Digits(n)) + rest) == (Wrap(n), rest)
  {
    hide Number, Wrap, Expr;
    Assoc(Spaces(pre), Digits(n), rest);
    StripSpaces(pre, Digits(n) + rest);
    DigitsAll(n);
    assert Digit((Digits(n) + rest)[0]);
    NumberDigits(n, rest);
    NumberStop(rest, Wrap(n));
  }

  lemma FactParen(open: nat, body: string, close: nat, rest: string, v: Long)
    requires Expr(body + (Spaces(close) + ([')'] + rest))) == (v, [')'] + rest)
    ensures Fact((Spaces(open) + (['('] + (body + (Spaces(close) + [')'])))) + rest) == (v, rest)
  {
    hide Expr;
    var inner := body + (Spaces(close) + ([')'] + rest));
    Assoc(Spaces(open), ['('] + (body + (Spaces(close) + [')'])), rest);
    Assoc(['('], body + (Spaces(close) + [')']), rest);
    Assoc(body, Spaces(close) + [')'], rest);
    Assoc(Spaces(close), [')'], rest);
    StripSpaces(open, ['('] + inner);
    assert (['('] + inner)[1..] == inner;
    assert ([')'] + rest)[1..] == rest;
  }

  /** What is printed for a factor reads as a factor, for a term as the first part of a term, and for an
      expression as the first part of an expression. */
  lemma {:induction false} ReadFact(e: Tree, rest: string)
    requires Stops(rest)
    ensures Fact(Print(e, 2) + rest) == (e.Value(), rest)
    decreases e, (e.Level() + 1) % 3
  {
    hide Expr, Fact, Term, Wrap;
    if e.Num? {
      FactNum(e.pre, e.n, rest);
    } else {
      var after := Spaces(e.close) + ([')'] + rest);
      SpacesStop(e.close, [')'] + rest);
      StripSpaces(e.close, [')'] + rest);
      ReadExpr(e, after);
      FactParen(e.open, Body(e), e.close, rest, e.Value());
    }
  }

  lemma {:induction false} ReadTerm(e: Tree, rest: string)
    requires Stops(rest)
    ensures Term(Print(e, 1) + rest) == TermRest(e.Value(), rest)
    decreases e, (e.Level() + 2) % 3
  {
    hide Expr, Fact, Wrap, TermRest, Body;
    if e.Num? || !e.op.IsTerm() {
      ReadFact(e, rest);
    } else {
      ReadBody(e, rest);
      var right := Print(e.r, 2) + rest;
      SpacesStop(e.gap, [e.op.Char()] + right);
      ReadTerm(e.l, Spaces(e.gap) + ([e.op.Char()] + right));
      ReadFact(e.r, rest);
      TermOp(e.l.Value(), e.op, e.gap, right);
    }
  }

  /** Nothing that would extend a term follows. */
  predicate NoTimes(rest: string) {
    var s := Strip(rest);
    s == [] || (s[0] != '*' && s[0] != '/')
  }

  lemma {:induction false} ReadExpr(e: Tree, rest: string)
    requires Stops(rest) && NoTimes(rest)
    ensures Expr(Print(e, 0) + rest) == ExprRest(e.Value(), Strip(rest))
    decreases e, e.Level()
  {
    hide Fact, Term, Wrap, ExprRest, Body;
    if e.Num? || e.op.IsTerm() {
      ReadTerm(e, rest);
      assert Print(e, 0) == Print(e, 1);
      TermEnds(e.Value(), rest);
    } else {
      ReadBody(e, rest);
      var right := Print(e.r, 1) + rest;
      var mid := [e.op.Char()] + right;
      SpacesStop(e.gap, mid);
      StripSpaces(e.gap, mid);
      ReadExpr(e.l, Spaces(e.gap) + mid);
      ReadTerm(e.r, rest);
      TermEnds(e.r.Value(), rest);
      ExprOp(e.l.Value(), e.op, right);
    }
  }

  lemma ReadBody(e: Tree, rest: string)
    requires e.Bin?
    ensures Body(e) + rest
         == Print(e.l, e.Level()) + (Spaces(e.gap) + ([e.op.Char()] + (Print(e.r, e.Level() + 1) + rest)))
  {
    var r := Print(e.r, e.Level() + 1);
    Assoc(Print(e.l, e.Level()), Spaces(e.gap) + ([e.op.Char()] + r), rest);
    Assoc(Spaces(e.gap), [e.op.Char()] + r, rest);
    Assoc([e.op.Char()], r, rest);
  }

  lemma TermEnds(v: Long, rest: string)
    requires NoTimes(rest)
    ensures TermRest(v, rest) == (v, Strip(rest))
  {
  }

  lemma TermOp(v: Long, op: Op, gap: nat, right: string)
    requires op.IsTerm()
    ensures TermRest(v, Spaces(gap) + ([op.Char()] + right)) == TermRest(op.Do(v, Fact(right).0), Fact(right).1)
  {
    hide Fact, Wrap;
    StripSpaces(gap, [op.Char()] + right);
    assert ([op.Char()] + right)[1..] == right;
  }

  lemma ExprOp(v: Long, op: Op, right: string)
    requires !op.IsTerm()
    ensures ExprRest(v, [op.Char()] + right) == ExprRest(op.Do(v, Term(right).0), Term(right).1)
  {
    hide Term, Wrap;
    assert ([op.Char()] + right)[1..] == right;
  }

  /** Evaluating a printed expression gives its value and reads it to the end. */
  lemma EvalPrint(e: Tree, trailing: nat)
    ensures Expr(Print(e, 0) + Spaces(trailing)) == (e.Value(), [])
  {
    hide Expr;
    var rest := Spaces(trailing);
    Unit(rest);
    SpacesStop(trailing, []);
    StripSpaces(trailing, []);
    ReadExpr(e, rest);
  }

  // ----- decimal output -----

  /** The text of a number; negating the least number gives itself, which prints no digit. */
  function Negate(v: Long): Long {
    var n: int := v;
    Wrap(-n)
  }

  function Itoa(v: Long): string {
    var m := if v < 0 then Negate(v) else v;
    (if v < 0 then ['-'] else []) + (if m < 0 then [] else Digits(m))
  }

  function Pow10(n: nat): nat { if n == 0 then 1 else 10 * Pow10(n - 1) }

  lemma {:induction false} DigitsLength(n: nat, k: nat)
    requires n < Pow10(k) && k >= 1
    ensures |Digits(n)| <= k
  {
    assert Pow10(1) == 10;
    if n >= 10 {
      DigitsLength(n / 10, k - 1);
    }
  }

  lemma LongDigits(n: nat)
    requires n < LONG_LIMIT
    ensures |Digits(n)| <= 19
  {
    assert Pow10(4) == 10000 by {
      assert Pow10(2) == 100;
    }
    assert Pow10(8) == 100000000 by {
      assert Pow10(6) == 1000000;
    }
    assert Pow10(12) == 1000000000000 by {
      assert Pow10(10) == 10000000000;
    }
    assert Pow10(16) == 10000000000000000 by {
      assert Pow10(14) == 100000000000000;
    }
    assert Pow10(19) == 10000000000000000000 by {
      assert Pow10(18) == 1000000000000000000;
    }
    DigitsLength(n, 19);
  }

  function Reverse(s: string): (r: string)
    ensures |r| == |s|
  {
    if s == [] then [] else Reverse(s[1..]) + [s[0]]
  }

  lemma {:induction false} ReverseLast(s: string, c: char)
    ensures Reverse(s + [c]) == [c] + Reverse(s)
  {
    if s == [] {
      assert [c][1..] == [];
    } else {
      assert (s + [c])[1..] == s[1..] + [c];
      ReverseLast(s[1..], c);
    }
  }

  /** The digits of a positive number, lowest first; the buffer stops at 22. */
  method LowDigits(v0: Long) returns (tmp: string)
    ensures v0 >= 0 ==> Reverse(tmp) == Digits(v0)
    ensures v0 < 0 ==> tmp == []
  {
    tmp := [];
    var v := v0;
    if v == 0 {
      tmp := tmp + ['0'];
      assert DigitChar(0) == '0' && ['0'][1..] == [];
    }
    if v >= 0 {
      LongDigits(v);
    }
    ghost var text := if v <= 0 then Reverse(tmp) else Digits(v);
    while v > 0 && |tmp| < 22
      invariant v0 <= 0 ==> v == v0
      invariant |tmp| + (if v > 0 then |Digits(v)| else 0) <= 19
      invariant text == (if v > 0 then Digits(v) else []) + Reverse(tmp)
    {
      ReverseLast(tmp, DigitChar(v % 10));
      Assoc(if v < 10 then [] else Digits(v / 10), [DigitChar(v % 10)], Reverse(tmp));
      tmp := tmp + [DigitChar(v % 10)];
      v := v / 10;
    }
  }

  /** Digits come out lowest first and are then turned around. */
  method FsItoa(v0: Long) returns (out: string)
    ensures out == Itoa(v0)
  {
    hide Negate, Digits;
    var v, neg := v0, false;
    if v < 0 {
      neg := true;
      v := Negate(v);
    }
    var tmp := LowDigits(v);
    out := if neg then ['-'] else [];
    var i := |tmp|;
    ghost var sign := out;
    assert tmp[..i] == tmp;
    while i > 0
      invariant 0 <= i <= |tmp| && out + Reverse(tmp[..i]) == sign + Reverse(tmp)
    {
      i := i - 1;
      assert tmp[..i + 1] == tmp[..i] + [tmp[i]];
      ReverseLast(tmp[..i], tmp[i]);
      Assoc(out, [tmp[i]], Reverse(tmp[..i]));
      out := out + [tmp[i]];
    }
    Unit(out);
  }

  lemma EvalNegative(v: Long)
    requires -LONG_LIMIT < v < 0
    ensures Itoa(v) == ['-'] + Digits(-v) && Expr(['-'] + Digits(-v)) == (v, [])
  {
    hide Expr, Term, ExprRest;
    WrapSmall(-v);
    WrapSmall(v);
    var e := Num(0, -v);
    ReadTerm(e, []);
    TermEnds(e.Value(), []);
    Unit(Print(e, 1));
    Unit(Digits(-v));
    EvalMinus(Digits(-v));
    ExprEnds(v);
  }

  lemma ExprEnds(v: Long)
    ensures ExprRest(v, []) == (v, [])
  {
  }

  /** Evaluating a printed number gives it back, except for the least one, which reads as 0. */
  lemma EvalItoa(v: Long)
    ensures Expr(Itoa(v)) == (if v == -LONG_LIMIT then 0 else v, [])
  {
    if v >= 0 {
      hide Expr, Digits;
      WrapSmall(v);
      EvalPrint(Num(0, v), 0);
      Unit(Digits(v));
      Unit(Itoa(v));
    } else if v == -LONG_LIMIT {
      assert Itoa(v) == ['-'];
      EvalMinus([]);
      assert Term([]) == (0, []);
    } else {
      hide Expr, Itoa;
      EvalNegative(v);
    }
  }

  lemma EvalMinus(s: string)
    ensures Expr(['-'] + s) == ExprRest(Wrap(0 - Term(s).0), Term(s).1)
  {
    hide Term, Wrap, ExprRest;
    var all := ['-'] + s;
    assert Term(all) == (0, all) by {
      LeadingMinus(all);
    }
    ExprOp(0, Minus, s);
    assert Expr(all) == ExprRest(0, all) by {
      ExprFrom(all);
    }
  }

  lemma LeadingMinus(s: string)
    requires s != [] && s[0] == '-'
    ensures Term(s) == (0, s)
  {
  }

  lemma ExprFrom(s: string)
    ensures Expr(s) == ExprRest(Term(s).0, Term(s).1)
  {
  }

  // ----- keys -----

  predicate IsEquals(c: char) { c == '=' || c == '\n' || c == '\r' }

  /** The text after a key. */
  function Press(e: string, c: char): (r: string) {
    if c == 'C' then []
    else if c == 'B' && e != [] then e[..|e| - 1]
    else if IsEquals(c) then Itoa(Expr(e).0)
    else if c != '\0' && |e| < EXPR_CAP - 1 then e + [c]
    else e
  }

  lemma PressFits(e: string, c: char)
    requires |e| < EXPR_CAP
    ensures |Press(e, c)| < EXPR_CAP
  {
    hide Expr, Negate;
    var v := Expr(e).0;
    var m := if v < 0 then Negate(v) else v;
    if m >= 0 {
      LongDigits(m);
    }
  }

  /** Pressing "=" again changes nothing exactly when the value is not the least number. */
  lemma EqualsIdempotentIff(e: string)
    ensures Press(Press(e, '='), '=') == Press(e, '=') <==> Expr(e).0 != -LONG_LIMIT
  {
    hide Expr, Wrap;
    var v := Expr(e).0;
    EvalItoa(v);
    if v == -LONG_LIMIT {
      LeastText();
    }
  }

  lemma LeastText()
    ensures Itoa(-LONG_LIMIT) == ['-'] && Itoa(0) != ['-']
  {
    assert Digits(0) == [DigitChar(0)];
  }

  /** An expression of three small tokens reaches the least number, so that "=" changes the text twice. */
  lemma EqualsTwice()
    ensures var e := Print(Bin(Minus, Bin(Minus, Num(0, 0), Num(0, LONG_LIMIT - 1), 0, 0, 0), Num(0, 1), 0, 0, 0), 0);
            Press(Press(e, '='), '=') != Press(e, '=')
  {
    var t := Bin(Minus, Bin(Minus, Num(0, 0), Num(0, LONG_LIMIT - 1), 0, 0, 0), Num(0, 1), 0, 0, 0);
    assert t.Value() == -LONG_LIMIT by {
      assert Num(0, 0).Value() == 0 && Num(0, 1).Value() == 1 && Num(0, LONG_LIMIT - 1).Value() == LONG_LIMIT - 1;
      assert t.l.Value() == -LONG_LIMIT + 1;
    }
    EvalPrint(t, 0);
    Unit(Print(t, 0));
    EqualsIdempotentIff(Print(t, 0));
  }

  /** The key is typed into the text. */
  predicate Typed(e: string, c: char) {
    c != 'C' && c != '=' && c != '\n' && c != '\r' && c != '\0' && (c == 'B' ==> e == [])
  }

  /** Backspace takes a typed key back exactly when there was room for it. */
  lemma BackspaceIff(e: string, c: char)
    requires |e| < EXPR_CAP && Typed(e, c)
    ensures Press(Press(e, c), 'B') == e <==> |e| < EXPR_CAP - 1
  {
    if |e| < EXPR_CAP - 1 {
      assert (e + [c])[..|e|] == e;
    }
  }

  class Calculator {
    var expr: string

    constructor ()
      ensures Valid() && expr == []
    {
      expr := [];
    }

    ghost predicate Valid()
      reads this
    {
      |expr| < EXPR_CAP
    }

    method Put(t: string)
      requires Valid()
      modifies this
      ensures Valid()
      ensures expr == old(expr) + t[..if |old(expr)| + |t| < EXPR_CAP then |t| else EXPR_CAP - 1 - |old(expr)|]
    {
      var i := 0;
      while i < |t| && |expr| < EXPR_CAP - 1
        invariant 0 <= i <= |t| && Valid() && expr == old(expr) + t[..i]
      {
        expr := expr + [t[i]];
        i := i + 1;
      }
    }

    /** Handles a key; `stuck` tells that the machine stops the program before the text is changed. */
    method HandleKey(c: char) returns (stuck: bool)
      requires Valid()
      modifies this
      ensures Valid() && stuck == (IsEquals(c) && ExprStuck(old(expr)))
      ensures expr == if stuck then old(expr) else Press(old(expr), c)
    {
      hide Expr, ExprStuck, Itoa;
      stuck := false;
      PressFits(expr, c);
      if c == 'C' {
        expr := [];
        return;
      }
      if c == 'B' && |expr| > 0 {
        expr := expr[..|expr| - 1];
        return;
      }
      if c == '=' || c == '\n' || c == '\r' {
        assert expr[0..] == expr;
        var v, _, trapped := EvalExpr(expr, 0);
        stuck := trapped;
        if !stuck {
          expr := FsItoa(v);
        }
        return;
      }
      Put(if c == '\0' then [] else [c]);
    }
  }
}
