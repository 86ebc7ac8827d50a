/** Typing on the calculator: what is typed is what is evaluated, and the answer is what is shown. */
module CalcKeys {
  import opened Bits
  import opened Calc
  import opened CalcStuck

  /** The text after a sequence of keys. */
  function PressAll(e: string, keys: string): string
    decreases |keys|
  {
    if keys == [] then e else PressAll(Press(e, keys[0]), keys[1..])
  }

  /** A key that stands for itself. */
  predicate Plain(c: char) { c != 'C' && c != 'B' && c != '=' && c != '\n' && c != '\r' && c != '\0' }

  lemma PressPlain(e: string, c: char)
    requires Plain(c) && |e| < EXPR_CAP - 1
    ensures Press(e, c) == e + [c]
  {
  }

  /** Typing a text that fits after another appends it. */
  lemma {:induction false} TypeText(e: string, t: string)
    requires |e| + |t| < EXPR_CAP && forall i :: 0 <= i < |t| ==> Plain(t[i])
    ensures PressAll(e, t) == e + t
    decreases |t|
  {
    hide Press, Plain;
    if t == [] {
      Unit(e);
    } else {
      PressPlain(e, t[0]);
      TypeText(e + [t[0]], t[1..]);
      assert e + [t[0]] + t[1..] == e + t;
    }
  }

  lemma {:induction false} PressAppend(e: string, a: string, b: string)
    ensures PressAll(e, a + b) == PressAll(PressAll(e, a), b)
    decreases |a|
  {
    hide Press;
    if a == [] {
      assert a + b == b;
    } else {
      assert (a + b)[1..] == a[1..] + b;
      PressAppend(Press(e, a[0]), a[1..], b);
    }
  }

  /** Clearing empties any text. */
  lemma ClearEmpties(e: string)
    ensures Press(e, 'C') == ""
  {
  }

  // ----- the characters of a printed expression are plain keys -----

  ghost predicate AllPlain(s: string) { forall i :: 0 <= i < |s| ==> Plain(s[i]) }

  lemma PlainJoin(a: string, b: string)
    requires AllPlain(a) && AllPlain(b)
    ensures AllPlain(a + b)
  {
  }

  lemma {:induction false} SpacesPlain(n: nat)
    ensures AllPlain(Spaces(n))
  {
    if n > 0 {
      SpacesPlain(n - 1);
    }
  }

  lemma DigitsPlain(n: nat)
    ensures AllPlain(Digits(n))
  {
    DigitsAll(n);
    assert forall c: char :: Digit(c) ==> Plain(c);
  }

  lemma {:induction false} PrintPlain(e: Tree, place: nat)
    ensures AllPlain(Print(e, place))
    decreases e, 1
  {
    hide AllPlain;
    if e.Num? {
      SpacesPlain(e.pre);
      DigitsPlain(e.n);
      PlainJoin(Spaces(e.pre), Digits(e.n));
    } else {
      BodyPlain(e);
      SpacesPlain(e.open);
      SpacesPlain(e.close);
      Single('(');
      Single(')');
      PlainJoin(Spaces(e.close), [')']);
      PlainJoin(Body(e), Spaces(e.close) + [')']);
      PlainJoin(['('], Body(e) + (Spaces(e.close) + [')']));
      PlainJoin(Spaces(e.open), ['('] + (Body(e) + (Spaces(e.close) + [')'])));
    }
  }

  lemma {:induction false} BodyPlain(e: Tree)
    requires e.Bin?
    ensures AllPlain(Body(e))
    decreases e, 0
  {
    hide AllPlain;
    var l, r := Print(e.l, e.Level()), Print(e.r, e.Level() + 1);
    PrintPlain(e.l, e.Level());
    PrintPlain(e.r, e.Level() + 1);
    SpacesPlain(e.gap);
    Single(e.op.Char());
    PlainJoin([e.op.Char()], r);
    PlainJoin(Spaces(e.gap), [e.op.Char()] + r);
    PlainJoin(l, Spaces(e.gap) + ([e.op.Char()] + r));
  }

  lemma Single(c: char)
    requires Plain(c)
    ensures AllPlain([c])
  {
  }

  /** Typing any expression that fits into an empty text and pressing "=" shows its value. */
  lemma TypedAnswer(e: Tree)
    requires |Print(e, 0)| < EXPR_CAP
    ensures PressAll("", Print(e, 0) + "=") == Itoa(e.Value())
  {
    hide Press, Itoa, Expr;
    var t := Print(e, 0);
    PrintPlain(e, 0);
    TypeText("", t);
    assert "" + t == t;
    PressAppend("", t, "=");
    assert "="[1..] == "";
    assert PressAll(t, "=") == PressAll(Press(t, '='), "") == Press(t, '=');
    EvalPrint(e, 0);
    Unit(t);
    EqualsShows(t);
  }

  lemma EqualsShows(t: string)
    ensures Press(t, '=') == Itoa(Expr(t).0)
  {
    hide Itoa, Expr;
  }

  function N(n: nat): Tree { Num(0, n) }

  function B(op: Op, l: Tree, r: Tree): Tree { Bin(op, l, r, 0, 0, 0) }

  lemma SmallDigits()
    ensures Digits(2) == "2" && Digits(3) == "3" && Digits(4) == "4" && Digits(7) == "7" && Digits(9) == "9"
    ensures Digits(12) == "12" && Digits(24) == "24" && Digits(36) == "36"
  {
    assert Digits(1) == "1";
    assert Digits(2) == "2";
    assert Digits(3) == "3";
  }

  lemma NumPrint(n: nat, place: nat)
    ensures Print(N(n), place) == Digits(n)
  {
    Unit(Digits(n));
  }

  lemma BinPrint(op: Op, l: Tree, r: Tree, place: nat)
    ensures var e := B(op, l, r);
            var body := Print(l, e.Level()) + [op.Char()] + Print(r, e.Level() + 1);
            Print(e, place) == if e.Level() < place then "(" + body + ")" else body
  {
  }

  /** What an operation gives without wrap-around. */
  function Exact(op: Op, a: int, b: int): int {
    match op
    case Plus => a + b
    case Minus => a - b
    case Times => a * b
    case Over => if b == 0 then a else TruncDiv(a, b)
  }

  lemma ExactValue(op: Op, l: Tree, r: Tree)
    requires -LONG_LIMIT <= Exact(op, l.Value(), r.Value()) < LONG_LIMIT
    ensures B(op, l, r).Value() == Exact(op, l.Value(), r.Value())
  {
    hide Wrap, TruncDiv;
    WrapSmall(Exact(op, l.Value(), r.Value()));
  }

  /** Quotients are towards zero: the remainder is smaller than the divisor and has the sign of the dividend. */
  lemma TowardsZero(a: int, b: int)
    requires b != 0
    ensures var r := a - b * TruncDiv(a, b); Mag(r) < Mag(b) && (r > 0 ==> a > 0) && (r < 0 ==> a < 0)
  {
    var m, n := Mag(a), Mag(b);
    var q, r := m / n, m % n;
    assert m == n * q + r;
    Signs(n, q);
    var p: int := n * q;
    assert b * TruncDiv(a, b) == if a < 0 then -p else p;
  }

  lemma Signs(n: int, q: int)
    ensures -n * q == n * -q == -(n * q) && -n * -q == n * q
  {
  }

  lemma SmallNumber(n: nat)
    requires n < LONG_LIMIT
    ensures N(n).Value() == n && Itoa(n) == Digits(n) && (n > 0 ==> Itoa(-(n as int)) == "-" + Digits(n))
  {
    hide Digits;
    WrapSmall(n);
  }

  /** Products before sums, ... */
  lemma SumsFirst()
    ensures PressAll("", "12+3*4=") == "24"
  {
    hide PressAll, Digits, Print, Itoa, Wrap;
    SmallDigits();
    SmallNumber(24);
    SmallNumber(12);
    SmallNumber(3);
    SmallNumber(4);
    NumPrint(12, 0);
    NumPrint(3, 1);
    NumPrint(4, 2);
    BinPrint(Times, N(3), N(4), 1);
    BinPrint(Plus, N(12), B(Times, N(3), N(4)), 0);
    ExactValue(Times, N(3), N(4));
    ExactValue(Plus, N(12), B(Times, N(3), N(4)));
    assert "12" + ['+'] + ("3" + ['*'] + "4") + "=" == "12+3*4=";
    TypedAnswer(B(Plus, N(12), B(Times, N(3), N(4))));
  }

  /** ... parentheses before products, quotients towards zero, and a sign. */
  lemma SumsSigned()
    ensures PressAll("", "(2-9)/2=") == "-3"
  {
    hide PressAll, Digits, Print, Itoa, Wrap;
    SmallDigits();
    SmallNumber(3);
    SmallNumber(9);
    SmallNumber(2);
    NumPrint(2, 0);
    NumPrint(9, 1);
    NumPrint(2, 2);
    BinPrint(Minus, N(2), N(9), 1);
    BinPrint(Over, B(Minus, N(2), N(9)), N(2), 0);
    ExactValue(Minus, N(2), N(9));
    ExactValue(Over, B(Minus, N(2), N(9)), N(2));
    assert "(" + ("2" + ['-'] + "9") + ")" + ['/'] + "2" + "=" == "(2-9)/2=";
    TypedAnswer(B(Over, B(Minus, N(2), N(9)), N(2)));
  }

  // ----- on the calculator -----

  /** Typing a text that fits. */
  method TypeKeys(c: Calculator, keys: string)
    requires c.Valid() && |c.expr| + |keys| < EXPR_CAP && AllPlain(keys)
    modifies c
    ensures c.Valid() && c.expr == old(c.expr) + keys
  {
    hide Press, Plain;
    for i := 0 to |keys|
      invariant c.Valid() && c.expr == old(c.expr) + keys[..i]
    {
      PressPlain(c.expr, keys[i]);
      PlainNotEquals(keys[i]);
      var _ := c.HandleKey(keys[i]);
    }
  }

  lemma PlainNotEquals(c: char)
    requires Plain(c)
    ensures !IsEquals(c)
  {
  }

  /** Typing an expression on a cleared calculator and pressing "=": the machine stops the program exactly
      when the expression has the division it does not do, and otherwise the value is shown. */
  method Calculate(c: Calculator, ghost e: Tree, keys: string) returns (stuck: bool)
    requires c.Valid() && keys == Print(e, 0) && |keys| < EXPR_CAP
    modifies c
    ensures c.Valid() && stuck == Divides(e) && (!stuck ==> c.expr == Itoa(e.Value()))
  {
    hide Press, Expr, ExprStuck, Itoa, AllPlain;
    ClearEmpties(c.expr);
    var _ := c.HandleKey('C');
    PrintPlain(e, 0);
    TypeKeys(c, keys);
    assert "" + keys == keys;
    EvalStuckIff(e, 0);
    EvalPrint(e, 0);
    Unit(keys);
    EqualsShows(keys);
    stuck := c.HandleKey('=');
  }
}
