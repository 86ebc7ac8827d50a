/** Bit strings, bytes and the 0xFF00 byte stuffing shared by the JPEG writer and reader.

    Bits are kept most significant first, as both sides of the codec do. */
module Bits {

  type byte = x: int | 0 <= x < 256

  const MARKER: byte := 0xFF

  datatype Option<+T> = None | Some(value: T)

  lemma Assoc<T>(a: seq<T>, b: seq<T>, c: seq<T>)
    ensures (a + b) + c == a + (b + c)
  {
  }

  lemma Unit<T>(a: seq<T>)
    ensures a + [] == a && [] + a == a
  {
  }

  function Pow2(n: nat): (p: nat)
    ensures p >= 1
  {
    if n == 0 then 1 else 2 * Pow2(n - 1)
  }

  /** `v << n`, `v >> n` and `v & ((1 << n) - 1)` on unbounded numbers. */
  function Shl(v: nat, n: nat): nat {
    if n == 0 then v else 2 * Shl(v, n - 1)
  }

  function Shr(v: nat, n: nat): nat {
    if n == 0 then v else Shr(v / 2, n - 1)
  }

  function Low(v: nat, n: nat): (r: nat)
    ensures r < Pow2(n) && r <= v
  {
    if n == 0 then 0 else 2 * Low(v / 2, n - 1) + v % 2
  }

  /** The `n` low bits of `v`. */
  function BitsOf(v: nat, n: nat): (b: seq<bool>)
    ensures |b| == n
  {
    if n == 0 then [] else BitsOf(v / 2, n - 1) + [v % 2 == 1]
  }

  function Bit(b: bool): nat { if b then 1 else 0 }

  /** The number a bit string denotes. */
  function Val(b: seq<bool>): (v: nat)
    ensures v < Pow2(|b|)
  {
    if b == [] then 0 else 2 * Val(b[..|b| - 1]) + Bit(b[|b| - 1])
  }

  // ----- arithmetic -----

  lemma Pow2Mono(a: nat, b: nat)
    requires a <= b
    ensures Pow2(a) <= Pow2(b)
  {
    if a < b {
      Pow2Mono(a, b - 1);
    }
  }

  lemma Pow2Values()
    ensures Pow2(1) == 2 && Pow2(2) == 4 && Pow2(3) == 8 && Pow2(4) == 16 && Pow2(5) == 32
    ensures Pow2(6) == 64 && Pow2(7) == 128 && Pow2(8) == 256 && Pow2(9) == 512 && Pow2(10) == 1024
    ensures Pow2(11) == 2048 && Pow2(12) == 4096 && Pow2(13) == 8192 && Pow2(14) == 16384
    ensures Pow2(15) == 32768 && Pow2(16) == 65536 && Pow2(32) == 0x1_0000_0000
  {
    assert Pow2(20) == 1048576 && Pow2(24) == 16777216 && Pow2(28) == 268435456;
  }

  lemma {:induction false} LowSmall(v: nat, n: nat)
    requires v < Pow2(n)
    ensures Low(v, n) == v
  {
    if n > 0 {
      LowSmall(v / 2, n - 1);
    }
  }

  lemma {:induction false} ShlBound(v: nat, m: nat, n: nat)
    requires v < Pow2(m)
    ensures Shl(v, n) + Pow2(n) <= Pow2(m + n)
  {
    if n > 0 {
      ShlBound(v, m, n - 1);
    }
  }

  lemma {:induction false} ShrBound(v: nat, m: nat, n: nat)
    requires v < Pow2(m + n)
    ensures Shr(v, n) < Pow2(m)
  {
    if n > 0 {
      ShrBound(v / 2, m, n - 1);
    }
  }

  /** A number is its high part shifted back, plus its low part. */
  lemma {:induction false} ShrLow(v: nat, n: nat)
    ensures v == Shl(Shr(v, n), n) + Low(v, n)
  {
    if n > 0 {
      ShrLow(v / 2, n - 1);
    }
  }

  lemma {:induction false} ShlMono(a: nat, b: nat, n: nat)
    requires a <= b
    ensures Shl(a, n) <= Shl(b, n)
  {
    if n > 0 {
      ShlMono(a, b, n - 1);
    }
  }

  lemma {:induction false} ShlAdd(a: nat, b: nat, n: nat)
    ensures Shl(a + b, n) == Shl(a, n) + Shl(b, n)
  {
    if n > 0 {
      ShlAdd(a, b, n - 1);
    }
  }

  lemma {:induction false} ShlShl(v: nat, m: nat, n: nat)
    ensures Shl(Shl(v, m), n) == Shl(v, m + n)
  {
    if n > 0 {
      ShlShl(v, m, n - 1);
    }
  }

  lemma {:induction false} ShlOne(n: nat)
    ensures Shl(1, n) == Pow2(n)
  {
    if n > 0 {
      ShlOne(n - 1);
    }
  }

  /** Shifting back what `Shl` shifted, whatever filled the low bits. */
  lemma {:induction false} ShrShl(v: nat, x: nat, n: nat)
    requires x < Pow2(n)
    ensures Shr(Shl(v, n) + x, n) == v
  {
    if n > 0 {
      ShrShl(v, x / 2, n - 1);
      assert (2 * Shl(v, n - 1) + x) / 2 == Shl(v, n - 1) + x / 2;
    }
  }

  lemma {:induction false} ShrMono(a: nat, b: nat, n: nat)
    requires a <= b
    ensures Shr(a, n) <= Shr(b, n)
  {
    if n > 0 {
      ShrMono(a / 2, b / 2, n - 1);
    }
  }

  lemma {:induction false} ShrHalf(v: nat, n: nat)
    ensures Shr(v, n + 1) == Shr(v, n) / 2
  {
    if n > 0 {
      ShrHalf(v / 2, n - 1);
    }
  }

  /** `Low` is the remainder modulo a power of two. */
  lemma {:induction false} LowIsMod(v: nat, n: nat)
    ensures Low(v, n) == v % Pow2(n)
  {
    if n > 0 {
      LowIsMod(v / 2, n - 1);
      ModDouble(v, Pow2(n - 1));
    }
  }

  lemma ModDouble(v: nat, p: nat)
    requires p > 0
    ensures v % (2 * p) == 2 * ((v / 2) % p) + v % 2
  {
    var h := v / 2;
    var q, r := h / p, h % p;
    assert h == p * q + r;
    assert v == (2 * p) * q + (2 * r + v % 2);
    ModUnique(v, 2 * p, q, 2 * r + v % 2);
  }

  lemma ModUnique(v: nat, d: nat, q: nat, r: nat)
    requires d > 0 && r < d && v == d * q + r
    ensures v % d == r
  {
    var q', r' := v / d, v % d;
    assert v == d * q' + r';
    if q' < q {
      MulMono(d, q' + 1, q);
    } else if q < q' {
      MulMono(d, q + 1, q');
    }
  }

  lemma MulMono(d: nat, a: nat, b: nat)
    requires a <= b
    ensures d * a <= d * b
  {
  }

  // ----- numbers and bit strings -----

  /** Writing a number in `n` bits and reading it back yields it modulo `2^n`. */
  lemma {:induction false} ValBitsOf(v: nat, n: nat)
    ensures Val(BitsOf(v, n)) == Low(v, n)
  {
    if n > 0 {
      ValBitsOf(v / 2, n - 1);
      ValBitsNext(v, n);
    }
  }

  lemma ValBitsNext(v: nat, n: nat)
    requires n > 0 && Val(BitsOf(v / 2, n - 1)) == Low(v / 2, n - 1)
    ensures Val(BitsOf(v, n)) == Low(v, n)
  {
    hide Val, Pow2, BitsOf, Low;
    BitsNext(v, n);
    ValLast(BitsOf(v / 2, n - 1), v % 2 == 1);
  }

  lemma BitsNext(v: nat, n: nat)
    requires n > 0
    ensures BitsOf(v, n) == BitsOf(v / 2, n - 1) + [v % 2 == 1] && Low(v, n) == 2 * Low(v / 2, n - 1) + v % 2
  {
  }

  lemma ValLast(b: seq<bool>, x: bool)
    ensures Val(b + [x]) == 2 * Val(b) + Bit(x)
  {
    hide Pow2;
    assert (b + [x])[..|b|] == b;
  }

  lemma Halved(a: nat, x: bool)
    ensures (2 * a + Bit(x)) / 2 == a && ((2 * a + Bit(x)) % 2 == 1) == x
  {
  }

  lemma {:induction false} BitsOfVal(b: seq<bool>)
    ensures BitsOf(Val(b), |b|) == b
  {
    if b != [] {
      hide Val, Pow2;
      var p, x := b[..|b| - 1], b[|b| - 1];
      assert b == p + [x];
      BitsOfVal(p);
      ValLast(p, x);
      Halved(Val(p), x);
    }
  }

  lemma {:induction false} BitsOfLow(v: nat, n: nat)
    ensures BitsOf(Low(v, n), n) == BitsOf(v, n)
  {
    if n > 0 {
      BitsOfLow(v / 2, n - 1);
    }
  }

  lemma {:induction false} BitsOfSplit(v: nat, a: nat, b: nat)
    ensures BitsOf(v, a + b) == BitsOf(Shr(v, b), a) + BitsOf(v, b)
  {
    if b > 0 {
      BitsOfSplit(v / 2, a, b - 1);
      BitsNext(v, a + b);
      BitsNext(v, b);
      hide BitsOf, Low;
      Assoc(BitsOf(Shr(v, b), a), BitsOf(v / 2, b - 1), [v % 2 == 1]);
    } else {
      Unit(BitsOf(v, a));
    }
  }

  /** Shifting `x` up by `n` and filling in the low bits of `y` concatenates their bits. */
  lemma {:induction false} BitsOfJoin(x: nat, m: nat, y: nat, n: nat)
    ensures BitsOf(Shl(x, n) + Low(y, n), m + n) == BitsOf(x, m) + BitsOf(y, n)
  {
    if n > 0 {
      BitsOfJoin(x, m, y / 2, n - 1);
    }
  }

  /** Taking the top bit off, as the reader does. */
  lemma BitsOfTop(v: nat, n: nat)
    ensures BitsOf(v, n + 1) == [Shr(v, n) % 2 == 1] + BitsOf(v, n)
  {
    BitsOfSplit(v, 1, n);
    assert BitsOf(Shr(v, n), 1) == [Shr(v, n) % 2 == 1];
  }

  lemma {:induction false} ValAppend(a: seq<bool>, b: seq<bool>)
    ensures Val(a + b) == Shl(Val(a), |b|) + Val(b)
  {
    if b == [] {
      assert a + b == a;
    } else {
      ValAppend(a, b[..|b| - 1]);
      assert (a + b)[..|a + b| - 1] == a + b[..|b| - 1];
    }
  }

  // ----- bytes -----

  /** The whole bytes at the front of a bit string. */
  function FullBytes(b: seq<bool>): seq<byte> {
    if |b| < 8 then [] else ByteVal(b[..8]) + FullBytes(b[8..])
  }

  function ByteVal(b: seq<bool>): (r: seq<byte>)
    requires |b| == 8
    ensures |r| == 1 && r[0] == Val(b)
  {
    assert Pow2(8) == 256 by { Pow2Values(); }
    [Val(b)]
  }

  /** The bits left over after the whole bytes. */
  function Tail(b: seq<bool>): (r: seq<bool>)
    ensures |r| < 8
  {
    if |b| < 8 then b else Tail(b[8..])
  }

  function ByteBits(d: seq<byte>): (b: seq<bool>)
    ensures |b| == 8 * |d|
  {
    if d == [] then [] else BitsOf(d[0], 8) + ByteBits(d[1..])
  }

  lemma {:induction false} ByteBitsAppend(a: seq<byte>, b: seq<byte>)
    ensures ByteBits(a + b) == ByteBits(a) + ByteBits(b)
  {
    if a == [] {
      assert a + b == b;
    } else {
      ByteBitsAppend(a[1..], b);
      assert (a + b)[1..] == a[1..] + b;
    }
  }

  /** Packing loses nothing: the bytes' bits followed by the leftover bits are the bits packed. */
  lemma {:induction false} PackUnpack(b: seq<bool>)
    ensures ByteBits(FullBytes(b)) + Tail(b) == b
  {
    if |b| >= 8 {
      PackUnpack(b[8..]);
      BitsOfVal(b[..8]);
      assert FullBytes(b)[1..] == FullBytes(b[8..]);
      assert b == b[..8] + b[8..];
    }
  }

  lemma {:induction false} PackAppend(a: seq<bool>, b: seq<bool>)
    ensures FullBytes(a + b) == FullBytes(a) + FullBytes(Tail(a) + b)
    ensures Tail(a + b) == Tail(Tail(a) + b)
  {
    if |a| >= 8 {
      PackAppend(a[8..], b);
      assert (a + b)[..8] == a[..8];
      assert (a + b)[8..] == a[8..] + b;
    }
  }

  /** Whole bytes in front of a bit string pack to themselves. */
  lemma {:induction false} PackBytes(d: seq<byte>, t: seq<bool>)
    ensures FullBytes(ByteBits(d) + t) == d + FullBytes(t)
    ensures Tail(ByteBits(d) + t) == Tail(t)
  {
    if d == [] {
      assert ByteBits(d) + t == t;
    } else {
      PackBytes(d[1..], t);
      PackByte(d[0], ByteBits(d[1..]) + t);
      Assoc(BitsOf(d[0], 8), ByteBits(d[1..]), t);
      assert d == [d[0]] + d[1..];
      Assoc([d[0]], d[1..], FullBytes(t));
    }
  }

  lemma PackByte(b: byte, t: seq<bool>)
    ensures FullBytes(BitsOf(b, 8) + t) == [b] + FullBytes(t)
    ensures Tail(BitsOf(b, 8) + t) == Tail(t)
  {
    var s := BitsOf(b, 8) + t;
    assert s[..8] == BitsOf(b, 8) && s[8..] == t;
    ValBitsOf(b, 8);
    Pow2Values();
    LowSmall(b, 8);
  }

  lemma ByteBitsOne(b: byte)
    ensures ByteBits([b]) + [] == BitsOf(b, 8) && Stuff([b]) == StuffByte(b)
  {
    Unit(BitsOf(b, 8));
    Unit(StuffByte(b));
  }

  /** Moving one byte from the pending bits to the bytes put out. */
  lemma MoveByte(p: seq<byte>, b: byte, rest: seq<bool>)
    ensures ByteBits(p + [b]) + rest == ByteBits(p) + (BitsOf(b, 8) + rest)
    ensures Stuff(p + [b]) == Stuff(p) + StuffByte(b)
  {
    ByteBitsAppend(p, [b]);
    StuffAppend(p, [b]);
    Unit(BitsOf(b, 8));
    Unit(StuffByte(b));
    Assoc(ByteBits(p), BitsOf(b, 8), rest);
  }

  /** The data at `pos` starts with a data byte: its bits come first, then those of the rest. */
  lemma UnstuffNext(s: seq<byte>)
    requires s != [] && (s[0] == MARKER ==> |s| > 1 && s[1] == 0)
    ensures ByteBits(Unstuff(s)) == BitsOf(s[0], 8) + ByteBits(Unstuff(s[|StuffByte(s[0])|..]))
  {
    assert Unstuff(s) == [s[0]] + Unstuff(s[|StuffByte(s[0])|..]);
  }

  /** The bits of a finished segment: the last byte is filled up with ones. */
  function Padded(bits: seq<bool>): seq<bool> {
    var t := Tail(bits);
    if t == [] then bits else bits + BitsOf(Pow2(8 - |t|) - 1, 8 - |t|)
  }

  // ----- stuffing -----

  /** Every 0xFF data byte is followed by a 0x00 so that it cannot be read as a marker. */
  function Stuff(d: seq<byte>): seq<byte> {
    if d == [] then [] else StuffByte(d[0]) + Stuff(d[1..])
  }

  function StuffByte(b: byte): seq<byte> {
    if b == MARKER then [MARKER, 0] else [b]
  }

  /** The data bytes a reader sees up to the first marker or the end of the data. */
  function Unstuff(d: seq<byte>): seq<byte> {
    if d == [] then []
    else if d[0] != MARKER then [d[0]] + Unstuff(d[1..])
    else if |d| > 1 && d[1] == 0 then [MARKER] + Unstuff(d[2..])
    else []
  }

  lemma {:induction false} StuffAppend(a: seq<byte>, b: seq<byte>)
    ensures Stuff(a + b) == Stuff(a) + Stuff(b)
  {
    if a == [] {
      assert a + b == b;
    } else {
      StuffAppend(a[1..], b);
      var h := StuffByte(a[0]);
      assert (a + b)[1..] == a[1..] + b;
      Assoc(h, Stuff(a[1..]), Stuff(b));
    }
  }

  /** Unstuffing stops at the marker that ends the segment and recovers the data before it. */
  lemma {:induction false} UnstuffStuff(d: seq<byte>, end: seq<byte>)
    requires end == [] || (end[0] == MARKER && (|end| == 1 || end[1] != 0))
    ensures Unstuff(Stuff(d) + end) == d
  {
    if d == [] {
      assert Stuff(d) + end == end;
    } else {
      UnstuffStuff(d[1..], end);
      var h, t := StuffByte(d[0]), Stuff(d[1..]);
      Assoc(h, t, end);
      UnstuffByte(d[0], t + end);
    }
  }

  lemma UnstuffByte(b: byte, s: seq<byte>)
    ensures Unstuff(StuffByte(b) + s) == [b] + Unstuff(s)
  {
    var t := StuffByte(b) + s;
    assert t[|StuffByte(b)|..] == s;
  }

  /** In stuffed data every 0xFF is followed by 0x00. */
  ghost predicate NoMarker(s: seq<byte>) {
    forall i :: 0 <= i < |s| && s[i] == MARKER ==> i + 1 < |s| && s[i + 1] == 0
  }

  lemma {:induction false} StuffedHasNoMarker(d: seq<byte>)
    ensures NoMarker(Stuff(d))
  {
    if d != [] {
      StuffedHasNoMarker(d[1..]);
      var h := StuffByte(d[0]);
      var s, t := Stuff(d), Stuff(d[1..]);
      assert s == h + t;
      forall i | 0 <= i < |s| && s[i] == MARKER
        ensures i + 1 < |s| && s[i + 1] == 0
      {
        if i >= |h| {
          assert t[i - |h|] == MARKER;
        }
      }
    }
  }

  /** What the writer has put out after `bits`: the whole bytes, stuffed. */
  function Emitted(bits: seq<bool>): seq<byte> {
    Stuff(FullBytes(bits))
  }

  lemma EmittedAppend(a: seq<bool>, b: seq<bool>)
    ensures Emitted(a + b) == Emitted(a) + Emitted(Tail(a) + b)
    ensures Tail(a + b) == Tail(Tail(a) + b)
  {
    PackAppend(a, b);
    StuffAppend(FullBytes(a), FullBytes(Tail(a) + b));
  }

  /** The bytes `p` moved out of the pending bits are exactly what the added bits put out. */
  lemma EmittedStep(head: seq<byte>, bits: seq<bool>, more: seq<bool>, p: seq<byte>, pending: seq<bool>)
    requires Tail(bits) + more == ByteBits(p) + pending && |pending| < 8
    ensures (head + Emitted(bits)) + Stuff(p) == head + Emitted(bits + more)
    ensures Tail(bits + more) == pending
  {
    EmittedAppend(bits, more);
    PackBytes(p, pending);
    Unit(p);
    Assoc(head, Emitted(bits), Stuff(p));
  }
}
