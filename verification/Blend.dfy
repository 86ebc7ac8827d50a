/** Constant-alpha blending of a row of pixels: the scalar reference, and the four-pixel vector path
    with 16-bit lanes that must equal it bit for bit. */
module Blend {
  type Channel = n: nat | n < 256

  /** A 32-bit ARGB pixel by channel. */
  datatype Pixel = Pixel(a: Channel, r: Channel, g: Channel, b: Channel)

  // ----- the scalar reference -----

  /** A rounded weighted mean of source and destination channel. */
  function Mix(s: Channel, d: Channel, sa: Channel): (r: Channel)
    ensures sa == 255 ==> r == s
    ensures sa == 0 ==> r == d
  {
    MixBound(s, d, sa);
    (s * sa + d * (255 - sa) + 127) / 255
  }

  lemma MixBound(s: Channel, d: Channel, sa: Channel)
    ensures 0 <= s * sa + d * (255 - sa) <= 65025
  {
    Scaled(s, sa);
    Scaled(d, 255 - sa);
  }

  lemma Scaled(v: Channel, f: nat)
    ensures 0 <= v * f <= 255 * f
  {
    assert 255 * f - v * f == (255 - v) * f;
  }

  /** The mean is within half a unit of the exact weighted mean. */
  lemma MixNearest(s: Channel, d: Channel, sa: Channel)
    ensures -127 <= 255 * Mix(s, d, sa) - (s * sa + d * (255 - sa)) <= 127
  {
    MixBound(s, d, sa);
    var y := s * sa + d * (255 - sa) + 127;
    assert y == 255 * (y / 255) + y % 255;
  }

  /** The result forced opaque. */
  function Over(d: Pixel, c: Pixel): Pixel {
    Pixel(255, Mix(c.r, d.r, c.a), Mix(c.g, d.g, c.a), Mix(c.b, d.b, c.a))
  }

  method BlendRowScalar(p: array<Pixel>, n: nat, c: Pixel)
    requires n <= p.Length
    modifies p
    ensures forall i :: 0 <= i < p.Length ==> p[i] == if i < n then Over(old(p[i]), c) else old(p[i])
  {
    for i := 0 to n
      invariant forall k :: 0 <= k < p.Length ==> p[k] == if k < i then Over(old(p[k]), c) else old(p[k])
    {
      p[i] := Over(p[i], c);
    }
  }

  // ----- 16-bit lanes -----

  type Word = n: nat | n < 0x1_0000

  /** Eight lanes, blue green red alpha of two pixels. */
  type Lanes = v: seq<Word> | |v| == 8 witness [0, 0, 0, 0, 0, 0, 0, 0]

  function Wrap(n: nat): Word { n % 0x1_0000 }

  function Sum(x: Word, y: Word): Word {
    var n: nat := x;
    Wrap(n + y)
  }

  function Product(x: Word, y: Word): Word {
    var n: nat := x;
    Wrap(n * y)
  }

  function Add16(a: Lanes, b: Lanes): Lanes { seq(8, i requires 0 <= i < 8 => Sum(a[i], b[i])) }

  function Mul16(a: Lanes, b: Lanes): Lanes { seq(8, i requires 0 <= i < 8 => Product(a[i], b[i])) }

  function Shr8(a: Lanes): Lanes { seq(8, i requires 0 <= i < 8 => a[i] / 256) }

  /** Lanes of two unpacked pixels. */
  function Unpack(p: Pixel, q: Pixel): Lanes { [p.b, p.g, p.r, p.a, q.b, q.g, q.r, q.a] }

  /** Saturation of a lane read as signed. */
  function Saturate(w: Word): Channel { if w >= 0x8000 then 0 else if w > 255 then 255 else w }

  /** Or-ing 255 into a lane below 256. */
  function OrAlpha(v: Lanes): (r: Lanes)
    requires v[3] < 256 && v[7] < 256
    ensures r[3] == r[7] == 255 && forall i :: 0 <= i < 8 && i != 3 && i != 7 ==> r[i] == v[i]
  {
    v[3 := 255][7 := 255]
  }

  function PackFirst(v: Lanes): Pixel { Pixel(Saturate(v[3]), Saturate(v[2]), Saturate(v[1]), Saturate(v[0])) }

  function PackSecond(v: Lanes): Pixel { Pixel(Saturate(v[7]), Saturate(v[6]), Saturate(v[5]), Saturate(v[4])) }

  /** One lane of the vector path, with every intermediate cut to 16 bits. */
  function Lane(s: Word, sa: Word, d: Word, ia: Word): Word { Divided(Product(s, sa), Product(d, ia)) }

  function Divided(p: Word, q: Word): Word {
    var y := Sum(Sum(p, q), 127);
    Sum(Sum(y, y / 256), 1) / 256
  }

  function BlendLanes(c: Lanes, sa: Lanes, d: Lanes, ia: Lanes): (q: Lanes)
    ensures forall i :: 0 <= i < 8 ==> q[i] == Lane(c[i], sa[i], d[i], ia[i])
  {
    var y := Add16(Add16(Mul16(c, sa), Mul16(d, ia)), [127, 127, 127, 127, 127, 127, 127, 127]);
    Shr8(Add16(Add16(y, Shr8(y)), [1, 1, 1, 1, 1, 1, 1, 1]))
  }

  /** Division by 255 by shifts and adds, for every sum a blend can produce. */
  lemma Div255(y: nat)
    requires y <= 65152
    ensures (y + 1 + y / 256) / 256 == y / 255 && y + 1 + y / 256 < 0x1_0000
  {
    var q, r := y / 255, y % 255;
    assert y == 255 * q + r && q <= 255;
    var h := y / 256;
    // y = 256 q + (r - q), so y / 256 is q or q - 1
    if r >= q {
      assert h == q;
    } else {
      assert h == q - 1;
    }
  }

  /** No lane overflows, and each computes the scalar channel. */
  lemma LaneIsMix(s: Channel, sa: Channel, d: Channel)
    ensures Lane(s, sa, d, 255 - sa) == Mix(s, d, sa)
  {
    hide Divided, Product;
    MixBound(s, d, sa);
    Scaled(s, sa);
    Scaled(d, 255 - sa);
    Exact(s, sa);
    Exact(d, 255 - sa);
    DividedIs(s * sa, d * (255 - sa));
  }

  lemma Exact(x: Word, y: Word)
    ensures x as nat + y as nat < 0x1_0000 ==> Sum(x, y) == x as nat + y as nat
    ensures x as nat * y as nat < 0x1_0000 ==> Product(x, y) == x as nat * y as nat
  {
    var s, p: nat := x as nat + y as nat, x as nat * y as nat;
    WrapSmall(s);
    WrapSmall(p);
  }

  lemma WrapSmall(n: nat)
    ensures n < 0x1_0000 ==> Wrap(n) == n
  {
  }

  lemma DividedIs(p: Word, q: Word)
    requires p as nat + q as nat <= 65025
    ensures Divided(p, q) == (p as nat + q as nat + 127) / 255
  {
    hide Sum;
    var y: Word := p as nat + q as nat + 127;
    Exact(p, q);
    Exact(p as nat + q as nat, 127);
    Div255(y);
    Exact(y, y / 256);
    Exact(y as nat + y / 256, 1);
  }

  /** The alpha lanes stay below 256 before 255 is or-ed into them. */
  lemma AlphaLane(d: Channel)
    ensures Lane(0, 0, d, 0) == 0
  {
  }

  function ColourLanes(c: Pixel): Lanes { [c.b, c.g, c.r, 0, c.b, c.g, c.r, 0] }

  function AlphaLanes(a: Channel): Lanes { [a, a, a, 0, a, a, a, 0] }

  /** Two pixels through the vector path. */
  method BlendPair(p: Pixel, q: Pixel, c: Pixel) returns (p': Pixel, q': Pixel)
    ensures p' == Over(p, c) && q' == Over(q, c)
  {
    hide Lane, Mix;
    var d := Unpack(p, q);
    var v := BlendLanes(ColourLanes(c), AlphaLanes(c.a), d, AlphaLanes(255 - c.a));
    LaneIsMix(c.b, c.a, p.b);
    LaneIsMix(c.g, c.a, p.g);
    LaneIsMix(c.r, c.a, p.r);
    AlphaLane(p.a);
    LaneIsMix(c.b, c.a, q.b);
    LaneIsMix(c.g, c.a, q.g);
    LaneIsMix(c.r, c.a, q.r);
    AlphaLane(q.a);
    v := OrAlpha(v);
    p', q' := PackFirst(v), PackSecond(v);
  }

  /** The fast row blend computes what the reference computes, for every length, content and colour. */
  method BlendRowVector(p: array<Pixel>, n: nat, c: Pixel)
    requires n <= p.Length
    modifies p
    ensures forall i :: 0 <= i < p.Length ==> p[i] == if i < n then Over(old(p[i]), c) else old(p[i])
  {
    if c.a == 255 {
      for i := 0 to n
        invariant forall k :: 0 <= k < p.Length ==> p[k] == if k < i then Over(old(p[k]), c) else old(p[k])
      {
        p[i] := Pixel(255, c.r, c.g, c.b);
      }
      return;
    }
    var i := 0;
    while i + 3 < n
      invariant 0 <= i <= n
      invariant forall k :: 0 <= k < p.Length ==> p[k] == if k < i then Over(old(p[k]), c) else old(p[k])
    {
      var a0, a1 := BlendPair(p[i], p[i + 1], c);
      var a2, a3 := BlendPair(p[i + 2], p[i + 3], c);
      p[i], p[i + 1], p[i + 2], p[i + 3] := a0, a1, a2, a3;
      i := i + 4;
    }
    while i < n
      invariant 0 <= i <= n
      invariant forall k :: 0 <= k < p.Length ==> p[k] == if k < i then Over(old(p[k]), c) else old(p[k])
    {
      p[i] := Over(p[i], c);
      i := i + 1;
    }
  }
}
