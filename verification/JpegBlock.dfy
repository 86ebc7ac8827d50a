/** Entropy coding of one 8x8 block of quantised coefficients in zigzag order: size categories, DC
    prediction, AC run lengths with ZRL and end-of-block, and the decoder that undoes them. */
module JpegBlock {
  import opened Bits
  import opened Huffman

  const EOB: byte := 0x00
  const ZRL: byte := 0xF0

  /** 64 coefficients; 8-bit samples give DCT coefficients of at most 1024, far below this bound. */
  type Block = q: seq<int> | |q| == 64 && forall k :: 0 <= k < 64 ==> -0x8000 < q[k] < 0x8000
    witness seq(64, _ => 0)

  /** A Huffman table as the encoder lists it in a DHT segment. */
  datatype Code = Code(counts: Counts, syms: seq<byte>) {
    ghost predicate Valid() { Kraft(counts) && Total(counts, 1) == |syms| <= MAX_HUFF }

    /** Lists the DC size categories 0..11 and nothing else. */
    ghost predicate IsDc() {
      Valid() && forall s: byte :: s in syms <==> s <= 11
    }

    /** Lists every run with every AC size 1..10, EOB and ZRL, and no larger size. */
    ghost predicate IsAc() {
      && Valid() && EOB in syms && ZRL in syms
      && (forall run: nat, cat: nat :: run < 16 && 1 <= cat <= 10 ==> Symbol(run, cat) in syms)
      && (forall s: byte :: s in syms ==> s % 16 <= 10)
    }

    function Bits(s: byte): seq<bool> { EncBits(counts, syms, s) }

    function Tab(): (t: Table)
      requires Total(counts, 1) == |syms|
      ensures t.Valid() && t.syms == syms
    {
      CanonTable(counts, syms)
    }
  }

  function Symbol(run: nat, cat: nat): (s: byte)
    requires run < 16 && cat < 16
    ensures s / 16 == run && s % 16 == cat
  {
    16 * run + cat
  }

  // ----- size categories -----

  function Abs(v: int): nat { if v < 0 then -v else v }

  /** The number of bits of a magnitude. */
  function Cat(n: nat): nat { if n == 0 then 0 else 1 + Cat(n / 2) }

  /** The `Cat` low bits of the value; negative values are offset by one's complement. */
  function MagVal(v: int): (x: nat)
    ensures x < Pow2(Cat(Abs(v)))
  {
    CatBound(Abs(v));
    if v < 0 then v + (Pow2(Cat(-v)) - 1) else v
  }

  function Mag(v: int): seq<bool> { BitsOf(MagVal(v), Cat(Abs(v))) }

  /** The decoder's sign extension of an `s`-bit magnitude. */
  function Extend(x: nat, s: nat): int
    requires s > 0
  {
    if x < Pow2(s - 1) then x - (Pow2(s) - 1) else x
  }

  lemma {:induction false} CatBound(n: nat)
    ensures n < Pow2(Cat(n))
    ensures n > 0 ==> Cat(n) >= 1 && Pow2(Cat(n) - 1) <= n
  {
    if n > 0 {
      CatBound(n / 2);
    }
  }

  lemma {:induction false} CatSmall(n: nat, k: nat)
    requires n < Pow2(k)
    ensures Cat(n) <= k
  {
    if n > 0 {
      CatSmall(n / 2, k - 1);
    }
  }

  /** Extending the magnitude bits of a nonzero value gives the value back. */
  lemma ExtendMag(v: int)
    requires v != 0
    ensures Cat(Abs(v)) >= 1 && Extend(Val(Mag(v)), Cat(Abs(v))) == v
  {
    CatBound(Abs(v));
    ValBitsOf(MagVal(v), Cat(Abs(v)));
    LowSmall(MagVal(v), Cat(Abs(v)));
  }

  method Category(v: int) returns (cat: nat)
    ensures cat == Cat(Abs(v))
  {
    var ad := if v < 0 then -v else v;
    cat := 0;
    while ad != 0
      invariant ad >= 0 && cat + Cat(ad) == Cat(Abs(v))
    {
      cat := cat + 1;
      ad := ad / 2;
    }
  }

  // ----- what the encoder writes -----

  function DcBits(dc: Code, diff: int): seq<bool>
    requires Cat(Abs(diff)) < 256
  {
    dc.Bits(Cat(Abs(diff))) + Mag(diff)
  }

  function Zrls(ac: Code, n: nat): seq<bool> {
    if n == 0 then [] else ac.Bits(ZRL) + Zrls(ac, n - 1)
  }

  function CoefBits(ac: Code, run: nat, v: int): seq<bool>
    requires run < 16 && Cat(Abs(v)) < 16
  {
    ac.Bits(Symbol(run, Cat(Abs(v)))) + Mag(v)
  }

  lemma SmallCat(v: int, k: nat)
    requires k == 15 || k == 16
    requires if k == 15 then -0x8000 < v < 0x8000 else -0x1_0000 < v < 0x1_0000
    ensures Cat(Abs(v)) <= k
  {
    Pow2Values();
    CatSmall(Abs(v), k);
  }

  /** The AC part from coefficient `i` on, with `run` zeros not yet written. */
  function AcBits(ac: Code, q: Block, i: nat, run: nat): seq<bool>
    requires 1 <= i <= 64
    decreases 64 - i
  {
    if i == 64 then (if run > 0 then ac.Bits(EOB) else [])
    else if q[i] == 0 then AcBits(ac, q, i + 1, run + 1)
    else
      SmallCat(q[i], 15);
      Zrls(ac, run / 16) + (CoefBits(ac, run % 16, q[i]) + AcBits(ac, q, i + 1, 0))
  }

  type Pred = p: int | -0x8000 < p < 0x8000

  function BlockBits(dc: Code, ac: Code, q: Block, pred: Pred): seq<bool> {
    SmallCat(q[0] - pred, 16);
    DcBits(dc, q[0] - pred) + AcBits(ac, q, 1, 0)
  }

  // ----- what the decoder reads -----

  function DecodeMag(bits: seq<bool>, s: nat): (r: Option<(int, seq<bool>)>)
    requires s > 0
    ensures r.Some? ==> |r.value.1| <= |bits|
  {
    if |bits| < s then None else Some((Extend(Val(bits[..s]), s), bits[s..]))
  }

  function DecodeDc(bits: seq<bool>, t: Table): (r: Option<(int, seq<bool>)>)
    requires t.Valid()
  {
    var d := Decode(bits, t);
    if d.None? then None
    else if d.value.0 == 0 then Some((0, d.value.1))
    else DecodeMag(d.value.1, d.value.0)
  }

  /** Continues at zigzag position `k` with the coefficients `c` read so far. */
  function DecodeAc(bits: seq<bool>, t: Table, k: nat, c: seq<int>): (r: Option<(seq<int>, seq<bool>)>)
    requires t.Valid() && |c| == 64
    ensures r.Some? ==> |r.value.0| == 64
    decreases |bits|, 0
  {
    var d := Decode(bits, t);
    if k >= 64 then Some((c, bits))
    else if d.None? then None
    else DecodeRun(d.value.1, t, k, c, d.value.0)
  }

  /** The step after reading the run/size symbol `rs`. */
  function DecodeRun(b: seq<bool>, t: Table, k: nat, c: seq<int>, rs: byte): (r: Option<(seq<int>, seq<bool>)>)
    requires t.Valid() && |c| == 64
    ensures r.Some? ==> |r.value.0| == 64
    decreases |b|, 1
  {
    if rs % 16 == 0 then
      if rs / 16 == 15 then DecodeAc(b, t, k + 16, c) else Some((c, b))
    else if k + rs / 16 > 63 then None
    else
      var m := DecodeMag(b, rs % 16);
      if m.None? then None else DecodeAc(m.value.1, t, k + rs / 16 + 1, c[k + rs / 16 := m.value.0])
  }

  function Zeros(): (z: seq<int>)
    ensures |z| == 64 && forall k :: 0 <= k < 64 ==> z[k] == 0
  {
    seq(64, k => 0)
  }

  function DecodeBlock(bits: seq<bool>, dt: Table, at: Table, pred: int): (r: Option<(seq<int>, seq<bool>)>)
    requires dt.Valid() && at.Valid()
    ensures r.Some? ==> |r.value.0| == 64
  {
    var d := DecodeDc(bits, dt);
    if d.None? then None else DecodeAc(d.value.1, at, 1, Zeros()[0 := pred + d.value.0])
  }

  // ----- the round trip -----

  /** Table `t` decodes whatever `code` writes for the symbols it lists. */
  ghost predicate Undoes(t: Table, code: Code) {
    && t.Valid()
    && forall s: byte, rest: seq<bool> :: s in code.syms ==> Decode(code.Bits(s) + rest, t) == Some((s, rest))
  }

  lemma TabUndoes(code: Code)
    requires code.Valid()
    ensures Undoes(code.Tab(), code)
  {
    forall s: byte, rest: seq<bool> | s in code.syms
      ensures Decode(code.Bits(s) + rest, code.Tab()) == Some((s, rest))
    {
      DecodeSymbol(code.counts, code.syms, s, rest);
    }
  }

  /** What baseline coding can express: 11-bit DC differences and 10-bit AC coefficients. */
  predicate InRange(q: seq<int>, pred: int)
    requires |q| == 64
  {
    -2047 <= q[0] - pred <= 2047 && forall k :: 1 <= k < 64 ==> -1023 <= q[k] <= 1023
  }

  lemma DecodeMagOf(v: int, rest: seq<bool>)
    requires v != 0
    ensures Cat(Abs(v)) >= 1
    ensures DecodeMag(Mag(v) + rest, Cat(Abs(v))) == Some((v, rest))
  {
    ExtendMag(v);
    var b, n := Mag(v) + rest, Cat(Abs(v));
    assert b[..n] == Mag(v) && b[n..] == rest;
  }

  lemma DcRoundTrip(dc: Code, t: Table, diff: int, rest: seq<bool>)
    requires dc.IsDc() && Undoes(t, dc) && -2047 <= diff <= 2047
    ensures Cat(Abs(diff)) <= 11
    ensures DecodeDc(DcBits(dc, diff) + rest, t) == Some((diff, rest))
  {
    Pow2Values();
    CatSmall(Abs(diff), 11);
    var cat := Cat(Abs(diff));
    Assoc(dc.Bits(cat), Mag(diff), rest);
    assert Decode(dc.Bits(cat) + (Mag(diff) + rest), t) == Some((cat, Mag(diff) + rest));
    if diff == 0 {
      Unit(rest);
    } else {
      DecodeMagOf(diff, rest);
    }
  }

  /** The coefficients before position `i`, then zeros. */
  function Upto(q: seq<int>, i: nat): (c: seq<int>)
    requires |q| == 64 && i <= 64
    ensures |c| == 64
  {
    q[..i] + Zeros()[i..]
  }

  lemma UptoNext(q: seq<int>, i: nat)
    requires |q| == 64 && i < 64
    ensures Upto(q, i)[i := q[i]] == Upto(q, i + 1)
    ensures q[i] == 0 ==> Upto(q, i) == Upto(q, i + 1)
  {
  }

  lemma SymbolStep(ac: Code, t: Table, s: byte, b: seq<bool>, k: nat, c: seq<int>)
    requires Undoes(t, ac) && s in ac.syms && |c| == 64 && k < 64
    ensures DecodeAc(ac.Bits(s) + b, t, k, c) == DecodeRun(b, t, k, c, s)
  {
    assert Decode(ac.Bits(s) + b, t) == Some((s, b));
  }

  lemma CoefStep(b: seq<bool>, t: Table, k: nat, c: seq<int>, rs: byte, v: int, rest: seq<bool>)
    requires t.Valid() && |c| == 64 && rs % 16 != 0 && k + rs / 16 < 64
    requires DecodeMag(b, rs % 16) == Some((v, rest))
    ensures DecodeRun(b, t, k, c, rs) == DecodeAc(rest, t, k + rs / 16 + 1, c[k + rs / 16 := v])
  {
  }

  lemma {:induction false} ZrlsRoundTrip(ac: Code, t: Table, n: nat, k: nat, c: seq<int>, rest: seq<bool>)
    requires ac.IsAc() && Undoes(t, ac) && |c| == 64 && k + 16 * n < 64
    ensures DecodeAc(Zrls(ac, n) + rest, t, k, c) == DecodeAc(rest, t, k + 16 * n, c)
  {
    hide Kraft, Total, Undoes, Decode, EncBits;
    if n == 0 {
      Unit(rest);
    } else {
      Assoc(ac.Bits(ZRL), Zrls(ac, n - 1), rest);
      SymbolStep(ac, t, ZRL, Zrls(ac, n - 1) + rest, k, c);
      ZrlsRoundTrip(ac, t, n - 1, k + 16, c, rest);
    }
  }

  lemma CoefRoundTrip(ac: Code, t: Table, run: nat, v: int, k: nat, c: seq<int>, rest: seq<bool>)
    requires ac.IsAc() && Undoes(t, ac) && |c| == 64 && run < 16 && k + run < 64 && v != 0 && -1023 <= v <= 1023
    ensures Cat(Abs(v)) <= 10
    ensures DecodeAc(CoefBits(ac, run, v) + rest, t, k, c)
         == DecodeAc(rest, t, k + run + 1, c[k + run := v])
  {
    Pow2Values();
    CatSmall(Abs(v), 10);
    DecodeMagOf(v, rest);
    var s := Symbol(run, Cat(Abs(v)));
    Assoc(ac.Bits(s), Mag(v), rest);
    SymbolStep(ac, t, s, Mag(v) + rest, k, c);
    CoefStep(Mag(v) + rest, t, k, c, s, v, rest);
  }

  /** A run of `16 n + r` zeros from position `k` and the coefficient that ends it. */
  lemma RunRoundTrip(ac: Code, t: Table, n: nat, r: nat, v: int, k: nat, c: seq<int>, tail: seq<bool>, rest: seq<bool>)
    requires ac.IsAc() && Undoes(t, ac) && |c| == 64 && r < 16 && k + 16 * n + r < 64 && v != 0 && -1023 <= v <= 1023
    ensures Cat(Abs(v)) <= 10
    ensures DecodeAc((Zrls(ac, n) + (CoefBits(ac, r, v) + tail)) + rest, t, k, c)
         == DecodeAc(tail + rest, t, k + 16 * n + r + 1, c[k + 16 * n + r := v])
  {
    CoefRoundTrip(ac, t, r, v, k + 16 * n, c, tail + rest);
    var zs, cs := Zrls(ac, n), CoefBits(ac, r, v);
    Assoc(zs, cs + tail, rest);
    Assoc(cs, tail, rest);
    ZrlsRoundTrip(ac, t, n, k, c, cs + (tail + rest));
  }

  lemma LongRunRoundTrip(ac: Code, t: Table, run: nat, v: int, i: nat, c: seq<int>, tail: seq<bool>, rest: seq<bool>)
    requires ac.IsAc() && Undoes(t, ac) && |c| == 64 && run <= i < 64 && v != 0 && -1023 <= v <= 1023
    ensures Cat(Abs(v)) <= 10
    ensures DecodeAc((Zrls(ac, run / 16) + (CoefBits(ac, run % 16, v) + tail)) + rest, t, i - run, c)
         == DecodeAc(tail + rest, t, i + 1, c[i := v])
  {
    hide DecodeAc, Zrls, CoefBits, Undoes, Kraft, Total, CanonTable;
    var n, r := run / 16, run % 16;
    assert i - run + 16 * n + r == i;
    RunRoundTrip(ac, t, n, r, v, i - run, c, tail, rest);
  }

  lemma DecodeDone(bits: seq<bool>, t: Table, c: seq<int>)
    requires t.Valid() && |c| == 64
    ensures DecodeAc(bits, t, 64, c) == Some((c, bits))
  {
  }

  lemma EobRoundTrip(ac: Code, t: Table, k: nat, c: seq<int>, rest: seq<bool>)
    requires ac.IsAc() && Undoes(t, ac) && |c| == 64 && k < 64
    ensures DecodeAc(ac.Bits(EOB) + rest, t, k, c) == Some((c, rest))
  {
    SymbolStep(ac, t, EOB, rest, k, c);
  }

  /** Decoding the AC part from `run` positions before `i` recovers the rest of the block. */
  lemma {:induction false} AcRoundTrip(ac: Code, t: Table, q: Block, i: nat, run: nat, rest: seq<bool>)
    requires ac.IsAc() && Undoes(t, ac) && 1 <= i <= 64 && run < i
    requires forall k :: 1 <= k < 64 ==> -1023 <= q[k] <= 1023
    ensures DecodeAc(AcBits(ac, q, i, run) + rest, t, i - run, Upto(q, i)) == Some((q, rest))
    decreases 64 - i
  {
    hide DecodeAc, Zrls, CoefBits, Cat, Decode;
    if i == 64 {
      assert Upto(q, i) == q;
      if run > 0 {
        EobRoundTrip(ac, t, i - run, q, rest);
      } else {
        Unit(rest);
        DecodeDone(rest, t, q);
      }
    } else if q[i] == 0 {
      UptoNext(q, i);
      AcRoundTrip(ac, t, q, i + 1, run + 1, rest);
    } else {
      SmallCat(q[i], 15);
      LongRunRoundTrip(ac, t, run, q[i], i, Upto(q, i), AcBits(ac, q, i + 1, 0), rest);
      UptoNext(q, i);
      AcRoundTrip(ac, t, q, i + 1, 0, rest);
    }
  }

  /** A block in range decodes to itself and both sides consume the same bits. */
  lemma BlockRoundTrip(dc: Code, ac: Code, q: Block, pred: Pred, rest: seq<bool>)
    requires dc.IsDc() && ac.IsAc() && InRange(q, pred)
    ensures DecodeBlock(BlockBits(dc, ac, q, pred) + rest, dc.Tab(), ac.Tab(), pred) == Some((q, rest))
  {
    hide Kraft, Total, CanonTable, DecodeAc, AcBits, DcBits, DecodeDc, Undoes, Cat;
    SmallCat(q[0] - pred, 16);
    var d, a := DcBits(dc, q[0] - pred), AcBits(ac, q, 1, 0);
    Assoc(d, a, rest);
    TabUndoes(dc);
    TabUndoes(ac);
    DcRoundTrip(dc, dc.Tab(), q[0] - pred, a + rest);
    assert Upto(q, 1) == Zeros()[0 := q[0]];
    AcRoundTrip(ac, ac.Tab(), q, 1, 0, rest);
  }
}
