/** The loops that write and read one block: what they put out and take in is what `JpegBlock` specifies. */
module JpegBlockIO {
  import opened Bits
  import opened BitIO
  import opened Huffman
  import opened JpegTables
  import opened JpegBlock

  ghost predicate Codes(lens: seq<nat>, codes: seq<nat>, code: Code) {
    && |lens| == |codes| == 256
    && forall s: byte :: (lens[s], codes[s]) == EncEntry(code.counts, code.syms, s, |code.syms|)
  }

  lemma LensFit(lens: seq<nat>, codes: seq<nat>, code: Code, s: byte)
    requires Codes(lens, codes, code) && code.Valid()
    ensures lens[s] <= 16 && BitsOf(codes[s], lens[s]) == code.Bits(s)
  {
    var i := LastIndex(code.syms, s, |code.syms|);
    if i.Some? {
      LaterCodes(code.counts, 1, 0, i.value);
    }
    assert (lens[s], codes[s]) == EncEntry(code.counts, code.syms, s, |code.syms|);
  }

  lemma EmittedGrows(a: seq<bool>, b: seq<bool>)
    ensures |Emitted(a)| <= |Emitted(a + b)|
  {
    EmittedAppend(a, b);
  }

  /** Symbol `s` and then the `n` low bits of `v`. */
  method PutCoded(bw: BitWriter, lens: seq<nat>, codes: seq<nat>, s: byte, v: nat, n: nat,
                  ghost code: Code, ghost head: seq<byte>, ghost bits: seq<bool>) returns (ok: bool)
    requires Codes(lens, codes, code) && code.Valid() && n <= 16 && bw.At(head, bits)
    modifies bw, bw.buf
    ensures ok ==> bw.At(head, bits + (code.Bits(s) + BitsOf(v, n)))
    ensures !ok ==> |head| + |Emitted(bits + (code.Bits(s) + BitsOf(v, n)))| > bw.buf.Length
  {
    LensFit(lens, codes, code, s);
    Assoc(bits, code.Bits(s), BitsOf(v, n));
    ok := bw.PutBits(codes[s], lens[s], head, bits);
    if !ok {
      EmittedGrows(bits + code.Bits(s), BitsOf(v, n));
      return;
    }
    if n != 0 {
      ok := bw.PutBits(v, n, head, bits + code.Bits(s));
    } else {
      Unit(bits + code.Bits(s));
    }
  }

  /** Writes a run of more than 15 zeros as ZRL codes and returns the zeros left over. */
  method PutRuns(bw: BitWriter, lens: seq<nat>, codes: seq<nat>, run0: nat,
                 ghost ac: Code, ghost head: seq<byte>, ghost bits: seq<bool>) returns (ok: bool, run: nat)
    requires Codes(lens, codes, ac) && ac.Valid() && bw.At(head, bits)
    modifies bw, bw.buf
    ensures ok ==> run == run0 % 16 && bw.At(head, bits + Zrls(ac, run0 / 16))
    ensures !ok ==> |head| + |Emitted(bits + Zrls(ac, run0 / 16))| > bw.buf.Length
  {
    hide Emitted, EncEntry, BitsOf, Tail, Kraft, Total;
    run := run0;
    ghost var cur := bits;
    ghost var all := bits + Zrls(ac, run0 / 16);
    while run > 15
      invariant run % 16 == run0 % 16 && bw.At(head, cur)
      invariant all == cur + Zrls(ac, run / 16)
    {
      LensFit(lens, codes, ac, ZRL);
      var more := bw.PutBits(codes[ZRL], lens[ZRL], head, cur);
      Assoc(cur, ac.Bits(ZRL), Zrls(ac, run / 16 - 1));
      cur := cur + ac.Bits(ZRL);
      if !more {
        EmittedGrows(cur, Zrls(ac, run / 16 - 1));
        return false, run;
      }
      run := run - 16;
    }
    Unit(cur);
    ok := true;
  }

  function RunBits(ac: Code, run: nat, v: int): seq<bool>
    requires Cat(Abs(v)) < 16
  {
    Zrls(ac, run / 16) + CoefBits(ac, run % 16, v)
  }

  lemma AcBitsNext(ac: Code, q: Block, i: nat, run: nat, cur: seq<bool>)
    requires 1 <= i < 64 && q[i] != 0 && Cat(Abs(q[i])) < 16
    ensures cur + AcBits(ac, q, i, run) == (cur + RunBits(ac, run, q[i])) + AcBits(ac, q, i + 1, 0)
  {
    var zs, cs, tail := Zrls(ac, run / 16), CoefBits(ac, run % 16, q[i]), AcBits(ac, q, i + 1, 0);
    Assoc(zs, cs, tail);
    Assoc(cur, zs + cs, tail);
  }

  /** A nonzero coefficient after `run0` zeros. */
  method PutCoef(bw: BitWriter, lens: seq<nat>, codes: seq<nat>, run0: nat, v: int,
                 ghost ac: Code, ghost head: seq<byte>, ghost bits: seq<bool>) returns (ok: bool)
    requires Codes(lens, codes, ac) && ac.Valid() && bw.At(head, bits) && Cat(Abs(v)) < 16
    modifies bw, bw.buf
    ensures ok ==> bw.At(head, bits + RunBits(ac, run0, v))
    ensures !ok ==> |head| + |Emitted(bits + RunBits(ac, run0, v))| > bw.buf.Length
  {
    ghost var zs, cs := Zrls(ac, run0 / 16), CoefBits(ac, run0 % 16, v);
    Assoc(bits, zs, cs);
    var run;
    ok, run := PutRuns(bw, lens, codes, run0, ac, head, bits);
    if !ok {
      EmittedGrows(bits + zs, cs);
      return;
    }
    var cat := Category(v);
    ok := PutCoded(bw, lens, codes, Symbol(run, cat), MagVal(v), cat, ac, head, bits + zs);
  }

  /** The AC loop over the coefficients after the first one. */
  method PutAc(bw: BitWriter, q: Block, lens: seq<nat>, codes: seq<nat>,
               ghost ac: Code, ghost head: seq<byte>, ghost bits: seq<bool>) returns (ok: bool)
    requires Codes(lens, codes, ac) && ac.Valid() && bw.At(head, bits)
    modifies bw, bw.buf
    ensures ok ==> bw.At(head, bits + AcBits(ac, q, 1, 0))
    ensures !ok ==> |head| + |Emitted(bits + AcBits(ac, q, 1, 0))| > bw.buf.Length
  {
    ghost var all, cur := bits + AcBits(ac, q, 1, 0), bits;
    var run: nat := 0;
    for i := 1 to 64
      invariant bw.At(head, cur) && all == cur + AcBits(ac, q, i, run)
    {
      if q[i] == 0 {
        run := run + 1;
      } else {
        SmallCat(q[i], 15);
        ghost var next := cur + RunBits(ac, run, q[i]);
        AcBitsNext(ac, q, i, run, cur);
        ok := PutCoef(bw, lens, codes, run, q[i], ac, head, cur);
        if !ok {
          EmittedGrows(next, AcBits(ac, q, i + 1, 0));
          return;
        }
        cur := next;
        run := 0;
      }
    }
    if run > 0 {
      LensFit(lens, codes, ac, EOB);
      ok := bw.PutBits(codes[EOB], lens[EOB], head, cur);
    } else {
      Unit(cur);
      ok := true;
    }
  }

  /** Writes one block and returns the new DC predictor, or fails because the output does not fit. */
  method EncBlock(bw: BitWriter, q: Block, prev: Pred, dcLens: seq<nat>, dcCodes: seq<nat>,
                  acLens: seq<nat>, acCodes: seq<nat>,
                  ghost dc: Code, ghost ac: Code, ghost head: seq<byte>, ghost bits: seq<bool>)
    returns (ok: bool, prev': Pred)
    requires Codes(dcLens, dcCodes, dc) && Codes(acLens, acCodes, ac) && dc.Valid() && ac.Valid()
    requires bw.At(head, bits)
    modifies bw, bw.buf
    ensures prev' == q[0]
    ensures ok ==> bw.At(head, bits + BlockBits(dc, ac, q, prev))
    ensures !ok ==> |head| + |Emitted(bits + BlockBits(dc, ac, q, prev))| > bw.buf.Length
  {
    var diff := q[0] - prev;
    prev' := q[0];
    SmallCat(diff, 16);
    var cat := Category(diff);
    ok := PutCoded(bw, dcLens, dcCodes, cat, MagVal(diff), cat, dc, head, bits);
    Assoc(bits, DcBits(dc, diff), AcBits(ac, q, 1, 0));
    if !ok {
      EmittedGrows(bits + DcBits(dc, diff), AcBits(ac, q, 1, 0));
      return;
    }
    ok := PutAc(bw, q, acLens, acCodes, ac, head, bits + DcBits(dc, diff));
  }

  /** Coefficients moved from zigzag to natural order. */
  function Natural(c: seq<int>): (n: seq<int>)
    requires |c| == 64
    ensures |n| == 64
    ensures forall i :: 0 <= i < 64 ==> n[i] == c[Izz(i)]
  {
    seq(64, i requires 0 <= i < 64 => c[Izz(i)])
  }

  lemma NaturalUpdate(c: seq<int>, k: nat, v: int)
    requires |c| == 64 && k < 64
    ensures Natural(c)[Zz(k) := v] == Natural(c[k := v])
  {
    ZigzagInverse(k);
    var l, r := Natural(c)[Zz(k) := v], Natural(c[k := v]);
    forall i | 0 <= i < 64
      ensures l[i] == r[i]
    {
      ZigzagInverse(i);
    }
  }

  /** Reads a magnitude of `s` bits and extends its sign. */
  method ReadMag(br: BitReader, s: nat) returns (r: Option<int>)
    requires br.Valid() && s > 0
    modifies br
    ensures br.Valid()
    ensures r.None? <==> DecodeMag(old(br.Rest()), s).None?
    ensures r.Some? ==> DecodeMag(old(br.Rest()), s) == Some((r.value, br.Rest()))
  {
    var x := br.Bits(s);
    if x < 0 {
      return None;
    }
    r := Some(if x < Pow2(s - 1) then x - (Pow2(s) - 1) else x);
  }

  method ReadDc(br: BitReader, t: Table) returns (r: Option<int>)
    requires br.Valid() && t.Valid()
    modifies br
    ensures br.Valid()
    ensures r.None? <==> DecodeDc(old(br.Rest()), t).None?
    ensures r.Some? ==> DecodeDc(old(br.Rest()), t) == Some((r.value, br.Rest()))
  {
    var dcsym := HuffDecode(br, t);
    if dcsym < 0 {
      return None;
    }
    if dcsym == 0 {
      return Some(0);
    }
    r := ReadMag(br, dcsym);
  }

  /** The AC loop: fills in the coefficients after the first one. */
  method ReadAc(br: BitReader, t: Table, dc: int) returns (r: Option<seq<int>>)
    requires br.Valid() && t.Valid()
    modifies br
    ensures br.Valid()
    ensures r.None? <==> DecodeAc(old(br.Rest()), t, 1, Zeros()[0 := dc]).None?
    ensures r.Some? ==> var d := DecodeAc(old(br.Rest()), t, 1, Zeros()[0 := dc]);
                        r.value == Natural(d.value.0) && br.Rest() == d.value.1
  {
    ghost var was := br.Rest();
    ghost var c := Zeros();
    var coeff := Zeros();
    assert Natural(c) == coeff;
    NaturalFirst(dc);
    c, coeff := c[0 := dc], coeff[0 := dc];
    ghost var all := DecodeAc(was, t, 1, c);
    var k := 1;
    while k < 64
      invariant br.Valid() && k >= 1 && |c| == 64 && coeff == Natural(c)
      invariant all == DecodeAc(br.Rest(), t, k, c)
      decreases |br.Rest()|
    {
      ghost var bits := br.Rest();
      var rs := HuffDecode(br, t);
      if rs < 0 {
        return None;
      }
      assert all == DecodeRun(br.Rest(), t, k, c, rs);
      var r', s := rs / 16, rs % 16;
      if s == 0 {
        if r' == 15 {
          k := k + 16;
          continue;
        }
        break;
      }
      if k + r' > 63 {
        return None;
      }
      k := k + r';
      var m := ReadMag(br, s);
      if m.None? {
        return None;
      }
      NaturalUpdate(c, k, m.value);
      coeff := coeff[Zz(k) := m.value];
      c := c[k := m.value];
      k := k + 1;
    }
    r := Some(coeff);
  }

  lemma NaturalFirst(v: int)
    ensures Natural(Zeros()[0 := v]) == Zeros()[0 := v]
  {
    NaturalUpdate(Zeros(), 0, v);
    assert Zz(0) == 0;
    assert Natural(Zeros()) == Zeros();
  }

  /** Reads one block given the DC predictor; the coefficients come in natural order. */
  method ReadBlock(br: BitReader, dt: Table, at: Table, ldc: int) returns (r: Option<seq<int>>)
    requires br.Valid() && dt.Valid() && at.Valid()
    modifies br
    ensures br.Valid()
    ensures r.None? <==> DecodeBlock(old(br.Rest()), dt, at, ldc).None?
    ensures r.Some? ==> var d := DecodeBlock(old(br.Rest()), dt, at, ldc);
                        r.value == Natural(d.value.0) && br.Rest() == d.value.1
  {
    var diff := ReadDc(br, dt);
    if diff.None? {
      return None;
    }
    r := ReadAc(br, at, ldc + diff.value);
  }
}
