/** The entropy-coded scan: MCU-interleaved block order on both sides, and the round trip of all blocks. */
module JpegScan {
  import opened Bits
  import opened BitIO
  import opened Huffman
  import opened JpegBlock
  import opened JpegBlockExact
  import opened JpegBlockIO

  /** A block position: component, block row and block column. */
  datatype Visit = Visit(c: nat, row: nat, col: nat)

  /** A component of the frame header. */
  datatype Comp = Comp(id: byte, h: nat, v: nat, tq: byte)

  // ----- the encoder's image -----

  /** 4:2:0 planes of `mw` by `mh` MCUs, each plane a row-major list of 8x8 blocks. */
  datatype Planes<T> = Planes(mw: nat, mh: nat, y: seq<T>, cb: seq<T>, cr: seq<T>) {
    ghost predicate Valid() {
      |y| == (2 * mh) * (2 * mw) && |cb| == |cr| == mh * mw
    }

    predicate Has(v: Visit) {
      v.c < 3 && (if v.c == 0 then v.row < 2 * mh && v.col < 2 * mw else v.row < mh && v.col < mw)
    }

    function At(v: Visit): T
      requires Valid() && Has(v)
    {
      if v.c == 0 then
        IndexBound(v.row, v.col, 2 * mh, 2 * mw);
        y[v.row * (2 * mw) + v.col]
      else
        IndexBound(v.row, v.col, mh, mw);
        if v.c == 1 then cb[v.row * mw + v.col] else cr[v.row * mw + v.col]
    }
  }

  /** Quantised coefficients. */
  type Image = Planes<Block>

  lemma IndexBound(r: nat, c: nat, rows: nat, cols: nat)
    requires r < rows && c < cols
    ensures r * cols + c < rows * cols
  {
    MulMono(cols, r + 1, rows);
    assert cols * (r + 1) == r * cols + cols;
    assert cols * rows == rows * cols;
  }

  lemma GridBound(k: nat, rows: nat, cols: nat)
    requires k < rows * cols
    ensures cols > 0 && k / cols < rows && k % cols < cols
  {
    assert cols > 0;
    assert k == cols * (k / cols) + k % cols;
    if k / cols >= rows {
      MulMono(cols, rows, k / cols);
    }
  }

  lemma GridIndex(row: nat, col: nat, cols: nat)
    requires col < cols
    ensures (row * cols + col) / cols == row && (row * cols + col) % cols == col
  {
    var k := row * cols + col;
    assert k == cols * row + col;
    ModUnique(k, cols, row, col);
    assert cols * (k / cols) == cols * row;
  }

  /** The encoder's Huffman tables: luma, and one pair for both chroma components. */
  datatype Coder = Coder(dcY: Code, acY: Code, dcC: Code, acC: Code) {
    ghost predicate Valid() { dcY.Valid() && acY.Valid() && dcC.Valid() && acC.Valid() }

    ghost predicate IsBaseline() { dcY.IsDc() && acY.IsAc() && dcC.IsDc() && acC.IsAc() }

    function Dc(c: nat): Code { if c == 0 then dcY else dcC }

    function Ac(c: nat): Code { if c == 0 then acY else acC }
  }

  type Preds = p: seq<Pred> | |p| == 3 witness [0, 0, 0]

  /** Block `j` of an MCU in the encoder's order: four luma blocks, Cb, Cr. */
  function McuBlock(my: nat, mx: nat, j: nat): Visit {
    if j < 2 then Visit(0, 2 * my, 2 * mx + j)
    else if j < 4 then Visit(0, 2 * my + 1, 2 * mx + j - 2)
    else Visit(j - 3, my, mx)
  }

  /** The blocks the encoder's loops still visit from block `j` of MCU (`my`, `mx`) on. */
  function EncOrder(mw: nat, mh: nat, my: nat, mx: nat, j: nat): seq<Visit>
    requires my <= mh && mx <= mw && j <= 6
    decreases mh - my, mw - mx, 6 - j
  {
    if my == mh then []
    else if mx == mw then EncOrder(mw, mh, my + 1, 0, 0)
    else if j == 6 then EncOrder(mw, mh, my, mx + 1, 0)
    else [McuBlock(my, mx, j)] + EncOrder(mw, mh, my, mx, j + 1)
  }

  lemma {:induction false} EncOrderValid(img: Image, my: nat, mx: nat, j: nat)
    requires my <= img.mh && mx <= img.mw && j <= 6
    ensures forall v :: v in EncOrder(img.mw, img.mh, my, mx, j) ==> img.Has(v)
    decreases img.mh - my, img.mw - mx, 6 - j
  {
    if my < img.mh {
      if mx == img.mw {
        EncOrderValid(img, my + 1, 0, 0);
      } else if j == 6 {
        EncOrderValid(img, my, mx + 1, 0);
      } else {
        EncOrderValid(img, my, mx, j + 1);
      }
    }
  }

  ghost predicate AllIn(img: Image, vs: seq<Visit>) {
    img.Valid() && forall v :: v in vs ==> img.Has(v)
  }

  /** The bits the encoder writes for the blocks `vs`. */
  function EncodeBlocks(k: Coder, img: Image, vs: seq<Visit>, pred: Preds): seq<bool>
    requires AllIn(img, vs)
  {
    if vs == [] then []
    else
      var v := vs[0];
      var q := img.At(v);
      BlockBits(k.Dc(v.c), k.Ac(v.c), q, pred[v.c]) + EncodeBlocks(k, img, vs[1..], pred[v.c := q[0]])
  }

  function BlocksAt(img: Image, vs: seq<Visit>): (r: seq<seq<int>>)
    requires AllIn(img, vs)
    ensures |r| == |vs| && forall i :: 0 <= i < |vs| ==> r[i] == img.At(vs[i])
  {
    seq(|vs|, i requires 0 <= i < |vs| => img.At(vs[i]))
  }

  // ----- the decoder's scan -----

  /** The decoder's Huffman tables, selected by whether the component's identifier is 1. */
  datatype Tabs = Tabs(dc: seq<Table>, ac: seq<Table>) {
    ghost predicate Valid() {
      |dc| == |ac| == 2 && dc[0].Valid() && dc[1].Valid() && ac[0].Valid() && ac[1].Valid()
    }
  }

  function TabIdx(comp: Comp): (i: nat)
    ensures i < 2
  {
    if comp.id == 1 then 0 else 1
  }

  ghost predicate CompsIn(comps: seq<Comp>, vs: seq<Visit>) {
    |comps| <= 3 && forall v :: v in vs ==> v.c < |comps|
  }

  /** The blocks read for the visits `vs`, in zigzag order, starting from the DC predictors `ldc`. */
  function DecodeBlocks(bits: seq<bool>, vs: seq<Visit>, comps: seq<Comp>, tabs: Tabs, ldc: seq<int>)
    : (r: Option<seq<seq<int>>>)
    requires tabs.Valid() && CompsIn(comps, vs) && |ldc| == 3
    ensures r.Some? ==> |r.value| == |vs| && forall i :: 0 <= i < |vs| ==> |r.value[i]| == 64
    decreases |vs|
  {
    if vs == [] then Some([])
    else
      var c := vs[0].c;
      var t := TabIdx(comps[c]);
      var d := DecodeBlock(bits, tabs.dc[t], tabs.ac[t], ldc[c]);
      if d.None? then None
      else
        var r := DecodeBlocks(d.value.1, vs[1..], comps, tabs, ldc[c := d.value.0[0]]);
        if r.None? then None else Some([d.value.0] + r.value)
  }

  /** The decoder uses the encoder's tables, and tells luma from chroma as the encoder does. */
  ghost predicate Matches(comps: seq<Comp>, tabs: Tabs, k: Coder) {
    && k.Valid() && |comps| == 3
    && (forall c :: 0 <= c < 3 ==> (comps[c].id == 1 <==> c == 0))
    && tabs == Tabs([k.dcY.Tab(), k.dcC.Tab()], [k.acY.Tab(), k.acC.Tab()])
  }

  /** Every block is in range of the predictor its component has at that point of the scan. */
  ghost predicate AllInRange(vs: seq<Visit>, blocks: seq<seq<int>>, pred: seq<int>)
    requires |vs| == |blocks| && |pred| == 3 && (forall v :: v in vs ==> v.c < 3)
    requires forall i :: 0 <= i < |vs| ==> |blocks[i]| == 64
    decreases |vs|
  {
    vs == [] || (InRange(blocks[0], pred[vs[0].c])
                 && AllInRange(vs[1..], blocks[1..], pred[vs[0].c := blocks[0][0]]))
  }

  /** All blocks of a scan in range are recovered, in order. */
  lemma {:induction false} BlocksRoundTrip(k: Coder, img: Image, vs: seq<Visit>, comps: seq<Comp>, tabs: Tabs,
                                           pred: Preds, rest: seq<bool>)
    requires Matches(comps, tabs, k) && k.IsBaseline() && tabs.Valid() && AllIn(img, vs)
    requires AllInRange(vs, BlocksAt(img, vs), pred)
    ensures DecodeBlocks(EncodeBlocks(k, img, vs, pred) + rest, vs, comps, tabs, pred) == Some(BlocksAt(img, vs))
    decreases |vs|
  {
    hide BlockBits, DecodeBlock, InRange;
    if vs == [] {
      assert BlocksAt(img, vs) == [];
    } else {
      var v, tail := vs[0], vs[1..];
      var q := img.At(v);
      var bits, more := BlockBits(k.Dc(v.c), k.Ac(v.c), q, pred[v.c]), EncodeBlocks(k, img, tail, pred[v.c := q[0]]);
      Assoc(bits, more, rest);
      BlockRoundTrip(k.Dc(v.c), k.Ac(v.c), q, pred[v.c], more + rest);
      assert BlocksAt(img, vs)[1..] == BlocksAt(img, tail);
      assert BlocksAt(img, vs) == [q] + BlocksAt(img, tail);
      BlocksRoundTrip(k, img, tail, comps, tabs, pred[v.c := q[0]], rest);
    }
  }

  /** Whatever the decoder reads is in range. */
  lemma {:induction false} DecodedBlocksInRange(k: Coder, bits: seq<bool>, vs: seq<Visit>, comps: seq<Comp>, tabs: Tabs,
                                                ldc: seq<int>)
    requires Matches(comps, tabs, k) && k.IsBaseline() && tabs.Valid() && CompsIn(comps, vs) && |ldc| == 3
    ensures var r := DecodeBlocks(bits, vs, comps, tabs, ldc); r.Some? ==> AllInRange(vs, r.value, ldc)
    decreases |vs|
  {
    var r := DecodeBlocks(bits, vs, comps, tabs, ldc);
    if r.Some? && vs != [] {
      var c := vs[0].c;
      DecodedInRange(bits, k.Dc(c), k.Ac(c), ldc[c]);
      var t := TabIdx(comps[c]);
      var d := DecodeBlock(bits, tabs.dc[t], tabs.ac[t], ldc[c]);
      DecodedBlocksInRange(k, d.value.1, vs[1..], comps, tabs, ldc[c := d.value.0[0]]);
      assert r.value[1..] == DecodeBlocks(d.value.1, vs[1..], comps, tabs, ldc[c := d.value.0[0]]).value;
    }
  }

  /** A scan survives coding exactly when all its blocks are in range. */
  lemma ScanRoundTripIff(k: Coder, img: Image, vs: seq<Visit>, comps: seq<Comp>, tabs: Tabs, pred: Preds,
                         rest: seq<bool>)
    requires Matches(comps, tabs, k) && k.IsBaseline() && tabs.Valid() && AllIn(img, vs)
    ensures DecodeBlocks(EncodeBlocks(k, img, vs, pred) + rest, vs, comps, tabs, pred) == Some(BlocksAt(img, vs))
       <==> AllInRange(vs, BlocksAt(img, vs), pred)
  {
    if AllInRange(vs, BlocksAt(img, vs), pred) {
      BlocksRoundTrip(k, img, vs, comps, tabs, pred, rest);
    } else {
      DecodedBlocksInRange(k, EncodeBlocks(k, img, vs, pred) + rest, vs, comps, tabs, pred);
    }
  }

  // ----- the decoder's order -----

  /** The blocks the decoder's five nested loops still visit. */
  function ScanOrder(comps: seq<Comp>, mw: nat, mh: nat, my: nat, mx: nat, c: nat, vy: nat, hx: nat): (r: seq<Visit>)
    requires my <= mh && mx <= mw && c <= |comps|
    ensures forall v :: v in r ==> v.c < |comps|
    decreases mh - my, mw - mx, |comps| - c,
              if c < |comps| && vy < comps[c].v then comps[c].v - vy else 0,
              if c < |comps| && hx < comps[c].h then comps[c].h - hx else 0
  {
    if my == mh then []
    else if mx == mw then ScanOrder(comps, mw, mh, my + 1, 0, 0, 0, 0)
    else if c == |comps| then ScanOrder(comps, mw, mh, my, mx + 1, 0, 0, 0)
    else if vy >= comps[c].v then ScanOrder(comps, mw, mh, my, mx, c + 1, 0, 0)
    else if hx >= comps[c].h then ScanOrder(comps, mw, mh, my, mx, c, vy + 1, 0)
    else [Visit(c, my * comps[c].v + vy, mx * comps[c].h + hx)] + ScanOrder(comps, mw, mh, my, mx, c, vy, hx + 1)
  }

  /** The three components the encoder declares, and their sampling factors. */
  ghost predicate Is420(comps: seq<Comp>) {
    |comps| == 3 && comps[0].h == comps[0].v == 2 && comps[1].h == comps[1].v == comps[2].h == comps[2].v == 1
  }

  /** For the encoder's frame both sides visit the blocks in the same order. */
  lemma {:induction false} SameOrder(comps: seq<Comp>, mw: nat, mh: nat, my: nat, mx: nat)
    requires Is420(comps) && my <= mh && mx <= mw
    ensures ScanOrder(comps, mw, mh, my, mx, 0, 0, 0) == EncOrder(mw, mh, my, mx, 0)
    decreases mh - my, mw - mx
  {
    if my < mh {
      if mx == mw {
        SameOrder(comps, mw, mh, my + 1, 0);
      } else {
        SameOrder(comps, mw, mh, my, mx + 1);
        McuScan(comps, mw, mh, my, mx);
        McuEnc(mw, mh, my, mx);
      }
    }
  }

  function Mcu(my: nat, mx: nat): seq<Visit> {
    [Visit(0, 2 * my, 2 * mx), Visit(0, 2 * my, 2 * mx + 1), Visit(0, 2 * my + 1, 2 * mx),
     Visit(0, 2 * my + 1, 2 * mx + 1), Visit(1, my, mx), Visit(2, my, mx)]
  }

  lemma McuEnc(mw: nat, mh: nat, my: nat, mx: nat)
    requires my < mh && mx < mw
    ensures EncOrder(mw, mh, my, mx, 0) == Mcu(my, mx) + EncOrder(mw, mh, my, mx + 1, 0)
  {
    hide EncOrder;
    EncNext(mw, mh, my, mx, 0);
    EncNext(mw, mh, my, mx, 1);
    EncNext(mw, mh, my, mx, 2);
    EncNext(mw, mh, my, mx, 3);
    EncNext(mw, mh, my, mx, 4);
    EncNext(mw, mh, my, mx, 5);
    EncNext(mw, mh, my, mx, 6);
  }

  lemma EncNext(mw: nat, mh: nat, my: nat, mx: nat, j: nat)
    requires my < mh && mx < mw && j <= 6
    ensures EncOrder(mw, mh, my, mx, j)
         == if j == 6 then EncOrder(mw, mh, my, mx + 1, 0) else [McuBlock(my, mx, j)] + EncOrder(mw, mh, my, mx, j + 1)
  {
  }

  lemma McuScan(comps: seq<Comp>, mw: nat, mh: nat, my: nat, mx: nat)
    requires Is420(comps) && my < mh && mx < mw
    ensures ScanOrder(comps, mw, mh, my, mx, 0, 0, 0) == Mcu(my, mx) + ScanOrder(comps, mw, mh, my, mx + 1, 0, 0, 0)
  {
    hide ScanOrder;
    var r := ScanOrder(comps, mw, mh, my, mx + 1, 0, 0, 0);
    CompScan(comps, mw, mh, my, mx, 0);
    CompScan(comps, mw, mh, my, mx, 1);
    CompScan(comps, mw, mh, my, mx, 2);
    assert ScanOrder(comps, mw, mh, my, mx, 3, 0, 0) == r by {
      NextMcu(comps, mw, mh, my, mx);
    }
  }

  lemma NextMcu(comps: seq<Comp>, mw: nat, mh: nat, my: nat, mx: nat)
    requires my < mh && mx < mw
    ensures ScanOrder(comps, mw, mh, my, mx, |comps|, 0, 0) == ScanOrder(comps, mw, mh, my, mx + 1, 0, 0, 0)
  {
  }

  /** The blocks of one component in an MCU, row by row. */
  lemma CompScan(comps: seq<Comp>, mw: nat, mh: nat, my: nat, mx: nat, c: nat)
    requires Is420(comps) && my < mh && mx < mw && c < 3
    ensures ScanOrder(comps, mw, mh, my, mx, c, 0, 0)
         == (if c == 0 then [Visit(0, 2 * my, 2 * mx), Visit(0, 2 * my, 2 * mx + 1), Visit(0, 2 * my + 1, 2 * mx),
                             Visit(0, 2 * my + 1, 2 * mx + 1)] else [Visit(c, my, mx)])
            + ScanOrder(comps, mw, mh, my, mx, c + 1, 0, 0)
  {
    hide ScanOrder;
    RowScan(comps, mw, mh, my, mx, c, 0);
    if c == 0 {
      RowScan(comps, mw, mh, my, mx, c, 1);
    }
    assert ScanOrder(comps, mw, mh, my, mx, c, comps[c].v, 0) == ScanOrder(comps, mw, mh, my, mx, c + 1, 0, 0) by {
      LastRow(comps, mw, mh, my, mx, c);
    }
  }

  lemma LastRow(comps: seq<Comp>, mw: nat, mh: nat, my: nat, mx: nat, c: nat)
    requires my < mh && mx < mw && c < |comps|
    ensures ScanOrder(comps, mw, mh, my, mx, c, comps[c].v, 0) == ScanOrder(comps, mw, mh, my, mx, c + 1, 0, 0)
  {
  }

  lemma RowScan(comps: seq<Comp>, mw: nat, mh: nat, my: nat, mx: nat, c: nat, vy: nat)
    requires Is420(comps) && my < mh && mx < mw && c < 3 && vy < comps[c].v
    ensures ScanOrder(comps, mw, mh, my, mx, c, vy, 0)
         == (if c == 0 then [Visit(0, 2 * my + vy, 2 * mx), Visit(0, 2 * my + vy, 2 * mx + 1)]
             else [Visit(c, my + vy, mx)])
            + ScanOrder(comps, mw, mh, my, mx, c, vy + 1, 0)
  {
    if c == 0 {
      assert ScanOrder(comps, mw, mh, my, mx, c, vy, 2) == ScanOrder(comps, mw, mh, my, mx, c, vy + 1, 0);
      assert ScanOrder(comps, mw, mh, my, mx, c, vy, 1)
          == [Visit(0, 2 * my + vy, 2 * mx + 1)] + ScanOrder(comps, mw, mh, my, mx, c, vy, 2);
    } else {
      assert ScanOrder(comps, mw, mh, my, mx, c, vy, 1) == ScanOrder(comps, mw, mh, my, mx, c, vy + 1, 0);
    }
  }

  // ----- every block is visited exactly once -----

  predicate Distinct(vs: seq<Visit>) {
    vs == [] || (vs[0] !in vs[1..] && Distinct(vs[1..]))
  }

  /** The MCU a position belongs to, and its place in that MCU. */
  function McuRow(v: Visit): nat { if v.c == 0 then v.row / 2 else v.row }

  function McuCol(v: Visit): nat { if v.c == 0 then v.col / 2 else v.col }

  function McuPlace(v: Visit): nat { if v.c == 0 then 2 * (v.row % 2) + v.col % 2 else v.c + 3 }

  /** Position `v` comes at or after block `j` of MCU (`my`, `mx`). */
  predicate After(v: Visit, my: nat, mx: nat, j: nat) {
    my < McuRow(v) || (my == McuRow(v) && (mx < McuCol(v) || (mx == McuCol(v) && j <= McuPlace(v))))
  }

  lemma McuBlockPlace(my: nat, mx: nat, j: nat)
    requires j < 6
    ensures var v := McuBlock(my, mx, j); McuRow(v) == my && McuCol(v) == mx && McuPlace(v) == j
  {
  }

  lemma {:induction false} EncOrderAfter(mw: nat, mh: nat, my: nat, mx: nat, j: nat)
    requires my <= mh && mx <= mw && j <= 6
    ensures forall v :: v in EncOrder(mw, mh, my, mx, j) ==> After(v, my, mx, j)
    decreases mh - my, mw - mx, 6 - j
  {
    if my < mh {
      if mx == mw {
        EncOrderAfter(mw, mh, my + 1, 0, 0);
      } else if j == 6 {
        EncOrderAfter(mw, mh, my, mx + 1, 0);
      } else {
        EncOrderAfter(mw, mh, my, mx, j + 1);
        McuBlockPlace(my, mx, j);
      }
    }
  }

  lemma {:induction false} EncOrderDistinct(mw: nat, mh: nat, my: nat, mx: nat, j: nat)
    requires my <= mh && mx <= mw && j <= 6
    ensures Distinct(EncOrder(mw, mh, my, mx, j))
    decreases mh - my, mw - mx, 6 - j
  {
    if my < mh {
      if mx == mw {
        EncOrderDistinct(mw, mh, my + 1, 0, 0);
      } else if j == 6 {
        EncOrderDistinct(mw, mh, my, mx + 1, 0);
      } else {
        EncOrderDistinct(mw, mh, my, mx, j + 1);
        EncOrderAfter(mw, mh, my, mx, j + 1);
        McuBlockPlace(my, mx, j);
        assert EncOrder(mw, mh, my, mx, j)[1..] == EncOrder(mw, mh, my, mx, j + 1);
      }
    }
  }

  lemma {:induction false} EncOrderHas(mw: nat, mh: nat, my: nat, mx: nat, j: nat, r: nat, c: nat, k: nat)
    requires my <= mh && mx <= mw && j <= 6 && r < mh && c < mw && k < 6
    requires my < r || (my == r && (mx < c || (mx == c && j <= k)))
    ensures McuBlock(r, c, k) in EncOrder(mw, mh, my, mx, j)
    decreases mh - my, mw - mx, 6 - j
  {
    if mx == mw {
      EncOrderHas(mw, mh, my + 1, 0, 0, r, c, k);
    } else if j == 6 {
      EncOrderHas(mw, mh, my, mx + 1, 0, r, c, k);
    } else if (my, mx, j) != (r, c, k) {
      EncOrderHas(mw, mh, my, mx, j + 1, r, c, k);
    }
  }

  lemma PlaceBlock(v: Visit)
    requires v.c < 3
    ensures McuPlace(v) < 6 && McuBlock(McuRow(v), McuCol(v), McuPlace(v)) == v
  {
  }

  /** The scan visits exactly the blocks of the three planes. */
  lemma EncOrderComplete(img: Image, v: Visit)
    ensures v in EncOrder(img.mw, img.mh, 0, 0, 0) <==> img.Has(v)
  {
    EncOrderValid(img, 0, 0, 0);
    if img.Has(v) {
      PlaceBlock(v);
      EncOrderHas(img.mw, img.mh, 0, 0, 0, McuRow(v), McuCol(v), McuPlace(v));
    }
  }

  // ----- the encoder's MCU loop -----

  /** Code lengths and codes by symbol, for luma (0) and chroma (1). */
  datatype EncTabs =
    EncTabs(dcLens: seq<seq<nat>>, dcCodes: seq<seq<nat>>, acLens: seq<seq<nat>>, acCodes: seq<seq<nat>>)
  {
    ghost predicate For(k: Coder) {
      && |dcLens| == |dcCodes| == |acLens| == |acCodes| == 2 && k.Valid()
      && Codes(dcLens[0], dcCodes[0], k.dcY) && Codes(dcLens[1], dcCodes[1], k.dcC)
      && Codes(acLens[0], acCodes[0], k.acY) && Codes(acLens[1], acCodes[1], k.acC)
    }
  }

  /** With `bits` written, the blocks from `j` of MCU (`my`, `mx`) on make up the rest of `all`. */
  ghost predicate Todo(k: Coder, img: Image, my: nat, mx: nat, j: nat, prev: Preds, all: seq<bool>, bits: seq<bool>) {
    && my <= img.mh && mx <= img.mw && j <= 6
    && AllIn(img, EncOrder(img.mw, img.mh, my, mx, j))
    && all == bits + EncodeBlocks(k, img, EncOrder(img.mw, img.mh, my, mx, j), prev)
  }

  /** Writes block `v`, which is block `j` of the MCU. */
  method PutVisit(bw: BitWriter, img: Image, v: Visit, prev: Preds, t: EncTabs,
                  ghost my: nat, ghost mx: nat, ghost j: nat,
                  ghost k: Coder, ghost head: seq<byte>, ghost all: seq<bool>, ghost bits: seq<bool>)
    returns (ok: bool, prev': Preds, ghost bits': seq<bool>)
    requires t.For(k) && bw.At(head, bits) && Todo(k, img, my, mx, j, prev, all, bits)
    requires my < img.mh && mx < img.mw && j < 6 && v == McuBlock(my, mx, j)
    modifies bw, bw.buf
    ensures ok ==> bw.At(head, bits') && Todo(k, img, my, mx, j + 1, prev', all, bits')
    ensures !ok ==> |head| + |Emitted(all)| > bw.buf.Length
  {
    ghost var vs, rest := EncOrder(img.mw, img.mh, my, mx, j), EncOrder(img.mw, img.mh, my, mx, j + 1);
    assert vs == [v] + rest && v in vs && vs[1..] == rest;
    assert forall u :: u in rest ==> u in vs;
    var ti := if v.c == 0 then 0 else 1;
    var q := img.At(v);
    ghost var mine := BlockBits(k.Dc(v.c), k.Ac(v.c), q, prev[v.c]);
    var p;
    ok, p := EncBlock(bw, q, prev[v.c], t.dcLens[ti], t.dcCodes[ti], t.acLens[ti], t.acCodes[ti],
                      k.Dc(v.c), k.Ac(v.c), head, bits);
    prev' := prev[v.c := p];
    bits' := bits + mine;
    Assoc(bits, mine, EncodeBlocks(k, img, rest, prev'));
    if !ok {
      EmittedGrows(bits', EncodeBlocks(k, img, rest, prev'));
    }
  }

  /** The 2x2 luma blocks of an MCU. */
  method EncodeLuma(bw: BitWriter, img: Image, my: nat, mx: nat, prev: Preds, t: EncTabs,
                   ghost k: Coder, ghost head: seq<byte>, ghost all: seq<bool>, ghost bits: seq<bool>)
    returns (ok: bool, prev': Preds, ghost bits': seq<bool>)
    requires t.For(k) && bw.At(head, bits) && Todo(k, img, my, mx, 0, prev, all, bits)
    requires my < img.mh && mx < img.mw
    modifies bw, bw.buf
    ensures ok ==> bw.At(head, bits') && Todo(k, img, my, mx, 4, prev', all, bits')
    ensures !ok ==> |head| + |Emitted(all)| > bw.buf.Length
  {
    hide EncodeBlocks, EncOrder, Todo, EncTabs.For, BitWriter.At;
    ok, prev', bits' := true, prev, bits;
    for dy := 0 to 2
      invariant ok && bw.At(head, bits') && Todo(k, img, my, mx, 2 * dy, prev', all, bits')
    {
      ghost var j := 2 * dy;
      for dx := 0 to 2
        invariant ok && j == 2 * dy + dx && bw.At(head, bits') && Todo(k, img, my, mx, j, prev', all, bits')
      {
        assert Visit(0, 2 * my + dy, 2 * mx + dx) == McuBlock(my, mx, j);
        ok, prev', bits' := PutVisit(bw, img, Visit(0, 2 * my + dy, 2 * mx + dx), prev', t,
                                     my, mx, j, k, head, all, bits');
        if !ok {
          return;
        }
        j := j + 1;
      }
    }
  }

  method EncodeMcu(bw: BitWriter, img: Image, my: nat, mx: nat, prev: Preds, t: EncTabs,
                   ghost k: Coder, ghost head: seq<byte>, ghost all: seq<bool>, ghost bits: seq<bool>)
    returns (ok: bool, prev': Preds, ghost bits': seq<bool>)
    requires t.For(k) && bw.At(head, bits) && Todo(k, img, my, mx, 0, prev, all, bits)
    requires my < img.mh && mx < img.mw
    modifies bw, bw.buf
    ensures ok ==> bw.At(head, bits') && Todo(k, img, my, mx, 6, prev', all, bits')
    ensures !ok ==> |head| + |Emitted(all)| > bw.buf.Length
  {
    hide EncodeBlocks, EncOrder, Todo, EncTabs.For, BitWriter.At;
    ok, prev', bits' := EncodeLuma(bw, img, my, mx, prev, t, k, head, all, bits);
    if !ok {
      return;
    }
    ok, prev', bits' := PutVisit(bw, img, Visit(1, my, mx), prev', t, my, mx, 4, k, head, all, bits');
    if !ok {
      return;
    }
    ok, prev', bits' := PutVisit(bw, img, Visit(2, my, mx), prev', t, my, mx, 5, k, head, all, bits');
  }

  /** All bits of the scan. */
  function ScanBits(k: Coder, img: Image): seq<bool>
    requires img.Valid()
  {
    EncOrderValid(img, 0, 0, 0);
    EncodeBlocks(k, img, EncOrder(img.mw, img.mh, 0, 0, 0), [0, 0, 0])
  }

  method EncodeScan(bw: BitWriter, img: Image, t: EncTabs, ghost k: Coder, ghost head: seq<byte>) returns (ok: bool)
    requires t.For(k) && img.Valid() && bw.At(head, [])
    modifies bw, bw.buf
    ensures ok ==> bw.At(head, ScanBits(k, img))
    ensures !ok ==> |head| + |Emitted(ScanBits(k, img))| > bw.buf.Length
  {
    EncOrderValid(img, 0, 0, 0);
    var prev: Preds := [0, 0, 0];
    ghost var all, bits := ScanBits(k, img), [];
    Unit(all);
    for my := 0 to img.mh
      invariant bw.At(head, bits) && Todo(k, img, my, 0, 0, prev, all, bits)
    {
      for mx := 0 to img.mw
        invariant bw.At(head, bits) && Todo(k, img, my, mx, 0, prev, all, bits)
      {
        ok, prev, bits := EncodeMcu(bw, img, my, mx, prev, t, k, head, all, bits);
        if !ok {
          return;
        }
      }
    }
    Unit(bits);
    ok := true;
  }
}
