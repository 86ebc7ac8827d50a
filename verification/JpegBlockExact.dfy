/** Exactly which blocks survive coding: whatever decodes is in range. */
module JpegBlockExact {
  import opened Bits
  import opened Huffman
  import opened JpegBlock

  lemma ExtendBound(x: nat, s: nat, m: nat)
    requires 0 < s <= m && x < Pow2(s)
    ensures -(Pow2(m) - 1) <= Extend(x, s) <= Pow2(m) - 1
  {
    Pow2Mono(s, m);
  }

  lemma {:induction false} DecodedAcInRange(bits: seq<bool>, ac: Code, k: nat, c: seq<int>)
    requires ac.IsAc() && |c| == 64 && k >= 1
    requires forall j :: 1 <= j < 64 ==> -1023 <= c[j] <= 1023
    ensures var r := DecodeAc(bits, ac.Tab(), k, c);
            r.Some? ==> r.value.0[0] == c[0] && forall j :: 1 <= j < 64 ==> -1023 <= r.value.0[j] <= 1023
    decreases |bits|
  {
    hide Kraft, Total, CanonTable, Decode, Extend, Val, Pow2;
    var d := Decode(bits, ac.Tab());
    if k < 64 && d.Some? {
      var rs, b := d.value.0, d.value.1;
      var r, s := rs / 16, rs % 16;
      if s == 0 {
        DecodedAcInRange(b, ac, k + 16, c);
      } else if k + r <= 63 && |b| >= s {
        ExtendBound(Val(b[..s]), s, 10);
        Pow2Values();
        DecodedAcInRange(b[s..], ac, k + r + 1, c[k + r := Extend(Val(b[..s]), s)]);
      }
    }
  }

  /** Whatever the decoder reads with these tables is in range. */
  lemma DecodedInRange(bits: seq<bool>, dc: Code, ac: Code, pred: int)
    requires dc.IsDc() && ac.IsAc()
    ensures var r := DecodeBlock(bits, dc.Tab(), ac.Tab(), pred); r.Some? ==> InRange(r.value.0, pred)
  {
    hide Kraft, Total, CanonTable, Decode, Extend, Val, Pow2, DecodeAc;
    var d := Decode(bits, dc.Tab());
    if d.Some? {
      var s, b := d.value.0, d.value.1;
      if s > 0 && |b| >= s {
        ExtendBound(Val(b[..s]), s, 11);
        Pow2Values();
      }
      var dd := DecodeDc(bits, dc.Tab());
      if dd.Some? {
        DecodedAcInRange(dd.value.1, ac, 1, Zeros()[0 := pred + dd.value.0]);
      }
    }
  }

  /** A block survives coding exactly when it is in range. */
  lemma BlockRoundTripIff(dc: Code, ac: Code, q: Block, pred: Pred, rest: seq<bool>)
    requires dc.IsDc() && ac.IsAc()
    ensures DecodeBlock(BlockBits(dc, ac, q, pred) + rest, dc.Tab(), ac.Tab(), pred) == Some((q, rest))
       <==> InRange(q, pred)
  {
    if InRange(q, pred) {
      BlockRoundTrip(dc, ac, q, pred, rest);
    } else {
      DecodedInRange(BlockBits(dc, ac, q, pred) + rest, dc, ac, pred);
    }
  }
}
