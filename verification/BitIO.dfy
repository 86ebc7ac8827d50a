/** The encoder's stuffing bit writer and the decoder's unstuffing bit reader. */
module BitIO {
  import opened Bits

  class BitWriter {
    const buf: array<byte>
    var len: nat
    var bitbuf: nat
    var nbits: nat

    constructor (out: array<byte>)
      ensures buf == out && len == 0 && At([], []) && Raw() == []
    {
      buf := out;
      len, bitbuf, nbits := 0, 0, 0;
    }

    ghost function Raw(): seq<byte>
      requires len <= buf.Length
      reads this, buf
    {
      buf[..len]
    }

    ghost function Pending(): seq<bool>
      reads this
    {
      BitsOf(bitbuf, nbits)
    }

    /** The writer put out `head` and then the entropy-coded `bits`; fewer than eight bits wait. */
    ghost predicate At(head: seq<byte>, bits: seq<bool>)
      reads this, buf
    {
      && len <= buf.Length
      && nbits < 8 && bitbuf < Pow2(nbits)
      && Raw() == head + Emitted(bits)
      && Pending() == Tail(bits)
    }

    method PutByte(v: byte) returns (ok: bool)
      requires len <= buf.Length
      modifies this`len, buf
      ensures len <= buf.Length
      ensures ok == (old(len) < buf.Length)
      ensures Raw() == old(Raw()) + (if ok then [v] else [])
    {
      ok := len < buf.Length;
      if ok {
        buf[len] := v;
        len := len + 1;
      }
    }

    /** One data byte; 0xFF is followed by a stuffed 0x00. */
    method PutData(v: byte) returns (ok: bool)
      requires len <= buf.Length
      modifies this`len, buf
      ensures len <= buf.Length
      ensures ok == (old(len) + |StuffByte(v)| <= buf.Length)
      ensures ok ==> Raw() == old(Raw()) + StuffByte(v)
    {
      ok := PutByte(v);
      if v == MARKER && ok {
        ok := PutByte(0);
      }
    }

    /** Shifts `n` bits into the pending ones, which the 32-bit buffer always has room for. */
    method ShiftIn(v: nat, n: nat)
      requires n <= 16 && nbits < 8 && bitbuf < Pow2(nbits)
      modifies this`bitbuf, this`nbits
      ensures nbits == old(nbits) + n && bitbuf < Pow2(nbits)
      ensures Pending() == old(Pending()) + BitsOf(v, n)
    {
      hide Low, Shl, BitsOf, Pow2;
      NoOverflow(bitbuf, nbits, v, n);
      BitsOfJoin(bitbuf, nbits, v, n);
      bitbuf := Low(Shl(bitbuf, n), 32) + Low(v, n); // the operands of the source's | share no bit
      nbits := nbits + n;
    }

    /** Appends the `n` low bits of `v`, or fails because the output does not fit. */
    method PutBits(v: nat, n: nat, ghost head: seq<byte>, ghost bits: seq<bool>) returns (ok: bool)
      requires n <= 16 && At(head, bits)
      modifies this, buf
      ensures ok ==> At(head, bits + BitsOf(v, n))
      ensures !ok ==> |head| + |Emitted(bits + BitsOf(v, n))| > buf.Length
    {
      hide BitsOf, Low, Pow2, Tail, Emitted, TopByte;
      ghost var all := Tail(bits) + BitsOf(v, n);
      ghost var p: seq<byte> := [];
      ShiftIn(v, n);
      Unit(Pending());
      Unit(Raw());
      while nbits >= 8
        invariant nbits <= 23 && bitbuf < Pow2(nbits) && len <= buf.Length
        invariant all == ByteBits(p) + Pending()
        invariant Raw() == head + Emitted(bits) + Stuff(p)
      {
        var b: byte := TopByte(bitbuf, nbits);
        MoveByte(p, b, BitsOf(bitbuf, nbits - 8));
        Assoc(head + Emitted(bits), Stuff(p), StuffByte(b));
        nbits := nbits - 8;
        BitsOfLow(bitbuf, nbits);
        bitbuf := Low(bitbuf, nbits);
        p := p + [b];
        ok := PutData(b);
        if !ok {
          Prefix(p, Pending());
          EmittedAppend(bits, BitsOf(v, n));
          return false;
        }
      }
      EmittedStep(head, bits, BitsOf(v, n), p, Pending());
      ok := true;
    }

    /** Fills the last byte up with ones. */
    method Flush(ghost head: seq<byte>, ghost bits: seq<bool>) returns (ok: bool)
      requires At(head, bits)
      modifies this, buf
      ensures len <= buf.Length
      ensures ok ==> Raw() == head + Emitted(Padded(bits))
      ensures !ok ==> |head| + |Emitted(Padded(bits))| > buf.Length
    {
      hide BitsOf, Pow2, Tail, Emitted, PaddedByte;
      ok := true;
      if nbits > 0 {
        var b := PaddedByte(bitbuf, nbits);
        LastByte(bits, BitsOf(Pow2(8 - nbits) - 1, 8 - nbits), b);
        Assoc(head, Emitted(bits), StuffByte(b));
        nbits := 0;
        ok := PutData(b);
      }
    }
  }

  /** What has been put out is at most what the bits so far make. */
  lemma Prefix(p: seq<byte>, rest: seq<bool>)
    ensures |Emitted(ByteBits(p) + rest)| >= |Stuff(p)|
  {
    PackBytes(p, rest);
    StuffAppend(p, FullBytes(rest));
  }

  /** The writer's 32-bit buffer cannot overflow: at most 7 pending and 16 new bits are in it. */
  lemma NoOverflow(buf: nat, nbits: nat, v: nat, n: nat)
    requires nbits < 8 && n <= 16 && buf < Pow2(nbits)
    ensures Low(Shl(buf, n), 32) == Shl(buf, n)
    ensures Shl(buf, n) + Low(v, n) < Pow2(nbits + n) <= Pow2(32)
  {
    ShlBound(buf, nbits, n);
    Pow2Mono(nbits + n, 32);
    LowSmall(Shl(buf, n), 32);
  }

  /** The byte the writer shifts out is the first eight of its pending bits. */
  function TopByte(buf: nat, nbits: nat): (b: byte)
    requires nbits >= 8 && buf < Pow2(nbits)
    ensures BitsOf(buf, nbits) == BitsOf(b, 8) + BitsOf(buf, nbits - 8)
  {
    ShrBound(buf, 8, nbits - 8);
    Pow2Values();
    BitsOfSplit(buf, 8, nbits - 8);
    Shr(buf, nbits - 8)
  }

  /** The pending bits with ones behind them. */
  function PaddedByte(buf: nat, nbits: nat): (b: byte)
    requires 0 < nbits < 8 && buf < Pow2(nbits)
    ensures BitsOf(b, 8) == BitsOf(buf, nbits) + BitsOf(Pow2(8 - nbits) - 1, 8 - nbits)
  {
    PaddedByteBits(buf, nbits, 8 - nbits);
    Shl(buf, 8 - nbits) + (Pow2(8 - nbits) - 1)
  }

  lemma PaddedByteBits(buf: nat, n: nat, k: nat)
    requires n + k == 8 && buf < Pow2(n)
    ensures Shl(buf, k) + (Pow2(k) - 1) < 256
    ensures BitsOf(Shl(buf, k) + (Pow2(k) - 1), 8) == BitsOf(buf, n) + BitsOf(Pow2(k) - 1, k)
  {
    hide Shl, BitsOf, Low;
    ShlBound(buf, n, k);
    LowSmall(Pow2(k) - 1, k);
    Pow2Values();
    BitsOfJoin(buf, n, Pow2(k) - 1, k);
  }

  lemma LastByte(bits: seq<bool>, ones: seq<bool>, b: byte)
    requires BitsOf(b, 8) == Tail(bits) + ones
    ensures Emitted(bits + ones) == Emitted(bits) + StuffByte(b)
  {
    ByteBitsOne(b);
    EmittedStep([], bits, ones, [b], []);
    Unit(Emitted(bits));
    Unit(Emitted(bits + ones));
  }

  class BitReader {
    const d: seq<byte>
    var pos: nat
    var bitbuf: nat
    var nbits: nat

    constructor (data: seq<byte>)
      ensures d == data && Valid() && Rest() == ByteBits(Unstuff(data))
    {
      d := data;
      pos, bitbuf, nbits := 0, 0, 0;
      new;
      assert d[0..] == data;
    }

    ghost predicate Valid()
      reads this
    {
      pos <= |d| && nbits < 8
    }

    /** The bits still to be read before a marker or the end of the data. */
    ghost function Rest(): seq<bool>
      requires pos <= |d|
      reads this
    {
      BitsOf(bitbuf, nbits) + ByteBits(Unstuff(d[pos..]))
    }

    /** Loads the next data byte into the empty buffer; 0, -1 at the end, -2 at a marker. */
    method Load() returns (r: int)
      requires pos <= |d| && nbits == 0
      modifies this
      ensures pos <= |d|
      ensures -2 <= r <= 0 && (r == -1 <==> old(pos) == |d|)
      ensures r == 0 <==> old(Rest()) != []
      ensures r == 0 ==> nbits == 8 && Rest() == old(Rest())
      ensures r < 0 ==> nbits == 0
    {
      hide BitsOf, ByteBits, Unstuff, Low, Shl;
      ghost var s := d[pos..];
      NoneWaiting(bitbuf, s);
      if pos >= |d| {
        return -1;
      }
      var c := d[pos];
      pos := pos + 1;
      if c == MARKER {
        if pos < |d| && d[pos] == 0 {
          pos := pos + 1;
        } else {
          return -2;
        }
      }
      assert s[|StuffByte(c)|..] == d[pos..];
      UnstuffNext(s);
      FreshByte(bitbuf, c);
      bitbuf := Low(Shl(bitbuf, 8), 32) + c;
      nbits := 8;
      r := 0;
    }

    /** The next bit, or -1 at the end of the data, or -2 at a marker. */
    method Bit() returns (b: int)
      requires Valid()
      modifies this
      ensures Valid()
      ensures b >= 0 <==> old(Rest()) != []
      ensures b >= 0 ==> old(Rest()) == [b == 1] + Rest() && b <= 1
      ensures b == -1 <==> old(nbits == 0 && pos == |d|)
    {
      if nbits == 0 {
        b := Load();
        if b < 0 {
          return;
        }
      }
      nbits := nbits - 1;
      BitsOfTop(bitbuf, nbits);
      b := Shr(bitbuf, nbits) % 2;
      Assoc([b == 1], BitsOf(bitbuf, nbits), ByteBits(Unstuff(d[pos..])));
    }

    /** Reads an `n`-bit number, or -1 when fewer than `n` bits are left. */
    method Bits(n: nat) returns (v: int)
      requires Valid()
      modifies this
      ensures Valid()
      ensures v < 0 <==> |old(Rest())| < n
      ensures v >= 0 ==> v == Val(old(Rest())[..n]) && Rest() == old(Rest())[n..]
    {
      hide Val, Pow2, BitsOf, ByteBits, Unstuff;
      ghost var was := Rest();
      v := 0;
      var k := n;
      NoBits();
      assert was[..0] == [];
      while k > 0
        invariant 0 <= k <= n && n - k <= |was|
        invariant Valid()
        invariant v == Val(was[..n - k]) && Rest() == was[n - k..]
      {
        var bit := Bit();
        if bit < 0 {
          return -1;
        }
        NextBit(was, n - k, bit == 1, Rest());
        v := 2 * v + bit;
        k := k - 1;
      }
    }
  }

  /** With no bits in the buffer the rest is what the data holds, which ends at its end or a marker. */
  lemma NoneWaiting(buf: nat, s: seq<byte>)
    ensures BitsOf(buf, 0) + ByteBits(Unstuff(s)) == ByteBits(Unstuff(s))
    ensures s == [] || (s[0] == MARKER && !(|s| > 1 && s[1] == 0)) ==> ByteBits(Unstuff(s)) == []
  {
    Unit(ByteBits(Unstuff(s)));
  }

  lemma NoBits()
    ensures Val([]) == 0
  {
  }

  lemma NextBit(all: seq<bool>, i: nat, b: bool, rest: seq<bool>)
    requires i < |all| && all[i..] == [b] + rest
    ensures Val(all[..i + 1]) == 2 * Val(all[..i]) + (if b then 1 else 0) && rest == all[i + 1..]
  {
    hide Val, Pow2;
    assert b == all[i..][0] == all[i] && rest == all[i..][1..] == all[i + 1..];
    assert all[..i + 1] == all[..i] + [b];
    ValLast(all[..i], b);
  }

  /** The reader's buffer wraps at 32 bits, but its low byte is always the byte just loaded. */
  lemma FreshByte(buf: nat, c: byte)
    ensures BitsOf(Low(Shl(buf, 8), 32) + c, 8) == BitsOf(c, 8)
  {
    hide Shl, Low, Shr, Pow2;
    var x := Shl(buf, 8);
    ShrLow(Low(x, 32), 8);
    LowLow(buf, 8, 32);
    Pow2Values();
    LowSmall(c, 8);
    BitsOfJoin(Shr(Low(x, 32), 8), 0, c, 8);
  }

  lemma {:induction false} LowLow(v: nat, m: nat, n: nat)
    requires m <= n
    ensures Low(Low(Shl(v, m), n), m) == 0
  {
    if m > 0 {
      LowLow(v, m - 1, n - 1);
      var x := Shl(v, m - 1);
      assert Shl(v, m) == 2 * x;
      LowDouble(x, n);
      LowDouble(Low(x, n - 1), m);
      hide Low, Shl;
    }
  }

  lemma LowDouble(x: nat, n: nat)
    requires n > 0
    ensures Low(2 * x, n) == 2 * Low(x, n - 1)
  {
    hide Low, BitsOf;
    BitsNext(2 * x, n);
    assert 2 * x / 2 == x && 2 * x % 2 == 0;
  }

  // ----- writing and reading back -----

  /** The bits of a sequence of (value, width) writes. */
  function ItemBits(items: seq<(nat, nat)>): seq<bool> {
    if items == [] then [] else BitsOf(items[0].0, items[0].1) + ItemBits(items[1..])
  }

  /** What a sequence of `Bits` calls of the given widths returns. */
  function ReadBits(bits: seq<bool>, widths: seq<nat>): Option<seq<nat>> {
    if widths == [] then Some([])
    else if |bits| < widths[0] then None
    else match ReadBits(bits[widths[0]..], widths[1..])
      case None => None
      case Some(vs) => Some([Val(bits[..widths[0]])] + vs)
  }

  lemma PaddedTail(bits: seq<bool>)
    ensures Tail(Padded(bits)) == []
  {
    var t := Tail(bits);
    if t != [] {
      var ones := BitsOf(Pow2(8 - |t|) - 1, 8 - |t|);
      PackAppend(bits, ones);
      TailEight(t + ones);
    }
  }

  lemma TailEight(b: seq<bool>)
    requires |b| == 8
    ensures Tail(b) == []
  {
    assert b[8..] == [];
  }

  /** A flushed segment ended by a marker gives the reader the written bits, then the padding. */
  lemma SegmentBits(bits: seq<bool>, end: seq<byte>)
    requires end == [] || (end[0] == MARKER && (|end| == 1 || end[1] != 0))
    ensures ByteBits(Unstuff(Emitted(Padded(bits)) + end)) == Padded(bits)
    ensures bits <= Padded(bits) && |Padded(bits)| < |bits| + 8
  {
    PaddedTail(bits);
    UnstuffStuff(FullBytes(Padded(bits)), end);
    PackUnpack(Padded(bits));
    Unit(ByteBits(FullBytes(Padded(bits))));
  }

  /** Any sequence of writes, flushed and read back with the same widths, returns every value
      modulo two to its width. */
  lemma StreamRoundTrip(items: seq<(nat, nat)>, end: seq<byte>)
    requires end == [] || (end[0] == MARKER && (|end| == 1 || end[1] != 0))
    ensures ReadBits(ByteBits(Unstuff(Emitted(Padded(ItemBits(items))) + end)),
                     seq(|items|, i requires 0 <= i < |items| => items[i].1))
         == Some(seq(|items|, i requires 0 <= i < |items| => Low(items[i].0, items[i].1)))
  {
    var bits := ItemBits(items);
    SegmentBits(bits, end);
    var pad := Padded(bits)[|bits|..];
    assert Padded(bits) == bits + pad;
    ReadItems(items, pad);
  }

  lemma {:induction false} ReadItems(items: seq<(nat, nat)>, pad: seq<bool>)
    ensures ReadBits(ItemBits(items) + pad, seq(|items|, i requires 0 <= i < |items| => items[i].1))
         == Some(seq(|items|, i requires 0 <= i < |items| => Low(items[i].0, items[i].1)))
  {
    hide Low, BitsOf, Val, Pow2;
    var widths := seq(|items|, i requires 0 <= i < |items| => items[i].1);
    var vals := seq(|items|, i requires 0 <= i < |items| => Low(items[i].0, items[i].1));
    if items == [] {
      assert vals == [];
    } else {
      var tail := items[1..];
      ReadItems(tail, pad);
      var (v, n) := items[0];
      var b := BitsOf(v, n);
      Assoc(b, ItemBits(tail), pad);
      var all := b + (ItemBits(tail) + pad);
      assert all[..n] == b && all[n..] == ItemBits(tail) + pad;
      ValBitsOf(v, n);
      assert widths[1..] == seq(|tail|, i requires 0 <= i < |tail| => tail[i].1);
      assert vals == [Low(v, n)] + seq(|tail|, i requires 0 <= i < |tail| => Low(tail[i].0, tail[i].1));
    }
  }
}
