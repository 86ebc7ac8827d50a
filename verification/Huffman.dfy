/** Canonical Huffman codes: the decoder's table builder and linear-search decoder, the encoder's
    per-symbol code assignment, and why the two agree. */
module Huffman {
  import opened Bits
  import opened BitIO

  const MAX_HUFF := 256

  /** Code lengths, codes and symbols in the order a DHT segment lists them. */
  datatype Table = Table(sizes: seq<nat>, codes: seq<nat>, syms: seq<byte>) {
    ghost predicate Valid() { |sizes| == |codes| == |syms| }
  }

  type Counts = c: seq<byte> | |c| == 16 witness seq(16, _ => 0)

  /** Length and code of the `i`-th symbol counted from length `len`, whose first code is `first`. */
  function Canon(counts: Counts, len: nat, first: nat, i: nat): (nat, nat)
    requires len >= 1
    decreases 17 - len, i
  {
    if len > 16 then (0, 0)
    else if i < counts[len - 1] then (len, first + i)
    else Canon(counts, len + 1, 2 * (first + counts[len - 1]), i - counts[len - 1])
  }

  function LenOf(counts: Counts, i: nat): nat { Canon(counts, 1, 0, i).0 }

  function CodeOf(counts: Counts, i: nat): nat { Canon(counts, 1, 0, i).1 }

  /** How many symbols have a length of at least `len`. */
  function Total(counts: Counts, len: nat): nat
    requires len >= 1
    decreases 17 - len, counts
  {
    if len > 16 then 0 else counts[len - 1] + Total(counts, len + 1)
  }

  /** The first code of length `len` and the number of shorter codes. */
  function First(counts: Counts, len: nat): nat
    requires 1 <= len <= 17
    decreases len, counts
  {
    if len == 1 then 0 else 2 * (First(counts, len - 1) + counts[len - 2])
  }

  function Offset(counts: Counts, len: nat): nat
    requires 1 <= len <= 17
    decreases len, counts
  {
    if len == 1 then 0 else Offset(counts, len - 1) + counts[len - 2]
  }

  lemma {:induction false} CanonFrom(counts: Counts, len: nat, j: nat)
    requires 1 <= len <= 17 && j >= Offset(counts, len)
    ensures Canon(counts, 1, 0, j) == Canon(counts, len, First(counts, len), j - Offset(counts, len))
    ensures Total(counts, 1) == Offset(counts, len) + Total(counts, len)
  {
    if len > 1 {
      CanonFrom(counts, len - 1, j);
    }
  }

  /** The sum over the lengths l up to `len` of counts(l) * 2^(len - l). */
  function KraftSum(counts: Counts, len: nat): nat
    requires len <= 16
    decreases len, counts
  {
    if len == 0 then 0 else 2 * KraftSum(counts, len - 1) + counts[len - 1]
  }

  /** Kraft's inequality, scaled by 2^16. */
  predicate Kraft(counts: Counts) { KraftSum(counts, 16) <= Pow2(16) }

  // ----- the code is prefix free and fits -----

  /** Codes listed after those of length `len` start at or above the end of that length's range. */
  lemma {:induction false} LaterCodes(counts: Counts, len: nat, first: nat, i: nat)
    requires 1 <= len && i < Total(counts, len)
    ensures len <= Canon(counts, len, first, i).0 <= 16
    ensures Shr(Canon(counts, len, first, i).1, Canon(counts, len, first, i).0 - len) >= first
    decreases 17 - len
  {
    if i >= counts[len - 1] {
      var next := 2 * (first + counts[len - 1]);
      LaterCodes(counts, len + 1, next, i - counts[len - 1]);
      var (l, c) := Canon(counts, len + 1, next, i - counts[len - 1]);
      ShrHalf(c, l - len - 1);
    }
  }

  /** No code is a prefix of another one. */
  lemma {:induction false} PrefixFree(counts: Counts, len: nat, first: nat, i: nat, j: nat)
    requires 1 <= len && i < Total(counts, len) && j < Total(counts, len) && i != j
    requires Canon(counts, len, first, j).0 <= Canon(counts, len, first, i).0
    ensures Shr(Canon(counts, len, first, i).1,
                Canon(counts, len, first, i).0 - Canon(counts, len, first, j).0)
         != Canon(counts, len, first, j).1
    decreases 17 - len
  {
    var n := counts[len - 1];
    if i >= n {
      LaterCodes(counts, len + 1, 2 * (first + n), i - n);
      if j < n {
        var (l, c) := Canon(counts, len + 1, 2 * (first + n), i - n);
        ShrHalf(c, l - len - 1);
      } else {
        PrefixFree(counts, len + 1, 2 * (first + n), i - n, j - n);
      }
    } else if j >= n {
      LaterCodes(counts, len + 1, 2 * (first + n), j - n);
    }
  }

  lemma {:induction false} KraftPrefix(counts: Counts, len: nat, n: nat)
    requires len <= n <= 16 && KraftSum(counts, n) <= Pow2(n)
    ensures KraftSum(counts, len) <= Pow2(len)
  {
    if len < n {
      KraftPrefix(counts, len, n - 1);
    }
  }

  lemma {:induction false} FirstIsKraft(counts: Counts, len: nat)
    requires 1 <= len <= 16
    ensures First(counts, len) + counts[len - 1] == KraftSum(counts, len)
  {
    if len > 1 {
      FirstIsKraft(counts, len - 1);
    } else {
      assert KraftSum(counts, 0) == 0;
    }
  }

  /** Under Kraft's inequality a code of length `l` is below 2^l. */
  lemma {:induction false} CodesFit(counts: Counts, len: nat, i: nat)
    requires Kraft(counts) && 1 <= len <= 17 && i < Total(counts, len)
    ensures Canon(counts, len, First(counts, len), i).1 < Pow2(Canon(counts, len, First(counts, len), i).0)
    decreases 17 - len
  {
    if i < counts[len - 1] {
      FirstIsKraft(counts, len);
      KraftPrefix(counts, len, 16);
    } else {
      CodesFit(counts, len + 1, i - counts[len - 1]);
    }
  }

  lemma CodeFits(counts: Counts, i: nat)
    requires Kraft(counts) && i < Total(counts, 1)
    ensures 1 <= LenOf(counts, i) <= 16 && CodeOf(counts, i) < Pow2(LenOf(counts, i)) <= 65536
  {
    CodesFit(counts, 1, i);
    LaterCodes(counts, 1, 0, i);
    Pow2Mono(LenOf(counts, i), 16);
    Pow2Values();
  }

  // ----- the decoder's table -----

  /** The 16-bit code variable of both builders. */
  function U16(x: nat): nat { x % 0x1_0000 }

  lemma U16Steps(x: nat, y: nat)
    requires y == U16(x)
    ensures U16(y + 1) == U16(x + 1) && U16(2 * y) == U16(2 * x)
  {
    var q := x / 0x1_0000;
    assert x == 0x1_0000 * q + y;
    Wraps(q, y + 1);
    Wraps(2 * q, 2 * y);
  }

  lemma Wraps(q: nat, y: nat)
    ensures U16(0x1_0000 * q + y) == U16(y)
  {
    var k, r := y / 0x1_0000, y % 0x1_0000;
    assert 0x1_0000 * q + y == 0x1_0000 * (q + k) + r;
    ModUnique(0x1_0000 * q + y, 0x1_0000, q + k, r);
  }

  /** What `BuildHuff` builds; the source's 16-bit code variable wraps. */
  function CanonTable(counts: Counts, symbols: seq<byte>): (t: Table)
    requires Total(counts, 1) <= |symbols|
    ensures t.Valid()
  {
    var n := Total(counts, 1);
    Table(seq(n, i requires 0 <= i < n => LenOf(counts, i)),
          seq(n, i requires 0 <= i < n => U16(CodeOf(counts, i))),
          symbols[..n])
  }

  method BuildHuff(counts: Counts, symbols: seq<byte>) returns (t: Option<Table>)
    requires |symbols| == MAX_HUFF
    ensures t.None? <==> Total(counts, 1) > MAX_HUFF
    ensures t.Some? ==> t.value == CanonTable(counts, symbols)
  {
    var code: nat, n: nat := 0, 0;
    var sizes, codes, syms := [], [], [];
    for len := 1 to 17
      invariant n == Offset(counts, len) && code == U16(First(counts, len))
      invariant |sizes| == |codes| == n <= MAX_HUFF && syms == symbols[..n]
      invariant forall j :: 0 <= j < n ==> sizes[j] == LenOf(counts, j) && codes[j] == U16(CodeOf(counts, j))
    {
      var c := counts[len - 1];
      ghost var off, first := n, First(counts, len);
      for i := 0 to c
        invariant n == off + i && code == U16(first + i)
        invariant |sizes| == |codes| == n <= MAX_HUFF && syms == symbols[..n]
        invariant forall j :: 0 <= j < n ==> sizes[j] == LenOf(counts, j) && codes[j] == U16(CodeOf(counts, j))
      {
        CanonFrom(counts, len, n);
        if n >= MAX_HUFF {
          return None;
        }
        sizes, codes, syms := sizes + [len], codes + [code], syms + [symbols[n]];
        n := n + 1;
        U16Steps(first + i, code);
        code := U16(code + 1);
      }
      U16Steps(first + c, code);
      code := U16(2 * code);
    }
    CanonFrom(counts, 17, n);
    t := Some(Table(sizes, codes, syms));
  }

  // ----- decoding -----

  /** The first entry at or after `i` with this length and code; the table's size if there is none. */
  function Find(t: Table, len: nat, code: nat, i: nat): (k: nat)
    requires t.Valid() && i <= |t.sizes|
    ensures i <= k <= |t.sizes|
    ensures k < |t.sizes| ==> t.sizes[k] == len && t.codes[k] == code
    ensures forall j :: i <= j < k ==> !(t.sizes[j] == len && t.codes[j] == code)
    decreases |t.sizes| - i
  {
    if i == |t.sizes| || (t.sizes[i] == len && t.codes[i] == code) then i else Find(t, len, code, i + 1)
  }

  /** The symbol decoded from the front of `bits` and the bits left, having read `code` in `len - 1` bits. */
  function DecodeFrom(bits: seq<bool>, t: Table, len: nat, code: nat): (r: Option<(byte, seq<bool>)>)
    requires t.Valid()
    ensures r.Some? ==> r.value.0 in t.syms && |r.value.1| < |bits|
    decreases |bits|
  {
    if len > 16 || bits == [] then None
    else
      var code' := 2 * code + Bit(bits[0]);
      var k := Find(t, len, code', 0);
      if k < |t.sizes| then Some((t.syms[k], bits[1..])) else DecodeFrom(bits[1..], t, len + 1, code')
  }

  function Decode(bits: seq<bool>, t: Table): (r: Option<(byte, seq<bool>)>)
    requires t.Valid()
    ensures r.Some? ==> r.value.0 in t.syms && |r.value.1| < |bits|
  {
    DecodeFrom(bits, t, 1, 0)
  }

  /** Reads one symbol, or -1 if the bits end or no code of up to 16 bits matches. */
  method HuffDecode(br: BitReader, t: Table) returns (s: int)
    requires br.Valid() && t.Valid()
    modifies br
    ensures br.Valid()
    ensures s < 0 <==> Decode(old(br.Rest()), t).None?
    ensures s >= 0 ==> Decode(old(br.Rest()), t) == Some((s, br.Rest()))
  {
    hide Find, BitReader.Rest;
    var code: nat := 0;
    ghost var was := br.Rest();
    for len := 1 to 17
      invariant br.Valid()
      invariant code < Pow2(len - 1)
      invariant Decode(was, t) == DecodeFrom(br.Rest(), t, len, code)
    {
      ghost var rest := br.Rest();
      var bit := br.Bit();
      if bit < 0 {
        return -1;
      }
      assert rest[1..] == br.Rest();
      code := 2 * code + bit;
      var i := Lookup(t, len, code);
      if i < |t.sizes| {
        return t.syms[i];
      }
    }
    return -1;
  }

  /** The linear search through the table for a code of up to 16 bits. */
  method Lookup(t: Table, len: nat, code: nat) returns (i: nat)
    requires t.Valid() && len <= 16 && code < Pow2(len)
    ensures i == Find(t, len, code, 0)
  {
    Pow2Values();
    Pow2Mono(len, 16);
    i := 0;
    while i < |t.sizes| && !(t.sizes[i] == len && t.codes[i] == U16(code))
      invariant 0 <= i <= |t.sizes|
      invariant Find(t, len, code, 0) == Find(t, len, code, i)
    {
      i := i + 1;
    }
  }

  /** A symbol's code followed by any bits decodes to that symbol and leaves those bits. */
  lemma DecodeCode(counts: Counts, symbols: seq<byte>, i: nat, rest: seq<bool>)
    requires Kraft(counts) && Total(counts, 1) <= |symbols| && i < Total(counts, 1)
    ensures Decode(BitsOf(CodeOf(counts, i), LenOf(counts, i)) + rest, CanonTable(counts, symbols))
         == Some((symbols[i], rest))
  {
    hide Kraft, Total, Canon, Find, Shr;
    var t, c, l := CanonTable(counts, symbols), CodeOf(counts, i), LenOf(counts, i);
    CodeFits(counts, i);
    ShrBound(c, 0, l);
    forall len: nat | 1 <= len <= l
      ensures Finds(t, c, l, i, len)
    {
      Search(counts, symbols, i, len);
    }
    DecodeRest(t, c, l, i, rest, 0);
  }

  /** Looking up the first `len` of the `l` bits of `c` finds entry `i` exactly when all bits are there. */
  ghost predicate Finds(t: Table, c: nat, l: nat, i: nat, len: nat)
    requires t.Valid() && len <= l
  {
    Find(t, len, Shr(c, l - len), 0) == if len == l then i else |t.sizes|
  }

  /** Reading a code whose proper prefixes match no entry, with `m` of its bits already read. */
  lemma {:induction false} DecodeRest(t: Table, c: nat, l: nat, i: nat, rest: seq<bool>, m: nat)
    requires t.Valid() && i < |t.sizes| && m < l <= 16
    requires forall len: nat :: 1 <= len <= l ==> Finds(t, c, l, i, len)
    ensures DecodeFrom(BitsOf(c, l - m) + rest, t, m + 1, Shr(c, l - m)) == Some((t.syms[i], rest))
    decreases l - m
  {
    hide Find, Shr, BitsOf, DecodeFrom;
    var k := l - m - 1;
    BitsOfTop(c, k);
    var f := Shr(c, k) % 2 == 1;
    Assoc([f], BitsOf(c, k), rest);
    ShrHalf(c, k);
    DecodeStep(f, BitsOf(c, k) + rest, t, m + 1, Shr(c, k + 1), Shr(c, k));
    assert Finds(t, c, l, i, m + 1);
    if k > 0 {
      DecodeRest(t, c, l, i, rest, m + 1);
    } else {
      Unit(rest);
    }
  }

  lemma DecodeStep(f: bool, bits: seq<bool>, t: Table, len: nat, code: nat, next: nat)
    requires t.Valid() && len <= 16 && next == 2 * code + Bit(f)
    ensures DecodeFrom([f] + bits, t, len, code)
         == var k := Find(t, len, next, 0);
            if k < |t.sizes| then Some((t.syms[k], bits)) else DecodeFrom(bits, t, len + 1, next)
  {
    assert ([f] + bits)[1..] == bits;
  }

  /** Searching the first `len` bits of symbol `i`'s code finds nothing until the whole code is there. */
  lemma Search(counts: Counts, symbols: seq<byte>, i: nat, len: nat)
    requires Kraft(counts) && Total(counts, 1) <= |symbols| && i < Total(counts, 1)
    requires 1 <= len <= LenOf(counts, i)
    ensures Find(CanonTable(counts, symbols), len, Shr(CodeOf(counts, i), LenOf(counts, i) - len), 0)
         == if len == LenOf(counts, i) then i else Total(counts, 1)
  {
    var t, n := CanonTable(counts, symbols), Total(counts, 1);
    var code := Shr(CodeOf(counts, i), LenOf(counts, i) - len);
    CodeFits(counts, i);
    forall j | 0 <= j < n && j != i
      ensures !(t.sizes[j] == len && t.codes[j] == code)
    {
      NoClash(counts, i, j, len);
    }
    assert len == LenOf(counts, i) ==> t.codes[i] == code;
  }

  lemma NoClash(counts: Counts, i: nat, j: nat, len: nat)
    requires Kraft(counts) && i < Total(counts, 1) && j < Total(counts, 1) && i != j
    requires 1 <= len <= LenOf(counts, i)
    ensures !(LenOf(counts, j) == len && U16(CodeOf(counts, j)) == Shr(CodeOf(counts, i), LenOf(counts, i) - len))
  {
    CodeFits(counts, j);
    if LenOf(counts, j) == len {
      PrefixFree(counts, 1, 0, i, j);
    }
  }

  // ----- the encoder's codes -----

  /** The last position before `n` that holds `s`. */
  function LastIndex(syms: seq<byte>, s: byte, n: nat): (r: Option<nat>)
    requires n <= |syms|
    ensures r.Some? ==> r.value < n && syms[r.value] == s
    ensures r.None? ==> s !in syms[..n]
  {
    if n == 0 then None
    else if syms[n - 1] == s then Some(n - 1)
    else
      assert syms[..n] == syms[..n - 1] + [syms[n - 1]];
      LastIndex(syms, s, n - 1)
  }

  /** Length and code the encoder uses for symbol `s` after `n` symbols; both zero when it has none. */
  function EncEntry(counts: Counts, syms: seq<byte>, s: byte, n: nat): (nat, nat)
    requires n <= |syms|
  {
    match LastIndex(syms, s, n)
    case None => (0, 0)
    case Some(i) => (LenOf(counts, i), U16(CodeOf(counts, i)))
  }

  function EncBits(counts: Counts, syms: seq<byte>, s: byte): seq<bool> {
    BitsOf(EncEntry(counts, syms, s, |syms|).1, EncEntry(counts, syms, s, |syms|).0)
  }

  method StdMakeCodes(counts: Counts, syms: seq<byte>) returns (lens: seq<nat>, codes: seq<nat>)
    requires Total(counts, 1) == |syms|
    ensures |lens| == |codes| == 256
    ensures forall s: byte :: (lens[s], codes[s]) == EncEntry(counts, syms, s, |syms|)
  {
    lens, codes := seq(256, _ => 0), seq(256, _ => 0);
    var code: nat, si: nat := 0, 0;
    for len := 1 to 17
      invariant si == Offset(counts, len) <= |syms| && code == U16(First(counts, len))
      invariant |lens| == |codes| == 256
      invariant forall s: byte :: (lens[s], codes[s]) == EncEntry(counts, syms, s, si)
    {
      var c := counts[len - 1];
      ghost var off, first := si, First(counts, len);
      CanonFrom(counts, len, si);
      var i := 0;
      while i < c && si < |syms|
        invariant 0 <= i <= c && si == off + i <= |syms| && code == U16(first + i)
        invariant |lens| == |codes| == 256
        invariant forall s: byte :: (lens[s], codes[s]) == EncEntry(counts, syms, s, si)
      {
        CanonFrom(counts, len, si);
        var s := syms[si];
        si := si + 1;
        lens, codes := lens[s := len], codes[s := code];
        U16Steps(first + i, code);
        code := U16(code + 1);
        i := i + 1;
      }
      U16Steps(first + c, code);
      code := U16(2 * code);
    }
    CanonFrom(counts, 17, si);
  }

  /** For distinct symbols both sides assign the same length and code to each of them. */
  lemma SameCodes(counts: Counts, syms: seq<byte>, i: nat)
    requires Total(counts, 1) == |syms| && i < |syms|
    requires forall j, k :: 0 <= j < k < |syms| ==> syms[j] != syms[k]
    ensures EncEntry(counts, syms, syms[i], |syms|)
         == (CanonTable(counts, syms).sizes[i], CanonTable(counts, syms).codes[i])
  {
    assert syms[i] in syms[..|syms|];
  }

  /** What the encoder writes for a listed symbol decodes to it, distinct symbols or not. */
  lemma DecodeSymbol(counts: Counts, syms: seq<byte>, s: byte, rest: seq<bool>)
    requires Kraft(counts) && Total(counts, 1) == |syms| && s in syms
    ensures Decode(EncBits(counts, syms, s) + rest, CanonTable(counts, syms)) == Some((s, rest))
  {
    var i := EncBitsOfListed(counts, syms, s);
    DecodeCode(counts, syms, i, rest);
  }

  lemma EncBitsOfListed(counts: Counts, syms: seq<byte>, s: byte) returns (i: nat)
    requires Kraft(counts) && Total(counts, 1) == |syms| && s in syms
    ensures i < |syms| && syms[i] == s
    ensures EncBits(counts, syms, s) == BitsOf(CodeOf(counts, i), LenOf(counts, i))
  {
    assert syms[..|syms|] == syms;
    i := LastIndex(syms, s, |syms|).value;
    CodeFits(counts, i);
    assert EncEntry(counts, syms, s, |syms|) == (LenOf(counts, i), CodeOf(counts, i));
  }
}
