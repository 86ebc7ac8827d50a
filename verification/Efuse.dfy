/** The write-once EFUSE cells: a log of blocks, later ones superseding earlier ones, decoded into a flat map. */
module Efuse {
  import opened Bits

  const PHYS_SIZE := 512
  const PROTECT_SIZE := 124
  const LOG_LIMIT := PHYS_SIZE - PROTECT_SIZE // the cells above hold no blocks
  const LOG_SIZE := 768
  const MAC_OFFSET := 0x120
  const BLANK: byte := 0xFF

  /** A cell read that never completes is None. */
  type Cell = Option<byte>

  type LogWord = Option<(byte, byte)>

  /** One log entry: logical block number and its four words, those present being written; `long` tells
      the two-byte header from the one-byte header. */
  datatype LogBlock = LogBlock(long: bool, num: nat, words: seq<LogWord>) {
    /** A bit is set for every word that is not written. */
    function Mask(): (m: nat)
      requires |words| == 4
      ensures m < 16 && forall i :: 0 <= i < 4 ==> (MaskBit(m, i) <==> words[i].None?)
    {
      B(words[0]) + 2 * B(words[1]) + 4 * B(words[2]) + 8 * B(words[3])
    }

    static function B(w: LogWord): nat { if w.None? then 1 else 0 }

    function Header(): seq<byte>
      requires |words| == 4 && num < (if long then 128 else 16)
    {
      if long then [32 * (num % 8) + 15, 16 * (num / 8) + Mask()] else [16 * num + Mask()]
    }

    /** The header can be told from a blank cell and from the other kind of header. */
    predicate WellFormed() {
      && |words| == 4 && num < (if long then 128 else 16)
      && (if long then Header()[1] != BLANK else Header()[0] % 32 != 15 && Header()[0] != BLANK)
    }

    function Encode(): seq<byte>
      requires WellFormed()
    {
      Header() + WordBytes(words)
    }
  }

  predicate MaskBit(m: nat, i: nat)
    requires i < 4
  {
    (if i == 0 then m else if i == 1 then m / 2 else if i == 2 then m / 4 else m / 8) % 2 == 1
  }

  function WordBytes(ws: seq<LogWord>): seq<byte> {
    if ws == [] then []
    else (if ws[0].None? then [] else [ws[0].value.0, ws[0].value.1]) + WordBytes(ws[1..])
  }

  function EncodeAll(bs: seq<LogBlock>): seq<byte>
    requires forall i :: 0 <= i < |bs| ==> bs[i].WellFormed()
  {
    if bs == [] then [] else bs[0].Encode() + EncodeAll(bs[1..])
  }

  // ----- what blocks mean -----

  function Poke(m: seq<byte>, at: nat, a: byte, b: byte): (r: seq<byte>)
    requires at + 1 < |m|
    ensures |r| == |m| && r[at] == a && r[at + 1] == b
    ensures forall i :: 0 <= i < |m| && i != at && i != at + 1 ==> r[i] == m[i]
  {
    var r: seq<byte> := m[at := a];
    r[at + 1 := b]
  }

  /** Stores a word, or fails when it is outside the map. */
  function Put(m: seq<byte>, at: nat, w: LogWord): (r: Option<seq<byte>>)
    ensures r.Some? ==> |r.value| == |m|
  {
    if w.None? then Some(m)
    else if at + 1 >= |m| then None
    else Some(Poke(m, at, w.value.0, w.value.1))
  }

  function PutWords(m: seq<byte>, at: nat, ws: seq<LogWord>): (r: Option<seq<byte>>)
    ensures r.Some? ==> |r.value| == |m|
    decreases |ws|
  {
    if ws == [] then Some(m)
    else
      var r := Put(m, at, ws[0]);
      if r.None? then None else PutWords(r.value, at + 2, ws[1..])
  }

  function WriteAll(m: seq<byte>, bs: seq<LogBlock>): (r: Option<seq<byte>>)
    ensures r.Some? ==> |r.value| == |m|
    decreases |bs|
  {
    if bs == [] then Some(m)
    else
      var r := PutWords(m, 8 * bs[0].num, bs[0].words);
      if r.None? then None else WriteAll(r.value, bs[1..])
  }

  // ----- the decoder -----

  /** The header ends the log. */
  predicate Ends(d: seq<byte>) {
    d == [] || d[0] == BLANK || (d[0] % 32 == 15 && (|d| == 1 || d[1] == BLANK))
  }

  /** Takes the words a mask calls for. */
  function TakeWords(d: seq<byte>, mask: nat, i: nat): (r: Option<(seq<LogWord>, seq<byte>)>)
    requires i <= 4
    ensures r.Some? ==> |r.value.0| == 4 - i && |r.value.1| <= |d|
    decreases 4 - i
  {
    if i == 4 then Some(([], d))
    else if MaskBit(mask, i) then
      var r := TakeWords(d, mask, i + 1);
      if r.None? then None else Some(([None] + r.value.0, r.value.1))
    else if |d| < 2 then None
    else
      var r := TakeWords(d[2..], mask, i + 1);
      if r.None? then None else Some(([Some((d[0], d[1]))] + r.value.0, r.value.1))
  }

  function TakeBlock(d: seq<byte>): (r: Option<(LogBlock, seq<byte>)>)
    requires !Ends(d)
    ensures r.Some? ==> |r.value.1| < |d| && |r.value.0.words| == 4
  {
    var long := d[0] % 32 == 15;
    var num := if long then d[1] / 16 * 8 + d[0] / 32 else d[0] / 16;
    var mask := if long then d[1] % 16 else d[0] % 16;
    var r := TakeWords(if long then d[2..] else d[1..], mask, 0);
    if r.None? then None else Some((LogBlock(long, num, r.value.0), r.value.1))
  }

  function Decode(d: seq<byte>, m: seq<byte>): (r: Option<seq<byte>>)
    ensures r.Some? ==> |r.value| == |m|
    decreases |d|
  {
    if Ends(d) then Some(m)
    else
      var b := TakeBlock(d);
      if b.None? then None
      else
        var r := PutWords(m, 8 * b.value.0.num, b.value.0.words);
        if r.None? then None else Decode(b.value.1, r.value)
  }

  // ----- encoding and decoding are inverse -----

  lemma {:induction false} TakeWritten(ws: seq<LogWord>, mask: nat, i: nat, rest: seq<byte>)
    requires i <= 4 && |ws| == 4 - i && forall k :: i <= k < 4 ==> (MaskBit(mask, k) <==> ws[k - i].None?)
    ensures TakeWords(WordBytes(ws) + rest, mask, i) == Some((ws, rest))
    decreases 4 - i
  {
    if i == 4 {
      Unit(rest);
    } else {
      var tail := ws[1..];
      TakeWritten(tail, mask, i + 1, rest);
      assert [ws[0]] + tail == ws;
      if ws[0].Some? {
        var d := [ws[0].value.0, ws[0].value.1] + (WordBytes(tail) + rest);
        Assoc([ws[0].value.0, ws[0].value.1], WordBytes(tail), rest);
        assert d[2..] == WordBytes(tail) + rest;
      } else {
        Unit(WordBytes(tail));
      }
    }
  }

  /** Decoding a block's cells gives the block back and leaves what follows. */
  lemma TakeEncoded(b: LogBlock, rest: seq<byte>)
    requires b.WellFormed()
    ensures var d := b.Encode() + rest; !Ends(d) && TakeBlock(d) == Some((b, rest))
  {
    hide WordBytes, TakeWords;
    var words := WordBytes(b.words) + rest;
    Assoc(b.Header(), WordBytes(b.words), rest);
    var d := b.Header() + words;
    TakeWritten(b.words, b.Mask(), 0, rest);
    if b.long {
      assert d[2..] == words;
      LongHeader(b.num, b.Mask());
    } else {
      assert d[1..] == words;
      ShortHeader(b.num, b.Mask());
    }
  }

  lemma LongHeader(num: nat, mask: nat)
    requires num < 128 && mask < 16
    ensures var h1, h2 := 32 * (num % 8) + 15, 16 * (num / 8) + mask;
            h1 % 32 == 15 && h1 != 255 && h1 / 32 == num % 8 && h2 % 16 == mask && h2 / 16 * 8 + h1 / 32 == num
  {
  }

  lemma ShortHeader(num: nat, mask: nat)
    requires num < 16 && mask < 16
    ensures (16 * num + mask) / 16 == num && (16 * num + mask) % 16 == mask
  {
  }

  lemma {:induction false} TakenWords(d: seq<byte>, mask: nat, i: nat)
    requires i <= 4 && TakeWords(d, mask, i).Some?
    ensures var r := TakeWords(d, mask, i).value;
            && WordBytes(r.0) + r.1 == d
            && forall k :: i <= k < 4 ==> (MaskBit(mask, k) <==> r.0[k - i].None?)
    decreases 4 - i
  {
    hide MaskBit;
    if i == 4 {
      Unit(d);
    } else {
      var skip := MaskBit(mask, i);
      var more := if skip then d else d[2..];
      TakenWords(more, mask, i + 1);
      var t := TakeWords(more, mask, i + 1).value;
      var w: LogWord := if skip then None else Some((d[0], d[1]));
      WordsOf(w, t.0, t.1);
      assert TakeWords(d, mask, i).value == ([w] + t.0, t.1);
      assert !skip ==> [d[0], d[1]] + d[2..] == d;
      Unit(d);
      forall k | i <= k < 4
        ensures MaskBit(mask, k) <==> ([w] + t.0)[k - i].None?
      {
        if k > i {
          assert ([w] + t.0)[k - i] == t.0[k - (i + 1)];
        }
      }
    }
  }

  lemma WordsOf(w: LogWord, ws: seq<LogWord>, rest: seq<byte>)
    ensures WordBytes([w] + ws) + rest == (if w.None? then [] else [w.value.0, w.value.1]) + (WordBytes(ws) + rest)
  {
    assert ([w] + ws)[1..] == ws;
    Assoc(if w.None? then [] else [w.value.0, w.value.1], WordBytes(ws), rest);
  }

  lemma MaskOf(b: LogBlock, mask: nat)
    requires |b.words| == 4 && mask < 16 && forall i :: 0 <= i < 4 ==> (MaskBit(mask, i) <==> b.words[i].None?)
    ensures b.Mask() == mask
  {
    var m := b.Mask();
    assert forall i :: 0 <= i < 4 ==> (MaskBit(m, i) <==> MaskBit(mask, i));
    SameMask(m, mask);
  }

  lemma SameMask(m: nat, n: nat)
    requires m < 16 && n < 16 && forall i :: 0 <= i < 4 ==> (MaskBit(m, i) <==> MaskBit(n, i))
    ensures m == n
  {
    assert MaskBit(m, 0) <==> MaskBit(n, 0);
    assert MaskBit(m, 1) <==> MaskBit(n, 1);
    assert MaskBit(m, 2) <==> MaskBit(n, 2);
    assert MaskBit(m, 3) <==> MaskBit(n, 3);
  }

  /** Whatever cells decode to a block are that block's encoding. */
  lemma TakenIsEncoded(d: seq<byte>)
    requires !Ends(d) && TakeBlock(d).Some?
    ensures var (b, rest) := TakeBlock(d).value; b.WellFormed() && b.Encode() + rest == d
  {
    hide WordBytes, TakeWords, MaskBit;
    var (b, rest) := TakeBlock(d).value;
    var mask := if b.long then d[1] % 16 else d[0] % 16;
    var tail := if b.long then d[2..] else d[1..];
    TakenWords(tail, mask, 0);
    MaskOf(b, mask);
    assert b.Header() == d[..|d| - |tail|] && b.WellFormed() by {
      hide LogBlock.Mask;
      if b.long {
        HeaderBytes(d[0], d[1]);
      } else {
        assert 16 * (d[0] / 16) + d[0] % 16 == d[0];
      }
    }
    Assoc(b.Header(), WordBytes(b.words), rest);
    assert d[..|d| - |tail|] + tail == d;
  }

  lemma HeaderBytes(h1: byte, h2: byte)
    requires h1 % 32 == 15
    ensures var num: nat := h2 / 16 * 8 + h1 / 32;
            num < 128 && 32 * (num % 8) + 15 == h1 && 16 * (num / 8) + h2 % 16 == h2
  {
  }

  ghost predicate AllWellFormed(bs: seq<LogBlock>) {
    forall i :: 0 <= i < |bs| ==> bs[i].WellFormed()
  }

  /** Decoding the encoding of blocks applies their writes, in order, before going on. */
  lemma {:induction false} DecodeEncoded(bs: seq<LogBlock>, rest: seq<byte>, m: seq<byte>)
    requires AllWellFormed(bs)
    ensures Decode(EncodeAll(bs) + rest, m)
         == var r := WriteAll(m, bs); if r.None? then None else Decode(rest, r.value)
    decreases |bs|
  {
    hide TakeBlock, LogBlock.Encode, PutWords, Ends, LogBlock.WellFormed;
    if bs == [] {
      Unit(rest);
    } else {
      var b, tail := bs[0], bs[1..];
      Assoc(b.Encode(), EncodeAll(tail), rest);
      TakeEncoded(b, EncodeAll(tail) + rest);
      var r := PutWords(m, 8 * b.num, b.words);
      if r.Some? {
        DecodeEncoded(tail, rest, r.value);
      }
    }
  }

  /** The cells are the encoding of the blocks followed by the end of the log. */
  ghost predicate IsLog(d: seq<byte>, bs: seq<LogBlock>, rest: seq<byte>) {
    AllWellFormed(bs) && d == EncodeAll(bs) + rest && Ends(rest)
  }

  lemma {:induction false} DecodedLog(d: seq<byte>, m: seq<byte>) returns (bs: seq<LogBlock>, rest: seq<byte>)
    requires Decode(d, m).Some?
    ensures IsLog(d, bs, rest) && WriteAll(m, bs) == Decode(d, m)
    decreases |d|
  {
    hide TakeBlock, LogBlock.Encode, PutWords, Ends, LogBlock.WellFormed;
    if Ends(d) {
      bs, rest := [], d;
      Unit(d);
    } else {
      TakenIsEncoded(d);
      var (b, more) := TakeBlock(d).value;
      var tail;
      tail, rest := DecodedLog(more, PutWords(m, 8 * b.num, b.words).value);
      bs := [b] + tail;
      assert bs[1..] == tail;
      Assoc(b.Encode(), EncodeAll(tail), rest);
    }
  }

  /** Decoding succeeds with `r` exactly when the cells are a log of well-formed blocks whose writes,
      applied in order, stay in the map and give `r`. */
  lemma DecodeIff(d: seq<byte>, m: seq<byte>, r: seq<byte>)
    ensures Decode(d, m) == Some(r) <==> exists bs, rest :: IsLog(d, bs, rest) && WriteAll(m, bs) == Some(r)
  {
    if Decode(d, m) == Some(r) {
      var bs, rest := DecodedLog(d, m);
    }
    if bs, rest :| IsLog(d, bs, rest) && WriteAll(m, bs) == Some(r) {
      DecodeEncoded(bs, rest, m);
    }
  }

  // ----- the last write wins -----

  /** The byte the words from `at` on store at `k`. */
  function Stored(ws: seq<LogWord>, at: nat, k: nat): Option<byte>
    decreases |ws|
  {
    if ws == [] then None
    else if ws[0].Some? && k == at then Some(ws[0].value.0)
    else if ws[0].Some? && k == at + 1 then Some(ws[0].value.1)
    else Stored(ws[1..], at + 2, k)
  }

  /** The byte at `k` of the last block that stores one there. */
  function Latest(bs: seq<LogBlock>, k: nat): Option<byte> {
    if bs == [] then None
    else
      var b := bs[|bs| - 1];
      var w := Stored(b.words, 8 * b.num, k);
      if w.Some? then w else Latest(bs[..|bs| - 1], k)
  }

  lemma {:induction false} PutWordsAt(m: seq<byte>, at: nat, ws: seq<LogWord>, k: nat)
    requires k < |m| && PutWords(m, at, ws).Some?
    ensures PutWords(m, at, ws).value[k]
         == (if k >= at && Stored(ws, at, k).Some? then Stored(ws, at, k).value else m[k])
    ensures k < at ==> Stored(ws, at, k).None?
    decreases |ws|
  {
    if ws != [] {
      PutWordsAt(Put(m, at, ws[0]).value, at + 2, ws[1..], k);
    }
  }

  lemma {:induction false} WriteLast(m: seq<byte>, bs: seq<LogBlock>, b: LogBlock)
    ensures WriteAll(m, bs + [b])
         == var r := WriteAll(m, bs); if r.None? then None else PutWords(r.value, 8 * b.num, b.words)
    decreases |bs|
  {
    hide PutWords;
    var all := bs + [b];
    if bs == [] {
      assert all[0] == b && all[1..] == [];
      var r := PutWords(m, 8 * b.num, b.words);
      assert r.Some? ==> WriteAll(r.value, []) == r;
    } else {
      assert all[0] == bs[0] && all[1..] == bs[1..] + [b];
      var r := PutWords(m, 8 * bs[0].num, bs[0].words);
      if r.Some? {
        WriteLast(r.value, bs[1..], b);
      }
    }
  }

  lemma {:induction false} LastWriteWins(m: seq<byte>, bs: seq<LogBlock>, k: nat)
    requires k < |m| && WriteAll(m, bs).Some?
    ensures WriteAll(m, bs).value[k] == (if Latest(bs, k).Some? then Latest(bs, k).value else m[k])
    decreases |bs|
  {
    if bs != [] {
      var n := |bs| - 1;
      var b := bs[n];
      assert bs == bs[..n] + [b];
      WriteLast(m, bs[..n], b);
      LastWriteWins(m, bs[..n], k);
      PutWordsAt(WriteAll(m, bs[..n]).value, 8 * b.num, b.words, k);
    }
  }

  /** The writes stay in the map exactly when every word present does. */
  lemma {:induction false} PutWordsFits(m: seq<byte>, at: nat, ws: seq<LogWord>)
    ensures PutWords(m, at, ws).Some? <==> forall i :: 0 <= i < |ws| && ws[i].Some? ==> at + 2 * i + 1 < |m|
    decreases |ws|
  {
    if ws != [] {
      var tail := ws[1..];
      if Put(m, at, ws[0]).Some? {
        PutWordsFits(Put(m, at, ws[0]).value, at + 2, tail);
        assert forall i :: 0 <= i < |tail| ==> tail[i] == ws[i + 1];
        assert forall i :: 0 < i < |ws| ==> ws[i] == tail[i - 1];
      }
    }
  }

  // ----- the driver -----

  /** All cells, if every read completes. */
  function Values(cells: seq<Cell>): (r: Option<seq<byte>>)
    ensures r.Some? <==> forall i :: 0 <= i < |cells| ==> cells[i].Some?
    ensures r.Some? ==> |r.value| == |cells| && forall i :: 0 <= i < |cells| ==> r.value[i] == cells[i].value
  {
    if cells == [] then Some([])
    else
      var r := Values(cells[1..]);
      assert forall i :: 0 < i < |cells| ==> cells[i] == cells[1..][i - 1];
      if cells[0].None? || r.None? then None else Some([cells[0].value] + r.value)
  }

  method DumpPhysical(cells: seq<Cell>) returns (phys: Option<seq<byte>>)
    ensures phys == Values(cells)
  {
    var r: seq<byte> := [];
    for a := 0 to |cells|
      invariant |r| == a && forall i :: 0 <= i < a ==> cells[i].Some? && r[i] == cells[i].value
    {
      if cells[a].None? {
        return None;
      }
      r := r + [cells[a].value];
    }
    assert Values(cells).Some? && r == Values(cells).value;
    phys := Some(r);
  }

  function Blank(n: nat): (m: seq<byte>)
    ensures |m| == n && forall i :: 0 <= i < n ==> m[i] == BLANK
  {
    seq(n, _ => BLANK)
  }

  /** The words of one block into the map; None when cells or map run out. */
  method ReadWords(phys: seq<byte>, idx: nat, num: nat, mask: nat, log: array<byte>) returns (next: Option<nat>)
    requires idx <= |phys| && mask < 16
    modifies log
    ensures var t := TakeWords(phys[idx..], mask, 0);
            && (next.Some? <==> t.Some? && PutWords(old(log[..]), 8 * num, t.value.0).Some?)
            && (next.Some? ==> idx <= next.value <= |phys| && t.value.1 == phys[next.value..]
                               && Some(log[..]) == PutWords(old(log[..]), 8 * num, t.value.0))
  {
    hide MaskBit, Poke, PutWords, TakeWords, Rest;
    ghost var t := TakeWords(phys[idx..], mask, 0);
    ghost var done := if t.None? then None else PutWords(log[..], 8 * num, t.value.0);
    var at := idx;
    RestStart(phys[idx..], mask, log[..], 8 * num);
    for i := 0 to 4
      invariant idx <= at <= |phys|
      invariant Rest(phys[at..], mask, i, log[..], 8 * num + 2 * i, t, done)
    {
      RestStep(phys[at..], mask, i, log[..], 8 * num + 2 * i, t, done);
      if MaskBit(mask, i) {
        continue;
      }
      var to := 8 * num + 2 * i;
      if at + 1 >= |phys| || to + 1 >= log.Length {
        return None;
      }
      ghost var was := log[..];
      log[to] := phys[at];
      log[to + 1] := phys[at + 1];
      assert log[..] == Poke(was, to, phys[at], phys[at + 1]);
      assert phys[at..][2..] == phys[at + 2..];
      at := at + 2;
    }
    RestDone(phys[at..], mask, log[..], 8 * num + 8, t, done);
    next := Some(at);
  }

  /** From word `i` on, the remaining cells and the map lead to the same outcome. */
  ghost predicate Rest(d: seq<byte>, mask: nat, i: nat, m: seq<byte>, at: nat,
                       t: Option<(seq<LogWord>, seq<byte>)>, done: Option<seq<byte>>)
    requires i <= 4
  {
    var r := TakeWords(d, mask, i);
    && (t.Some? <==> r.Some?)
    && (t.Some? ==> t.value.1 == r.value.1)
    && done == (if r.None? then None else PutWords(m, at, r.value.0))
  }

  lemma RestStart(d: seq<byte>, mask: nat, m: seq<byte>, at: nat)
    ensures var t := TakeWords(d, mask, 0);
            Rest(d, mask, 0, m, at, t, if t.None? then None else PutWords(m, at, t.value.0))
  {
  }

  lemma RestDone(d: seq<byte>, mask: nat, m: seq<byte>, at: nat, t: Option<(seq<LogWord>, seq<byte>)>,
                 done: Option<seq<byte>>)
    requires Rest(d, mask, 4, m, at, t, done)
    ensures t.Some? && t.value.1 == d && done == Some(m)
  {
  }

  lemma RestStep(d: seq<byte>, mask: nat, i: nat, m: seq<byte>, at: nat,
                 t: Option<(seq<LogWord>, seq<byte>)>, done: Option<seq<byte>>)
    requires i < 4 && Rest(d, mask, i, m, at, t, done)
    ensures MaskBit(mask, i) ==> Rest(d, mask, i + 1, m, at + 2, t, done)
    ensures !MaskBit(mask, i) && (|d| < 2 || at + 1 >= |m|) ==> done.None?
    ensures !MaskBit(mask, i) && |d| >= 2 && at + 1 < |m| ==>
              Rest(d[2..], mask, i + 1, Poke(m, at, d[0], d[1]), at + 2, t, done)
  {
    hide MaskBit;
    var r := TakeWords(d, mask, i);
    if r.Some? {
      var s := TakeWords(if MaskBit(mask, i) then d else d[2..], mask, i + 1);
      assert r.value.0[1..] == s.value.0;
    }
  }

  lemma DecodeStep(d: seq<byte>, m: seq<byte>)
    ensures Ends(d) ==> Decode(d, m) == Some(m)
    ensures !Ends(d) && TakeBlock(d).None? ==> Decode(d, m) == None
    ensures !Ends(d) && TakeBlock(d).Some? ==>
              var (b, rest) := TakeBlock(d).value;
              var r := PutWords(m, 8 * b.num, b.words);
              Decode(d, m) == if r.None? then None else Decode(rest, r.value)
  {
  }

  /** The logical map, or false when a cell cannot be read or a block runs over the cells or the map. */
  method ReadLogical(cells: seq<Cell>, log: array<byte>) returns (ok: bool)
    requires |cells| == PHYS_SIZE
    modifies log
    ensures var v := Values(cells[..LOG_LIMIT]);
            && (ok <==> v.Some? && Decode(v.value, Blank(log.Length)).Some?)
            && (ok ==> Decode(v.value, Blank(log.Length)) == Some(log[..]))
  {
    hide TakeWords, PutWords, Decode;
    var dump := DumpPhysical(cells[..LOG_LIMIT]);
    if dump.None? {
      return false;
    }
    var phys := dump.value;
    forall i | 0 <= i < log.Length {
      log[i] := BLANK;
    }
    assert log[..] == Blank(log.Length);
    ghost var all := Decode(phys, Blank(log.Length));
    var idx, limit := 0, |phys|;
    assert phys[0..] == phys;
    while idx < limit
      invariant 0 <= idx <= limit && all == Decode(phys[idx..], log[..])
    {
      ghost var d := phys[idx..];
      var h1 := phys[idx];
      var h2 := if idx + 1 < limit then phys[idx + 1] else BLANK;
      if h1 == BLANK || (h1 % 32 == 15 && h2 == BLANK) {
        break;
      }
      DecodeStep(d, log[..]);
      var num: nat, mask: nat;
      if h1 % 32 == 15 {
        num, mask := h2 / 16 * 8 + h1 / 32, h2 % 16;
        idx := idx + 2;
        assert d[2..] == phys[idx..];
      } else {
        num, mask := h1 / 16, h1 % 16;
        idx := idx + 1;
        assert d[1..] == phys[idx..];
      }
      var next := ReadWords(phys, idx, num, mask, log);
      if next.None? {
        return false;
      }
      idx := next.value;
    }
    DecodeStep(phys[idx..], log[..]);
    ok := true;
  }

  /** The six bytes of the map at the address the card keeps its MAC at; None when none was ever written. */
  method ReadMac(cells: seq<Cell>) returns (mac: Option<seq<byte>>)
    requires |cells| == PHYS_SIZE
    ensures var v := Values(cells[..LOG_LIMIT]);
            var m := if v.None? then None else Decode(v.value, Blank(LOG_SIZE));
            && (mac.Some? <==> m.Some? && m.value[MAC_OFFSET..MAC_OFFSET + 6] != Blank(6))
            && (mac.Some? ==> mac.value == m.value[MAC_OFFSET..MAC_OFFSET + 6])
  {
    hide Decode;
    var log := new byte[LOG_SIZE];
    var ok := ReadLogical(cells, log);
    if !ok {
      return None;
    }
    var bytes := log[MAC_OFFSET..MAC_OFFSET + 6];
    for i := 0 to 6
      invariant forall j :: 0 <= j < i ==> bytes[j] == BLANK
    {
      if bytes[i] != BLANK {
        assert bytes != Blank(6);
        return Some(bytes);
      }
    }
    assert bytes == Blank(6);
    mac := None;
  }

  /** The MAC read from a programmed card is the latest byte written to each address. */
  lemma MacIsLatest(d: seq<byte>, bs: seq<LogBlock>, rest: seq<byte>, k: nat)
    requires IsLog(d, bs, rest) && WriteAll(Blank(LOG_SIZE), bs).Some? && k < 6
    ensures Decode(d, Blank(LOG_SIZE)).Some?
    ensures Decode(d, Blank(LOG_SIZE)).value[MAC_OFFSET + k]
         == if Latest(bs, MAC_OFFSET + k).Some? then Latest(bs, MAC_OFFSET + k).value else BLANK
  {
    hide Latest, WriteAll, EncodeAll;
    DecodeEncoded(bs, rest, Blank(LOG_SIZE));
    LastWriteWins(Blank(LOG_SIZE), bs, MAC_OFFSET + k);
  }
}
