/** The constant tables of the codec: zigzag order, quantiser steps, and the typical Huffman tables
    of Annex K.3 of ITU-T T.81, with the facts about them that the round trip rests on. */
module JpegTables {
  import opened Bits
  import opened Huffman

  // Long tables are split so that a membership question unfolds only a few levels deep.

  const AC_LUM_SYM_1: seq<byte> :=
    ([0x01, 0x02, 0x03, 0x00, 0x04, 0x11, 0x05, 0x12, 0x21]
     + ([0x31, 0x41, 0x06, 0x13, 0x51, 0x61, 0x07, 0x22, 0x71]
     + [0x14, 0x32, 0x81, 0x91, 0xA1, 0x08, 0x23, 0x42, 0xB1]))
  const AC_LUM_SYM_2: seq<byte> :=
    ([0xC1, 0x15, 0x52, 0xD1, 0xF0, 0x24, 0x33, 0x62, 0x72]
     + ([0x82, 0x09, 0x0A, 0x16, 0x17, 0x18, 0x19, 0x1A, 0x25]
     + [0x26, 0x27, 0x28, 0x29, 0x2A, 0x34, 0x35, 0x36, 0x37]))
  const AC_LUM_SYM_3: seq<byte> :=
    ([0x38, 0x39, 0x3A, 0x43, 0x44, 0x45, 0x46, 0x47, 0x48]
     + ([0x49, 0x4A, 0x53, 0x54, 0x55, 0x56, 0x57, 0x58, 0x59]
     + [0x5A, 0x63, 0x64, 0x65, 0x66, 0x67, 0x68, 0x69, 0x6A]))
  const AC_LUM_SYM_4: seq<byte> :=
    ([0x73, 0x74, 0x75, 0x76, 0x77, 0x78, 0x79, 0x7A, 0x83]
     + ([0x84, 0x85, 0x86, 0x87, 0x88, 0x89, 0x8A, 0x92, 0x93]
     + [0x94, 0x95, 0x96, 0x97, 0x98, 0x99, 0x9A, 0xA2, 0xA3]))
  const AC_LUM_SYM_5: seq<byte> :=
    ([0xA4, 0xA5, 0xA6, 0xA7, 0xA8, 0xA9, 0xAA, 0xB2, 0xB3]
     + ([0xB4, 0xB5, 0xB6, 0xB7, 0xB8, 0xB9, 0xBA, 0xC2, 0xC3]
     + [0xC4, 0xC5, 0xC6, 0xC7, 0xC8, 0xC9, 0xCA, 0xD2, 0xD3]))
  const AC_LUM_SYM_6: seq<byte> :=
    ([0xD4, 0xD5, 0xD6, 0xD7, 0xD8, 0xD9, 0xDA, 0xE1, 0xE2]
     + ([0xE3, 0xE4, 0xE5, 0xE6, 0xE7, 0xE8, 0xE9, 0xEA, 0xF1]
     + [0xF2, 0xF3, 0xF4, 0xF5, 0xF6, 0xF7, 0xF8, 0xF9, 0xFA]))
  const AC_LUM_SYM: seq<byte> :=
    (AC_LUM_SYM_1 + AC_LUM_SYM_2 + AC_LUM_SYM_3) + (AC_LUM_SYM_4 + AC_LUM_SYM_5 + AC_LUM_SYM_6)

  const AC_CHR_SYM_1: seq<byte> :=
    ([0x00, 0x01, 0x02, 0x03, 0x11, 0x04, 0x05, 0x21, 0x31]
     + ([0x06, 0x12, 0x41, 0x51, 0x07, 0x61, 0x71, 0x13, 0x22]
     + [0x32, 0x81, 0x08, 0x14, 0x42, 0x91, 0xA1, 0xB1, 0xC1]))
  const AC_CHR_SYM_2: seq<byte> :=
    ([0x09, 0x23, 0x33, 0x52, 0xF0, 0x15, 0x62, 0x72, 0xD1]
     + ([0x0A, 0x16, 0x24, 0x34, 0xE1, 0x25, 0xF1, 0x17, 0x18]
     + [0x19, 0x1A, 0x26, 0x27, 0x28, 0x29, 0x2A, 0x35, 0x36]))
  const AC_CHR_SYM_3: seq<byte> :=
    ([0x37, 0x38, 0x39, 0x3A, 0x43, 0x44, 0x45, 0x46, 0x47]
     + ([0x48, 0x49, 0x4A, 0x53, 0x54, 0x55, 0x56, 0x57, 0x58]
     + [0x59, 0x5A, 0x63, 0x64, 0x65, 0x66, 0x67, 0x68, 0x69]))
  const AC_CHR_SYM_4: seq<byte> :=
    ([0x6A, 0x73, 0x74, 0x75, 0x76, 0x77, 0x78, 0x79, 0x7A]
     + ([0x82, 0x83, 0x84, 0x85, 0x86, 0x87, 0x88, 0x89, 0x8A]
     + [0x92, 0x93, 0x94, 0x95, 0x96, 0x97, 0x98, 0x99, 0x9A]))
  const AC_CHR_SYM_5: seq<byte> :=
    ([0xA2, 0xA3, 0xA4, 0xA5, 0xA6, 0xA7, 0xA8, 0xA9, 0xAA]
     + ([0xB2, 0xB3, 0xB4, 0xB5, 0xB6, 0xB7, 0xB8, 0xB9, 0xBA]
     + [0xC2, 0xC3, 0xC4, 0xC5, 0xC6, 0xC7, 0xC8, 0xC9, 0xCA]))
  const AC_CHR_SYM_6: seq<byte> :=
    ([0xD2, 0xD3, 0xD4, 0xD5, 0xD6, 0xD7, 0xD8, 0xD9, 0xDA]
     + ([0xE2, 0xE3, 0xE4, 0xE5, 0xE6, 0xE7, 0xE8, 0xE9, 0xEA]
     + [0xF2, 0xF3, 0xF4, 0xF5, 0xF6, 0xF7, 0xF8, 0xF9, 0xFA]))
  const AC_CHR_SYM: seq<byte> :=
    (AC_CHR_SYM_1 + AC_CHR_SYM_2 + AC_CHR_SYM_3) + (AC_CHR_SYM_4 + AC_CHR_SYM_5 + AC_CHR_SYM_6)

  const DC_SYM: seq<byte> := [0, 1, 2, 3, 4, 5, 6, 7, 8, 9, 10, 11]

  const DC_LUM_COUNTS: Counts := [0, 1, 5, 1, 1, 1, 1, 1] + [1, 0, 0, 0, 0, 0, 0, 0]
  const DC_CHR_COUNTS: Counts := [0, 3, 1, 1, 1, 1, 1, 1] + [1, 1, 1, 0, 0, 0, 0, 0]
  const AC_LUM_COUNTS: Counts := [0, 2, 1, 3, 3, 2, 4, 3] + [5, 5, 4, 4, 0, 0, 1, 125]
  const AC_CHR_COUNTS: Counts := [0, 2, 1, 2, 4, 4, 3, 4] + [7, 5, 4, 4, 0, 1, 2, 119]

  const ZZ: seq<nat> :=
    (([0, 1, 8, 16, 9, 2, 3, 10] + [17, 24, 32, 25, 18, 11, 4, 5])
     + ([12, 19, 26, 33, 40, 48, 41, 34] + [27, 20, 13, 6, 7, 14, 21, 28]))
    + (([35, 42, 49, 56, 57, 50, 43, 36] + [29, 22, 15, 23, 30, 37, 44, 51])
     + ([58, 59, 52, 45, 38, 31, 39, 46] + [53, 60, 61, 54, 47, 55, 62, 63]))

  const IZZ: seq<nat> :=
    (([0, 1, 5, 6, 14, 15, 27, 28] + [2, 4, 7, 13, 16, 26, 29, 42])
     + ([3, 8, 12, 17, 25, 30, 41, 43] + [9, 11, 18, 24, 31, 40, 44, 53]))
    + (([10, 19, 23, 32, 39, 45, 52, 54] + [20, 22, 33, 38, 46, 51, 55, 60])
     + ([21, 34, 37, 47, 50, 56, 59, 61] + [35, 36, 48, 49, 57, 58, 62, 63]))

  const STD_LUM_Q: seq<nat> :=
    (([16, 11, 10, 16, 24, 40, 51, 61] + [12, 12, 14, 19, 26, 58, 60, 55])
     + ([14, 13, 16, 24, 40, 57, 69, 56] + [14, 17, 22, 29, 51, 87, 80, 62]))
    + (([18, 22, 37, 56, 68, 109, 103, 77] + [24, 35, 55, 64, 81, 104, 113, 92])
     + ([49, 64, 78, 87, 103, 121, 120, 101] + [72, 92, 95, 98, 112, 100, 103, 99]))

  const STD_CHR_Q: seq<nat> :=
    (([17, 18, 24, 47, 99, 99, 99, 99] + [18, 21, 26, 66, 99, 99, 99, 99])
     + ([24, 26, 56, 99, 99, 99, 99, 99] + [47, 66, 99, 99, 99, 99, 99, 99]))
    + (([99, 99, 99, 99, 99, 99, 99, 99] + [99, 99, 99, 99, 99, 99, 99, 99])
     + ([99, 99, 99, 99, 99, 99, 99, 99] + [99, 99, 99, 99, 99, 99, 99, 99]))

  /** The zigzag order and its inverse are permutations of 0..63 that undo each other. */
  lemma ZigzagInverse(i: nat)
    requires i < 64
    ensures |ZZ| == |IZZ| == 64
    ensures ZZ[i] < 64 && IZZ[i] < 64 && IZZ[ZZ[i]] == i && ZZ[IZZ[i]] == i
  {
    if i < 16 {
      Zigzag1(i);
    } else if i < 32 {
      Zigzag2(i);
    } else if i < 48 {
      Zigzag3(i);
    } else {
      Zigzag4(i);
    }
  }

  lemma Zigzag1(i: nat)
    requires 0 <= i < 16
    ensures |ZZ| == |IZZ| == 64
    ensures ZZ[i] < 64 && IZZ[i] < 64 && IZZ[ZZ[i]] == i && ZZ[IZZ[i]] == i
  {
  }

  lemma Zigzag2(i: nat)
    requires 16 <= i < 32
    ensures |ZZ| == |IZZ| == 64
    ensures ZZ[i] < 64 && IZZ[i] < 64 && IZZ[ZZ[i]] == i && ZZ[IZZ[i]] == i
  {
  }

  lemma Zigzag3(i: nat)
    requires 32 <= i < 48
    ensures |ZZ| == |IZZ| == 64
    ensures ZZ[i] < 64 && IZZ[i] < 64 && IZZ[ZZ[i]] == i && ZZ[IZZ[i]] == i
  {
  }

  lemma Zigzag4(i: nat)
    requires 48 <= i < 64
    ensures |ZZ| == |IZZ| == 64
    ensures ZZ[i] < 64 && IZZ[i] < 64 && IZZ[ZZ[i]] == i && ZZ[IZZ[i]] == i
  {
  }

  /** Natural index of zigzag position `k`, and back. */
  function Zz(k: nat): (i: nat)
    requires k < 64
    ensures i < 64
  {
    ZigzagInverse(k);
    ZZ[k]
  }

  function Izz(i: nat): (k: nat)
    requires i < 64
    ensures k < 64
  {
    ZigzagInverse(i);
    IZZ[i]
  }

  // ----- the typical Huffman tables -----

  function N(c: Counts, i: nat): nat
    requires i < 16
  {
    c[i]
  }

  function Sum8(c: Counts, i: nat): nat
    requires i == 0 || i == 8
  {
    N(c, i) + N(c, i + 1) + N(c, i + 2) + N(c, i + 3) + N(c, i + 4) + N(c, i + 5) + N(c, i + 6) + N(c, i + 7)
  }

  function Weigh8(c: Counts, i: nat): nat
    requires i == 0 || i == 8
  {
    128 * N(c, i) + 64 * N(c, i + 1) + 32 * N(c, i + 2) + 16 * N(c, i + 3)
    + 8 * N(c, i + 4) + 4 * N(c, i + 5) + 2 * N(c, i + 6) + N(c, i + 7)
  }

  lemma SumsOf(c: Counts)
    ensures Total(c, 1) == Sum8(c, 0) + Sum8(c, 8)
    ensures KraftSum(c, 16) == 256 * Weigh8(c, 0) + Weigh8(c, 8)
  {
    assert Total(c, 17) == 0 && KraftSum(c, 0) == 0;
    assert Total(c, 15) == N(c, 14) + N(c, 15) && KraftSum(c, 2) == 2 * N(c, 0) + N(c, 1);
    assert Total(c, 13) == N(c, 12) + N(c, 13) + Total(c, 15);
    assert KraftSum(c, 4) == 4 * KraftSum(c, 2) + 2 * N(c, 2) + N(c, 3);
    assert Total(c, 11) == N(c, 10) + N(c, 11) + Total(c, 13);
    assert KraftSum(c, 6) == 4 * KraftSum(c, 4) + 2 * N(c, 4) + N(c, 5);
    assert Total(c, 9) == N(c, 8) + N(c, 9) + Total(c, 11);
    assert KraftSum(c, 8) == 4 * KraftSum(c, 6) + 2 * N(c, 6) + N(c, 7);
    assert Total(c, 7) == N(c, 6) + N(c, 7) + Total(c, 9);
    assert KraftSum(c, 10) == 4 * KraftSum(c, 8) + 2 * N(c, 8) + N(c, 9);
    assert Total(c, 5) == N(c, 4) + N(c, 5) + Total(c, 7);
    assert KraftSum(c, 12) == 4 * KraftSum(c, 10) + 2 * N(c, 10) + N(c, 11);
    assert Total(c, 3) == N(c, 2) + N(c, 3) + Total(c, 5);
    assert KraftSum(c, 14) == 4 * KraftSum(c, 12) + 2 * N(c, 12) + N(c, 13);
  }

  lemma Complete(c: Counts, n: nat)
    requires Sum8(c, 0) + Sum8(c, 8) == n && 256 * Weigh8(c, 0) + Weigh8(c, 8) <= 65536
    ensures Kraft(c) && Total(c, 1) == n
  {
    SumsOf(c);
    Pow2Values();
  }

  /** All four tables satisfy Kraft's inequality and list as many symbols as they count. */
  lemma StdTables()
    ensures Kraft(DC_LUM_COUNTS) && Total(DC_LUM_COUNTS, 1) == 12 == |DC_SYM|
    ensures Kraft(DC_CHR_COUNTS) && Total(DC_CHR_COUNTS, 1) == 12
    ensures Kraft(AC_LUM_COUNTS) && Total(AC_LUM_COUNTS, 1) == 162 == |AC_LUM_SYM|
    ensures Kraft(AC_CHR_COUNTS) && Total(AC_CHR_COUNTS, 1) == 162 == |AC_CHR_SYM|
  {
    Complete(DC_LUM_COUNTS, 12);
    Complete(DC_CHR_COUNTS, 12);
    Complete(AC_LUM_COUNTS, 162);
    Complete(AC_CHR_COUNTS, 162);
  }

  /** The AC tables list every run/size pair a baseline block needs ... */
  lemma LumComplete(run: nat, cat: nat)
    requires run < 16 && 1 <= cat <= 10
    ensures 16 * run + cat in AC_LUM_SYM
  {
  }

  lemma ChrComplete(run: nat, cat: nat)
    requires run < 16 && 1 <= cat <= 10
    ensures 16 * run + cat in AC_CHR_SYM
  {
  }

  lemma RunSymbols()
    ensures 0 in AC_LUM_SYM && 0xF0 in AC_LUM_SYM && 0 in AC_CHR_SYM && 0xF0 in AC_CHR_SYM
  {
  }

  /** ... and no size above 10. */
  lemma LumSizes(s: byte)
    requires s in AC_LUM_SYM
    ensures s % 16 <= 10
  {
    if s in AC_LUM_SYM_1 {
      LumSizes1(s);
    } else if s in AC_LUM_SYM_2 {
      LumSizes2(s);
    } else if s in AC_LUM_SYM_3 {
      LumSizes3(s);
    } else if s in AC_LUM_SYM_4 {
      LumSizes4(s);
    } else if s in AC_LUM_SYM_5 {
      LumSizes5(s);
    } else {
      LumSizes6(s);
    }
  }

  lemma LumSizes1(s: byte) requires s in AC_LUM_SYM_1 ensures s % 16 <= 10 {}

  lemma LumSizes2(s: byte) requires s in AC_LUM_SYM_2 ensures s % 16 <= 10 {}

  lemma LumSizes3(s: byte) requires s in AC_LUM_SYM_3 ensures s % 16 <= 10 {}

  lemma LumSizes4(s: byte) requires s in AC_LUM_SYM_4 ensures s % 16 <= 10 {}

  lemma LumSizes5(s: byte) requires s in AC_LUM_SYM_5 ensures s % 16 <= 10 {}

  lemma LumSizes6(s: byte) requires s in AC_LUM_SYM_6 ensures s % 16 <= 10 {}

  lemma ChrSizes(s: byte)
    requires s in AC_CHR_SYM
    ensures s % 16 <= 10
  {
    if s in AC_CHR_SYM_1 {
      ChrSizes1(s);
    } else if s in AC_CHR_SYM_2 {
      ChrSizes2(s);
    } else if s in AC_CHR_SYM_3 {
      ChrSizes3(s);
    } else if s in AC_CHR_SYM_4 {
      ChrSizes4(s);
    } else if s in AC_CHR_SYM_5 {
      ChrSizes5(s);
    } else {
      ChrSizes6(s);
    }
  }

  lemma ChrSizes1(s: byte) requires s in AC_CHR_SYM_1 ensures s % 16 <= 10 {}

  lemma ChrSizes2(s: byte) requires s in AC_CHR_SYM_2 ensures s % 16 <= 10 {}

  lemma ChrSizes3(s: byte) requires s in AC_CHR_SYM_3 ensures s % 16 <= 10 {}

  lemma ChrSizes4(s: byte) requires s in AC_CHR_SYM_4 ensures s % 16 <= 10 {}

  lemma ChrSizes5(s: byte) requires s in AC_CHR_SYM_5 ensures s % 16 <= 10 {}

  lemma ChrSizes6(s: byte) requires s in AC_CHR_SYM_6 ensures s % 16 <= 10 {}
}
