/** The text editor: a fixed buffer of NUL-terminated rows that its loops shift in place. */
module Editor {
  import opened Bits
  import opened EditorText

  /** The row with its terminator. */
  function At(s: string, k: int): char { if 0 <= k < |s| then s[k] else NUL }

  const COPY_CAP := ELINES * ECOLS + ELINES

  method SelNorm(aL: nat, aC: nat, bL: nat, bC: nat) returns (l1: nat, c1: nat, l2: nat, c2: nat)
    ensures InOrder(l1, c1, l2, c2)
    ensures (l1, c1, l2, c2) == (aL, aC, bL, bC) || (l1, c1, l2, c2) == (bL, bC, aL, aC)
  {
    if aL < bL || (aL == bL && aC <= bC) {
      l1, c1, l2, c2 := aL, aC, bL, bC;
    } else {
      l1, c1, l2, c2 := bL, bC, aL, aC;
    }
  }

  /** The columns of row `L` in the selection; the last one is cut to the row's length by the caller. */
  method SelLineRange(L: nat, l1: nat, c1: nat, l2: nat, c2: nat) returns (some: bool, cs: nat, ce: nat)
    requires l1 <= L <= l2 && InOrder(l1, c1, l2, c2) && c1 < ECOLS && c2 < ECOLS
    ensures cs == (if L == l1 then c1 else 0) && ce == (if L == l2 then c2 else ECOLS) && some == (ce > cs)
  {
    if l1 == l2 {
      cs, ce := c1, c2;
    } else if L == l1 {
      cs, ce := c1, ECOLS;
    } else if L == l2 {
      cs, ce := 0, c2;
    } else {
      cs, ce := 0, ECOLS;
    }
    some := ce > cs;
  }

  class TextEditor {
    const buf: array2<char>
    var nlines: nat
    var cx: nat
    var cy: nat
    var saved: bool
    ghost var lines: seq<string>

    constructor ()
      ensures Valid() && D() == Doc([[]], 0, 0) && saved && fresh(buf)
    {
      buf := new char[ELINES, ECOLS]((i, j) => NUL);
      nlines, cx, cy, saved := 1, 0, 0, true;
      lines := [[]];
    }

    ghost predicate Sized() { buf.Length0 == ELINES && buf.Length1 == ECOLS }

    /** Row `i` of the buffer holds `s`. */
    ghost predicate RowIs(i: nat, s: string)
      requires Sized() && i < ELINES
      reads buf
    {
      Row(s) && buf[i, |s|] == NUL && forall k :: 0 <= k < |s| ==> buf[i, k] == s[k]
    }

    /** The first rows of the buffer hold `rows`. */
    ghost predicate Holds(rows: seq<string>)
      requires Sized()
      reads buf
    {
      |rows| <= ELINES && forall i :: 0 <= i < |rows| ==> RowIs(i, rows[i])
    }

    ghost predicate Valid()
      reads this, buf
    {
      Sized() && nlines == |lines| && D().Valid() && Holds(lines)
    }

    ghost function D(): Doc
      reads this
    {
      Doc(lines, cy, cx)
    }

    // ----- rows -----

    /** Rows other than `i` are as they were. */
    twostate predicate OnlyRow(i: nat)
      reads buf
    {
      forall j, k :: 0 <= j < buf.Length0 && 0 <= k < buf.Length1 && j != i ==> buf[j, k] == old(buf[j, k])
    }

    method LineLen(i: nat, ghost rows: seq<string>) returns (k: nat)
      requires Sized() && Holds(rows) && i < |rows|
      ensures k == |rows[i]|
    {
      k := 0;
      while buf[i, k] != NUL
        invariant 0 <= k <= |rows[i]|
        decreases |rows[i]| - k
      {
        assert buf[i, k] == rows[i][k];
        k := k + 1;
      }
    }

    /** Moves the row from column `c` on, with its terminator, one column to the right, and puts `ch` there. */
    method PutInRow(r: nat, c: nat, len: nat, ch: char, ghost rows: seq<string>)
      requires Sized() && Holds(rows) && r < |rows| && c <= |rows[r]| == len < ECOLS - 1 && ch != NUL && ch != '\n'
      modifies buf
      ensures Holds(rows[r := rows[r][..c] + ([ch] + rows[r][c..])])
    {
      ghost var s := rows[r];
      var i := len + 1;
      while i > c
        invariant c <= i <= |s| + 1 && OnlyRow(r)
        invariant forall k :: 0 <= k < i ==> buf[r, k] == At(s, k)
        invariant forall k :: i < k <= |s| + 1 ==> buf[r, k] == At(s, k - 1)
      {
        i := i - 1;
        buf[r, i + 1] := buf[r, i];
      }
      buf[r, c] := ch;
      ghost var t := s[..c] + ([ch] + s[c..]);
      assert RowIs(r, t);
    }

    /** Takes the character before column `c` out of the row. */
    method CloseGap(r: nat, c: nat, len: nat, ghost rows: seq<string>)
      requires Sized() && Holds(rows) && r < |rows| && 0 < c <= |rows[r]| == len
      modifies buf
      ensures Holds(rows[r := rows[r][..c - 1] + rows[r][c..]])
    {
      ghost var s := rows[r];
      for i := c to len + 1
        invariant OnlyRow(r)
        invariant forall k :: 0 <= k < c - 1 ==> buf[r, k] == s[k]
        invariant forall k :: c - 1 <= k < i - 1 ==> buf[r, k] == At(s, k + 1)
        invariant forall k :: i - 1 <= k <= |s| ==> buf[r, k] == At(s, k)
      {
        buf[r, i - 1] := buf[r, i];
      }
      assert RowIs(r, s[..c - 1] + s[c..]);
    }

    /** Appends row `src` to row `dst`. */
    method AppendRow(dst: nat, pl: nat, src: nat, len: nat, ghost rows: seq<string>)
      requires Sized() && Holds(rows) && dst < |rows| && src < |rows| && dst != src
      requires pl == |rows[dst]| && len == |rows[src]| && pl + len < ECOLS
      modifies buf
      ensures Holds(rows[dst := rows[dst] + rows[src]])
    {
      ghost var p, s := rows[dst], rows[src];
      for i := 0 to len + 1
        invariant OnlyRow(dst)
        invariant forall k :: 0 <= k < pl ==> buf[dst, k] == p[k]
        invariant forall k :: pl <= k < pl + i ==> buf[dst, k] == At(s, k - pl)
      {
        buf[dst, pl + i] := buf[src, i];
      }
      assert RowIs(dst, p + s);
    }

    /** Copies a terminated row, to another row or the one after the last. */
    method CopyRow(dst: nat, src: nat, ghost rows: seq<string>)
      requires Sized() && Holds(rows) && src < |rows| && dst <= |rows| && dst < ELINES && dst != src
      modifies buf
      ensures Holds(if dst < |rows| then rows[dst := rows[src]] else rows + [rows[src]])
    {
      ghost var s := rows[src];
      var k := 0;
      buf[dst, k] := buf[src, k];
      while buf[dst, k] != NUL
        invariant 0 <= k <= |s| && OnlyRow(dst) && buf[dst, k] == buf[src, k]
        invariant forall j :: 0 <= j < k ==> buf[dst, j] == s[j]
        decreases |s| - k
      {
        k := k + 1;
        buf[dst, k] := buf[src, k];
      }
      assert RowIs(dst, s);
    }

    /** The tail of row `r` from column `c` on becomes row `r + 1`, and row `r` ends there. */
    method SplitRow(r: nat, c: nat, len: nat, ghost rows: seq<string>)
      requires Sized() && Holds(rows) && r + 1 < |rows| && c <= |rows[r]| == len
      modifies buf
      ensures Holds(rows[r := rows[r][..c]][r + 1 := rows[r][c..]])
    {
      ghost var s := rows[r];
      var next := r + 1;
      for i := 0 to len - c + 1
        invariant OnlyRow(next)
        invariant forall k :: 0 <= k < i ==> buf[next, k] == At(s, c + k)
      {
        buf[next, i] := buf[r, c + i];
      }
      assert RowIs(next, s[c..]);
      buf[r, c] := NUL;
      assert RowIs(r, s[..c]);
    }

    /** Every row after row `r` moves down by one; row `r` is then there twice. */
    method ShiftDown(r: nat, n: nat, ghost rows: seq<string>)
      requires Sized() && Holds(rows) && r < |rows| == n < ELINES
      modifies buf
      ensures Holds(rows[..r + 1] + rows[r..])
    {
      var i := n;
      ghost var cur := rows;
      while i > r
        invariant r <= i <= n && Holds(cur)
        invariant cur == if i == n then rows else rows[..i + 1] + rows[i..]
      {
        CopyRow(i, i - 1, cur);
        cur := if i < |cur| then cur[i := cur[i - 1]] else cur + [cur[i - 1]];
        i := i - 1;
        assert cur == rows[..i + 1] + rows[i..];
      }
    }

    /** Every row after row `r` moves up by one, over row `r`. */
    method ShiftUp(r: nat, n: nat, ghost rows: seq<string>)
      requires Sized() && Holds(rows) && r < |rows| == n
      modifies buf
      ensures Holds(rows[..r] + rows[r + 1..])
    {
      hide Row;
      ghost var cur := rows;
      for i := r to n - 1
        invariant Holds(cur) && |cur| == n && forall j :: 0 <= j < n ==> cur[j] == rows[if r <= j < i then j + 1 else j]
      {
        CopyRow(i, i + 1, cur);
        cur := cur[i := cur[i + 1]];
      }
      assert rows[..r] + rows[r + 1..] == cur[..n - 1];
    }

    // ----- keys -----

    method InsertChar(ch: char)
      requires Valid() && ch != NUL && ch != '\n'
      modifies this, buf
      ensures Valid() && D() == Insert(old(D()), ch)
      ensures saved == (old(saved) && D() == old(D()))
    {
      EditsValid(D());
      var len := LineLen(cy, lines);
      if len >= ECOLS - 1 {
        return;
      }
      ghost var next := Insert(D(), ch);
      PutInRow(cy, cx, len, ch, lines);
      lines := next.lines;
      cx := cx + 1;
      saved := false;
    }

    method NewLine()
      requires Valid()
      modifies this, buf
      ensures Valid() && D() == Newline(old(D()))
      ensures saved == (old(saved) && D() == old(D()))
    {
      EditsValid(D());
      ghost var next, rows := Newline(D()), lines[..cy + 1] + lines[cy..];
      var len := LineLen(cy, lines);
      if nlines >= ELINES {
        return;
      }
      SplitRows(D(), rows);
      ShiftDown(cy, nlines, lines);
      nlines := nlines + 1;
      SplitRow(cy, cx, len, rows);
      lines := next.lines;
      cy, cx := cy + 1, 0;
      saved := false;
    }

    /** Joins the cursor's row to the one above. */
    method JoinRows(pl: nat, len: nat)
      requires Valid() && cy > 0 && cx == 0 && pl == |lines[cy - 1]| && len == |lines[cy]| && pl + len < ECOLS
      modifies this, buf
      ensures Valid() && D() == Backspace(old(D())) && !saved
    {
      EditsValid(D());
      ghost var next, rows := Backspace(D()), lines[cy - 1 := lines[cy - 1] + lines[cy]];
      EditorText.JoinRows(D(), rows);
      AppendRow(cy - 1, pl, cy, len, lines);
      cx := pl;
      ShiftUp(cy, nlines, rows);
      nlines := nlines - 1;
      cy := cy - 1;
      lines := next.lines;
      saved := false;
    }

    method Erase()
      requires Valid()
      modifies this, buf
      ensures Valid() && D() == Backspace(old(D()))
      ensures saved == (old(saved) && D() == old(D()))
    {
      EditsValid(D());
      ghost var next := Backspace(D());
      var len := LineLen(cy, lines);
      if cx > 0 {
        CloseGap(cy, cx, len, lines);
        lines := next.lines;
        cx := cx - 1;
        saved := false;
      } else if cy > 0 {
        var pl := LineLen(cy - 1, lines);
        if pl + len < ECOLS {
          JoinRows(pl, len);
        }
      }
    }

    /** Printable characters are typed, 8 and 127 erase, 10 and 13 break the line. */
    method Key(a: int)
      requires Valid()
      modifies this, buf
      ensures Valid()
      ensures D() == if 32 <= a < 127 then Insert(old(D()), a as char)
                     else if a == 8 || a == 127 then Backspace(old(D()))
                     else if a == 13 || a == 10 then Newline(old(D()))
                     else old(D())
    {
      if 32 <= a < 127 {
        InsertChar(a as char);
      } else if a == 8 || a == 127 {
        Erase();
      } else if a == 13 || a == 10 {
        NewLine();
      }
    }

    // ----- selection -----

    /** Appends columns `cs` to `ce` of a row to the copy buffer. */
    method CopyColumns(r: nat, cs: nat, ce: nat, acc: string) returns (out: string)
      requires Valid() && r < nlines && cs <= ce <= |lines[r]| && |acc| + (ce - cs) < COPY_CAP - 1
      ensures out == acc + lines[r][cs..ce]
    {
      out := acc;
      for c := cs to ce
        invariant out == acc + lines[r][cs..c]
      {
        if |out| < COPY_CAP - 2 {
          out := out + [buf[r, c]];
        }
      }
    }

    /** One row of the copy. */
    method CopyLine(L: nat, l1: nat, c1: nat, l2: nat, c2: nat, acc: string, ghost total: string) returns (out: string)
      requires Valid() && l1 <= L <= l2 < nlines && InOrder(l1, c1, l2, c2) && c1 <= |lines[l1]| && c2 <= |lines[l2]|
      requires |total| < ELINES * ECOLS
      requires total == acc + Copied(lines, L, if L == l1 then c1 else 0, l2, c2)
      ensures L == l2 ==> out == total
      ensures L < l2 ==> total == out + Copied(lines, L + 1, 0, l2, c2)
    {
      hide Flat, Pre, Post, Offset;
      ghost var from := if L == l1 then c1 else 0;
      ghost var piece := if L == l2 then lines[L][from..c2] else lines[L][from..];
      out := acc;
      var some, cs, ce := SelLineRange(L, l1, c1, l2, c2);
      if some {
        var len := LineLen(L, lines);
        if ce > len {
          ce := len;
        }
        out := CopyColumns(L, cs, ce, out);
        assert lines[L][cs..ce] == piece;
      } else {
        assert piece == [];
        Unit(acc);
      }
      if L < l2 {
        ghost var more := Copied(lines, L + 1, 0, l2, c2);
        Assoc(acc, piece, ['\n'] + more);
        Assoc(acc + piece, ['\n'], more);
        if |out| < COPY_CAP - 2 {
          out := out + ['\n'];
        }
      }
    }

    /** The rows of a selection in reading order. */
    method CopyRows(l1: nat, c1: nat, l2: nat, c2: nat) returns (out: string)
      requires Valid() && l2 < nlines && InOrder(l1, c1, l2, c2) && c1 <= |lines[l1]| && c2 <= |lines[l2]|
      ensures out == Copied(lines, l1, c1, l2, c2)
    {
      ghost var total := Copied(lines, l1, c1, l2, c2);
      CopiedBound(D(), l1, c1, l2, c2);
      hide Copied;
      out := [];
      Unit(total);
      for L := l1 to l2
        invariant total == out + Copied(lines, L, if L == l1 then c1 else 0, l2, c2)
      {
        out := CopyLine(L, l1, c1, l2, c2, out, total);
      }
      out := CopyLine(l2, l1, c1, l2, c2, out, total);
    }

    /** Copies the text between two positions in either order; None when there is none. */
    method SelCopy(aL: nat, aC: nat, bL: nat, bC: nat) returns (r: Option<string>)
      requires Valid() && aL < nlines && bL < nlines && aC <= |lines[aL]| && bC <= |lines[bL]|
      ensures Offset(lines, aL, aC) <= |Flat(lines)| && Offset(lines, bL, bC) <= |Flat(lines)|
      ensures var t := Between(Flat(lines), Offset(lines, aL, aC), Offset(lines, bL, bC));
              r == if t == [] then None else Some(t)
    {
      hide Copied, Flat, Offset;
      var l1, c1, l2, c2 := SelNorm(aL, aC, bL, bC);
      CopiedIs(lines, l1, c1, l2, c2);
      var text := CopyRows(l1, c1, l2, c2);
      r := if |text| > 0 then Some(text) else None;
    }
  }
}
