/** The editor's document as rows with a cursor, and as one flat text with a caret. */
module EditorText {
  import opened Bits

  const ELINES := 64
  const ECOLS := 80
  const NUL := '\0'

  /** Rows and the cursor in them. */
  datatype Doc = Doc(lines: seq<string>, cy: nat, cx: nat) {
    ghost predicate Valid() {
      && 1 <= |lines| <= ELINES && cy < |lines| && cx <= |lines[cy]|
      && forall i :: 0 <= i < |lines| ==> Row(lines[i])
    }

    function Line(): string
      requires cy < |lines|
    {
      lines[cy]
    }

    function Text(): string
      requires |lines| >= 1
    {
      Flat(lines)
    }

    function Caret(): nat
      requires cy < |lines|
    {
      Offset(lines, cy, cx)
    }
  }

  /** A row fits the buffer with its terminator, and holds neither terminators nor line ends. */
  predicate Row(s: string) { |s| < ECOLS && NUL !in s && '\n' !in s }

  // ----- flat text -----

  function Pre(ls: seq<string>): string { if ls == [] then [] else ls[0] + (['\n'] + Pre(ls[1..])) }

  function Post(ls: seq<string>): string { if ls == [] then [] else ['\n'] + (ls[0] + Post(ls[1..])) }

  function Flat(ls: seq<string>): string
    requires |ls| >= 1
  {
    ls[0] + Post(ls[1..])
  }

  /** Where column `c` of row `l` is in the flat text. */
  function Offset(ls: seq<string>, l: nat, c: nat): nat
    requires l < |ls|
  {
    |Pre(ls[..l])| + c
  }

  /** The text around a row. */
  lemma {:induction false} FlatSplit(ls: seq<string>, i: nat)
    requires i < |ls|
    ensures Flat(ls) == Pre(ls[..i]) + (ls[i] + Post(ls[i + 1..]))
    decreases i
  {
    if i == 0 {
      Unit(Flat(ls));
    } else {
      var t := ls[1..];
      FlatSplit(t, i - 1);
      assert t[..i - 1] == ls[..i][1..] && t[i..] == ls[i + 1..];
      var rest := ls[i] + Post(ls[i + 1..]);
      Assoc(ls[0], ['\n'] + Pre(t[..i - 1]), rest);
      Assoc(['\n'], Pre(t[..i - 1]), rest);
    }
  }

  /** Rows `i` on, seen from row `j` after it. */
  lemma {:induction false} PreSplit(a: seq<string>, b: seq<string>)
    ensures Pre(a + b) == Pre(a) + Pre(b)
    decreases |a|
  {
    if a == [] {
      Unit(b);
      Unit(Pre(b));
    } else {
      PreSplit(a[1..], b);
      assert (a + b)[1..] == a[1..] + b;
      Assoc(a[0], ['\n'] + Pre(a[1..]), Pre(b));
      Assoc(['\n'], Pre(a[1..]), Pre(b));
    }
  }

  // ----- edits -----

  function Insert(d: Doc, ch: char): Doc
    requires d.Valid()
  {
    var l := d.Line();
    if |l| >= ECOLS - 1 then d
    else d.(lines := d.lines[d.cy := l[..d.cx] + ([ch] + l[d.cx..])], cx := d.cx + 1)
  }

  function Newline(d: Doc): Doc
    requires d.Valid()
  {
    var l := d.Line();
    if |d.lines| >= ELINES then d
    else Doc(d.lines[..d.cy] + ([l[..d.cx], l[d.cx..]] + d.lines[d.cy + 1..]), d.cy + 1, 0)
  }

  function Backspace(d: Doc): Doc
    requires d.Valid()
  {
    var l := d.Line();
    if d.cx > 0 then d.(lines := d.lines[d.cy := l[..d.cx - 1] + l[d.cx..]], cx := d.cx - 1)
    else if d.cy > 0 && |d.lines[d.cy - 1]| + |l| < ECOLS then
      var p := d.lines[d.cy - 1];
      Doc(d.lines[..d.cy - 1] + ([p + l] + d.lines[d.cy + 1..]), d.cy - 1, |p|)
    else d
  }

  predicate CanErase(d: Doc)
    requires d.Valid()
  {
    d.cx > 0 || (d.cy > 0 && |d.lines[d.cy - 1]| + |d.Line()| < ECOLS)
  }

  /** The text with `ch` put in at the caret. */
  function Typed(t: string, at: nat, ch: char): string
    requires at <= |t|
  {
    t[..at] + ([ch] + t[at..])
  }

  function Erased(t: string, at: nat): string
    requires 0 < at <= |t|
  {
    t[..at - 1] + t[at..]
  }

  lemma CaretIn(d: Doc)
    requires d.Valid()
    ensures d.Caret() <= |d.Text()|
    ensures d.Text()[..d.Caret()] == Pre(d.lines[..d.cy]) + d.Line()[..d.cx]
    ensures d.Text()[d.Caret()..] == d.Line()[d.cx..] + Post(d.lines[d.cy + 1..])
  {
    hide Pre, Post;
    FlatSplit(d.lines, d.cy);
    var a, l, b := Pre(d.lines[..d.cy]), d.Line(), Post(d.lines[d.cy + 1..]);
    assert d.Text() == (a + l[..d.cx]) + (l[d.cx..] + b);
  }

  /** Inserting a character is a single-character edit when the row has room, and nothing otherwise. */
  lemma InsertText(d: Doc, ch: char)
    requires d.Valid() && ch != NUL && ch != '\n'
    ensures Insert(d, ch).Valid() && d.Caret() <= |d.Text()|
    ensures |d.Line()| < ECOLS - 1 ==>
              Insert(d, ch).Text() == Typed(d.Text(), d.Caret(), ch) && Insert(d, ch).Caret() == d.Caret() + 1
    ensures |d.Line()| >= ECOLS - 1 ==> Insert(d, ch) == d
  {
    hide Pre, Post;
    CaretIn(d);
    if |d.Line()| < ECOLS - 1 {
      var e := Insert(d, ch);
      CaretIn(e);
      var a, l, b := Pre(d.lines[..d.cy]), d.Line(), Post(d.lines[d.cy + 1..]);
      assert e.lines[..e.cy] == d.lines[..d.cy] && e.lines[e.cy + 1..] == d.lines[d.cy + 1..];
      assert e.Line()[..e.cx] == l[..d.cx] + [ch] && e.Line()[e.cx..] == l[d.cx..];
      assert e.Text() == e.Text()[..e.Caret()] + e.Text()[e.Caret()..];
      Assoc(a, l[..d.cx], [ch]);
      Assoc(a + l[..d.cx], [ch], l[d.cx..] + b);
    }
  }

  /** So is a line end, while there are rows left. */
  lemma NewlineText(d: Doc)
    requires d.Valid()
    ensures Newline(d).Valid() && d.Caret() <= |d.Text()|
    ensures |d.lines| < ELINES ==>
              Newline(d).Text() == Typed(d.Text(), d.Caret(), '\n') && Newline(d).Caret() == d.Caret() + 1
    ensures |d.lines| >= ELINES ==> Newline(d) == d
  {
    hide Pre, Post;
    CaretIn(d);
    if |d.lines| < ELINES {
      var e := Newline(d);
      var a, l, b := Pre(d.lines[..d.cy]), d.Line(), Post(d.lines[d.cy + 1..]);
      assert e.lines[..e.cy] == d.lines[..d.cy] + [l[..d.cx]] && e.lines[e.cy + 1..] == d.lines[d.cy + 1..];
      CaretIn(e);
      PreSplit(d.lines[..d.cy], [l[..d.cx]]);
      PreOne(l[..d.cx]);
      Assoc(a, l[..d.cx], ['\n']);
      assert e.Text() == e.Text()[..e.Caret()] + e.Text()[e.Caret()..];
      assert e.Line()[..0] == [] && e.Line()[0..] == l[d.cx..];
      Unit(a + (l[..d.cx] + ['\n']));
      Assoc(a + l[..d.cx], ['\n'], l[d.cx..] + b);
    }
  }

  lemma PreOne(s: string)
    ensures Pre([s]) == s + ['\n']
  {
    assert [s][1..] == [];
    Unit(['\n']);
  }

  /** Backspace takes out the character before the caret, unless there is none or two rows do not fit one. */
  lemma BackspaceText(d: Doc)
    requires d.Valid()
    ensures Backspace(d).Valid() && d.Caret() <= |d.Text()|
    ensures CanErase(d) ==> d.Caret() > 0 && Backspace(d).Caret() == d.Caret() - 1
                            && Backspace(d).Text() == Erased(d.Text(), d.Caret())
    ensures !CanErase(d) ==> Backspace(d) == d
  {
    hide Pre, Post, Flat;
    CaretIn(d);
    if d.cx > 0 {
      EraseText(d);
    } else if CanErase(d) {
      JoinText(d);
    }
  }

  lemma EraseText(d: Doc)
    requires d.Valid() && d.cx > 0
    ensures Backspace(d).Valid() && 0 < d.Caret() <= |d.Text()| && Backspace(d).Caret() == d.Caret() - 1
    ensures Backspace(d).Text() == Erased(d.Text(), d.Caret())
  {
    hide Pre, Post, Flat;
    CaretIn(d);
    var e, l := Backspace(d), d.Line();
    var a := Pre(d.lines[..d.cy]);
    CaretIn(e);
    assert e.lines[..e.cy] == d.lines[..d.cy] && e.lines[e.cy + 1..] == d.lines[d.cy + 1..];
    assert e.Line()[..e.cx] == l[..d.cx - 1] && e.Line()[e.cx..] == l[d.cx..];
    assert e.Text() == e.Text()[..e.Caret()] + e.Text()[e.Caret()..];
    assert l[..d.cx] == l[..d.cx - 1] + [l[d.cx - 1]];
    DropLast(a, l[..d.cx - 1], l[d.cx - 1]);
    assert d.Text()[..d.Caret() - 1] == d.Text()[..d.Caret()][..d.Caret() - 1];
  }

  lemma DropLast(a: string, b: string, c: char)
    ensures (a + (b + [c]))[..|a| + |b|] == a + b
  {
  }

  lemma JoinText(d: Doc)
    requires d.Valid() && d.cx == 0 && CanErase(d)
    ensures Backspace(d).Valid() && 0 < d.Caret() <= |d.Text()| && Backspace(d).Caret() == d.Caret() - 1
    ensures Backspace(d).Text() == Erased(d.Text(), d.Caret())
  {
    hide Pre, Post, Flat;
    CaretIn(d);
    var e, l, p := Backspace(d), d.Line(), d.lines[d.cy - 1];
    var a, b := Pre(d.lines[..d.cy - 1]), Post(d.lines[d.cy + 1..]);
    assert e.lines[..e.cy] == d.lines[..d.cy - 1] && e.lines[e.cy + 1..] == d.lines[d.cy + 1..];
    CaretIn(e);
    assert e.Line()[..e.cx] == p && e.Line()[e.cx..] == l;
    assert e.Text() == e.Text()[..e.Caret()] + e.Text()[e.Caret()..];
    assert d.lines[..d.cy] == d.lines[..d.cy - 1] + [p];
    PreSplit(d.lines[..d.cy - 1], [p]);
    PreOne(p);
    assert d.Text()[..d.Caret()] == a + (p + ['\n']);
    DropLast(a, p, '\n');
    assert d.Text()[..d.Caret() - 1] == d.Text()[..d.Caret()][..d.Caret() - 1];
  }

  /** Newline then backspace gives the document back exactly when a row was left for it, or neither did anything. */
  lemma NewlineBackspaceIff(d: Doc)
    requires d.Valid()
    ensures Newline(d).Valid()
    ensures Backspace(Newline(d)) == d <==> |d.lines| < ELINES || !CanErase(d)
  {
    NewlineText(d);
    if |d.lines| < ELINES {
      var e := Newline(d);
      var l := d.Line();
      assert e.Line() == l[d.cx..] && e.lines[e.cy - 1] == l[..d.cx];
      assert l[..d.cx] + l[d.cx..] == l;
      assert e.lines[..e.cy - 1] == d.lines[..d.cy] && e.lines[e.cy + 1..] == d.lines[d.cy + 1..];
      assert d.lines == d.lines[..d.cy] + ([l] + d.lines[d.cy + 1..]);
    } else {
      BackspaceText(d);
    }
  }

  /** 64 rows of one letter, the cursor behind the first: newline does nothing, backspace takes the letter. */
  lemma FullDocumentLoses()
    ensures var d := Doc(seq(ELINES, i => "a"), 0, 1);
            d.Valid() && Newline(d) == d && Backspace(Newline(d)) == Doc(d.lines[0 := ""], 0, 0)
  {
    var d := Doc(seq(ELINES, i => "a"), 0, 1);
    assert forall i :: 0 <= i < ELINES ==> Row(d.lines[i]);
    assert d.Line() == "a" && "a"[..0] + "a"[1..] == "";
  }

  /** The same for a typed character. */
  lemma InsertBackspaceIff(d: Doc, ch: char)
    requires d.Valid() && ch != NUL && ch != '\n'
    ensures Insert(d, ch).Valid()
    ensures Backspace(Insert(d, ch)) == d <==> |d.Line()| < ECOLS - 1 || !CanErase(d)
  {
    InsertText(d, ch);
    if |d.Line()| < ECOLS - 1 {
      var e := Insert(d, ch);
      var l := d.Line();
      assert e.Line()[..e.cx - 1] == l[..d.cx] && e.Line()[e.cx..] == l[d.cx..];
      assert l[..d.cx] + l[d.cx..] == l;
      assert e.lines[e.cy := l] == d.lines;
    } else {
      BackspaceText(d);
    }
  }

  /** A row of 79 letters, the cursor at its end: typing does nothing, backspace takes the last letter. */
  lemma FullRowLoses(ch: char)
    requires ch != NUL && ch != '\n'
    ensures var d := Doc([seq(ECOLS - 1, i => 'a')], 0, ECOLS - 1);
            d.Valid() && Insert(d, ch) == d && Backspace(Insert(d, ch)) == Doc([seq(ECOLS - 2, i => 'a')], 0, ECOLS - 2)
  {
    var row := seq(ECOLS - 1, i => 'a');
    var d := Doc([row], 0, ECOLS - 1);
    assert Row(row);
    assert row[..ECOLS - 2] + row[ECOLS - 1..] == seq(ECOLS - 2, i => 'a');
    assert Backspace(d).lines == [seq(ECOLS - 2, i => 'a')];
  }

  /** Every edit leaves a valid document. */
  lemma EditsValid(d: Doc)
    requires d.Valid()
    ensures Newline(d).Valid() && Backspace(d).Valid()
    ensures forall ch :: ch != NUL && ch != '\n' ==> Insert(d, ch).Valid()
  {
    NewlineText(d);
    BackspaceText(d);
    forall ch | ch != NUL && ch != '\n'
      ensures Insert(d, ch).Valid()
    {
      InsertText(d, ch);
    }
  }

  /** The rows after a split, from the rows with the split one doubled. */
  lemma SplitRows(d: Doc, rows: seq<string>)
    requires d.Valid() && |d.lines| < ELINES && rows == d.lines[..d.cy + 1] + d.lines[d.cy..]
    ensures |rows| == |d.lines| + 1 && rows[d.cy] == d.Line()
    ensures rows[d.cy := d.Line()[..d.cx]][d.cy + 1 := d.Line()[d.cx..]] == Newline(d).lines
  {
    var a, b, all := d.Line()[..d.cx], d.Line()[d.cx..], Newline(d).lines;
    var split := rows[d.cy := a][d.cy + 1 := b];
    forall i | 0 <= i < |split|
      ensures split[i] == all[i]
    {
      assert i < d.cy ==> split[i] == d.lines[i] == all[i];
      assert i > d.cy + 1 ==> split[i] == d.lines[i - 1] == all[i];
    }
  }

  /** The rows after a join, from the rows with the upper one already joined. */
  lemma JoinRows(d: Doc, rows: seq<string>)
    requires d.Valid() && d.cx == 0 && CanErase(d)
    requires rows == d.lines[d.cy - 1 := d.lines[d.cy - 1] + d.Line()]
    ensures rows[..d.cy] + rows[d.cy + 1..] == Backspace(d).lines
  {
  }

  // ----- selections -----

  /** What is copied from row `l` of a selection that ends at (l2, c2), starting at column `c`, and from the
      rows below. */
  function Copied(ls: seq<string>, l: nat, c: nat, l2: nat, c2: nat): string
    requires l <= l2 < |ls| && c <= |ls[l]| && c2 <= |ls[l2]| && (l == l2 ==> c <= c2)
    decreases l2 - l
  {
    if l == l2 then ls[l][c..c2] else ls[l][c..] + (['\n'] + Copied(ls, l + 1, 0, l2, c2))
  }

  /** The copy is the piece of the flat text between the two positions. */
  lemma {:induction false} CopiedIs(ls: seq<string>, l: nat, c: nat, l2: nat, c2: nat)
    requires l <= l2 < |ls| && c <= |ls[l]| && c2 <= |ls[l2]| && (l == l2 ==> c <= c2)
    ensures Offset(ls, l, c) <= Offset(ls, l2, c2) <= |Flat(ls)|
    ensures Flat(ls)[Offset(ls, l, c)..Offset(ls, l2, c2)] == Copied(ls, l, c, l2, c2)
    decreases l2 - l
  {
    hide Pre, Post, Flat;
    FlatSplit(ls, l);
    var t, a, s, b := Flat(ls), Pre(ls[..l]), ls[l], Post(ls[l + 1..]);
    if l == l2 {
      Slice(a, s, b, c, c2);
    } else {
      CopiedIs(ls, l + 1, 0, l2, c2);
      assert ls[..l + 1] == ls[..l] + [s];
      PreSplit(ls[..l], [s]);
      PreOne(s);
      var mid, end := Offset(ls, l + 1, 0), Offset(ls, l2, c2);
      PostNext(ls, l + 1);
      SliceEnd(a, s, ls[l + 1] + Post(ls[l + 2..]), c);
      assert t[|a| + c..end] == t[|a| + c..mid] + t[mid..end];
      Assoc(s[c..], ['\n'], t[mid..end]);
    }
  }

  lemma Slice(a: string, s: string, b: string, c: nat, c2: nat)
    requires c <= c2 <= |s|
    ensures (a + (s + b))[|a| + c..|a| + c2] == s[c..c2]
  {
  }

  lemma SliceEnd(a: string, s: string, b: string, c: nat)
    requires c <= |s|
    ensures (a + (s + (['\n'] + b)))[|a| + c..|a| + |s| + 1] == s[c..] + ['\n']
  {
  }

  lemma PostNext(ls: seq<string>, i: nat)
    requires i < |ls|
    ensures Post(ls[i..]) == ['\n'] + (ls[i] + Post(ls[i + 1..]))
  {
    assert ls[i..][1..] == ls[i + 1..];
  }

  /** All rows with their line ends fit the copy buffer. */
  lemma {:induction false} PreBound(ls: seq<string>)
    requires forall i :: 0 <= i < |ls| ==> |ls[i]| < ECOLS
    ensures |Pre(ls)| <= ECOLS * |ls|
    decreases |ls|
  {
    if ls != [] {
      PreBound(ls[1..]);
    }
  }

  lemma CopiedBound(d: Doc, l: nat, c: nat, l2: nat, c2: nat)
    requires d.Valid() && l <= l2 < |d.lines| && c <= |d.lines[l]| && c2 <= |d.lines[l2]| && (l == l2 ==> c <= c2)
    ensures |Copied(d.lines, l, c, l2, c2)| < ELINES * ECOLS
  {
    hide Pre, Copied, Flat;
    CopiedIs(d.lines, l, c, l2, c2);
    PreBound(d.lines[..l2]);
  }

  /** The text between two offsets in either order. */
  function Between(t: string, a: nat, b: nat): string
    requires a <= |t| && b <= |t|
  {
    if a < b then t[a..b] else t[b..a]
  }

  /** Positions in reading order. */
  predicate InOrder(l1: nat, c1: nat, l2: nat, c2: nat) { l1 < l2 || (l1 == l2 && c1 <= c2) }
}
