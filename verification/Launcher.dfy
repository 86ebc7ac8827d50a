/** The launcher's reading of desktop entries, and what an installation leaves for it. */
module Launcher {
  import opened Bits
  import opened Apk

  const ENTRY_CAP := 511
  const NAME_CAP := 39
  const EXEC_CAP := 71
  const ICON_CAP := 31

  datatype App = App(name: string, exec: string, icon: string)

  function Take(s: string, n: nat): string { if |s| <= n then s else s[..n] }

  // ----- reading an entry -----

  /** Up to the end of the line. */
  function LineOf(s: string): (l: string)
    ensures |l| <= |s| && l == s[..|l|] && '\n' !in l && (|l| == |s| || s[|l|] == '\n')
  {
    if s == [] || s[0] == '\n' then [] else [s[0]] + LineOf(s[1..])
  }

  predicate Starts(s: string, p: string) { |p| <= |s| && s[..|p|] == p }

  /** What a line says; a field is cut to its buffer. */
  function ReadLine(l: string, a: App): App {
    if Starts(l, "Name=") then a.(name := Take(l[5..], NAME_CAP))
    else if Starts(l, "Exec=") then a.(exec := Take(l[5..], EXEC_CAP))
    else if Starts(l, "Icon=") then a.(icon := Take(l[5..], ICON_CAP))
    else a
  }

  function ReadLines(s: string, a: App): App
    decreases |s|
  {
    if s == [] then a
    else
      var l := LineOf(s);
      var b := ReadLine(l, a);
      if |l| == |s| then b else ReadLines(s[|l| + 1..], b)
  }

  /** The first 511 bytes of a file, up to a terminator. */
  function ReadApp(file: string): App {
    ReadLines(CStr(Take(file, ENTRY_CAP)), App("", "", ""))
  }

  method ScanEntry(file: string) returns (a: App)
    ensures a == ReadApp(file)
  {
    hide ReadLine, LineOf;
    var buf := CStr(Take(file, ENTRY_CAP));
    a := App("", "", "");
    var p := 0;
    assert buf[0..] == buf;
    while p < |buf|
      invariant p <= |buf| && ReadApp(file) == ReadLines(buf[p..], a)
    {
      var e := LineEnd(buf, p);
      var b := ScanLine(buf[p..e], a);
      LinesFrom(buf, p, e, a);
      a := b;
      p := if e < |buf| then e + 1 else e;
    }
  }

  method ScanLine(line: string, a: App) returns (b: App)
    ensures b == ReadLine(line, a)
  {
    if |line| >= 5 && line[..5] == "Name=" {
      b := a.(name := Take(line[5..], NAME_CAP));
    } else if |line| >= 5 && line[..5] == "Exec=" {
      b := a.(exec := Take(line[5..], EXEC_CAP));
    } else if |line| >= 5 && line[..5] == "Icon=" {
      b := a.(icon := Take(line[5..], ICON_CAP));
    } else {
      b := a;
    }
  }

  lemma LinesFrom(buf: string, p: nat, e: nat, a: App)
    requires p < |buf| && p <= e <= |buf| && buf[p..e] == LineOf(buf[p..])
    ensures ReadLines(buf[p..], a)
         == ReadLines(buf[if e < |buf| then e + 1 else e..], ReadLine(buf[p..e], a))
  {
    hide ReadLine, LineOf;
    if e < |buf| {
      assert buf[p..][e - p + 1..] == buf[e + 1..];
    } else {
      assert buf[|buf|..] == [];
    }
  }

  method LineEnd(buf: string, p: nat) returns (e: nat)
    requires p < |buf|
    ensures p <= e <= |buf| && buf[p..e] == LineOf(buf[p..])
  {
    e := p;
    while e < |buf| && buf[e] != '\n'
      invariant p <= e <= |buf| && '\n' !in buf[p..e]
    {
      assert buf[p..e + 1] == buf[p..e] + [buf[e]];
      e := e + 1;
    }
    ghost var s := buf[p..];
    assert s[..e - p] == buf[p..e];
    LineUnique(s, e - p);
  }

  lemma {:induction false} LineUnique(s: string, i: nat)
    requires i <= |s| && '\n' !in s[..i] && (i == |s| || s[i] == '\n')
    ensures LineOf(s) == s[..i]
  {
    if i > 0 {
      assert s[0] == s[..i][0];
      assert s[1..][..i - 1] == s[..i][1..];
      LineUnique(s[1..], i - 1);
    }
  }

  // ----- the entry a package brings -----

  lemma {:induction false} LineFirst(l: string, rest: string)
    requires '\n' !in l
    ensures LineOf(l + ("\n" + rest)) == l
    decreases |l|
  {
    if l != [] {
      assert (l + ("\n" + rest))[1..] == l[1..] + ("\n" + rest);
      LineFirst(l[1..], rest);
    }
  }

  /** A line and what follows it. */
  lemma LinesNext(l: string, rest: string, a: App)
    requires '\n' !in l
    ensures ReadLines(l + ("\n" + rest), a) == ReadLines(rest, ReadLine(l, a))
  {
    hide ReadLine;
    LineFirst(l, rest);
    assert (l + ("\n" + rest))[|l| + 1..] == rest;
  }

  lemma TokenClean(s: string)
    requires ValidToken(s)
    ensures '\n' !in s && '\0' !in s
  {
    forall i | 0 <= i < |s|
      ensures s[i] != '\n' && s[i] != '\0'
    {
      assert Token(s[i]);
    }
  }

  lemma FieldLine(key: string, v: string)
    requires |key| == 5
    ensures (key + v)[..5] == key && (key + v)[5..] == v
  {
  }

  /** The text as its five lines. */
  lemma EntryLines(h: Header)
    ensures DesktopEntry(h)
         == "[Desktop Entry]" + ("\n" + (("Name=" + h.name) + ("\n" + (("Exec=" + BinPath(h.name)) + ("\n"
            + (("Icon=" + h.icon) + ("\n" + ("Type=Application" + ("\n" + "")))))))))
  {
    hide BinPath;
  }

  lemma ReadName(v: string, a: App)
    ensures ReadLine("Name=" + v, a) == a.(name := Take(v, NAME_CAP))
    ensures ReadLine("Exec=" + v, a) == a.(exec := Take(v, EXEC_CAP))
    ensures ReadLine("Icon=" + v, a) == a.(icon := Take(v, ICON_CAP))
  {
    FieldLine("Name=", v);
    FieldLine("Exec=", v);
    FieldLine("Icon=", v);
  }

  lemma EntryClean(h: Header)
    requires ValidToken(h.name) && ValidToken(h.icon)
    ensures |DesktopEntry(h)| <= ENTRY_CAP && '\0' !in DesktopEntry(h)
  {
    hide BinPath, ValidToken;
    TokenClean(h.name);
    TokenClean(h.icon);
    PathClean(h.name);
    Short(h.name);
    Short(h.icon);
  }

  lemma Short(s: string)
    requires ValidToken(s)
    ensures |s| < 32 && |BinPath(s)| < 37
  {
  }

  /** The launcher reads the entry a package brings as the package's name, program and icon. */
  lemma EntryReads(h: Header)
    requires ValidToken(h.name) && ValidToken(h.icon)
    ensures ReadApp(DesktopEntry(h)) == App(h.name, "/bin/" + h.name, h.icon)
  {
    hide ReadLines, ReadLine, ValidToken, DesktopEntry, CStr;
    EntryClean(h);
    TokenClean(h.name);
    TokenClean(h.icon);
    PathClean(h.name);
    Short(h.name);
    Short(h.icon);
    var t := DesktopEntry(h);
    assert t[..|t|] == t;
    CStrUnique(t, |t|);
    EntryLines(h);
    var r4 := "Type=Application" + ("\n" + "");
    var r3 := ("Icon=" + h.icon) + ("\n" + r4);
    var r2 := ("Exec=" + BinPath(h.name)) + ("\n" + r3);
    var r1 := ("Name=" + h.name) + ("\n" + r2);
    var a := App("", "", "");
    OtherLines(a);
    LinesNext("[Desktop Entry]", r1, a);
    LinesNext("Name=" + h.name, r2, a);
    ReadName(h.name, a);
    var b := a.(name := h.name);
    LinesNext("Exec=" + BinPath(h.name), r3, b);
    ReadName(BinPath(h.name), b);
    var c := b.(exec := BinPath(h.name));
    LinesNext("Icon=" + h.icon, r4, c);
    ReadName(h.icon, c);
    var d := c.(icon := h.icon);
    LinesNext("Type=Application", "", d);
    OtherLines(d);
  }

  lemma OtherLines(a: App)
    ensures ReadLine("[Desktop Entry]", a) == a && ReadLine("Type=Application", a) == a && ReadLines("", a) == a
  {
    assert "[Desktop Entry]"[..5] == "[Desk" && "Type=Application"[..5] == "Type=";
  }

  // ----- what a successful installation leaves -----

  lemma UsableTokens(p: string, name: string)
    requires Usable(p, name).Some? && Usable(p, name).value.0.desktop
    ensures ValidToken(Usable(p, name).value.0.icon)
  {
  }

  /** After `apk add` succeeds the program holds the packed data, the record names it, and the launcher finds
      name, program and icon where the package asks for an entry; where it does not, the entry is as before. */
  lemma AddLeaves(fs: Files, name: string, pkg: Option<string>, l: Luck)
    requires Apk.Starts(fs, name, pkg, l) && Add(fs, name, pkg, l).0 == 0
    ensures var (h, e) := Usable(pkg.value, name).value;
            var r := Add(fs, name, pkg, l).1;
            var desk := "/usr/share/applications/" + name + ".desktop";
            && "/bin/" + name in r && r["/bin/" + name] == e.data
            && "/var/db/ypkg/" + name in r && r["/var/db/ypkg/" + name] == "/bin/" + name + "\n"
            && (h.desktop ==> desk in r && ReadApp(r[desk]) == App(name, "/bin/" + name, h.icon))
            && (!h.desktop ==> (desk in r <==> desk in fs) && (desk in fs ==> r[desk] == fs[desk]))
  {
    hide Usable, ReadApp, DesktopEntry;
    UsableName(pkg.value, name);
    PathsDiffer(name, name);
    var h := Usable(pkg.value, name).value.0;
    if h.desktop {
      UsableTokens(pkg.value, name);
      EntryReads(h);
    }
  }

  /** `apk add` of a usable package that is not installed succeeds exactly when neither the program nor, where
      the package asks for one, the entry is there, and every step goes through. */
  lemma AddSucceedsIff(fs: Files, name: string, pkg: Option<string>, l: Luck)
    requires Apk.Starts(fs, name, pkg, l)
    ensures var (h, e) := Usable(pkg.value, name).value;
            Add(fs, name, pkg, l).0 == 0
            <==> && "/bin/" + name !in fs && l.bin.Stored? && (e.exec ==> l.chmod) && l.record.Stored?
                 && (h.desktop ==> "/usr/share/applications/" + name + ".desktop" !in fs && l.desktop.Stored?)
  {
    hide Usable, DesktopEntry;
    UsableName(pkg.value, name);
  }
}
