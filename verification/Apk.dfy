/** The package manager: parsing a package, installing its one file with rollback, and removing it again. */
module Apk {
  import opened Bits

  const MAGIC := 0x4B50_5059
  const HEADER := 240
  const PATH_CAP := 192
  const RECORD_CAP := 4096
  const MAX_LINES := 256

  /** File contents by path; a character stands for a byte. */
  type Files = map<string, string>

  function BinPath(n: string): string { "/bin/" + n }

  function DesktopPath(n: string): string { "/usr/share/applications/" + n + ".desktop" }

  function RecordPath(n: string): string { "/var/db/ypkg/" + n }

  /** The three kinds of path never meet, and a name's own paths are its own. */
  lemma PathsDiffer(a: string, b: string)
    ensures BinPath(a) != RecordPath(b) && BinPath(a) != DesktopPath(b) && RecordPath(a) != DesktopPath(b)
    ensures a != b ==> BinPath(a) != BinPath(b) && RecordPath(a) != RecordPath(b)
  {
    assert BinPath(a)[1] == 'b' && RecordPath(b)[1] == 'v' && DesktopPath(b)[1] == 'u' && RecordPath(a)[1] == 'v';
    assert BinPath(a)[5..] == a && BinPath(b)[5..] == b;
    assert RecordPath(a)[13..] == a && RecordPath(b)[13..] == b;
  }

  // ----- names -----

  predicate Alnum(c: char) { 'a' <= c <= 'z' || 'A' <= c <= 'Z' || '0' <= c <= '9' }

  predicate Token(c: char) { Alnum(c) || c == '_' || c == '-' || c == '+' || c == '.' }

  /** Up to 31 characters, the first a letter or digit. */
  predicate ValidToken(s: string) {
    0 < |s| < 32 && Alnum(s[0]) && forall i :: 0 <= i < |s| ==> Token(s[i])
  }

  method CheckToken(s: string) returns (ok: bool)
    requires '\0' !in s
    ensures ok == ValidToken(s)
  {
    if |s| == 0 || !Alnum(s[0]) {
      return false;
    }
    var i := 0;
    while i < 32 && i < |s|
      invariant 0 <= i <= |s| && i <= 31 && forall j :: 0 <= j < i ==> Token(s[j])
    {
      if i >= 31 {
        return false;
      }
      if !Token(s[i]) {
        return false;
      }
      i := i + 1;
    }
    ok := true;
  }

  // ----- packages -----

  function Byte(c: char): nat { (c as int) % 256 }

  function U32(s: string, at: nat): nat
    requires at + 4 <= |s|
  {
    Byte(s[at]) + 0x100 * Byte(s[at + 1]) + 0x1_0000 * Byte(s[at + 2]) + 0x100_0000 * Byte(s[at + 3])
  }

  /** Up to the terminator. */
  function CStr(s: string): (r: string)
    ensures |r| <= |s| && '\0' !in r && r == s[..|r|] && (|r| == |s| || s[|r|] == '\0')
  {
    if s == [] || s[0] == '\0' then [] else [s[0]] + CStr(s[1..])
  }

  method CopyStr(s: string, at: nat, cap: nat) returns (r: string)
    requires 0 < cap && at + cap <= |s|
    ensures r == CStr(s[at..at + cap - 1])
  {
    r := [];
    ghost var f := s[at..at + cap - 1];
    var i := 0;
    while i < cap - 1 && s[at + i] != '\0'
      invariant 0 <= i <= cap - 1 && r == f[..i] && '\0' !in r
    {
      r := r + [s[at + i]];
      i := i + 1;
    }
    CStrUnique(f, i);
  }

  lemma {:induction false} CStrUnique(s: string, i: nat)
    requires i <= |s| && '\0' !in s[..i] && (i == |s| || s[i] == '\0')
    ensures CStr(s) == s[..i]
  {
    if i > 0 {
      assert s[0] == s[..i][0];
      assert s[1..][..i - 1] == s[..i][1..];
      CStrUnique(s[1..], i - 1);
    }
  }

  datatype Header = Header(nfiles: nat, name: string, icon: string, desktop: bool)

  function ParseHeader(p: string): Option<Header> {
    if |p| < HEADER || U32(p, 0) != MAGIC then None
    else
      var nfiles, desktop := U32(p, 8), U32(p, 236);
      var name, ver, icon := CStr(p[12..43]), CStr(p[44..75]), CStr(p[204..235]);
      if U32(p, 4) != 1 || nfiles == 0 || nfiles > 64 || desktop > 1 || !ValidToken(name) || !ValidToken(ver)
         || (desktop == 1 && !ValidToken(icon)) then None
      else Some(Header(nfiles, name, icon, desktop == 1))
  }

  method ReadHeader(p: string) returns (h: Option<Header>)
    ensures h == ParseHeader(p)
  {
    if |p| < HEADER {
      return None;
    }
    if U32(p, 0) != MAGIC {
      return None;
    }
    var name := CopyStr(p, 12, 32);
    var ver := CopyStr(p, 44, 32);
    var icon := CopyStr(p, 204, 32);
    var desktop := U32(p, 236);
    var okName := CheckToken(name);
    var okVer := CheckToken(ver);
    var okIcon := CheckToken(icon);
    if U32(p, 4) != 1 || U32(p, 8) == 0 || U32(p, 8) > 64 || desktop > 1 || !okName || !okVer
       || (desktop == 1 && !okIcon) {
      return None;
    }
    h := Some(Header(U32(p, 8), name, icon, desktop == 1));
  }

  /** The one file of a package: whether it is executable, and its contents. */
  datatype Entry = Entry(exec: bool, data: string)

  /** The entry after the header, which must provide `/bin/` and the package's own name. */
  function ParseEntry(p: string, name: string): Option<Entry>
    requires |p| >= HEADER
  {
    if |p| - HEADER < 4 then None
    else
      var plen := U32(p, HEADER);
      var at := HEADER + 4;
      if plen == 0 || plen >= PATH_CAP || |p| - at < 8 || plen > |p| - at - 8 then None
      else if '\0' in p[at..at + plen] || p[at..at + plen] != BinPath(name) then None
      else
        var mode, size, start := U32(p, at + plen), U32(p, at + plen + 4), at + plen + 8;
        if mode > 1 || size > |p| - start then None
        else Some(Entry(mode == 1, p[start..start + size]))
  }

  /** What package a file is, if it can be installed under `name`. */
  function Usable(p: string, name: string): Option<(Header, Entry)> {
    var h := ParseHeader(p);
    if h.None? || h.value.name != name || h.value.nfiles != 1 then None
    else
      var e := ParseEntry(p, name);
      if e.None? then None else Some((h.value, e.value))
  }

  // ----- what add and del do -----

  /** What becomes of a file that is written: all of it, nothing because it cannot be opened, or a part,
      with failure reported. */
  datatype Outcome = Stored | Lost | Cut(kept: nat) {
    function On(fs: Files, path: string, data: string): Files {
      match this
      case Stored => fs[path := data]
      case Lost => fs
      case Cut(k) => fs[path := data[..if k < |data| then k else |data|]]
    }
  }

  /** How the steps of an installation turn out. */
  datatype Luck = Luck(root: bool, bin: Outcome, chmod: bool, desktop: Outcome, record: Outcome)

  function DesktopEntry(h: Header): string {
    "[Desktop Entry]\nName=" + h.name + "\nExec=" + BinPath(h.name) + "\nIcon=" + h.icon + "\nType=Application\n"
  }

  function Record(n: string): string { BinPath(n) + "\n" }

  /** The package's own file is stored and, where it asks for one, its desktop entry too. */
  predicate BinStored(fs: Files, h: Header, e: Entry, l: Luck) {
    BinPath(h.name) !in fs && l.bin.Stored? && (e.exec ==> l.chmod)
  }

  predicate EntryStored(fs: Files, h: Header, l: Luck) {
    h.desktop ==> DesktopPath(h.name) !in fs && l.desktop.Stored?
  }

  /** Desktop entry and record: both, or what was there before with the part of the write that failed. */
  function Register(fs: Files, h: Header, l: Luck): (bool, Files) {
    if !EntryStored(fs, h, l) then
      (false, if DesktopPath(h.name) in fs then fs else l.desktop.On(fs, DesktopPath(h.name), DesktopEntry(h)))
    else if !l.record.Stored? then (false, l.record.On(fs, RecordPath(h.name), Record(h.name)))
    else
      var entered := if h.desktop then fs[DesktopPath(h.name) := DesktopEntry(h)] else fs;
      (true, entered[RecordPath(h.name) := Record(h.name)])
  }

  /** What an installation leaves: program, desktop entry and record, or none of them but such a part. */
  function Attempt(fs: Files, h: Header, e: Entry, l: Luck): (bool, Files) {
    if !BinStored(fs, h, e, l) then (false, fs)
    else
      var r := Register(fs, h, l);
      (r.0, if r.0 then r.1[BinPath(h.name) := e.data] else r.1)
  }

  /** A package is found that may be installed. */
  predicate Starts(fs: Files, name: string, pkg: Option<string>, l: Luck) {
    ValidToken(name) && l.root && RecordPath(name) !in fs && pkg.Some? && Usable(pkg.value, name).Some?
  }

  /** Exit code and files after `apk add`; `pkg` is the package found locally or fetched. */
  function Add(fs: Files, name: string, pkg: Option<string>, l: Luck): (int, Files) {
    if name == [] then (1, fs)
    else if ValidToken(name) && l.root && RecordPath(name) in fs then (0, fs)
    else if Starts(fs, name, pkg, l) then
      var (h, e) := Usable(pkg.value, name).value;
      var a := Attempt(fs, h, e, l);
      (if a.0 then 0 else -1, a.1)
    else (-1, fs)
  }

  /** The nonempty lines of a record up to a terminator. */
  function Lines(s: string, cur: string): seq<string>
    decreases |s|
  {
    var here := if cur == [] then [] else [cur];
    if s == [] || s[0] == '\0' then here
    else if s[0] == '\n' then here + Lines(s[1..], [])
    else Lines(s[1..], cur + [s[0]])
  }

  /** Removes files from the last to the first until one is missing. */
  function UnlinkAll(fs: Files, ls: seq<string>): (bool, Files) {
    if ls == [] then (true, fs)
    else
      var last := ls[|ls| - 1];
      if last !in fs then (false, fs) else UnlinkAll(fs - {last}, ls[..|ls| - 1])
  }

  predicate Sound(ls: seq<string>, name: string) {
    |ls| <= MAX_LINES && forall i :: 0 <= i < |ls| ==> |ls[i]| < PATH_CAP && ls[i] == BinPath(name)
  }

  /** Which removals the system lets succeed. */
  datatype DelLuck = DelLuck(root: bool, file: bool, desktop: bool, record: bool)

  /** Exit code and files after `apk del`. */
  function Del(fs: Files, name: string, l: DelLuck): (int, Files) {
    var rec, desk := RecordPath(name), DesktopPath(name);
    if !ValidToken(name) || !l.root || rec !in fs || fs[rec] == [] || |fs[rec]| > RECORD_CAP then (-1, fs)
    else
      var ls := Lines(fs[rec], []);
      if !Sound(ls, name) || (ls != [] && !l.file) then (-1, fs)
      else
        var u := UnlinkAll(fs, ls);
        if !u.0 || (desk in u.1 && !l.desktop) then (-1, u.1)
        else if !l.record then (-1, u.1 - {desk})
        else (0, u.1 - {desk, rec})
  }

  // ----- records -----

  /** Every record names the package's own file, which is there. */
  ghost predicate Recorded(fs: Files) {
    forall n: string :: RecordPath(n) in fs ==> fs[RecordPath(n)] == Record(n) && BinPath(n) in fs && ValidToken(n)
  }

  lemma {:induction false} LinesWord(w: string, cur: string)
    requires '\n' !in w && '\0' !in w && cur + w != []
    ensures Lines(w + "\n", cur) == [cur + w]
    decreases |w|
  {
    if w == [] {
      Unit(cur);
      var s := "\n";
      assert w + s == s && s[1..] == [];
      assert Lines([], []) == [];
      Unit([cur]);
    } else {
      var s := w + "\n";
      assert s[1..] == w[1..] + "\n";
      LinesWord(w[1..], cur + [w[0]]);
      assert cur + [w[0]] + w[1..] == cur + w;
    }
  }

  lemma PathClean(n: string)
    requires ValidToken(n)
    ensures '\n' !in BinPath(n) && '\0' !in BinPath(n) && |BinPath(n)| < PATH_CAP
  {
    var p := BinPath(n);
    forall i | 0 <= i < |p|
      ensures p[i] != '\n' && p[i] != '\0'
    {
      if i >= 5 {
        assert p[i] == n[i - 5] && Token(n[i - 5]);
      }
    }
  }

  /** A record reads back as the one path it was written with. */
  lemma RecordLines(n: string)
    requires ValidToken(n)
    ensures Lines(Record(n), []) == [BinPath(n)] && Sound([BinPath(n)], n)
    ensures Record(n) != [] && |Record(n)| <= RECORD_CAP
  {
    PathClean(n);
    LinesWord(BinPath(n), []);
    Unit(BinPath(n));
  }

  lemma UnlinkOne(fs: Files, p: string)
    ensures UnlinkAll(fs, [p]) == if p in fs then (true, fs - {p}) else (false, fs)
  {
    assert [p][..0] == [];
  }

  /** Removing a recorded package always goes through, and takes away its file, its desktop entry and its record. */
  lemma DelRecorded(fs: Files, n: string, l: DelLuck)
    requires Recorded(fs) && RecordPath(n) in fs && l.root && l.file && l.desktop && l.record
    ensures Del(fs, n, l) == (0, fs - {BinPath(n), DesktopPath(n), RecordPath(n)})
  {
    hide Lines, UnlinkAll, Sound;
    RecordLines(n);
    UnlinkOne(fs, BinPath(n));
    assert fs - {BinPath(n)} - {DesktopPath(n), RecordPath(n)} == fs - {BinPath(n), DesktopPath(n), RecordPath(n)};
  }

  // ----- transactions -----

  lemma UsableName(p: string, name: string)
    requires Usable(p, name).Some?
    ensures Usable(p, name).value.0.name == name
  {
  }

  /** Only the package's own three paths ever change. */
  lemma AddTouches(fs: Files, name: string, pkg: Option<string>, l: Luck, p: string)
    requires p != BinPath(name) && p != DesktopPath(name) && p != RecordPath(name)
    ensures var r := Add(fs, name, pkg, l).1; (p in r <==> p in fs) && (p in fs ==> r[p] == fs[p])
  {
    hide Usable, BinPath, DesktopPath, RecordPath;
    if Starts(fs, name, pkg, l) {
      UsableName(pkg.value, name);
    }
  }

  lemma {:induction false} UnlinkTouches(fs: Files, ls: seq<string>, p: string)
    requires p !in ls
    ensures var r := UnlinkAll(fs, ls).1; (p in r <==> p in fs) && (p in fs ==> r[p] == fs[p])
    decreases |ls|
  {
    if ls != [] && ls[|ls| - 1] in fs {
      UnlinkTouches(fs - {ls[|ls| - 1]}, ls[..|ls| - 1], p);
    }
  }

  lemma DelTouches(fs: Files, name: string, l: DelLuck, p: string)
    requires p != BinPath(name) && p != DesktopPath(name) && p != RecordPath(name)
    ensures var r := Del(fs, name, l).1; (p in r <==> p in fs) && (p in fs ==> r[p] == fs[p])
  {
    hide Lines, UnlinkAll;
    if RecordPath(name) in fs {
      var ls := Lines(fs[RecordPath(name)], []);
      if Sound(ls, name) {
        assert p !in ls;
        UnlinkTouches(fs, ls, p);
      }
    }
  }

  /** The write that failed the installation left part of a file behind. */
  predicate Littered(fs: Files, h: Header, e: Entry, l: Luck) {
    && BinStored(fs, h, e, l)
    && if EntryStored(fs, h, l) then l.record.Cut? else DesktopPath(h.name) !in fs && l.desktop.Cut?
  }

  /** A failed installation changes no file exactly when no desktop entry or record was written in part;
      a part of the program itself is always taken back. */
  lemma FailedAddIff(fs: Files, name: string, pkg: Option<string>, l: Luck)
    requires Starts(fs, name, pkg, l) && Add(fs, name, pkg, l).0 == -1
    ensures Add(fs, name, pkg, l).1 == fs
       <==> !Littered(fs, Usable(pkg.value, name).value.0, Usable(pkg.value, name).value.1, l)
  {
    hide Usable, BinPath, DesktopPath, RecordPath;
    UsableName(pkg.value, name);
    var (h, e) := Usable(pkg.value, name).value;
    if Littered(fs, h, e, l) {
      var r := Add(fs, name, pkg, l).1;
      assert (if EntryStored(fs, h, l) then RecordPath(name) else DesktopPath(name)) in r;
    }
  }

  lemma {:induction false} LinesOpen(w: string, cur: string)
    requires '\n' !in w && '\0' !in w && cur + w != []
    ensures Lines(w, cur) == [cur + w]
    decreases |w|
  {
    if w == [] {
      Unit(cur);
    } else {
      LinesOpen(w[1..], cur + [w[0]]);
      assert cur + [w[0]] + w[1..] == cur + w;
    }
  }

  /** A record cut anywhere cannot be removed while its program is gone. */
  lemma CutRecord(fs: Files, n: string, k: nat, l: DelLuck)
    requires ValidToken(n) && k <= |Record(n)| && BinPath(n) !in fs && RecordPath(n) in fs
    requires fs[RecordPath(n)] == Record(n)[..k]
    ensures Del(fs, n, l) == (-1, fs)
  {
    var part := Record(n)[..k];
    PathClean(n);
    if k == |Record(n)| {
      assert part == Record(n);
      RecordLines(n);
      UnlinkOne(fs, BinPath(n));
    } else if k > 0 {
      assert part == BinPath(n)[..k];
      LinesOpen(part, []);
      Unit(part);
      UnlinkOne(fs, BinPath(n));
      if part != BinPath(n) {
        assert Lines(part, [])[0] != BinPath(n);
      }
    }
  }

  /** After a record was written in part the package counts as installed, without its program, and can
      neither be added nor removed. */
  lemma CutRecordSticks(fs: Files, name: string, pkg: Option<string>, l: Luck, pkg': Option<string>, l': Luck,
                        d: DelLuck)
    requires Starts(fs, name, pkg, l) && l'.root
    requires var (h, e) := Usable(pkg.value, name).value; Littered(fs, h, e, l) && EntryStored(fs, h, l)
    ensures var r := Add(fs, name, pkg, l).1;
            BinPath(name) !in r && Add(r, name, pkg', l') == (0, r) && Del(r, name, d) == (-1, r)
  {
    hide Usable, Lines, UnlinkAll;
    UsableName(pkg.value, name);
    PathsDiffer(name, name);
    var r := Add(fs, name, pkg, l).1;
    var k := l.record.kept;
    CutRecord(r, name, if k < |Record(name)| then k else |Record(name)|, d);
  }

  /** After a desktop entry was written in part no package that brings one can be added under the name,
      and the name counts as not installed. */
  lemma CutDesktopSticks(fs: Files, name: string, pkg: Option<string>, l: Luck, pkg': Option<string>, l': Luck,
                         d: DelLuck)
    requires Starts(fs, name, pkg, l)
    requires var (h, e) := Usable(pkg.value, name).value; Littered(fs, h, e, l) && !EntryStored(fs, h, l)
    requires pkg'.Some? && Usable(pkg'.value, name).Some? ==> Usable(pkg'.value, name).value.0.desktop
    ensures var r := Add(fs, name, pkg, l).1;
            r != fs && Add(r, name, pkg', l') == (-1, r) && Del(r, name, d) == (-1, r)
  {
    hide Usable, Lines, UnlinkAll;
    UsableName(pkg.value, name);
    PathsDiffer(name, name);
    var r := Add(fs, name, pkg, l).1;
    assert DesktopPath(name) in r && DesktopPath(name) !in fs;
    if Starts(r, name, pkg', l') {
      UsableName(pkg'.value, name);
    }
  }

  /** Removing a freshly installed package restores all files exactly when it had no desktop entry before. */
  lemma AddDelIff(fs: Files, name: string, pkg: Option<string>, l: Luck, d: DelLuck)
    requires Starts(fs, name, pkg, l) && Add(fs, name, pkg, l).0 == 0 && d.root && d.file && d.desktop && d.record
    ensures Del(Add(fs, name, pkg, l).1, name, d) == (0, fs) <==> DesktopPath(name) !in fs
  {
    hide Lines, UnlinkAll, Sound, Usable;
    UsableName(pkg.value, name);
    var (h, e) := Usable(pkg.value, name).value;
    var r := Add(fs, name, pkg, l).1;
    PathsDiffer(name, name);
    RecordLines(name);
    UnlinkOne(r, BinPath(name));
    var own := {BinPath(name), DesktopPath(name), RecordPath(name)};
    assert r - {BinPath(name)} - {DesktopPath(name), RecordPath(name)} == fs - own;
    assert DesktopPath(name) !in fs - own;
    if DesktopPath(name) !in fs {
      assert fs - own == fs;
    }
  }

  // ----- runs -----

  datatype ApkEvent = Added(name: string, pkg: Option<string>, l: Luck) | Deleted(name: string, root: bool)

  /** Records are written whole or not at all. */
  predicate Whole(e: ApkEvent) { e.Added? ==> !e.l.record.Cut? }

  /** Removals succeed. */
  function Step(fs: Files, e: ApkEvent): Files {
    match e
    case Added(name, pkg, l) => Add(fs, name, pkg, l).1
    case Deleted(name, root) => Del(fs, name, DelLuck(root, true, true, true)).1
  }

  function Run(fs: Files, es: seq<ApkEvent>): Files
    decreases |es|
  {
    if es == [] then fs else Run(Step(fs, es[0]), es[1..])
  }

  lemma AddRecorded(fs: Files, name: string, pkg: Option<string>, l: Luck)
    requires Recorded(fs) && !l.record.Cut?
    ensures Recorded(Add(fs, name, pkg, l).1)
  {
    hide Usable, ValidToken;
    if Starts(fs, name, pkg, l) {
      UsableName(pkg.value, name);
      var r := Add(fs, name, pkg, l).1;
      forall n: string | RecordPath(n) in r
        ensures r[RecordPath(n)] == Record(n) && BinPath(n) in r && ValidToken(n)
      {
        PathsDiffer(n, name);
        PathsDiffer(name, n);
      }
    }
  }

  lemma DelKeepsRecorded(fs: Files, name: string, root: bool)
    requires Recorded(fs)
    ensures Recorded(Del(fs, name, DelLuck(root, true, true, true)).1)
  {
    hide Lines, UnlinkAll, ValidToken;
    var l := DelLuck(root, true, true, true);
    if root && RecordPath(name) in fs {
      DelRecorded(fs, name, l);
      var r := Del(fs, name, l).1;
      forall n: string | RecordPath(n) in r
        ensures r[RecordPath(n)] == Record(n) && BinPath(n) in r && ValidToken(n)
      {
        PathsDiffer(n, name);
        PathsDiffer(name, n);
      }
    }
  }

  /** Over every run from a file system whose records hold, such as one without records, they go on to hold. */
  lemma {:induction false} RunRecorded(fs: Files, es: seq<ApkEvent>)
    requires Recorded(fs) && forall i :: 0 <= i < |es| ==> Whole(es[i])
    ensures Recorded(Run(fs, es))
    decreases |es|
  {
    hide Recorded, Add, Del;
    if es != [] {
      assert Whole(es[0]);
      match es[0] {
        case Added(name, pkg, l) => AddRecorded(fs, name, pkg, l);
        case Deleted(name, root) => DelKeepsRecorded(fs, name, root);
      }
      RunRecorded(Step(fs, es[0]), es[1..]);
    }
  }

  // ----- the program -----

  /** A package may only provide `/bin/` and its own name. */
  predicate ValidFilePath(path: string, name: string) {
    |path| >= 5 && path[..5] == "/bin/" && path[5..] == name
  }

  lemma ValidFilePathIs(path: string, name: string)
    ensures ValidFilePath(path, name) <==> path == BinPath(name)
  {
    assert BinPath(name)[..5] == "/bin/" && BinPath(name)[5..] == name;
    if ValidFilePath(path, name) {
      assert path == path[..5] + path[5..];
    }
  }

  method ReadEntry(p: string, name: string) returns (e: Option<Entry>)
    requires |p| >= HEADER
    ensures e == ParseEntry(p, name)
  {
    hide U32, BinPath, ValidFilePath;
    var off, total := HEADER, |p|;
    if total - off < 4 {
      return None;
    }
    var plen := U32(p, off);
    off := off + 4;
    if plen == 0 || plen >= PATH_CAP || total - off < 8 || plen > total - off - 8 {
      return None;
    }
    ghost var field := p[off..off + plen];
    var path: string := [];
    for i := 0 to plen
      invariant path == field[..i] && '\0' !in path
    {
      if p[off + i] == '\0' {
        assert field[i] == '\0';
        return None;
      }
      path := path + [p[off + i]];
    }
    assert path == field;
    ValidFilePathIs(path, name);
    if !ValidFilePath(path, name) {
      return None;
    }
    off := off + plen;
    var mode := U32(p, off);
    var size := U32(p, off + 4);
    off := off + 8;
    if mode > 1 {
      return None;
    }
    if size > total - off {
      return None;
    }
    e := Some(Entry(mode == 1, p[off..off + size]));
  }

  /** The lines of a record, or None when there are too many. */
  method SplitRecord(db: string) returns (ls: Option<seq<string>>)
    ensures ls.None? <==> |Lines(db, [])| > MAX_LINES
    ensures ls.Some? ==> ls.value == Lines(db, [])
  {
    ghost var all := Lines(db, []);
    var r: seq<string> := [];
    var start, i := 0, 0;
    Unit(all);
    assert db[0..] == db;
    while i <= |db|
      invariant 0 <= start <= i <= |db| && |r| <= MAX_LINES
      invariant all == r + Lines(db[i..], db[start..i])
      decreases |db| + 1 - i
    {
      LinesHere(db, start, i);
      if i == |db| || db[i] == '\n' || db[i] == '\0' {
        if i > start {
          if |r| >= MAX_LINES {
            return None;
          }
          Assoc(r, [db[start..i]], if i < |db| && db[i] == '\n' then Lines(db[i + 1..], []) else []);
          r := r + [db[start..i]];
        }
        if i == |db| || db[i] == '\0' {
          break;
        }
        start := i + 1;
        assert db[start..i + 1] == [];
      }
      i := i + 1;
    }
    ls := Some(r);
  }

  lemma LinesHere(db: string, start: nat, i: nat)
    requires start <= i <= |db|
    ensures var cur := db[start..i];
            var here := if cur == [] then [] else [cur];
            && (i == |db| || db[i] == '\0' ==> Lines(db[i..], cur) == here)
            && (i < |db| && db[i] == '\n' ==> Lines(db[i..], cur) == here + Lines(db[i + 1..], []))
            && (i < |db| && db[i] != '\n' && db[i] != '\0' ==>
                  Lines(db[i..], cur) == Lines(db[i + 1..], db[start..i + 1]))
  {
    if i < |db| {
      assert db[i..][1..] == db[i + 1..];
      assert db[start..i] + [db[i]] == db[start..i + 1];
    }
  }

  /** Taking back the program afterwards is the same as never having stored it. */
  lemma OnUnder(o: Outcome, fs: Files, bin: string, v: string, p: string, d: string)
    requires bin !in fs && p != bin
    ensures o.On(fs[bin := v], p, d) - {bin} == o.On(fs, p, d)
  {
  }

  lemma RegisterUnder(fs: Files, h: Header, e: Entry, l: Luck)
    requires BinStored(fs, h, e, l)
    ensures var r := Register(fs[BinPath(h.name) := e.data], h, l);
            Attempt(fs, h, e, l) == (r.0, if r.0 then r.1 else r.1 - {BinPath(h.name)})
  {
    hide BinPath, DesktopPath, RecordPath, DesktopEntry, Record, Outcome.On;
    PathsDiffer(h.name, h.name);
    var bin, with := BinPath(h.name), fs[BinPath(h.name) := e.data];
    OnUnder(l.desktop, fs, bin, e.data, DesktopPath(h.name), DesktopEntry(h));
    OnUnder(l.record, fs, bin, e.data, RecordPath(h.name), Record(h.name));
    assert with - {bin} == fs;
    if EntryStored(fs, h, l) && l.record.Stored? {
      assert Register(with, h, l).1 == Register(fs, h, l).1[bin := e.data];
    }
  }

  class PackageManager {
    var fs: Files

    constructor (fs: Files)
      ensures this.fs == fs
    {
      this.fs := fs;
    }

    /** Stores the file as the system lets it, and reports whether all of it is there. */
    method Write(path: string, data: string, o: Outcome) returns (ok: bool)
      modifies this
      ensures ok == o.Stored? && fs == o.On(old(fs), path, data)
    {
      match o
      case Stored =>
        fs := fs[path := data];
        ok := true;
      case Lost =>
        ok := false;
      case Cut(k) =>
        fs := fs[path := data[..if k < |data| then k else |data|]];
        ok := false;
    }

    method Unlink(path: string, lucky: bool) returns (ok: bool)
      modifies this
      ensures ok == (lucky && path in old(fs)) && fs == if ok then old(fs) - {path} else old(fs)
    {
      ok := lucky && path in fs;
      if ok {
        fs := fs - {path};
      }
    }

    /** The program and its mode; `stored` says whether there may be something to take back. */
    method StoreBin(bin: string, e: Entry, l: Luck) returns (ok: bool, stored: bool)
      modifies this
      ensures ok == (bin !in old(fs) && l.bin.Stored? && (e.exec ==> l.chmod)) && stored == (bin !in old(fs))
      ensures fs == if stored then l.bin.On(old(fs), bin, e.data) else old(fs)
    {
      stored := bin !in fs;
      ok := stored;
      if ok {
        ok := Write(bin, e.data, l.bin);
        if ok && e.exec {
          ok := l.chmod;
        }
      }
    }

    /** A finished desktop entry is taken back when the record fails. */
    method RegisterApp(h: Header, l: Luck) returns (ok: bool)
      requires RecordPath(h.name) !in fs
      modifies this
      ensures (ok, fs) == Register(old(fs), h, l)
    {
      hide BinPath, DesktopPath, RecordPath, DesktopEntry;
      PathsDiffer(h.name, h.name);
      var desk, rec := DesktopPath(h.name), RecordPath(h.name);
      var entered := false;
      ok := true;
      if h.desktop {
        if desk in fs {
          ok := false;
        } else {
          ok := Write(desk, DesktopEntry(h), l.desktop);
          entered := ok;
        }
      }
      if ok {
        ok := Write(rec, BinPath(h.name) + "\n", l.record);
        if !ok && entered {
          OnUnder(l.record, old(fs), desk, DesktopEntry(h), rec, Record(h.name));
          var _ := Unlink(desk, true);
        }
      }
    }

    /** Installs, and on failure takes back the program and a finished desktop entry. */
    method Install(h: Header, e: Entry, l: Luck) returns (ok: bool)
      requires RecordPath(h.name) !in fs
      modifies this
      ensures (ok, fs) == Attempt(old(fs), h, e, l)
    {
      hide BinPath, DesktopPath, RecordPath, Register;
      PathsDiffer(h.name, h.name);
      var bin := BinPath(h.name);
      var stored;
      ok, stored := StoreBin(bin, e, l);
      ghost var done := ok;
      if ok {
        assert fs == old(fs)[bin := e.data];
        RegisterUnder(old(fs), h, e, l);
        ok := RegisterApp(h, l);
      }
      if !ok && stored {
        ghost var was := fs;
        var _ := Unlink(bin, true);
        assert fs == was - {bin};
        assert done || fs == old(fs);
      }
    }

    method AddPkg(name: string, pkg: Option<string>, l: Luck) returns (code: int)
      requires '\0' !in name
      modifies this
      ensures (code, fs) == Add(old(fs), name, pkg, l)
    {
      hide ParseEntry, ParseHeader, Attempt;
      if |name| == 0 {
        return 1;
      }
      var valid := CheckToken(name);
      if !valid {
        return -1;
      }
      if !l.root {
        return -1;
      }
      if RecordPath(name) in fs {
        return 0;
      }
      if pkg.None? {
        return -1;
      }
      var h := ReadHeader(pkg.value);
      if h.None? {
        return -1;
      }
      if h.value.name != name || h.value.nfiles != 1 {
        return -1;
      }
      HeaderSize(pkg.value);
      var e := ReadEntry(pkg.value, name);
      if e.None? {
        return -1;
      }
      var ok := Install(h.value, e.value, l);
      code := if ok then 0 else -1;
    }

    method DelPkg(name: string, l: DelLuck) returns (code: int)
      requires '\0' !in name
      modifies this
      ensures (code, fs) == Del(old(fs), name, l)
    {
      hide Lines, BinPath, DesktopPath, RecordPath;
      PathsDiffer(name, name);
      var rec, desk := RecordPath(name), DesktopPath(name);
      var valid := CheckToken(name);
      if !valid || !l.root {
        return -1;
      }
      if rec !in fs || |fs[rec]| == 0 || |fs[rec]| > RECORD_CAP {
        return -1;
      }
      var ls := SplitRecord(fs[rec]);
      if ls.None? {
        return -1;
      }
      for i := 0 to |ls.value|
        invariant fs == old(fs) && forall j :: 0 <= j < i ==> |ls.value[j]| < PATH_CAP && ls.value[j] == BinPath(name)
      {
        ValidFilePathIs(ls.value[i], name);
        if |ls.value[i]| >= PATH_CAP || !ValidFilePath(ls.value[i], name) {
          return -1;
        }
      }
      var ok := UnlinkLines(ls.value, l.file);
      if !ok {
        return -1;
      }
      StillRecorded(old(fs), ls.value, name);
      if desk in fs {
        ok := Unlink(desk, l.desktop);
        if !ok {
          return -1;
        }
      }
      assert fs == UnlinkAll(old(fs), ls.value).1 - {desk};
      ghost var left := fs;
      ok := Unlink(rec, l.record);
      assert left - {rec} == UnlinkAll(old(fs), ls.value).1 - {desk, rec};
      code := if ok then 0 else -1;
    }

    method UnlinkLines(ls: seq<string>, lucky: bool) returns (ok: bool)
      modifies this
      ensures lucky ==> (ok, fs) == UnlinkAll(old(fs), ls)
      ensures !lucky ==> ok == (ls == []) && fs == old(fs)
    {
      var i := |ls|;
      assert ls[..i] == ls;
      while i > 0
        invariant 0 <= i <= |ls|
        invariant lucky ==> UnlinkAll(old(fs), ls) == UnlinkAll(fs, ls[..i])
        invariant !lucky ==> i == |ls| && fs == old(fs)
      {
        i := i - 1;
        assert ls[..i + 1][..i] == ls[..i];
        ok := Unlink(ls[i], lucky);
        if !ok {
          return;
        }
      }
      ok := true;
    }
  }

  lemma HeaderSize(p: string)
    ensures ParseHeader(p).Some? ==> |p| >= HEADER
  {
  }

  lemma StillRecorded(fs: Files, ls: seq<string>, name: string)
    requires RecordPath(name) in fs && Sound(ls, name)
    ensures RecordPath(name) in UnlinkAll(fs, ls).1
  {
    PathsDiffer(name, name);
    assert RecordPath(name) !in ls;
    UnlinkTouches(fs, ls, RecordPath(name));
  }
}
