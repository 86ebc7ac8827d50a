/** The packer's archive, and what the package manager reads out of it. */
module ApkPack {
  import opened Bits
  import opened Apk

  /** What is packed: a file of the package, and the package. */
  datatype PackFile = PackFile(dest: string, exec: bool, data: string)

  datatype Manifest =
    Manifest(name: string, ver: string, desc: string, icon: string, desktop: bool, files: seq<PackFile>)
  {
    /** Lengths fit their 32-bit fields. */
    predicate Packable() {
      |files| < 0x1_0000_0000
      && forall i :: 0 <= i < |files| ==> |files[i].dest| < 0x1_0000_0000 && |files[i].data| < 0x1_0000_0000
    }
  }

  function Le32(n: nat): (s: string)
    requires n < 0x1_0000_0000
    ensures |s| == 4
  {
    var a := n / 256;
    var b := a / 256;
    [(n % 256) as char, (a % 256) as char, (b % 256) as char, (b / 256) as char]
  }

  function Zeros(n: nat): (s: string)
    ensures |s| == n && forall i :: 0 <= i < n ==> s[i] == '\0'
  {
    seq(n, i => '\0')
  }

  /** As much of a text as an `n` byte field with a terminator holds. */
  function Cropped(s: string, n: nat): (r: string)
    requires n > 0
    ensures |r| < n
  {
    if |s| < n then s else s[..n - 1]
  }

  function Field(s: string, n: nat): (r: string)
    requires n > 0
    ensures |r| == n
  {
    Cropped(s, n) + Zeros(n - |Cropped(s, n)|)
  }

  function PackEntry(f: PackFile): string
    requires |f.dest| < 0x1_0000_0000 && |f.data| < 0x1_0000_0000
  {
    Le32(|f.dest|) + (f.dest + (Le32(if f.exec then 1 else 0) + (Le32(|f.data|) + f.data)))
  }

  function PackFiles(files: seq<PackFile>): string
    requires forall i :: 0 <= i < |files| ==> |files[i].dest| < 0x1_0000_0000 && |files[i].data| < 0x1_0000_0000
  {
    if files == [] then [] else PackEntry(files[0]) + PackFiles(files[1..])
  }

  /** The archive of a package. */
  function Pack(m: Manifest): string
    requires m.Packable()
  {
    Le32(MAGIC) + (Le32(1) + (Le32(|m.files|) + (Field(m.name, 32) + (Field(m.ver, 32) + (Field(m.desc, 128)
    + (Field(m.icon, 32) + (Le32(if m.desktop then 1 else 0) + PackFiles(m.files))))))))
  }

  method MakePackage(m: Manifest) returns (p: string)
    requires m.Packable()
    ensures p == Pack(m)
  {
    hide Le32, Field, PackEntry;
    var desktop := Le32(if m.desktop then 1 else 0);
    var h1 := Le32(MAGIC) + Le32(1) + Le32(|m.files|);
    var h2 := Field(m.name, 32) + Field(m.ver, 32) + Field(m.desc, 128) + Field(m.icon, 32);
    var body: string := [];
    assert m.files[0..] == m.files;
    for i := 0 to |m.files|
      invariant PackFiles(m.files) == body + PackFiles(m.files[i..])
    {
      var f := m.files[i];
      assert m.files[i..][1..] == m.files[i + 1..];
      Assoc(body, PackEntry(f), PackFiles(m.files[i + 1..]));
      body := body + PackEntry(f);
    }
    Unit(body);
    p := h1 + h2 + desktop + body;
    Regroup(Le32(MAGIC), Le32(1), Le32(|m.files|), h2 + (desktop + body));
    Regroup(Field(m.name, 32) + Field(m.ver, 32), Field(m.desc, 128), Field(m.icon, 32), desktop + body);
    Assoc(Field(m.name, 32), Field(m.ver, 32), Field(m.desc, 128) + (Field(m.icon, 32) + (desktop + body)));
    Regroup(h1, h2, desktop, body);
  }

  lemma Regroup(a: string, b: string, c: string, d: string)
    ensures a + b + c + d == a + (b + (c + d))
  {
    Assoc(a + b, c, d);
    Assoc(a, b, c + d);
  }

  // ----- reading what was packed -----

  lemma Le32Read(p: string, at: nat, n: nat)
    requires n < 0x1_0000_0000 && at + 4 <= |p| && p[at..at + 4] == Le32(n)
    ensures U32(p, at) == n
  {
    var s, a := p[at..at + 4], n / 256;
    var b := a / 256;
    assert s[0] == p[at] && s[1] == p[at + 1] && s[2] == p[at + 2] && s[3] == p[at + 3];
    assert Byte(s[0]) == n % 256 && Byte(s[1]) == a % 256 && Byte(s[2]) == b % 256 && Byte(s[3]) == b / 256;
    assert n == 256 * a + n % 256 && a == 256 * b + a % 256 && b == 256 * (b / 256) + b % 256;
  }

  lemma Peel(p: string, at: nat, x: string, t: string)
    requires at <= |p| && p[at..] == x + t
    ensures at + |x| <= |p| && p[at..at + |x|] == x && p[at + |x|..] == t
  {
    var s := p[at..];
    assert p[at..at + |x|] == s[..|x|] && p[at + |x|..] == s[|x|..];
  }

  lemma CStrField(s: string, n: nat)
    requires n > 0
    ensures CStr(Field(s, n)[..n - 1]) == CStr(Cropped(s, n))
  {
    var b, f := Cropped(s, n), Field(s, n)[..n - 1];
    var i := |CStr(b)|;
    assert f[..i] == b[..i];
    assert i == |f| || f[i] == '\0';
    CStrUnique(f, i);
  }

  /** The fixed part of an archive, field by field. */
  lemma HeaderLayout(m: Manifest)
    requires m.Packable()
    ensures var p := Pack(m);
            && |p| >= HEADER && U32(p, 0) == MAGIC && U32(p, 4) == 1 && U32(p, 8) == |m.files|
            && p[12..44] == Field(m.name, 32) && p[44..76] == Field(m.ver, 32) && p[204..236] == Field(m.icon, 32)
            && U32(p, 236) == (if m.desktop then 1 else 0) && p[HEADER..] == PackFiles(m.files)
  {
    hide Le32, Field, PackFiles, U32;
    var p := Pack(m);
    var t8 := PackFiles(m.files);
    var t7 := Le32(if m.desktop then 1 else 0) + t8;
    var t6 := Field(m.icon, 32) + t7;
    var t5 := Field(m.desc, 128) + t6;
    var t4 := Field(m.ver, 32) + t5;
    var t3 := Field(m.name, 32) + t4;
    var t2 := Le32(|m.files|) + t3;
    assert p[0..] == p;
    Peel(p, 0, Le32(MAGIC), Le32(1) + t2);
    Peel(p, 4, Le32(1), t2);
    Peel(p, 8, Le32(|m.files|), t3);
    Peel(p, 12, Field(m.name, 32), t4);
    Peel(p, 44, Field(m.ver, 32), t5);
    Peel(p, 76, Field(m.desc, 128), t6);
    Peel(p, 204, Field(m.icon, 32), t7);
    Peel(p, 236, Le32(if m.desktop then 1 else 0), t8);
    Le32Read(p, 0, MAGIC);
    Le32Read(p, 4, 1);
    Le32Read(p, 8, |m.files|);
    Le32Read(p, 236, if m.desktop then 1 else 0);
  }

  /** A text field reads back up to its terminator, cropped to what the field holds. */
  lemma FieldRead(p: string, at: nat, s: string)
    requires at + 32 <= |p| && p[at..at + 32] == Field(s, 32)
    ensures CStr(p[at..at + 31]) == CStr(Cropped(s, 32))
  {
    hide Field, Cropped;
    assert p[at..at + 31] == p[at..at + 32][..31];
    CStrField(s, 32);
  }

  /** What the header of the archive must say to be accepted. */
  predicate HeaderOk(m: Manifest) {
    && 1 <= |m.files| <= 64 && ValidToken(CStr(Cropped(m.name, 32))) && ValidToken(CStr(Cropped(m.ver, 32)))
    && (m.desktop ==> ValidToken(CStr(Cropped(m.icon, 32))))
  }

  lemma HeaderPacked(m: Manifest)
    requires m.Packable()
    ensures ParseHeader(Pack(m))
         == if HeaderOk(m)
            then Some(Header(|m.files|, CStr(Cropped(m.name, 32)), CStr(Cropped(m.icon, 32)), m.desktop))
            else None
  {
    hide Pack, U32, Cropped, Field, ValidToken;
    var p := Pack(m);
    HeaderLayout(m);
    FieldRead(p, 12, m.name);
    FieldRead(p, 44, m.ver);
    FieldRead(p, 204, m.icon);
  }

  /** One packed file, read where it was written. */
  lemma EntryPacked(p: string, f: PackFile, tail: string, name: string)
    requires |f.dest| < 0x1_0000_0000 && |f.data| < 0x1_0000_0000
    requires |p| >= HEADER && p[HEADER..] == PackEntry(f) + tail
    requires ValidToken(name)
    ensures ParseEntry(p, name) == if f.dest == BinPath(name) then Some(Entry(f.exec, f.data)) else None
  {
    hide Le32, U32, ValidToken;
    var n, d := |f.dest|, |f.data|;
    var t2 := Le32(d) + (f.data + tail);
    var t1 := Le32(if f.exec then 1 else 0) + t2;
    EntryTail(f, tail);
    Peel(p, HEADER, Le32(n), f.dest + t1);
    Peel(p, 244, f.dest, t1);
    Peel(p, 244 + n, Le32(if f.exec then 1 else 0), t2);
    Peel(p, 248 + n, Le32(d), f.data + tail);
    Peel(p, 252 + n, f.data, tail);
    Le32Read(p, HEADER, n);
    Le32Read(p, 244 + n, if f.exec then 1 else 0);
    Le32Read(p, 248 + n, d);
    PathClean(name);
  }

  lemma OneFile(files: seq<PackFile>)
    requires |files| == 1 && |files[0].dest| < 0x1_0000_0000 && |files[0].data| < 0x1_0000_0000
    ensures PackFiles(files) == PackEntry(files[0])
  {
    assert files[1..] == [];
    Unit(PackEntry(files[0]));
  }

  /** The package has what the package manager installs: one file, the program of its name. */
  predicate Installable(m: Manifest) {
    && ValidToken(m.name) && ValidToken(CStr(Cropped(m.ver, 32)))
    && (m.desktop ==> ValidToken(CStr(Cropped(m.icon, 32))))
    && |m.files| == 1 && m.files[0].dest == BinPath(m.name)
  }

  /** An archive can be installed exactly when its one file is the program of a valid name; then that is
      what is read. */
  lemma PackedUsableIff(m: Manifest)
    requires m.Packable()
    ensures Usable(Pack(m), m.name)
         == if Installable(m)
            then Some((Header(1, m.name, CStr(Cropped(m.icon, 32)), m.desktop),
                       Entry(m.files[0].exec, m.files[0].data)))
            else None
  {
    hide Pack, ParseHeader, ParseEntry, BinPath;
    HeaderPacked(m);
    NameKept(m.name);
    if HeaderOk(m) && CStr(Cropped(m.name, 32)) == m.name && |m.files| == 1 {
      HeaderLayout(m);
      OneFile(m.files);
      Unit(PackEntry(m.files[0]));
      EntryPacked(Pack(m), m.files[0], [], m.name);
    }
  }

  lemma NameKept(s: string)
    ensures ValidToken(s) ==> CStr(Cropped(s, 32)) == s
  {
    if ValidToken(s) {
      assert '\0' !in s by {
        forall i | 0 <= i < |s|
          ensures s[i] != '\0'
        {
          assert Token(s[i]);
        }
      }
      assert s[..|s|] == s;
      CStrUnique(s, |s|);
    }
  }

  // ----- everything that can be installed -----

  /** The text fields of a header as they stand in the file. */
  datatype Fields = Fields(name: string, ver: string, desc: string, icon: string) {
    predicate Sized() { |name| == 32 && |ver| == 32 && |desc| == 128 && |icon| == 32 }
  }

  /** A file that starts with a package of one file. */
  function Archive(f: Fields, desktop: bool, file: PackFile, tail: string): string
    requires |file.dest| < 0x1_0000_0000 && |file.data| < 0x1_0000_0000
  {
    Le32(MAGIC) + (Le32(1) + (Le32(1) + (f.name + (f.ver + (f.desc
    + (f.icon + (Le32(if desktop then 1 else 0) + (PackEntry(file) + tail))))))))
  }

  lemma ArchiveLayout(f: Fields, desktop: bool, file: PackFile, tail: string)
    requires f.Sized() && |file.dest| < 0x1_0000_0000 && |file.data| < 0x1_0000_0000
    ensures var p := Archive(f, desktop, file, tail);
            && |p| >= HEADER && U32(p, 0) == MAGIC && U32(p, 4) == 1 && U32(p, 8) == 1
            && p[12..44] == f.name && p[44..76] == f.ver && p[204..236] == f.icon
            && U32(p, 236) == (if desktop then 1 else 0) && p[HEADER..] == PackEntry(file) + tail
  {
    hide Le32, PackEntry, U32;
    var p := Archive(f, desktop, file, tail);
    var t8 := PackEntry(file) + tail;
    var t7 := Le32(if desktop then 1 else 0) + t8;
    var t6 := f.icon + t7;
    var t5 := f.desc + t6;
    var t4 := f.ver + t5;
    var t3 := f.name + t4;
    var t2 := Le32(1) + t3;
    assert p[0..] == p;
    Peel(p, 0, Le32(MAGIC), Le32(1) + t2);
    Peel(p, 4, Le32(1), t2);
    Peel(p, 8, Le32(1), t3);
    Peel(p, 12, f.name, t4);
    Peel(p, 44, f.ver, t5);
    Peel(p, 76, f.desc, t6);
    Peel(p, 204, f.icon, t7);
    Peel(p, 236, Le32(if desktop then 1 else 0), t8);
    Le32Read(p, 0, MAGIC);
    Le32Read(p, 4, 1);
    Le32Read(p, 8, 1);
    Le32Read(p, 236, if desktop then 1 else 0);
  }

  /** What the fields of the header must hold for the package to be installed under a name. */
  predicate Named(f: Fields, desktop: bool, name: string)
    requires f.Sized()
  {
    && CStr(f.name[..31]) == name && ValidToken(name) && ValidToken(CStr(f.ver[..31]))
    && (desktop ==> ValidToken(CStr(f.icon[..31])))
  }

  /** Whatever follows the terminators of its fields and its one file, a package with the program of its
      name is read as that. */
  lemma ArchiveRead(f: Fields, desktop: bool, exec: bool, data: string, tail: string, name: string)
    requires f.Sized() && Named(f, desktop, name) && |data| < 0x1_0000_0000
    ensures Usable(Archive(f, desktop, PackFile(BinPath(name), exec, data), tail), name)
         == Some((Header(1, name, CStr(f.icon[..31]), desktop), Entry(exec, data)))
  {
    hide Archive, ParseEntry, ValidToken, U32, BinPath;
    var file := PackFile(BinPath(name), exec, data);
    ShortPath(name);
    var p := Archive(f, desktop, file, tail);
    ArchiveLayout(f, desktop, file, tail);
    assert p[12..43] == p[12..44][..31] && p[44..75] == p[44..76][..31] && p[204..235] == p[204..236][..31];
    EntryPacked(p, file, tail, name);
  }

  lemma ShortPath(name: string)
    requires ValidToken(name)
    ensures |BinPath(name)| < 64
  {
  }

  /** A file of bytes. */
  predicate Bytes(p: string) { forall i :: 0 <= i < |p| ==> (p[i] as int) < 256 }

  lemma Le32Only(p: string, at: nat)
    requires at + 4 <= |p| && Bytes(p)
    ensures U32(p, at) < 0x1_0000_0000 && p[at..at + 4] == Le32(U32(p, at))
  {
    var a, b, c, d := p[at] as int, p[at + 1] as int, p[at + 2] as int, p[at + 3] as int;
    var n := U32(p, at);
    assert n == a + 256 * (b + 256 * (c + 256 * d));
    assert n / 256 == b + 256 * (c + 256 * d) && n % 256 == a;
    assert n / 256 / 256 == c + 256 * d && n / 256 % 256 == b;
  }

  /** Every file that can be installed is such a package. */
  lemma OnlyArchives(p: string, name: string)
    requires Bytes(p) && Usable(p, name).Some?
    ensures var (h, e) := Usable(p, name).value;
            exists f: Fields, tail: string ::
              && f.Sized() && Named(f, h.desktop, name) && |e.data| < 0x1_0000_0000 && |BinPath(name)| < 64
              && p == Archive(f, h.desktop, PackFile(BinPath(name), e.exec, e.data), tail)
  {
    hide Le32, ValidToken, U32, BinPath, ParseHeader, ParseEntry, Named, PackEntry, Archive;
    var (h, e) := Usable(p, name).value;
    var f := HeaderOnly(p);
    ShortPath(name);
    var tail := EntryOnly(p, name);
    HeadOnly(p, f, h.desktop, PackFile(BinPath(name), e.exec, e.data), tail);
  }

  lemma HeaderOnly(p: string) returns (f: Fields)
    requires Bytes(p) && ParseHeader(p).Some?
    ensures var h := ParseHeader(p).value;
            && |p| >= HEADER && f == Fields(p[12..44], p[44..76], p[76..204], p[204..236])
            && ValidToken(h.name) && Named(f, h.desktop, h.name)
            && p[..4] == Le32(MAGIC) && p[4..8] == Le32(1) && h.nfiles < 0x1_0000_0000 && p[8..12] == Le32(h.nfiles)
            && p[236..240] == Le32(if h.desktop then 1 else 0)
  {
    hide Le32, ValidToken, U32;
    f := Fields(p[12..44], p[44..76], p[76..204], p[204..236]);
    assert p[12..43] == f.name[..31] && p[44..75] == f.ver[..31] && p[204..235] == f.icon[..31];
    Le32Only(p, 0);
    Le32Only(p, 4);
    Le32Only(p, 8);
    Le32Only(p, 236);
  }

  lemma EntryOnly(p: string, name: string) returns (tail: string)
    requires Bytes(p) && |p| >= HEADER && ParseEntry(p, name).Some?
    ensures var e := ParseEntry(p, name).value;
            && |e.data| < 0x1_0000_0000 && |BinPath(name)| < 0x1_0000_0000
            && p[HEADER..] == PackEntry(PackFile(BinPath(name), e.exec, e.data)) + tail
  {
    hide Le32, U32, BinPath;
    var n := |BinPath(name)|;
    Le32Only(p, HEADER);
    Le32Only(p, 244 + n);
    Le32Only(p, 248 + n);
    var e := ParseEntry(p, name).value;
    var d := |e.data|;
    tail := p[252 + n + d..];
    Unpeel(p, 252 + n, e.data, tail);
    Unpeel(p, 248 + n, Le32(d), e.data + tail);
    Unpeel(p, 244 + n, Le32(if e.exec then 1 else 0), Le32(d) + (e.data + tail));
    Unpeel(p, 244, BinPath(name), Le32(if e.exec then 1 else 0) + (Le32(d) + (e.data + tail)));
    Unpeel(p, HEADER, Le32(n), BinPath(name) + (Le32(if e.exec then 1 else 0) + (Le32(d) + (e.data + tail))));
    EntryTail(PackFile(BinPath(name), e.exec, e.data), tail);
  }

  /** A packed file and what follows, one after the other. */
  lemma EntryTail(f: PackFile, tail: string)
    requires |f.dest| < 0x1_0000_0000 && |f.data| < 0x1_0000_0000
    ensures PackEntry(f) + tail
         == Le32(|f.dest|) + (f.dest + (Le32(if f.exec then 1 else 0) + (Le32(|f.data|) + (f.data + tail))))
  {
    hide Le32;
    var t2 := Le32(|f.data|) + f.data;
    var t1 := Le32(if f.exec then 1 else 0) + t2;
    Assoc(Le32(|f.dest|), f.dest + t1, tail);
    Assoc(f.dest, t1, tail);
    Assoc(Le32(if f.exec then 1 else 0), t2, tail);
    Assoc(Le32(|f.data|), f.data, tail);
  }

  lemma Unpeel(p: string, at: nat, x: string, t: string)
    requires at + |x| <= |p| && p[at..at + |x|] == x && p[at + |x|..] == t
    ensures p[at..] == x + t
  {
  }

  lemma HeadOnly(p: string, f: Fields, desktop: bool, file: PackFile, tail: string)
    requires |p| >= HEADER && |file.dest| < 0x1_0000_0000 && |file.data| < 0x1_0000_0000
    requires p[..4] == Le32(MAGIC) && p[4..8] == Le32(1) && p[8..12] == Le32(1)
    requires f == Fields(p[12..44], p[44..76], p[76..204], p[204..236])
    requires p[236..240] == Le32(if desktop then 1 else 0) && p[HEADER..] == PackEntry(file) + tail
    ensures p == Archive(f, desktop, file, tail)
  {
    hide Le32, PackEntry;
    var t8 := PackEntry(file) + tail;
    var t7 := Le32(if desktop then 1 else 0) + t8;
    var t6 := f.icon + t7;
    var t5 := f.desc + t6;
    var t4 := f.ver + t5;
    var t3 := f.name + t4;
    var t2 := Le32(1) + t3;
    Unpeel(p, 236, Le32(if desktop then 1 else 0), t8);
    Unpeel(p, 204, f.icon, t7);
    Unpeel(p, 76, f.desc, t6);
    Unpeel(p, 44, f.ver, t5);
    Unpeel(p, 12, f.name, t4);
    Unpeel(p, 8, Le32(1), t3);
    Unpeel(p, 4, Le32(1), t2);
    Unpeel(p, 0, Le32(MAGIC), Le32(1) + t2);
    assert p[0..] == p;
  }

  // ----- installations that go wrong -----

  const SMALL := Manifest("a", "1", "", "", false, [PackFile("/bin/a", true, "")])

  lemma SmallUsable()
    ensures SMALL.Packable() && Usable(Pack(SMALL), "a") == Some((Header(1, "a", "", false), Entry(true, "")))
  {
    assert CStr(Cropped("1", 32)) == "1" by {
      NameKept("1");
    }
    PackedUsableIff(SMALL);
  }

  /** Adding and removing a package without a desktop entry removes the one that was there. */
  lemma DesktopEntryLost(entry: string)
    ensures SMALL.Packable()
    ensures var fs: Files := map[DesktopPath("a") := entry];
            var r := Add(fs, "a", Some(Pack(SMALL)), Luck(true, Stored, true, Stored, Stored));
            r.0 == 0 && Del(r.1, "a", DelLuck(true, true, true, true)) == (0, map[])
  {
    hide Pack, Usable, Del;
    SmallUsable();
    var fs: Files := map[DesktopPath("a") := entry];
    var l := Luck(true, Stored, true, Stored, Stored);
    var r := Add(fs, "a", Some(Pack(SMALL)), l);
    PathsDiffer("a", "a");
    assert Starts(fs, "a", Some(Pack(SMALL)), l);
    forall n: string
      ensures RecordPath(n) !in fs
    {
      PathsDiffer(n, "a");
    }
    AddRecorded(fs, "a", Some(Pack(SMALL)), l);
    DelRecorded(r.1, "a", DelLuck(true, true, true, true));
    assert r.1 - {BinPath("a"), DesktopPath("a"), RecordPath("a")} == map[];
  }

  /** A record that is opened but not written blocks the name for good. */
  lemma EmptyRecordSticks(pkg: Option<string>, l: Luck, d: DelLuck)
    requires l.root
    ensures SMALL.Packable()
    ensures var r := Add(map[], "a", Some(Pack(SMALL)), Luck(true, Stored, true, Stored, Cut(0)));
            && r == (-1, map[RecordPath("a") := ""])
            && Add(r.1, "a", pkg, l) == (0, r.1) && Del(r.1, "a", d) == (-1, r.1)
  {
    hide Pack, Usable, Del;
    SmallUsable();
    var cut := Luck(true, Stored, true, Stored, Cut(0));
    assert Starts(map[], "a", Some(Pack(SMALL)), cut);
    CutRecordSticks(map[], "a", Some(Pack(SMALL)), cut, pkg, l, d);
  }
}
