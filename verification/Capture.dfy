/** From the files of a test tree to its manifest (scripts/utests/utf_inventory.py). */
module Capture {
  import opened Sequences
  import opened Digests
  import opened ByteOrder
  import opened Members
  import opened Scanner
  import opened HeaderScan
  import opened Gate

  datatype SourceFile = SourceFile(path: string, lines: seq<string>)

  /** A directory: its files in the order of the walk, the `--run_test` arguments in its notes, and its data files with
      their digests. */
  datatype Directory = Directory(name: string, sources: seq<SourceFile>, specs: seq<string>, files: map<string, string>)

  // ---------------------------------------------------------------- what is looked at

  predicate IsModule(name: string) {
    StartsWith(name, "utf")
  }

  predicate IsSource(path: string) {
    EndsWith(path, ".h") || EndsWith(path, ".cpp")
  }

  predicate EndsWith(s: string, suffix: string) {
    |suffix| <= |s| && s[|s| - |suffix|..] == suffix
  }

  function Sources(files: seq<SourceFile>): seq<SourceFile> {
    if files == [] then []
    else Sources(files[..|files| - 1]) + if IsSource(files[|files| - 1].path) then [files[|files| - 1]] else []
  }

  /** The modules in a listing of directories, each with its headers and sources only. */
  function Modules(listing: seq<Directory>): seq<Directory> {
    if listing == [] then []
    else
      var last := listing[|listing| - 1];
      Modules(listing[..|listing| - 1]) + if IsModule(last.name) then [last.(sources := Sources(last.sources))] else []
  }

  lemma ModuleNames(name: string)
    ensures IsModule(name) <==> |name| >= 3 && name[0] == 'u' && name[1] == 't' && name[2] == 'f'
  {
    if |name| >= 3 {
      assert name[..3] == [name[0], name[1], name[2]];
    }
  }

  lemma SourceNames(name: string)
    ensures IsSource(name) <==>
            var n := |name|;
            || (n >= 2 && name[n - 2..] == ['.', 'h'])
            || (n >= 4 && name[n - 4..] == ['.', 'c', 'p', 'p'])
  {
    assert ".h" == ['.', 'h'];
    assert ".cpp" == ['.', 'c', 'p', 'p'];
  }

  /** Only `*` and `?` are wildcards. */
  lemma PlainNames(name: string)
    ensures IsPlainName(name) <==> |name| > 0 && forall i :: 0 <= i < |name| ==> name[i] != '*' && name[i] != '?'
  {
  }

  /** The files scanned are the headers and sources, in the order of the walk. */
  lemma {:induction false} SourcesAreFilter(files: seq<SourceFile>)
    ensures Sources(files) == Filter((f: SourceFile) => IsSource(f.path), files)
  {
    hide IsSource;
    if files == [] {
    } else {
      SourcesAreFilter(files[..|files| - 1]);
    }
  }

  /** The modules are the directories whose name starts with `utf`, in the order of the listing. */
  lemma {:induction false} ModulesAreFilter(listing: seq<Directory>)
    ensures Modules(listing) ==
            Map((d: Directory) => d.(sources := Sources(d.sources)),
                Filter((d: Directory) => IsModule(d.name), listing))
  {
    hide IsModule, Sources;
    if listing == [] {
    } else {
      ModulesAreFilter(listing[..|listing| - 1]);
    }
  }

  // ---------------------------------------------------------------- what is captured

  /** What the scans of the files of a module report together. */
  function ScanSources(g: Grammar, name: string, sources: seq<SourceFile>): Report {
    if sources == [] then NOTHING
    else
      var last := sources[|sources| - 1];
      Plus(ScanSources(g, name, sources[..|sources| - 1]), Scan(g, Origin(name, last.path), last.lines).1)
  }

  /** The cases the notes name; a name with a wildcard is skipped. */
  function NotesOf(g: Grammar, specs: seq<string>): set<string> {
    set spec, part | spec in specs && part in Split(spec, ',') && IsPlainName(Strip(g, part)) :: Strip(g, part)
  }

  predicate IsPlainName(name: string) {
    name != "" && '*' !in name && '?' !in name
  }

  /** What every file of a module includes, in the order of the walk. */
  function IncludesOf(g: Grammar, name: string, sources: seq<SourceFile>): seq<(string, seq<string>)> {
    if sources == [] then []
    else
      var last := sources[|sources| - 1];
      IncludesOf(g, name, sources[..|sources| - 1])
          + [(last.path, Scan(g, Origin(name, last.path), last.lines).1.includes)]
  }

  function InfoOf(g: Grammar, d: Directory): Info {
    var r := ScanSources(g, d.name, d.sources);
    Info(r.refs, r.literals, d.files, NotesOf(g, d.specs), IncludesOf(g, d.name, d.sources))
  }

  /** The manifest before its lists are sorted, and the problems. */
  function Captured(g: Grammar, tree: seq<Directory>): (Manifest, seq<Problem>) {
    if tree == [] then (Manifest([], [], [], map[]), [])
    else
      var (m, problems) := Captured(g, tree[..|tree| - 1]);
      var d := tree[|tree| - 1];
      var r := ScanSources(g, d.name, d.sources);
      (Manifest(m.cases + r.cases, m.blocks + r.blocks, m.members + r.members, m.modules[d.name := InfoOf(g, d)]),
       problems + r.problems)
  }

  function ReportOf(g: Grammar, name: string, s: SourceFile): Report {
    Scan(g, Origin(name, s.path), s.lines).1
  }

  /** The cases, blocks, members and problems of a module are those of its files, in order. */
  lemma {:induction false} SourceLists(g: Grammar, name: string, sources: seq<SourceFile>)
    ensures var r := ScanSources(g, name, sources);
            && r.cases == Flat((s: SourceFile) => ReportOf(g, name, s).cases, sources)
            && r.blocks == Flat((s: SourceFile) => ReportOf(g, name, s).blocks, sources)
            && r.members == Flat((s: SourceFile) => ReportOf(g, name, s).members, sources)
            && r.problems == Flat((s: SourceFile) => ReportOf(g, name, s).problems, sources)
  {
    hide Scan;
    if sources == [] {
    } else {
      var init, last := sources[..|sources| - 1], sources[|sources| - 1];
      assert sources == init + [last];
      SourceLists(g, name, init);
      FlatConcat((s: SourceFile) => ReportOf(g, name, s).cases, init, [last]);
      FlatConcat((s: SourceFile) => ReportOf(g, name, s).blocks, init, [last]);
      FlatConcat((s: SourceFile) => ReportOf(g, name, s).members, init, [last]);
      FlatConcat((s: SourceFile) => ReportOf(g, name, s).problems, init, [last]);
    }
  }

  ghost predicate Refers(g: Grammar, name: string, sources: seq<SourceFile>, file: string) {
    exists s :: s in sources && file in ReportOf(g, name, s).refs
  }

  ghost predicate Names(g: Grammar, name: string, sources: seq<SourceFile>, file: string) {
    exists s :: s in sources && file in ReportOf(g, name, s).literals
  }

  /** Its data files and includes. */
  lemma {:induction false} SourceFiles(g: Grammar, name: string, sources: seq<SourceFile>)
    ensures var r := ScanSources(g, name, sources);
            forall file :: (file in r.refs <==> Refers(g, name, sources, file))
                           && (file in r.literals <==> Names(g, name, sources, file))
    ensures IncludesOf(g, name, sources) ==
            Map((s: SourceFile) => (s.path, ReportOf(g, name, s).includes), sources)
  {
    hide Scan;
    if sources == [] {
    } else {
      var init, last := sources[..|sources| - 1], sources[|sources| - 1];
      assert sources == init + [last];
      SourceFiles(g, name, init);
      forall file
        ensures Refers(g, name, sources, file) <==>
                Refers(g, name, init, file) || file in ReportOf(g, name, last).refs
        ensures Names(g, name, sources, file) <==>
                Names(g, name, init, file) || file in ReportOf(g, name, last).literals
      {
        assert last in sources;
      }
    }
  }

  /** The lists of the manifest are those of the modules, in the order of the listing. */
  lemma {:induction false} CapturedLists(g: Grammar, tree: seq<Directory>)
    ensures var (m, problems) := Captured(g, tree);
            && m.cases == Flat((d: Directory) => ScanSources(g, d.name, d.sources).cases, tree)
            && m.blocks == Flat((d: Directory) => ScanSources(g, d.name, d.sources).blocks, tree)
            && m.members == Flat((d: Directory) => ScanSources(g, d.name, d.sources).members, tree)
            && problems == Flat((d: Directory) => ScanSources(g, d.name, d.sources).problems, tree)
            && forall name :: name in m.modules <==> exists d :: d in tree && d.name == name
  {
    hide ScanSources, InfoOf;
    if tree == [] {
    } else {
      var init, last := tree[..|tree| - 1], tree[|tree| - 1];
      assert tree == init + [last];
      CapturedLists(g, init);
      FlatConcat((d: Directory) => ScanSources(g, d.name, d.sources).cases, init, [last]);
      FlatConcat((d: Directory) => ScanSources(g, d.name, d.sources).blocks, init, [last]);
      FlatConcat((d: Directory) => ScanSources(g, d.name, d.sources).members, init, [last]);
      FlatConcat((d: Directory) => ScanSources(g, d.name, d.sources).problems, init, [last]);
    }
  }

  ghost predicate Noted(g: Grammar, specs: seq<string>, name: string) {
    exists spec, part :: spec in specs && part in Split(spec, ',') && Strip(g, part) == name
  }

  /** What is recorded for a module, the last of its name in the listing: the data files its lines load and name, the
      data files it carries, the plain names in its notes, and what each of its files includes. */
  lemma {:induction false} ModuleMeans(g: Grammar, tree: seq<Directory>, i: nat)
    requires i < |tree| && forall j :: i < j < |tree| ==> tree[j].name != tree[i].name
    ensures var d, modules := tree[i], Captured(g, tree).0.modules;
            && d.name in modules
            && var info := modules[d.name];
               && info.files == d.files
               && (forall file :: file in info.refs <==> Refers(g, d.name, d.sources, file))
               && (forall file :: file in info.literals <==> Names(g, d.name, d.sources, file))
               && (forall name :: name in info.notes <==> IsPlainName(name) && Noted(g, d.specs, name))
               && info.includes == Map((s: SourceFile) => (s.path, ReportOf(g, d.name, s).includes), d.sources)
    decreases |tree|
  {
    hide ScanSources, IncludesOf, ReportOf, Split, Strip, IsPlainName, Refers, Names;
    var init, last := tree[..|tree| - 1], tree[|tree| - 1];
    if i < |init| {
      ModuleMeans(g, init, i);
    } else {
      SourceFiles(g, last.name, last.sources);
    }
  }

  // ---------------------------------------------------------------- sorting

  /** Strings compare code point by code point. */
  predicate StringLess(s: string, t: string) {
    if t == "" then false
    else if s == "" then true
    else s[0] < t[0] || (s[0] == t[0] && StringLess(s[1..], t[1..]))
  }

  /** A proper prefix, or smaller at the first character which differs. */
  lemma {:induction false} StringLessMeans(s: string, t: string)
    ensures StringLess(s, t) <==> (s <= t && s != t) || exists k: nat :: CharSmallerAt(s, t, k)
  {
    if s == "" || t == "" {
    } else {
      StringLessMeans(s[1..], t[1..]);
      assert s == [s[0]] + s[1..] && t == [t[0]] + t[1..];
      if s[0] == t[0] {
        if k: nat :| CharSmallerAt(s[1..], t[1..], k) {
          assert CharSmallerAt(s, t, k + 1);
        }
        if k: nat :| CharSmallerAt(s, t, k) {
          assert CharSmallerAt(s[1..], t[1..], k - 1);
        }
      } else {
        assert CharSmallerAt(s, t, 0) <==> s[0] < t[0];
      }
    }
  }

  ghost predicate CharSmallerAt(s: string, t: string, k: nat) {
    k < |s| && k < |t| && s[..k] == t[..k] && s[k] < t[k]
  }

  /** A string as bytes which compare as the string does, whatever follows. */
  function Codes(s: string): Bytes {
    if s == "" then [0] else CodeOf(s[0]) + Codes(s[1..])
  }

  function CodeOf(c: char): (code: Bytes)
    ensures |code| == 4
  {
    [1, c as int / 0x1_0000, c as int / 0x100 % 0x100, c as int % 0x100]
  }

  lemma {:induction false} CommonPrefixDrops(p: Bytes, x: Bytes, y: Bytes)
    ensures Less(p + x, p + y) == Less(x, y)
  {
    if p == [] {
      assert p + x == x && p + y == y;
    } else {
      assert (p + x)[1..] == p[1..] + x && (p + y)[1..] == p[1..] + y;
      CommonPrefixDrops(p[1..], x, y);
    }
  }

  lemma HigherDigits(a: int, b: int)
    ensures a < b <==>
            || a / 0x1_0000 < b / 0x1_0000
            || (a / 0x1_0000 == b / 0x1_0000
                && (a / 0x100 % 0x100 < b / 0x100 % 0x100
                    || (a / 0x100 % 0x100 == b / 0x100 % 0x100 && a % 0x100 < b % 0x100)))
  {
    assert a / 0x100 == a / 0x1_0000 * 0x100 + a / 0x100 % 0x100;
    assert b / 0x100 == b / 0x1_0000 * 0x100 + b / 0x100 % 0x100;
  }

  /** Different characters decide. */
  lemma CodeOrder(c: char, d: char, x: Bytes, y: Bytes)
    requires c != d
    ensures Less(CodeOf(c) + x, CodeOf(d) + y) <==> c < d
  {
    var p, q := CodeOf(c), CodeOf(d);
    HigherDigits(c as int, d as int);
    HigherDigits(d as int, c as int);
    var s, t := p + x, q + y;
    LessSteps(s, t);
    LessSteps(s[1..], t[1..]);
    LessSteps(s[2..], t[2..]);
    LessSteps(s[3..], t[3..]);
    assert s[1..][1..] == s[2..] && t[1..][1..] == t[2..] && s[2..][1..] == s[3..] && t[2..][1..] == t[3..];
  }

  lemma LessSteps(s: Bytes, t: Bytes)
    requires s != [] && t != []
    ensures Less(s, t) <==> s[0] < t[0] || (s[0] == t[0] && Less(s[1..], t[1..]))
  {
  }

  /** The bytes compare as the strings, and where these are equal, as what follows. */
  lemma {:induction false} CodesOrder(s: string, t: string, x: Bytes, y: Bytes)
    ensures Less(Codes(s) + x, Codes(t) + y) <==> StringLess(s, t) || (s == t && Less(x, y))
  {
    if s == "" || t == "" {
      if s == t {
        CommonPrefixDrops([0], x, y);
      }
    } else {
      var p, q := Codes(s[1..]) + x, Codes(t[1..]) + y;
      assert Codes(s) + x == CodeOf(s[0]) + p && Codes(t) + y == CodeOf(t[0]) + q;
      hide Codes, CodeOf, Less;
      if s[0] == t[0] {
        CommonPrefixDrops(CodeOf(s[0]), p, q);
        CodesOrder(s[1..], t[1..], x, y);
        assert s == t <==> s[1..] == t[1..] by { SameTail(s, t); }
      } else {
        CodeOrder(s[0], t[0], p, q);
      }
    }
  }

  lemma SameTail(s: string, t: string)
    requires s != "" && t != "" && s[0] == t[0]
    ensures s == t <==> s[1..] == t[1..]
  {
    assert s == [s[0]] + s[1..] && t == [t[0]] + t[1..];
  }

  lemma {:induction false} UnaryOrder(m: nat, n: nat)
    ensures Less(seq(m, _ => 1), seq(n, _ => 1)) <==> m < n
  {
    var x: Bytes, y: Bytes := seq(m, _ => 1), seq(n, _ => 1);
    if m == 0 || n == 0 {
    } else {
      UnaryOrder(m - 1, n - 1);
      assert x[1..] == seq(m - 1, _ => 1) && y[1..] == seq(n - 1, _ => 1);
    }
  }

  function NameKey(c: Case): Bytes {
    Codes(c.name)
  }

  function PlaceKey(origin: Origin, line: nat): Bytes {
    Codes(origin.moduleName) + (Codes(origin.path) + seq(line, _ => 1))
  }

  function BlockPlace(b: Block): Bytes {
    PlaceKey(b.origin, b.line)
  }

  function MemberPlace(m: Member): Bytes {
    PlaceKey(m.origin, m.line)
  }

  /** `(module, file, line)` tuples compare entry by entry. */
  predicate PlaceLess(a: Origin, line: nat, b: Origin, other: nat) {
    || StringLess(a.moduleName, b.moduleName)
    || (a.moduleName == b.moduleName && (StringLess(a.path, b.path) || (a.path == b.path && line < other)))
  }

  lemma NameOrder(c: Case, d: Case)
    ensures Less(NameKey(c), NameKey(d)) <==> StringLess(c.name, d.name)
  {
    CodesOrder(c.name, d.name, [], []);
    assert Codes(c.name) + [] == Codes(c.name) && Codes(d.name) + [] == Codes(d.name);
  }

  lemma PlaceOrder(a: Origin, line: nat, b: Origin, other: nat)
    ensures Less(PlaceKey(a, line), PlaceKey(b, other)) <==> PlaceLess(a, line, b, other)
  {
    hide Codes, Less;
    UnaryOrder(line, other);
    CodesOrder(a.path, b.path, seq(line, _ => 1), seq(other, _ => 1));
    CodesOrder(a.moduleName, b.moduleName, Codes(a.path) + seq(line, _ => 1), Codes(b.path) + seq(other, _ => 1));
  }

  function Sorted(m: Manifest): Manifest {
    m.(cases := SortBy(NameKey, m.cases), blocks := SortBy(BlockPlace, m.blocks),
       members := SortBy(MemberPlace, m.members))
  }

  lemma {:induction false} IndexOfAll(xs: seq<Case>, ys: seq<Case>)
    ensures Index(xs + ys) == Index(xs) + Index(ys)
  {
    if ys == [] {
      assert xs + ys == xs;
    } else {
      assert (xs + ys)[..|xs + ys| - 1] == xs + ys[..|ys| - 1];
      IndexOfAll(xs, ys[..|ys| - 1]);
    }
  }

  lemma LaterNames(c: Case, cases: seq<Case>)
    requires cases != [] && Ascending(NameKey, cases) && Less(NameKey(c), NameKey(cases[0]))
    ensures c.name !in Index(cases)
  {
    hide Codes;
    if c.name in Index(cases) {
      var i := IndexedIsLast(cases, c.name);
      assert NameKey(cases[i]) == NameKey(c);
      LessTotal(NameKey(c), NameKey(cases[0]));
    }
  }

  lemma {:induction false} IndexOfInsert(c: Case, cases: seq<Case>)
    requires Ascending(NameKey, cases)
    ensures Index(Insert(NameKey, c, cases)) == Index(cases)[c.name := c]
  {
    hide Index, Less, NameKey;
    OneIndexed(c);
    if cases == [] {
      NoneIndexed();
      assert Insert(NameKey, c, cases) == [c];
    } else if Less(NameKey(c), NameKey(cases[0])) {
      LaterNames(c, cases);
      IndexOfAll([c], cases);
    } else {
      IndexOfInsert(c, cases[1..]);
      IndexOfAll([cases[0]], cases[1..]);
      IndexOfAll([cases[0]], Insert(NameKey, c, cases[1..]));
      assert cases == [cases[0]] + cases[1..];
    }
  }

  lemma NoneIndexed()
    ensures Index([]) == map[]
  {
  }

  lemma OneIndexed(c: Case)
    ensures Index([c]) == map[c.name := c]
  {
    assert [c][..0] == [];
  }

  /** Sorting by name keeps the order of cases with one name, so the same case of each name is indexed. */
  lemma {:induction false} SortingKeepsIndex(cases: seq<Case>)
    ensures Index(SortBy(NameKey, cases)) == Index(cases)
  {
    if cases == [] {
    } else {
      var init := cases[..|cases| - 1];
      SortingKeepsIndex(init);
      SortAscends(NameKey, init);
      IndexOfInsert(cases[|cases| - 1], SortBy(NameKey, init));
    }
  }

  /** A manifest of what was captured, in whatever order. */
  ghost predicate ManifestOf(m: Manifest, captured: Manifest) {
    && multiset(m.cases) == multiset(captured.cases) && multiset(m.blocks) == multiset(captured.blocks)
    && multiset(m.members) == multiset(captured.members) && m.modules == captured.modules
  }

  /** No name stands in front of a smaller one. */
  ghost predicate InNameOrder(cases: seq<Case>) {
    forall i, j :: 0 <= i < j < |cases| ==> !StringLess(cases[j].name, cases[i].name)
  }

  ghost predicate BlocksInOrder(xs: seq<Block>) {
    forall i, j :: 0 <= i < j < |xs| ==> !PlaceLess(xs[j].origin, xs[j].line, xs[i].origin, xs[i].line)
  }

  ghost predicate MembersInOrder(xs: seq<Member>) {
    forall i, j :: 0 <= i < j < |xs| ==> !PlaceLess(xs[j].origin, xs[j].line, xs[i].origin, xs[i].line)
  }

  /** Sorting loses and adds nothing, puts cases in the order of their names and blocks and members in that of
      module, file and line, and leaves the index alone. */
  lemma SortedIsManifest(captured: Manifest)
    ensures ManifestOf(Sorted(captured), captured) && Index(Sorted(captured).cases) == Index(captured.cases)
    ensures InNameOrder(Sorted(captured).cases) && BlocksInOrder(Sorted(captured).blocks)
        && MembersInOrder(Sorted(captured).members)
  {
    hide SortBy, Index, StringLess, Less, NameKey;
    SortPermutes(NameKey, captured.cases);
    SortPermutes(BlockPlace, captured.blocks);
    SortPermutes(MemberPlace, captured.members);
    SortAscends(NameKey, captured.cases);
    SortAscends(BlockPlace, captured.blocks);
    SortAscends(MemberPlace, captured.members);
    SortingKeepsIndex(captured.cases);
    var m := Sorted(captured);
    forall i, j | 0 <= i < j < |m.cases| ensures !StringLess(m.cases[j].name, m.cases[i].name) {
      NameOrder(m.cases[j], m.cases[i]);
    }
    forall i, j | 0 <= i < j < |m.blocks|
        ensures !PlaceLess(m.blocks[j].origin, m.blocks[j].line, m.blocks[i].origin, m.blocks[i].line) {
      PlaceOrder(m.blocks[j].origin, m.blocks[j].line, m.blocks[i].origin, m.blocks[i].line);
    }
    forall i, j | 0 <= i < j < |m.members|
        ensures !PlaceLess(m.members[j].origin, m.members[j].line, m.members[i].origin, m.members[i].line) {
      PlaceOrder(m.members[j].origin, m.members[j].line, m.members[i].origin, m.members[i].line);
    }
  }

  // ---------------------------------------------------------------- the loops

  method CaptureModule(g: Grammar, d: Directory) returns (r: Report, includes: seq<(string, seq<string>)>)
    ensures r == ScanSources(g, d.name, d.sources) && includes == IncludesOf(g, d.name, d.sources)
  {
    hide Scan, Plus;
    r, includes := NOTHING, [];
    for i := 0 to |d.sources|
      invariant r == ScanSources(g, d.name, d.sources[..i]) && includes == IncludesOf(g, d.name, d.sources[..i])
    {
      assert d.sources[..i + 1][..i] == d.sources[..i];
      var found, _, _ := ScanFile(g, Origin(d.name, d.sources[i].path), d.sources[i].lines);
      r := Plus(r, found);
      includes := includes + [(d.sources[i].path, found.includes)];
    }
    assert d.sources[..|d.sources|] == d.sources;
  }

  method NamesIn(g: Grammar, spec: string) returns (names: set<string>)
    ensures names == NotesOf(g, [spec])
  {
    names := {};
    var parts := Split(spec, ',');
    for k := 0 to |parts|
      invariant forall name :: name in names <==>
          exists part :: part in parts[..k] && IsPlainName(Strip(g, part)) && name == Strip(g, part)
    {
      hide Strip, IsPlainName;
      assert parts[..k + 1] == parts[..k] + [parts[k]];
      if IsPlainName(Strip(g, parts[k])) {
        names := names + {Strip(g, parts[k])};
      }
    }
    assert parts[..|parts|] == parts;
  }

  method ReadNotes(g: Grammar, specs: seq<string>) returns (names: set<string>)
    ensures names == NotesOf(g, specs)
  {
    names := {};
    for i := 0 to |specs|
      invariant names == NotesOf(g, specs[..i])
    {
      var found := NamesIn(g, specs[i]);
      assert specs[..i + 1] == specs[..i] + [specs[i]];
      MoreNotes(g, specs[..i], specs[i]);
      names := names + found;
    }
    assert specs[..|specs|] == specs;
  }

  lemma MoreNotes(g: Grammar, specs: seq<string>, spec: string)
    ensures NotesOf(g, specs + [spec]) == NotesOf(g, specs) + NotesOf(g, [spec])
  {
    hide Strip, IsPlainName, Split;
  }

  method SourcesOf(d: Directory) returns (sources: seq<SourceFile>)
    ensures sources == Sources(d.sources)
  {
    sources := [];
    for i := 0 to |d.sources|
      invariant sources == Sources(d.sources[..i])
    {
      assert d.sources[..i + 1][..i] == d.sources[..i];
      if IsSource(d.sources[i].path) {
        sources := sources + [d.sources[i]];
      }
    }
    assert d.sources[..|d.sources|] == d.sources;
  }

  lemma NextDirectory(listing: seq<Directory>, last: Directory)
    ensures Modules(listing + [last]) ==
            Modules(listing) + if IsModule(last.name) then [last.(sources := Sources(last.sources))] else []
  {
    assert (listing + [last])[..|listing|] == listing;
  }

  lemma NothingCaptured(g: Grammar)
    ensures Captured(g, []) == (Manifest([], [], [], map[]), [])
  {
  }

  lemma NextModule(g: Grammar, tree: seq<Directory>, d: Directory)
    ensures var (m, problems) := Captured(g, tree);
            var r := ScanSources(g, d.name, d.sources);
            Captured(g, tree + [d]) ==
            (Manifest(m.cases + r.cases, m.blocks + r.blocks, m.members + r.members, m.modules[d.name := InfoOf(g, d)]),
             problems + r.problems)
  {
    hide ScanSources, InfoOf;
    assert (tree + [d])[..|tree|] == tree;
  }

  /** `capture`: the manifest of the modules in a listing, module after module. */
  method CaptureTree(g: Grammar, listing: seq<Directory>) returns (m: Manifest, problems: seq<Problem>)
    ensures (m, problems) == (Sorted(Captured(g, Modules(listing)).0), Captured(g, Modules(listing)).1)
  {
    hide ScanSources, NotesOf, SortBy, IncludesOf, IsModule, Sources, Captured;
    m, problems := Manifest([], [], [], map[]), [];
    NothingCaptured(g);
    for i := 0 to |listing|
      invariant (m, problems) == Captured(g, Modules(listing[..i]))
    {
      assert listing[..i] + [listing[i]] == listing[..i + 1];
      NextDirectory(listing[..i], listing[i]);
      if IsModule(listing[i].name) {
        var sources := SourcesOf(listing[i]);
        var d := listing[i].(sources := sources);
        NextModule(g, Modules(listing[..i]), d);
        assert Modules(listing[..i + 1]) == Modules(listing[..i]) + [d];
        var found, includes := CaptureModule(g, d);
        var notes := ReadNotes(g, d.specs);
        var info := Info(found.refs, found.literals, d.files, notes, includes);
        m := Manifest(m.cases + found.cases, m.blocks + found.blocks, m.members + found.members,
            m.modules[d.name := info]);
        problems := problems + found.problems;
      } else {
        assert Modules(listing[..i + 1]) == Modules(listing[..i]);
      }
    }
    assert listing[..|listing|] == listing;
    m := Sorted(m);
  }
}
