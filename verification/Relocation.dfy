/** Moving self-contained pieces of text between headers (scripts/utests/utf_inventory.py). */
module Relocation {
  import opened Wrappers
  import opened Sequences
  import opened ByteOrder
  import opened Members
  import opened Scanner
  import opened Concatenation
  import opened Gate
  import opened Intrinsic
  import opened Agreement
  import opened Capture

  /** A header: what opens it, the pieces it is made of, and what closes it. */
  datatype Header = Header(path: string, prologue: seq<string>, pieces: seq<seq<string>>, epilogue: seq<string>)

  /** A module whose headers are made of pieces. */
  datatype Module = Module(name: string, headers: seq<Header>, specs: seq<string>, files: map<string, string>)

  function Lines(h: Header): seq<string> {
    h.prologue + (Concat(h.pieces) + h.epilogue)
  }

  function FileOf(h: Header): SourceFile {
    SourceFile(h.path, Lines(h))
  }

  function DirectoryOf(m: Module): Directory {
    Directory(m.name, Map(FileOf, m.headers), m.specs, m.files)
  }

  function PiecesOf(headers: seq<Header>): seq<seq<string>> {
    Flat((h: Header) => h.pieces, headers)
  }

  function AllPieces(tree: seq<Module>): seq<seq<string>> {
    Flat((m: Module) => PiecesOf(m.headers), tree)
  }

  const NOWHERE: Origin := Origin("", "")

  /** The last non-blank line ends a comment. */
  predicate EndsInComment(g: Grammar, lines: seq<string>) {
    var end := TrimBack(g, lines, |lines|);
    end > 0 && EndsComment(g, lines[end - 1])
  }

  /** Text which can stand in any header: it closes what it opens, keeps to it, and takes no comment from its
      neighbours. */
  ghost predicate Piece(g: Grammar, lines: seq<string>) {
    && EndsClean(Scan(g, NOWHERE, lines))
    && KeepsLevel(g, NOWHERE, lines, BEGIN)
    && DocsInside(g, lines)
    && !EndsInComment(g, lines)
    && !EndsInBareNamespace(g, lines)
  }

  ghost predicate SilentReport(r: Report) {
    r.cases == [] && r.blocks == [] && r.members == [] && r.problems == [] && r.refs == {} && r.literals == {}
  }

  /** An include guard at most around the pieces, and no case, namespace, data file or problem. */
  ghost predicate WellFormed(g: Grammar, h: Header) {
    var (start, opening) := Scan(g, NOWHERE, h.prologue);
    && AllInclude(start.conds) && start.spaces == [] && SilentReport(opening)
    && CodeFollows(g, h.prologue) && !EndsInBareNamespace(g, h.prologue) && !EndsInComment(g, h.prologue)
    && SilentReport(ScanFrom(g, NOWHERE, h.epilogue, Position(0, start.conds, [])).1) && DocsInside(g, h.epilogue)
    && forall piece :: piece in h.pieces ==> Piece(g, piece)
  }

  ghost predicate WellFormedTree(g: Grammar, tree: seq<Module>) {
    && (forall i, j :: 0 <= i < j < |tree| ==> tree[i].name != tree[j].name)
    && forall m, h :: m in tree && h in m.headers ==> WellFormed(g, h)
  }

  // ---------------------------------------------------------------- comments across pieces

  lemma {:induction false} CommentlessEnd(g: Grammar, a: seq<string>, b: seq<string>)
    requires !EndsInComment(g, a) && !EndsInComment(g, b)
    ensures !EndsInComment(g, a + b) && !EndsInDocComment(g, a + b)
  {
    hide TrimBack, EndsComment, FindOpener;
    TrimBackDown(g, a, b, |b|);
    var end := TrimBack(g, b, |b|);
    if end > 0 {
      assert (a + b)[|a| + end - 1] == b[end - 1];
    } else if TrimBack(g, a, |a|) > 0 {
      assert (a + b)[TrimBack(g, a, |a|) - 1] == a[TrimBack(g, a, |a|) - 1];
    }
  }

  // ---------------------------------------------------------------- what pieces report

  function Alone(g: Grammar, piece: seq<string>): Report {
    Scan(g, NOWHERE, piece).1
  }

  function BlockText(b: Block): string {
    b.sha
  }

  function MemberText(m: Member): (string, string) {
    (m.sha, m.ns)
  }

  function CasesIn(g: Grammar, pieces: seq<seq<string>>): seq<Content> {
    Flat(p => Contents(Alone(g, p).cases), pieces)
  }

  function BlocksIn(g: Grammar, pieces: seq<seq<string>>): seq<string> {
    Flat(p => Map(BlockText, Alone(g, p).blocks), pieces)
  }

  function MembersIn(g: Grammar, pieces: seq<seq<string>>): seq<(string, string)> {
    Flat(p => Map(MemberText, Alone(g, p).members), pieces)
  }

  function RefsIn(g: Grammar, pieces: seq<seq<string>>): set<string> {
    set p, ref | p in pieces && ref in Alone(g, p).refs :: ref
  }

  function LiteralsIn(g: Grammar, pieces: seq<seq<string>>): set<string> {
    set p, literal | p in pieces && literal in Alone(g, p).literals :: literal
  }

  ghost predicate AllFrom(r: Report, name: string) {
    && (forall i :: 0 <= i < |r.cases| ==> r.cases[i].origin.moduleName == name)
    && (forall i :: 0 <= i < |r.blocks| ==> r.blocks[i].origin.moduleName == name)
    && (forall i :: 0 <= i < |r.members| ==> r.members[i].origin.moduleName == name)
  }

  /** The report holds what the pieces report when each is scanned alone, in their order, under the name of a module. */
  ghost predicate ReportsPieces(g: Grammar, name: string, r: Report, pieces: seq<seq<string>>) {
    && Contents(r.cases) == CasesIn(g, pieces)
    && Map(BlockText, r.blocks) == BlocksIn(g, pieces)
    && Map(MemberText, r.members) == MembersIn(g, pieces)
    && r.refs == RefsIn(g, pieces) && r.literals == LiteralsIn(g, pieces)
    && r.problems == [] && AllFrom(r, name)
  }

  lemma DataJoin(g: Grammar, ps: seq<seq<string>>, qs: seq<seq<string>>)
    ensures RefsIn(g, ps + qs) == RefsIn(g, ps) + RefsIn(g, qs)
    ensures LiteralsIn(g, ps + qs) == LiteralsIn(g, ps) + LiteralsIn(g, qs)
  {
    hide Alone;
    forall ref ensures ref in RefsIn(g, ps + qs) <==> ref in RefsIn(g, ps) || ref in RefsIn(g, qs) {
    }
    forall literal ensures literal in LiteralsIn(g, ps + qs) <==>
        literal in LiteralsIn(g, ps) || literal in LiteralsIn(g, qs) {
    }
  }

  lemma PiecesJoin(g: Grammar, ps: seq<seq<string>>, qs: seq<seq<string>>)
    ensures CasesIn(g, ps + qs) == CasesIn(g, ps) + CasesIn(g, qs)
    ensures BlocksIn(g, ps + qs) == BlocksIn(g, ps) + BlocksIn(g, qs)
    ensures MembersIn(g, ps + qs) == MembersIn(g, ps) + MembersIn(g, qs)
  {
    hide Flat, Alone;
    FlatConcat(p => Contents(Alone(g, p).cases), ps, qs);
    FlatConcat(p => Map(BlockText, Alone(g, p).blocks), ps, qs);
    FlatConcat(p => Map(MemberText, Alone(g, p).members), ps, qs);
  }

  lemma OneIn(g: Grammar, piece: seq<string>)
    ensures CasesIn(g, [piece]) == Contents(Alone(g, piece).cases)
    ensures BlocksIn(g, [piece]) == Map(BlockText, Alone(g, piece).blocks)
    ensures MembersIn(g, [piece]) == Map(MemberText, Alone(g, piece).members)
    ensures RefsIn(g, [piece]) == Alone(g, piece).refs && LiteralsIn(g, [piece]) == Alone(g, piece).literals
  {
    hide Flat, Alone;
    FlatOne(p => Contents(Alone(g, p).cases), piece);
    FlatOne(p => Map(BlockText, Alone(g, p).blocks), piece);
    FlatOne(p => Map(MemberText, Alone(g, p).members), piece);
    assert forall p :: p in [piece] <==> p == piece;
  }

  lemma ReportsJoin(g: Grammar, name: string, x: Report, ps: seq<seq<string>>, y: Report, qs: seq<seq<string>>)
    requires ReportsPieces(g, name, x, ps) && ReportsPieces(g, name, y, qs)
    ensures ReportsPieces(g, name, Plus(x, y), ps + qs)
  {
    hide CasesIn, BlocksIn, MembersIn, RefsIn, LiteralsIn;
    PiecesJoin(g, ps, qs);
    DataJoin(g, ps, qs);
    assert Contents(x.cases + y.cases) == Contents(x.cases) + Contents(y.cases);
    assert Map(BlockText, x.blocks + y.blocks) == Map(BlockText, x.blocks) + Map(BlockText, y.blocks);
    assert Map(MemberText, x.members + y.members) == Map(MemberText, x.members) + Map(MemberText, y.members);
  }

  lemma OnePiece(g: Grammar, piece: seq<string>, home: Origin, offset: nat)
    requires Piece(g, piece)
    ensures ReportsPieces(g, home.moduleName, Move(Alone(g, piece), home, offset), [piece])
  {
    hide Scan, KeepsLevel, DocsInside, EndsInComment, EndsInBareNamespace, CasesIn, BlocksIn, MembersIn, RefsIn,
        LiteralsIn;
    OneIn(g, piece);
    var report := Alone(g, piece);
    var moved := Move(report, home, offset);
    assert Contents(moved.cases) == Contents(report.cases);
    assert Map(BlockText, moved.blocks) == Map(BlockText, report.blocks);
    assert Map(MemberText, moved.members) == Map(MemberText, report.members);
  }

  lemma Silence(g: Grammar, r: Report, home: Origin, offset: nat)
    requires SilentReport(r)
    ensures ReportsPieces(g, home.moduleName, Move(r, home, offset), [])
  {
    hide Alone;
  }

  // ---------------------------------------------------------------- one header

  lemma {:induction false} PiecesScan(g: Grammar, home: Origin, a: seq<string>, pieces: seq<seq<string>>,
      epilogue: seq<string>, under: seq<Option<string>>)
    requires EndifsAreCode(g) && AllInclude(under) && !EndsInComment(g, a)
    requires forall piece :: piece in pieces ==> Piece(g, piece)
    requires SilentReport(ScanFrom(g, NOWHERE, epilogue, Position(0, under, [])).1) && DocsInside(g, epilogue)
    ensures ReportsPieces(g, home.moduleName,
        ScanFrom(g, home, a + (Concat(pieces) + epilogue), Position(|a|, under, [])).1, pieces)
    decreases |pieces|
  {
    hide ScanFrom, EndifsAreCode, AllInclude, EndsInComment, ReportsPieces, SilentReport, DocsInside, KeepsLevel,
        EndsInDocComment, Move, Plus;
    NoComment(g);
    CommentlessEnd(g, [], a);
    assert [] + a == a;
    if pieces == [] {
      EpilogueScan(g, home, a, epilogue, under);
      assert Concat(pieces) + epilogue == epilogue;
    } else {
      var piece, rest := pieces[0], pieces[1..];
      var after := Concat(rest) + epilogue;
      assert a + (Concat(pieces) + epilogue) == a + (piece + after);
      assert a + (piece + after) == (a + piece) + after;
      PieceIsSealed(g, piece);
      assert Piece(g, piece);
      ScanInside(g, NOWHERE, a, piece, after, BEGIN, home, under);
      CommentlessEnd(g, a, piece);
      PiecesScan(g, home, a + piece, rest, epilogue, under);
      assert under + [] == under;
      OnePiece(g, piece, home, |a|);
      ReportsJoin(g, home.moduleName, Move(Alone(g, piece), home, |a|), [piece],
                  ScanFrom(g, home, (a + piece) + after, Position(|a + piece|, under, [])).1, rest);
      assert [piece] + rest == pieces;
    }
  }

  lemma PieceIsSealed(g: Grammar, piece: seq<string>)
    requires Piece(g, piece) && EndifsAreCode(g)
    ensures Sealed(g, piece, ScanFrom(g, NOWHERE, piece, BEGIN))
  {
    hide ScanFrom, EndifsAreCode;
  }

  lemma EpilogueScan(g: Grammar, home: Origin, a: seq<string>, epilogue: seq<string>, under: seq<Option<string>>)
    requires !EndsInDocComment(g, a) && DocsInside(g, epilogue)
    requires SilentReport(ScanFrom(g, NOWHERE, epilogue, Position(0, under, [])).1)
    ensures ReportsPieces(g, home.moduleName, ScanFrom(g, home, a + epilogue, Position(|a|, under, [])).1, [])
  {
    hide ScanFrom, EndsInDocComment, DocsInside, ReportsPieces, Move, SilentReport, Plus;
    var at := Position(0, under, []);
    var (last, report) := ScanFrom(g, NOWHERE, epilogue, at);
    NoneIncluded();
    ScanInside(g, NOWHERE, a, epilogue, [], at, home, []);
    assert epilogue + [] == epilogue && [] + under == under && Lowered(at, [], |a|) == Position(|a|, under, []);
    AtTheEnd(g, home, a + epilogue, Lowered(last, [], |a|));
    Silence(g, report, home, |a|);
    PlusAssociates(Move(report, home, |a|), NOTHING, NOTHING);
  }

  /** The scan of a header reports its pieces as each is scanned alone: the include guard around them is not seen. */
  lemma HeaderIsItsPieces(g: Grammar, name: string, h: Header)
    requires EndifsAreCode(g) && WellFormed(g, h)
    ensures ReportsPieces(g, name, Scan(g, Origin(name, h.path), Lines(h)).1, h.pieces)
  {
    hide ScanFrom, EndifsAreCode, AllInclude, EndsInComment, DocsInside, KeepsLevel, EndsInDocComment, Move,
        ReportsPieces, Plus, CodeFollows;
    var home := Origin(name, h.path);
    var (start, opening) := Scan(g, NOWHERE, h.prologue);
    var after := Concat(h.pieces) + h.epilogue;
    NoComment(g);
    assert AllInclude([]) by { NoneIncluded(); }
    assert Sealed(g, h.prologue, ScanFrom(g, NOWHERE, h.prologue, BEGIN));
    ScanInside(g, NOWHERE, [], h.prologue, after, BEGIN, home, []);
    assert [] + (h.prologue + after) == Lines(h);
    assert [] + BEGIN.conds == [] && [] + start.conds == start.conds;
    PiecesScan(g, home, h.prologue, h.pieces, h.epilogue, start.conds);
    Silence(g, opening, home, 0);
    ReportsJoin(g, name, Move(opening, home, 0), [], ScanFrom(g, home, Lines(h), start).1, h.pieces);
    assert [] + h.pieces == h.pieces;
  }

  lemma NoComment(g: Grammar)
    ensures !EndsInComment(g, []) && !EndsInDocComment(g, [])
  {
  }

  lemma NoneIncluded()
    ensures AllInclude([])
  {
  }

  // ---------------------------------------------------------------- one module

  lemma {:induction false} ModuleIsItsPieces(g: Grammar, name: string, headers: seq<Header>)
    requires EndifsAreCode(g) && forall h :: h in headers ==> WellFormed(g, h)
    ensures ReportsPieces(g, name, ScanSources(g, name, Map(FileOf, headers)), PiecesOf(headers))
  {
    hide EndifsAreCode, WellFormed, Scan, ReportsPieces, Plus;
    if headers == [] {
      Silence(g, NOTHING, Origin(name, ""), 0);
      PlusMoves(NOTHING, NOTHING, Origin(name, ""), 0);
    } else {
      var init, h := headers[..|headers| - 1], headers[|headers| - 1];
      ModuleIsItsPieces(g, name, init);
      HeaderIsItsPieces(g, name, h);
      assert Map(FileOf, headers)[..|headers| - 1] == Map(FileOf, init);
      ReportsJoin(g, name, ScanSources(g, name, Map(FileOf, init)), PiecesOf(init),
          Scan(g, Origin(name, h.path), Lines(h)).1, h.pieces);
      assert headers == init + [h];
      FlatAppend((h: Header) => h.pieces, init, h);
    }
  }

  function ModuleReport(g: Grammar, m: Module): Report {
    ScanSources(g, m.name, Map(FileOf, m.headers))
  }

  lemma OneNameBlocks(r: Report, name: string)
    requires AllFrom(r, name)
    ensures Unique(r.blocks, BlockKey) <==> Distinct(Map(BlockText, r.blocks))
    ensures Unique(r.members, MemberKey) <==> Distinct(Map(MemberText, r.members))
  {
    forall i, j | 0 <= i < j < |r.blocks|
      ensures BlockKey(r.blocks[i]) == BlockKey(r.blocks[j]) <==>
          Map(BlockText, r.blocks)[i] == Map(BlockText, r.blocks)[j]
    {
    }
    forall i, j | 0 <= i < j < |r.members|
      ensures MemberKey(r.members[i]) == MemberKey(r.members[j]) <==>
          Map(MemberText, r.members)[i] == Map(MemberText, r.members)[j]
    {
    }
  }

  // ---------------------------------------------------------------- the whole tree

  function TreeOf(tree: seq<Module>): seq<Directory> {
    Map(DirectoryOf, tree)
  }

  /** One more module. */
  lemma TreeStep(g: Grammar, tree: seq<Module>)
    requires EndifsAreCode(g) && WellFormedTree(g, tree) && tree != []
    ensures var init, last := tree[..|tree| - 1], tree[|tree| - 1];
            var (m, problems) := Captured(g, TreeOf(init));
            var r := ModuleReport(g, last);
            && WellFormedTree(g, init)
            && Captured(g, TreeOf(tree)) ==
               (Manifest(m.cases + r.cases, m.blocks + r.blocks, m.members + r.members,
                         m.modules[last.name := InfoOf(g, DirectoryOf(last))]), problems + r.problems)
            && ReportsPieces(g, last.name, r, PiecesOf(last.headers))
            && AllPieces(tree) == AllPieces(init) + PiecesOf(last.headers)
            && tree == init + [last]
            && forall other :: other in init ==> other.name != last.name
  {
    hide EndifsAreCode, WellFormed, ReportsPieces, ScanSources, NotesOf, PiecesOf;
    var init, last := tree[..|tree| - 1], tree[|tree| - 1];
    assert TreeOf(tree)[..|tree| - 1] == TreeOf(init);
    assert tree == init + [last];
    assert last in tree;
    ModuleIsItsPieces(g, last.name, last.headers);
    FlatAppend((m: Module) => PiecesOf(m.headers), init, last);
  }

  lemma NoTree(g: Grammar)
    ensures Captured(g, TreeOf([])) == (Manifest([], [], [], map[]), [])
    ensures AllPieces([]) == [] && CasesIn(g, []) == [] && MembersIn(g, []) == []
  {
    hide ScanSources, InfoOf, Alone, IncludesOf;
  }

  lemma {:induction false} TreePieces(g: Grammar, tree: seq<Module>)
    requires EndifsAreCode(g) && WellFormedTree(g, tree)
    ensures var (m, problems) := Captured(g, TreeOf(tree));
            && Contents(m.cases) == CasesIn(g, AllPieces(tree))
            && Map(MemberText, m.members) == MembersIn(g, AllPieces(tree))
            && problems == []
    decreases |tree|
  {
    hide EndifsAreCode, WellFormedTree, Captured, ScanSources, InfoOf, CasesIn, BlocksIn, MembersIn, RefsIn, LiteralsIn,
        AllPieces, PiecesOf, TreeOf;
    if tree == [] {
      NoTree(g);
    } else {
      var init, last := tree[..|tree| - 1], tree[|tree| - 1];
      TreeStep(g, tree);
      TreePieces(g, init);
      PiecesJoin(g, AllPieces(init), PiecesOf(last.headers));
      var m, r := Captured(g, TreeOf(init)).0, ModuleReport(g, last);
      assert Contents(m.cases + r.cases) == Contents(m.cases) + Contents(r.cases);
      assert Map(MemberText, m.members + r.members) == Map(MemberText, m.members) + Map(MemberText, r.members);
    }
  }

  ghost predicate Names(tree: seq<Module>, name: string) {
    exists i :: 0 <= i < |tree| && tree[i].name == name
  }

  ghost predicate InfoFits(g: Grammar, info: Info, m: Module) {
    && info.refs == RefsIn(g, PiecesOf(m.headers)) && info.literals == LiteralsIn(g, PiecesOf(m.headers))
    && info.files == m.files && info.notes == NotesOf(g, m.specs)
  }

  lemma {:induction false} TreeModules(g: Grammar, tree: seq<Module>)
    requires EndifsAreCode(g) && WellFormedTree(g, tree)
    ensures var modules := Captured(g, TreeOf(tree)).0.modules;
            && (forall name :: name in modules <==> Names(tree, name))
            && forall m :: m in tree ==>
                 && m.name in modules
                 && InfoFits(g, modules[m.name], m)
    decreases |tree|
  {
    hide EndifsAreCode, WellFormedTree, Captured, ScanSources, CasesIn, BlocksIn, MembersIn, RefsIn, LiteralsIn,
        AllPieces, PiecesOf, NotesOf, TreeOf;
    if tree == [] {
      NoTree(g);
    } else {
      var init, last := tree[..|tree| - 1], tree[|tree| - 1];
      TreeStep(g, tree);
      TreeModules(g, init);
      forall name ensures Names(tree, name) <==> Names(init, name) || name == last.name {
        if Names(init, name) {
          var i :| 0 <= i < |init| && init[i].name == name;
          assert tree[i] == init[i];
        }
        assert tree[|init|] == last;
      }
    }
  }

  lemma UniqueAppend<T(!new), K>(xs: seq<T>, ys: seq<T>, key: T -> K)
    requires forall i, j :: 0 <= i < |xs| && 0 <= j < |ys| ==> key(xs[i]) != key(ys[j])
    ensures Unique(xs + ys, key) <==> Unique(xs, key) && Unique(ys, key)
  {
    var all := xs + ys;
    if Unique(all, key) {
      forall i, j | 0 <= i < j < |xs| ensures key(xs[i]) != key(xs[j]) {
        assert key(all[i]) != key(all[j]);
      }
      forall i, j | 0 <= i < j < |ys| ensures key(ys[i]) != key(ys[j]) {
        assert key(all[|xs| + i]) != key(all[|xs| + j]);
      }
    }
  }

  lemma UniqueNothing()
    ensures Unique([], BlockKey) && Unique([], MemberKey)
  {
  }

  ghost predicate FromNames(m: Manifest, tree: seq<Module>) {
    && (forall i :: 0 <= i < |m.blocks| ==> Names(tree, m.blocks[i].origin.moduleName))
    && (forall i :: 0 <= i < |m.members| ==> Names(tree, m.members[i].origin.moduleName))
  }

  lemma MoreNames(tree: seq<Module>)
    requires tree != [] && forall other :: other in tree[..|tree| - 1] ==> other.name != tree[|tree| - 1].name
    ensures var init, last := tree[..|tree| - 1], tree[|tree| - 1];
            && Names(tree, last.name)
            && forall name :: Names(init, name) ==> Names(tree, name) && name != last.name
  {
    var init, last := tree[..|tree| - 1], tree[|tree| - 1];
    forall name | Names(init, name) ensures Names(tree, name) && name != last.name {
      var i :| 0 <= i < |init| && init[i].name == name;
      assert tree[i] == init[i] && init[i] in init;
    }
    assert tree[|init|] == last;
  }

  /** No module holds a helper block twice. */
  ghost predicate BlocksDistinct(g: Grammar, tree: seq<Module>) {
    forall mod :: mod in tree ==> Distinct(BlocksIn(g, PiecesOf(mod.headers)))
  }

  /** No module holds a helper member twice in one namespace. */
  ghost predicate MembersDistinct(g: Grammar, tree: seq<Module>) {
    forall mod :: mod in tree ==> Distinct(MembersIn(g, PiecesOf(mod.headers)))
  }

  lemma DistinctStep(g: Grammar, init: seq<Module>, last: Module)
    ensures BlocksDistinct(g, init + [last]) <==>
            BlocksDistinct(g, init) && Distinct(BlocksIn(g, PiecesOf(last.headers)))
    ensures MembersDistinct(g, init + [last]) <==>
            MembersDistinct(g, init) && Distinct(MembersIn(g, PiecesOf(last.headers)))
  {
    hide Distinct, BlocksIn, MembersIn, PiecesOf;
    assert forall mod :: mod in init + [last] <==> mod in init || mod == last;
  }

  /** Helper text is free of duplicates exactly when every module is. */
  lemma {:induction false} TreeHelpers(g: Grammar, tree: seq<Module>)
    requires EndifsAreCode(g) && WellFormedTree(g, tree)
    ensures var m := Captured(g, TreeOf(tree)).0;
            && FromNames(m, tree)
            && (Unique(m.blocks, BlockKey) <==> BlocksDistinct(g, tree))
            && (Unique(m.members, MemberKey) <==> MembersDistinct(g, tree))
    decreases |tree|
  {
    hide EndifsAreCode, WellFormedTree, Captured, ScanSources, InfoOf, CasesIn, BlocksIn, MembersIn, RefsIn, LiteralsIn,
         AllPieces, PiecesOf, Unique, Distinct, TreeOf, Names;
    if tree == [] {
      NoTree(g);
      UniqueNothing();
    } else {
      hide BlocksDistinct, MembersDistinct;
      var init, last := tree[..|tree| - 1], tree[|tree| - 1];
      TreeStep(g, tree);
      TreeHelpers(g, init);
      DistinctStep(g, init, last);
      var m, r := Captured(g, TreeOf(init)).0, ModuleReport(g, last);
      OneNameBlocks(r, last.name);
      MoreNames(tree);
      UniqueAppend(m.blocks, r.blocks, BlockKey);
      UniqueAppend(m.members, r.members, MemberKey);
    }
  }

  /** Some case of the pieces has the name. */
  ghost predicate NamedIn(g: Grammar, pieces: seq<seq<string>>, name: string) {
    exists content :: content in CasesIn(g, pieces) && content.name == name
  }

  lemma {:induction false} TreeOwners(g: Grammar, tree: seq<Module>)
    requires EndifsAreCode(g) && WellFormedTree(g, tree)
    ensures var cases := Captured(g, TreeOf(tree)).0.cases;
            && (forall c :: c in cases ==> Names(tree, c.origin.moduleName))
            && forall mod, name :: mod in tree ==>
                (Owns(cases, mod.name, name) <==> NamedIn(g, PiecesOf(mod.headers), name))
    decreases |tree|
  {
    hide EndifsAreCode, WellFormedTree, Captured, ScanSources, InfoOf, CasesIn, BlocksIn, MembersIn, RefsIn, LiteralsIn,
        AllPieces, PiecesOf, NamedIn, TreeOf;
    if tree == [] {
      NoTree(g);
    } else {
      var init, last := tree[..|tree| - 1], tree[|tree| - 1];
      TreeStep(g, tree);
      TreeOwners(g, init);
      var m, r := Captured(g, TreeOf(init)).0, ModuleReport(g, last);
      forall name | Names(init, name) ensures Names(tree, name) && name != last.name {
        var i :| 0 <= i < |init| && init[i].name == name;
        assert tree[i] == init[i] && init[i] in init;
      }
      assert tree[|init|] == last && Names(tree, last.name);
      forall mod, name | mod in tree ensures Owns(m.cases + r.cases, mod.name, name) <==>
          NamedIn(g, PiecesOf(mod.headers), name) {
        OwnsJoin(m.cases, r.cases, mod.name, name);
        if mod == last {
          ModuleOwns(g, r, last.name, PiecesOf(last.headers), name);
          NotOwned(m.cases, init, last.name, name);
        } else {
          assert mod in init;
          OthersOwnNothing(r, last.name, mod.name, name);
        }
      }
    }
  }

  lemma OwnsJoin(xs: seq<Case>, ys: seq<Case>, moduleName: string, name: string)
    ensures Owns(xs + ys, moduleName, name) <==> Owns(xs, moduleName, name) || Owns(ys, moduleName, name)
  {
  }

  lemma NotOwned(cases: seq<Case>, tree: seq<Module>, moduleName: string, name: string)
    requires forall c :: c in cases ==> Names(tree, c.origin.moduleName)
    requires !Names(tree, moduleName)
    ensures !Owns(cases, moduleName, name)
  {
  }

  lemma OthersOwnNothing(r: Report, moduleName: string, other: string, name: string)
    requires AllFrom(r, moduleName) && other != moduleName
    ensures !Owns(r.cases, other, name)
  {
  }

  lemma ModuleOwns(g: Grammar, r: Report, moduleName: string, pieces: seq<seq<string>>, name: string)
    requires ReportsPieces(g, moduleName, r, pieces)
    ensures Owns(r.cases, moduleName, name) <==> NamedIn(g, pieces, name)
  {
    hide CasesIn, BlocksIn, MembersIn, RefsIn, LiteralsIn;
    if Owns(r.cases, moduleName, name) {
      var i :| 0 <= i < |r.cases| && r.cases[i].name == name;
      assert Contents(r.cases)[i] in Contents(r.cases);
    }
    if NamedIn(g, pieces, name) {
      var content :| content in Contents(r.cases) && content.name == name;
      var i :| 0 <= i < |r.cases| && Contents(r.cases)[i] == content;
      assert r.cases[i] in r.cases;
    }
  }

  // ---------------------------------------------------------------- the verdict

  lemma UniquePermutes<T(!new), K>(xs: seq<T>, ys: seq<T>, key: T -> K)
    requires multiset(xs) == multiset(ys) && Unique(xs, key)
    ensures Unique(ys, key)
  {
    forall i, j | 0 <= i < j < |xs| ensures xs[i] != xs[j] {
      assert key(xs[i]) != key(xs[j]);
    }
    DistinctCounts(xs);
    forall i, j | 0 <= i < j < |ys| ensures key(ys[i]) != key(ys[j]) {
      CountsDistinct(ys, i, j);
      assert ys[i] in multiset(xs) && ys[j] in multiset(xs);
      var k: nat :| k < |xs| && xs[k] == ys[i];
      var l: nat :| l < |xs| && xs[l] == ys[j];
      assert k != l;
    }
  }

  lemma ShasOf(members: seq<Member>, texts: seq<(string, string)>)
    requires multiset(Map(MemberText, members)) == multiset(texts)
    ensures Shas(members) == set text | text in texts :: text.0
    ensures members == [] <==> texts == []
  {
    var own := Map(MemberText, members);
    SameElements(own, texts);
    forall m | m in members ensures MemberText(m) in own {
      var i :| 0 <= i < |members| && members[i] == m;
      assert own[i] == MemberText(m);
    }
    forall text | text in own ensures text.0 in Shas(members) {
      var i :| 0 <= i < |own| && own[i] == text;
      assert members[i] in members;
    }
    assert |members| == |own| == |multiset(own)| == |texts|;
  }

  /** What one side of a regrouping gives the comparison. */
  lemma SideOf(g: Grammar, tree: seq<Module>, m: Manifest)
    requires EndifsAreCode(g) && WellFormedTree(g, tree) && ManifestOf(m, Captured(g, TreeOf(tree)).0)
    ensures Captured(g, TreeOf(tree)).1 == []
    ensures multiset(Contents(m.cases)) == multiset(CasesIn(g, AllPieces(tree)))
    ensures multiset(Map(MemberText, m.members)) == multiset(MembersIn(g, AllPieces(tree)))
  {
    hide EndifsAreCode, WellFormedTree, Captured, CasesIn, MembersIn, AllPieces, TreeOf;
    var captured := Captured(g, TreeOf(tree)).0;
    TreePieces(g, tree);
    MapPermutes(ContentOf, m.cases, captured.cases);
    MapPermutes(MemberText, m.members, captured.members);
  }

  lemma SamePieces(g: Grammar, ps: seq<seq<string>>, qs: seq<seq<string>>)
    requires multiset(ps) == multiset(qs)
    ensures multiset(CasesIn(g, ps)) == multiset(CasesIn(g, qs))
    ensures multiset(MembersIn(g, ps)) == multiset(MembersIn(g, qs))
  {
    FlatPermutes(p => Contents(Alone(g, p).cases), ps, qs);
    FlatPermutes(p => Map(MemberText, Alone(g, p).members), ps, qs);
  }

  /** Regroup the pieces of a tree in any way, over any headers and modules and in any order: both trees are captured
      without a problem and hold the same names twice, if any; and where the baseline has no name twice and some helper
      member, `check_against` has nothing to report. */
  lemma RelocationPasses(g: Grammar, before: seq<Module>, after: seq<Module>, prior: Manifest, current: Manifest)
    requires EndifsAreCode(g) && WellFormedTree(g, before) && WellFormedTree(g, after)
    requires multiset(AllPieces(before)) == multiset(AllPieces(after))
    requires ManifestOf(prior, Captured(g, TreeOf(before)).0) && ManifestOf(current, Captured(g, TreeOf(after)).0)
    ensures Captured(g, TreeOf(before)).1 == [] && Captured(g, TreeOf(after)).1 == []
    ensures Unique(prior.cases, NameOf) <==> Unique(current.cases, NameOf)
    ensures prior.members == [] <==> current.members == []
    ensures Unique(prior.cases, NameOf) && prior.members != [] ==> Passes(prior, current)
  {
    hide EndifsAreCode, WellFormedTree, Captured, Passes, ManifestOf, CasesIn, MembersIn, AllPieces, TreeOf, Unique,
        Contents;
    SideOf(g, before, prior);
    SideOf(g, after, current);
    SamePieces(g, AllPieces(before), AllPieces(after));
    if Unique(prior.cases, NameOf) {
      SameContentsSameNames(prior.cases, current.cases);
    } else if Unique(current.cases, NameOf) {
      SameContentsSameNames(current.cases, prior.cases);
    }
    ShasOf(prior.members, MembersIn(g, AllPieces(before)));
    ShasOf(current.members, MembersIn(g, AllPieces(before)));
    if Unique(prior.cases, NameOf) && prior.members != [] {
      PassIsBijection(prior, current);
    }
  }

  /** Beside the pieces of the module lie the data files they load, and those they name of the tree's; and its
      notes name its own cases. */
  ghost predicate DataFits(g: Grammar, tree: seq<Module>, m: Module) {
    var pieces := PiecesOf(m.headers);
    && RefsIn(g, pieces) <= m.files.Keys
    && (forall literal, n :: literal in LiteralsIn(g, pieces) && n in tree && literal in n.files ==> literal in m.files)
    && (forall name :: name in NotesOf(g, m.specs) ==> NamedIn(g, pieces, name))
  }

  /** The pieces of a module hold no helper block twice, and no helper member twice in one namespace. */
  ghost predicate HelpersFit(g: Grammar, m: Module) {
    Distinct(BlocksIn(g, PiecesOf(m.headers))) && Distinct(MembersIn(g, PiecesOf(m.headers)))
  }

  /** Data files of one name have one content. */
  ghost predicate FilesAgree(tree: seq<Module>) {
    forall m, n, file :: m in tree && n in tree && file in m.files && file in n.files ==> m.files[file] == n.files[file]
  }

  /** The data of a manifest is that of the tree, and its cases are owned as the pieces say. */
  ghost predicate DataOf(g: Grammar, tree: seq<Module>, cases: seq<Case>, modules: map<string, Info>) {
    && (forall name :: name in modules <==> Names(tree, name))
    && (forall m :: m in tree ==>
          && m.name in modules
          && InfoFits(g, modules[m.name], m))
    && forall mod, name :: mod in tree ==> (Owns(cases, mod.name, name) <==> NamedIn(g, PiecesOf(mod.headers), name))
  }

  lemma NamedModule(tree: seq<Module>, name: string) returns (m: Module)
    requires Names(tree, name)
    ensures m in tree && m.name == name
  {
    var i :| 0 <= i < |tree| && tree[i].name == name;
    m := tree[i];
  }

  lemma KnownInTree(g: Grammar, tree: seq<Module>, cases: seq<Case>, modules: map<string, Info>, file: string)
    requires DataOf(g, tree, cases, modules)
    ensures Known(modules, file) <==> exists n :: n in tree && file in n.files
  {
    hide RefsIn, LiteralsIn, NotesOf, PiecesOf, Owns, NamedIn, Names;
    if Known(modules, file) {
      var name :| name in modules && file in modules[name].files;
      var m := NamedModule(tree, name);
    }
    if n :| n in tree && file in n.files {
      assert file in modules[n.name].files;
    }
  }

  lemma ModuleData(g: Grammar, tree: seq<Module>, cases: seq<Case>, modules: map<string, Info>, m: Module)
    requires DataOf(g, tree, cases, modules) && m in tree
    ensures m.name in modules
    ensures DataFits(g, tree, m) <==>
            Carries(modules, m.name) && forall name :: name in modules[m.name].notes ==> Owns(cases, m.name, name)
  {
    hide RefsIn, LiteralsIn, NotesOf, PiecesOf, Owns, NamedIn, Names, Known;
    forall file ensures Known(modules, file) <==> exists n :: n in tree && file in n.files {
      KnownInTree(g, tree, cases, modules, file);
    }
  }

  lemma AgreeingFiles(g: Grammar, tree: seq<Module>, cases: seq<Case>, modules: map<string, Info>)
    requires DataOf(g, tree, cases, modules)
    ensures FilesAgree(tree) <==> forall file :: !Differing(modules, file)
  {
    hide RefsIn, LiteralsIn, NotesOf, PiecesOf, Owns, NamedIn, Names, Known;
    if FilesAgree(tree) {
      forall file ensures !Differing(modules, file) {
        if Differing(modules, file) {
          var x, y :| && x in modules && y in modules && file in modules[x].files && file in modules[y].files
                      && modules[x].files[file] != modules[y].files[file];
          var m := NamedModule(tree, x);
          var n := NamedModule(tree, y);
        }
      }
    }
    if forall file :: !Differing(modules, file) {
      forall m, n, file | m in tree && n in tree && file in m.files && file in n.files
          ensures m.files[file] == n.files[file] {
        assert !Differing(modules, file);
        assert file in modules[m.name].files && file in modules[n.name].files;
      }
    }
  }

  lemma DataCaptured(g: Grammar, tree: seq<Module>, m: Manifest)
    requires EndifsAreCode(g) && WellFormedTree(g, tree) && ManifestOf(m, Captured(g, TreeOf(tree)).0)
    ensures DataOf(g, tree, m.cases, m.modules)
  {
    hide EndifsAreCode, WellFormedTree, Captured, PiecesOf, RefsIn, LiteralsIn, NotesOf, NamedIn, Owns, TreeOf, Names;
    TreeModules(g, tree);
    TreeOwners(g, tree);
    var captured := Captured(g, TreeOf(tree)).0;
    SameElements(m.cases, captured.cases);
    forall moduleName, name ensures Owns(m.cases, moduleName, name) == Owns(captured.cases, moduleName, name) {
      SameOwners(m.cases, captured.cases, moduleName, name);
    }
  }

  lemma TreeData(g: Grammar, tree: seq<Module>, cases: seq<Case>, modules: map<string, Info>)
    requires DataOf(g, tree, cases, modules)
    ensures DataInPlace(cases, modules) <==> FilesAgree(tree) && forall m :: m in tree ==> DataFits(g, tree, m)
  {
    hide RefsIn, LiteralsIn, NotesOf, PiecesOf, Owns, NamedIn, Names, Known, Carries, FilesAgree, DataFits, Differing;
    AgreeingFiles(g, tree, cases, modules);
    forall m | m in tree
      ensures m.name in modules
      ensures DataFits(g, tree, m) <==>
              Carries(modules, m.name) && forall name :: name in modules[m.name].notes ==> Owns(cases, m.name, name)
    {
      ModuleData(g, tree, cases, modules, m);
    }
    if forall m :: m in tree ==> DataFits(g, tree, m) {
      forall name | name in modules
        ensures Carries(modules, name) && forall note :: note in modules[name].notes ==> Owns(cases, name, note)
      {
        var m := NamedModule(tree, name);
      }
    }
  }

  lemma SameOwners(xs: seq<Case>, ys: seq<Case>, moduleName: string, name: string)
    requires forall c :: c in xs <==> c in ys
    ensures Owns(xs, moduleName, name) == Owns(ys, moduleName, name)
  {
  }

  /** What the tool is for, exactly. A regrouping of the pieces of a tree gets the whole verdict if and only if the
      baseline has no name twice and some helper member, data files of one name agree, and every module's pieces
      fit it. */
  lemma RelocationVerdict(g: Grammar, before: seq<Module>, after: seq<Module>, prior: Manifest, current: Manifest)
    requires EndifsAreCode(g) && WellFormedTree(g, before) && WellFormedTree(g, after)
    requires multiset(AllPieces(before)) == multiset(AllPieces(after))
    requires ManifestOf(prior, Captured(g, TreeOf(before)).0) && ManifestOf(current, Captured(g, TreeOf(after)).0)
    ensures Verdict(prior, current) <==>
            && Unique(prior.cases, NameOf) && prior.members != []
            && FilesAgree(after) && forall m :: m in after ==> HelpersFit(g, m) && DataFits(g, after, m)
  {
    hide EndifsAreCode, WellFormedTree, Captured, Passes, CasesIn, MembersIn, BlocksIn, RefsIn, LiteralsIn, NotesOf,
        NamedIn, AllPieces,
         PiecesOf, TreeOf, Unique, Distinct, DataInPlace, FilesAgree, DataFits, KeepsMembers, DataOf;
    RelocationPasses(g, before, after, prior, current);
    TreeHelpers(g, after);
    DataCaptured(g, after, current);
    TreeData(g, after, current.cases, current.modules);
    UniqueBothWays(current.blocks, Captured(g, TreeOf(after)).0.blocks, BlockKey);
    UniqueBothWays(current.members, Captured(g, TreeOf(after)).0.members, MemberKey);
    PassNeedsMembers(prior, current);
    assert Unique(current.blocks, BlockKey) && Unique(current.members, MemberKey) <==> forall m :: m in after ==>
        HelpersFit(g, m);
    assert DataInPlace(current.cases, current.modules) <==> FilesAgree(after) && forall m :: m in after ==>
        DataFits(g, after, m);
  }

  lemma PassNeedsMembers(before: Manifest, after: Manifest)
    ensures Passes(before, after) ==> before.members != []
  {
    hide Passes, Index;
    PassIsAgreement(before, after);
  }

  lemma UniqueBothWays<T(!new), K>(xs: seq<T>, ys: seq<T>, key: T -> K)
    requires multiset(xs) == multiset(ys)
    ensures Unique(xs, key) == Unique(ys, key)
  {
    hide Unique;
    if Unique(xs, key) {
      UniquePermutes(xs, ys, key);
    } else if Unique(ys, key) {
      UniquePermutes(ys, xs, key);
    }
  }
}
