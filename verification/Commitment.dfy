/** From hashes back to text (scripts/utests/utf_inventory.py): a passing step leaves the text of every test and
    helper as it was, or exhibits two texts with one hash. */
module Commitment {
  import opened Wrappers
  import opened Sequences
  import opened Members
  import opened Scanner
  import opened Gate
  import opened Intrinsic
  import opened Agreement
  import opened Capture

  /** Two different texts with one hash. */
  predicate Collide(g: Grammar, x: string, y: string) {
    x != y && g.sha(x) == g.sha(y)
  }

  predicate NoNewline(lines: seq<string>) {
    forall i :: 0 <= i < |lines| ==> '\n' !in lines[i]
  }

  /** What is hashed for some lines: trailing white space does not count. */
  function Normalized(g: Grammar, lines: seq<string>): string {
    Join(RightStripped(g, lines), '\n')
  }

  lemma {:induction false} RightStripIsPrefix(g: Grammar, line: string)
    ensures RightStrip(g, line) <= line
  {
    if line == "" || !g.isSpace(line[|line| - 1]) {
    } else {
      RightStripIsPrefix(g, line[..|line| - 1]);
    }
  }

  /** Normalized text determines its lines. */
  lemma NormalizedInjective(g: Grammar, xs: seq<string>, ys: seq<string>)
    requires NoNewline(xs) && NoNewline(ys) && xs != [] && ys != []
    requires Normalized(g, xs) == Normalized(g, ys)
    ensures RightStripped(g, xs) == RightStripped(g, ys)
  {
    forall line | line in RightStripped(g, xs) || line in RightStripped(g, ys) ensures '\n' !in line {
      if line in RightStripped(g, xs) {
        var i :| 0 <= i < |xs| && RightStripped(g, xs)[i] == line;
        RightStripIsPrefix(g, xs[i]);
      } else {
        var i :| 0 <= i < |ys| && RightStripped(g, ys)[i] == line;
        RightStripIsPrefix(g, ys[i]);
      }
    }
    JoinInjective(RightStripped(g, xs), RightStripped(g, ys), '\n');
  }

  /** The lines are the same, up to trailing white space. */
  predicate SameText(g: Grammar, xs: seq<string>, ys: seq<string>) {
    RightStripped(g, xs) == RightStripped(g, ys)
  }

  /** Two lines which are some text with nothing but white space behind it. */
  ghost predicate SameFront(g: Grammar, x: string, y: string) {
    exists core :: core <= x && core <= y && AllSpace(g, x[|core|..]) && AllSpace(g, y[|core|..])
  }

  lemma {:induction false} StripsBack(g: Grammar, line: string, core: string)
    requires core <= line && AllSpace(g, line[|core|..])
    ensures RightStrip(g, line) == RightStrip(g, core)
    decreases |line|
  {
    if line == core {
    } else {
      var init := line[..|line| - 1];
      assert line[|core|..][|line| - 1 - |core|] == line[|line| - 1];
      assert init[|core|..] == line[|core|..][..|line| - 1 - |core|];
      StripsBack(g, init, core);
    }
  }

  lemma SameFrontStrips(g: Grammar, x: string, y: string)
    ensures RightStrip(g, x) == RightStrip(g, y) <==> SameFront(g, x, y)
  {
    if RightStrip(g, x) == RightStrip(g, y) {
      RightStripMeans(g, x);
      RightStripMeans(g, y);
      assert SameFront(g, x, y);
    } else if SameFront(g, x, y) {
      var core :| core <= x && core <= y && AllSpace(g, x[|core|..]) && AllSpace(g, y[|core|..]);
      StripsBack(g, x, core);
      StripsBack(g, y, core);
    }
  }

  /** Line by line, up to white space at their ends; and such texts hash alike, so no hash sees how lines end. */
  lemma LineEndingsAreIgnored(g: Grammar, xs: seq<string>, ys: seq<string>)
    ensures SameText(g, xs, ys) <==> |xs| == |ys| && forall i :: 0 <= i < |xs| ==> SameFront(g, xs[i], ys[i])
    ensures SameText(g, xs, ys) ==> TextSha(g, xs) == TextSha(g, ys)
  {
    hide RightStrip, SameFront;
    forall i | 0 <= i < |xs| && i < |ys|
      ensures RightStrip(g, xs[i]) == RightStrip(g, ys[i]) <==> SameFront(g, xs[i], ys[i])
    {
      SameFrontStrips(g, xs[i], ys[i]);
    }
    var a, b := RightStripped(g, xs), RightStripped(g, ys);
    assert a == b <==> |a| == |b| && forall i :: 0 <= i < |a| ==> a[i] == b[i];
  }

  lemma TextCommitment(g: Grammar, xs: seq<string>, ys: seq<string>)
    requires NoNewline(xs) && NoNewline(ys) && xs != [] && ys != [] && TextSha(g, xs) == TextSha(g, ys)
    ensures SameText(g, xs, ys) || Collide(g, Normalized(g, xs), Normalized(g, ys))
  {
    if Normalized(g, xs) == Normalized(g, ys) {
      NormalizedInjective(g, xs, ys);
    }
  }

  // ---------------------------------------------------------------- where the text of a case and of a member sits

  /** The case was extracted from these lines: where it starts, where it ends, and what was hashed. */
  predicate Sits(g: Grammar, lines: seq<string>, c: Case) {
    && 0 < c.line <= |lines| && FindClose(lines, c.line) < |lines|
    && c.bodySha == TextSha(g, BodyOf(lines, c)) && c.docSha == DocSha(g, lines, c.line - 1)
  }

  function BodyOf(lines: seq<string>, c: Case): seq<string>
    requires 0 < c.line <= |lines| && FindClose(lines, c.line) < |lines|
  {
    lines[c.line - 1..FindClose(lines, c.line) + 1]
  }

  /** The lines of the doc comment, none where there is no comment. */
  function DocOf(g: Grammar, lines: seq<string>, c: Case): seq<string>
    requires 0 < c.line <= |lines|
  {
    match DocCommentSpan(g, lines, c.line - 1)
    case None => []
    case Some((first, end)) => lines[first..end]
  }

  /** The member is the lines `span` of the block which opens at `open`. */
  predicate MemberSits(g: Grammar, lines: seq<string>, m: Member, open: nat, span: (nat, nat)) {
    && open < |lines| && span in SplitFrom(g, lines, open + 1, FindClose(lines, open + 1))
    && span.0 <= span.1 < |lines| && m.line == span.0 + 1 && m.sha == TextSha(g, lines[span.0..span.1 + 1])
  }

  ghost predicate Extracted(g: Grammar, lines: seq<string>, r: Report) {
    && (forall c :: c in r.cases ==> Sits(g, lines, c))
    && (forall m :: m in r.members ==> exists open, span :: MemberSits(g, lines, m, open, span))
  }

  lemma NothingExtracted(g: Grammar, lines: seq<string>)
    ensures Extracted(g, lines, NOTHING)
  {
  }

  lemma ExtractedJoin(g: Grammar, lines: seq<string>, x: Report, y: Report)
    requires Extracted(g, lines, x) && Extracted(g, lines, y)
    ensures Extracted(g, lines, Plus(x, y))
  {
    hide Sits, MemberSits;
  }

  lemma CaseIsExtracted(g: Grammar, origin: Origin, lines: seq<string>, at: Position,
      header: (string, string, Option<string>))
    requires at.index < |lines|
    ensures Extracted(g, lines, CaseStep(g, origin, lines, at, header).1)
  {
    hide FindClose, DocSha, TextSha, Guards, Strip, RefsOf, LiteralsOf;
  }

  lemma BlockIsExtracted(g: Grammar, origin: Origin, lines: seq<string>, at: Position, title: Option<string>,
      brace: bool)
    requires at.index < |lines|
    ensures Extracted(g, lines, SpaceStep(g, origin, lines, at, title, brace).1)
  {
    hide FindClose, TextSha, Strip, Qualified, Uncovered, SplitFrom, OpenIndex, MembersOf, MemberAt;
    match OpenIndex(g, lines, at.index, brace)
    case None =>
    case Some(open) =>
      var end := FindClose(lines, open + 1);
      var ns := Qualified(at.spaces + [if title.Some? then title.value else "<anonymous>"]);
      SpansInRange(g, lines, open + 1, end);
      MembersAreExtracted(g, origin, lines, ns, open);
      assert SpaceStep(g, origin, lines, at, title, brace).1.members ==
          MembersOf(g, origin, lines, ns, SplitFrom(g, lines, open + 1, end));
  }

  lemma MembersAreExtracted(g: Grammar, origin: Origin, lines: seq<string>, ns: string, open: nat)
    requires open < |lines| && InRange(lines, SplitFrom(g, lines, open + 1, FindClose(lines, open + 1)))
    ensures var members := MembersOf(g, origin, lines, ns, SplitFrom(g, lines, open + 1, FindClose(lines, open + 1)));
            Extracted(g, lines, NOTHING.(members := members))
  {
    hide FindClose, TextSha, Strip, SplitFrom;
    var spans := SplitFrom(g, lines, open + 1, FindClose(lines, open + 1));
    var members := MembersOf(g, origin, lines, ns, spans);
    forall m | m in members ensures exists o, span :: MemberSits(g, lines, m, o, span) {
      var i :| 0 <= i < |members| && members[i] == m;
      assert spans[i] in spans;
      assert MemberSits(g, lines, m, open, spans[i]);
    }
  }

  lemma StepIsExtracted(g: Grammar, origin: Origin, lines: seq<string>, at: Position)
    requires at.index < |lines|
    ensures Extracted(g, lines, Step(g, origin, lines, at).1)
  {
    hide CaseStep, SpaceStep, Sits, MemberSits, Directive, Closes;
    var line := lines[at.index];
    if g.testCase(line).Some? {
      CaseIsExtracted(g, origin, lines, at, g.testCase(line).value);
    } else if g.namespaceOpen(line).Some? {
      BlockIsExtracted(g, origin, lines, at, g.namespaceOpen(line).value.0, g.namespaceOpen(line).value.1);
    }
    ExtractedJoin(g, lines, NOTHING.(refs := g.dataRefs(line), literals := g.dataLiterals(line)),
        TextStep(g, origin, lines, at).1);
  }

  /** Every case and every member a scan reports was extracted from the lines scanned. */
  lemma {:induction false} ScanIsExtracted(g: Grammar, origin: Origin, lines: seq<string>, at: Position)
    requires at.index <= |lines|
    ensures Extracted(g, lines, ScanFrom(g, origin, lines, at).1)
    decreases |lines| - at.index
  {
    hide Step, Sits, MemberSits, Extracted, Plus;
    if at.index == |lines| {
      NothingExtracted(g, lines);
    } else {
      var (next, report) := Step(g, origin, lines, at);
      StepIsExtracted(g, origin, lines, at);
      StepAdvances(g, origin, lines, at);
      ScanIsExtracted(g, origin, lines, next);
      ExtractedJoin(g, lines, report, ScanFrom(g, origin, lines, next).1);
    }
  }

  // ---------------------------------------------------------------- where captured entries come from

  ghost predicate CaseFrom(g: Grammar, tree: seq<Directory>, c: Case, d: Directory, f: SourceFile) {
    d in tree && f in d.sources && c in Scan(g, Origin(d.name, f.path), f.lines).1.cases
  }

  ghost predicate MemberFrom(g: Grammar, tree: seq<Directory>, m: Member, d: Directory, f: SourceFile) {
    d in tree && f in d.sources && m in Scan(g, Origin(d.name, f.path), f.lines).1.members
  }

  lemma {:induction false} CaseIsCaptured(g: Grammar, tree: seq<Directory>, c: Case, d: Directory, f: SourceFile)
    requires CaseFrom(g, tree, c, d, f)
    ensures c in Captured(g, tree).0.cases
  {
    hide Scan, ScanSources;
    var last := tree[|tree| - 1];
    if d == last {
      CaseInSources(g, d.name, d.sources, c, f);
    } else {
      CaseIsCaptured(g, tree[..|tree| - 1], c, d, f);
    }
  }

  lemma {:induction false} CaseInSources(g: Grammar, name: string, sources: seq<SourceFile>, c: Case, f: SourceFile)
    requires f in sources && c in Scan(g, Origin(name, f.path), f.lines).1.cases
    ensures c in ScanSources(g, name, sources).cases
  {
    hide Scan;
    if f == sources[|sources| - 1] {
    } else {
      CaseInSources(g, name, sources[..|sources| - 1], c, f);
    }
  }

  lemma {:induction false} SourceOfCase(g: Grammar, name: string, sources: seq<SourceFile>, c: Case)
      returns (f: SourceFile)
    requires c in ScanSources(g, name, sources).cases
    ensures f in sources && c in Scan(g, Origin(name, f.path), f.lines).1.cases
  {
    hide Scan;
    f := sources[|sources| - 1];
    if c !in Scan(g, Origin(name, f.path), f.lines).1.cases {
      f := SourceOfCase(g, name, sources[..|sources| - 1], c);
    }
  }

  lemma {:induction false} OriginOfCase(g: Grammar, tree: seq<Directory>, c: Case) returns (d: Directory, f: SourceFile)
    requires c in Captured(g, tree).0.cases
    ensures CaseFrom(g, tree, c, d, f)
  {
    hide Scan, ScanSources;
    d := tree[|tree| - 1];
    if c in ScanSources(g, d.name, d.sources).cases {
      f := SourceOfCase(g, d.name, d.sources, c);
    } else {
      d, f := OriginOfCase(g, tree[..|tree| - 1], c);
    }
  }

  lemma {:induction false} MemberIsCaptured(g: Grammar, tree: seq<Directory>, m: Member, d: Directory, f: SourceFile)
    requires MemberFrom(g, tree, m, d, f)
    ensures m in Captured(g, tree).0.members
  {
    hide Scan, ScanSources;
    var last := tree[|tree| - 1];
    if d == last {
      MemberInSources(g, d.name, d.sources, m, f);
    } else {
      MemberIsCaptured(g, tree[..|tree| - 1], m, d, f);
    }
  }

  lemma {:induction false} MemberInSources(g: Grammar, name: string, sources: seq<SourceFile>, m: Member, f: SourceFile)
    requires f in sources && m in Scan(g, Origin(name, f.path), f.lines).1.members
    ensures m in ScanSources(g, name, sources).members
  {
    hide Scan;
    if f == sources[|sources| - 1] {
    } else {
      MemberInSources(g, name, sources[..|sources| - 1], m, f);
    }
  }

  lemma {:induction false} SourceOfMember(g: Grammar, name: string, sources: seq<SourceFile>, m: Member)
      returns (f: SourceFile)
    requires m in ScanSources(g, name, sources).members
    ensures f in sources && m in Scan(g, Origin(name, f.path), f.lines).1.members
  {
    hide Scan;
    f := sources[|sources| - 1];
    if m !in Scan(g, Origin(name, f.path), f.lines).1.members {
      f := SourceOfMember(g, name, sources[..|sources| - 1], m);
    }
  }

  lemma {:induction false} OriginOfMember(g: Grammar, tree: seq<Directory>, m: Member)
      returns (d: Directory, f: SourceFile)
    requires m in Captured(g, tree).0.members
    ensures MemberFrom(g, tree, m, d, f)
  {
    hide Scan, ScanSources;
    d := tree[|tree| - 1];
    if m in ScanSources(g, d.name, d.sources).members {
      f := SourceOfMember(g, d.name, d.sources, m);
    } else {
      d, f := OriginOfMember(g, tree[..|tree| - 1], m);
    }
  }

  // ---------------------------------------------------------------- what a passing step keeps

  /** Files as the tool reads them: split at line feeds. */
  ghost predicate ReadLines(tree: seq<Directory>) {
    forall d, f :: d in tree && f in d.sources ==> NoNewline(f.lines)
  }

  /** A string which was hashed for the case. */
  predicate HashedFor(g: Grammar, lines: seq<string>, c: Case, x: string)
    requires Sits(g, lines, c)
  {
    x == Normalized(g, BodyOf(lines, c)) || (c.docSha.Some? && x == Normalized(g, DocOf(g, lines, c)))
  }

  lemma DocIsHashed(g: Grammar, lines: seq<string>, c: Case)
    requires Sits(g, lines, c)
    ensures c.docSha == if DocOf(g, lines, c) == [] then None else Some(TextSha(g, DocOf(g, lines, c)))
    ensures NoNewline(lines) ==> NoNewline(DocOf(g, lines, c)) && NoNewline(BodyOf(lines, c))
    ensures BodyOf(lines, c) != []
  {
    hide DocCommentSpan, TextSha, FindClose;
  }

  /** Two cases with equal hashes have equal text, or a hashed text of each collide. */
  lemma CaseCommitment(g: Grammar, xs: seq<string>, c: Case, ys: seq<string>, d: Case) returns (x: string, y: string)
    requires Sits(g, xs, c) && Sits(g, ys, d) && NoNewline(xs) && NoNewline(ys)
    requires c.bodySha == d.bodySha && c.docSha == d.docSha
    ensures || (SameText(g, BodyOf(xs, c), BodyOf(ys, d)) && SameText(g, DocOf(g, xs, c), DocOf(g, ys, d)))
            || (Collide(g, x, y) && HashedFor(g, xs, c, x) && HashedFor(g, ys, d, y))
  {
    hide TextSha, SameText, Normalized, Collide;
    DocIsHashed(g, xs, c);
    DocIsHashed(g, ys, d);
    TextCommitment(g, BodyOf(xs, c), BodyOf(ys, d));
    x, y := Normalized(g, BodyOf(xs, c)), Normalized(g, BodyOf(ys, d));
    if SameText(g, BodyOf(xs, c), BodyOf(ys, d)) {
      if c.docSha == None {
        SameAsItself(g, DocOf(g, xs, c));
      } else {
        TextCommitment(g, DocOf(g, xs, c), DocOf(g, ys, d));
        x, y := Normalized(g, DocOf(g, xs, c)), Normalized(g, DocOf(g, ys, d));
      }
    }
  }

  lemma SameAsItself(g: Grammar, lines: seq<string>)
    ensures SameText(g, lines, lines)
  {
  }

  /** A passing step from a baseline without duplicate names keeps every case: there is a case of its name with the
      same guards and namespaces, and its body and its doc comment are the same lines, up to trailing white space,
      or a string hashed for the one and a string hashed for the other are computed which differ and
      have one hash. */
  lemma PassKeepsCases(g: Grammar, before: seq<Directory>, after: seq<Directory>, prior: Manifest, current: Manifest,
                       c: Case, d: Directory, f: SourceFile)
    returns (c': Case, d': Directory, f': SourceFile, x: string, y: string)
    requires ReadLines(before) && ReadLines(after)
    requires ManifestOf(prior, Captured(g, before).0) && ManifestOf(current, Captured(g, after).0)
    requires Passes(prior, current) && Unique(prior.cases, NameOf)
    requires CaseFrom(g, before, c, d, f)
    ensures c' in current.cases && CaseFrom(g, after, c', d', f')
    ensures c'.name == c.name && c'.guards == c.guards && c'.namespaces == c.namespaces
    ensures Sits(g, f.lines, c) && Sits(g, f'.lines, c')
    ensures || (SameText(g, BodyOf(f.lines, c), BodyOf(f'.lines, c'))
        && SameText(g, DocOf(g, f.lines, c), DocOf(g, f'.lines, c')))
            || (Collide(g, x, y) && HashedFor(g, f.lines, c, x) && HashedFor(g, f'.lines, c', y))
  {
    hide Captured, Index, Scan, Passes, Unique, Sits, HashedFor, BodyOf, DocOf, SameText, Collide;
    CaseIsCaptured(g, before, c, d, f);
    SameElements(prior.cases, Captured(g, before).0.cases);
    SameElements(current.cases, Captured(g, after).0.cases);
    var i: nat :| i < |prior.cases| && prior.cases[i] == c;
    UniqueIndex(prior.cases, i);
    PassIsAgreement(prior, current);
    var j := IndexedIsLast(current.cases, c.name);
    c' := current.cases[j];
    assert ContentOf(c') == ContentOf(c);
    d', f' := OriginOfCase(g, after, c');
    CaseSits(g, before, c, d, f);
    CaseSits(g, after, c', d', f');
    x, y := CaseCommitment(g, f.lines, c, f'.lines, c');
  }

  lemma CaseSits(g: Grammar, tree: seq<Directory>, c: Case, d: Directory, f: SourceFile)
    requires CaseFrom(g, tree, c, d, f)
    ensures Sits(g, f.lines, c)
  {
    hide ScanFrom, Sits;
    ScanIsExtracted(g, Origin(d.name, f.path), f.lines, BEGIN);
  }

  lemma MemberSitsSomewhere(g: Grammar, tree: seq<Directory>, m: Member, d: Directory, f: SourceFile)
      returns (open: nat, span: (nat, nat))
    requires MemberFrom(g, tree, m, d, f)
    ensures MemberSits(g, f.lines, m, open, span)
  {
    hide ScanFrom, MemberSits;
    ScanIsExtracted(g, Origin(d.name, f.path), f.lines, BEGIN);
    open, span :| MemberSits(g, f.lines, m, open, span);
  }

  function LinesOf(lines: seq<string>, span: (nat, nat)): seq<string>
    requires span.0 <= span.1 < |lines|
  {
    lines[span.0..span.1 + 1]
  }

  /** And it keeps every helper member: some member of the later tree has the same lines, or two different texts
      with one hash are computed. */
  lemma PassKeepsMembers(g: Grammar, before: seq<Directory>, after: seq<Directory>, prior: Manifest, current: Manifest,
                         m: Member, d: Directory, f: SourceFile)
    returns (open: nat, span: (nat, nat), m': Member, d': Directory, f': SourceFile, open': nat, span': (nat, nat))
    requires ReadLines(before) && ReadLines(after)
    requires ManifestOf(prior, Captured(g, before).0) && ManifestOf(current, Captured(g, after).0)
    requires Passes(prior, current) && MemberFrom(g, before, m, d, f)
    ensures m' in current.members && MemberFrom(g, after, m', d', f')
    ensures MemberSits(g, f.lines, m, open, span) && MemberSits(g, f'.lines, m', open', span')
    ensures SameText(g, LinesOf(f.lines, span), LinesOf(f'.lines, span'))
            || Collide(g, Normalized(g, LinesOf(f.lines, span)), Normalized(g, LinesOf(f'.lines, span')))
  {
    hide Captured, Index, Scan, Passes, SameText, Collide, TextSha, SplitFrom, FindClose;
    MemberIsCaptured(g, before, m, d, f);
    SameElements(prior.members, Captured(g, before).0.members);
    SameElements(current.members, Captured(g, after).0.members);
    PassIsAgreement(prior, current);
    assert m.sha in Shas(prior.members);
    m' :| m' in current.members && m'.sha == m.sha;
    d', f' := OriginOfMember(g, after, m');
    open, span := MemberSitsSomewhere(g, before, m, d, f);
    open', span' := MemberSitsSomewhere(g, after, m', d', f');
    TextCommitment(g, LinesOf(f.lines, span), LinesOf(f'.lines, span'));
  }
}
