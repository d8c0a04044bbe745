/** The one-pass scanner of a test header (scripts/utests/utf_inventory.py). */
module Scanner {
  import opened Wrappers
  import opened Sequences
  import opened Members

  /** The file a line belongs to; it is only passed through. */
  datatype Origin = Origin(moduleName: string, path: string)

  datatype Case = Case(origin: Origin, line: nat, name: string, kind: string, fixture: Option<string>,
                       bodySha: string, docSha: Option<string>, guards: seq<string>, namespaces: seq<string>)

  datatype Block = Block(origin: Origin, line: nat, name: string, sha: string)

  datatype Member = Member(origin: Origin, line: nat, ns: string, sha: string, title: string)

  datatype Problem = NoClosingBrace(line: nat, name: string) | NoOpeningBrace(line: nat,
      name: string) | UncoveredLine(line: nat)

  /** Everything a scan reports. */
  datatype Report = Report(cases: seq<Case>, blocks: seq<Block>, members: seq<Member>, includes: seq<string>,
                           refs: set<string>, literals: set<string>, problems: seq<Problem>)

  /** Where a scan stands: the next line, the conditional stack (include guards are `None`), the namespaces. */
  datatype Position = Position(index: nat, conds: seq<Option<string>>, spaces: seq<string>)

  const NOTHING: Report := Report([], [], [], [], {}, {}, [])

  function Plus(x: Report, y: Report): Report {
    Report(x.cases + y.cases, x.blocks + y.blocks, x.members + y.members, x.includes + y.includes,
           x.refs + y.refs, x.literals + y.literals, x.problems + y.problems)
  }

  // ---------------------------------------------------------------- lines

  predicate Closes(line: string) {
    |line| > 0 && line[0] == '}'
  }

  predicate StartsWith(s: string, prefix: string) {
    prefix <= s
  }

  predicate EndsComment(g: Grammar, line: string) {
    var s := RightStrip(g, line);
    |s| >= 2 && s[|s| - 2..] == "*/"
  }

  predicate StartsComment(g: Grammar, line: string) {
    StartsWith(LeftStrip(g, line), "/*")
  }

  /** A blank or comment line, which the include-guard test looks past. */
  predicate Skippable(g: Grammar, line: string) {
    var s := Strip(g, line);
    s == "" || StartsWith(s, "//") || StartsWith(s, "/*") || StartsWith(s, "*")
  }

  function RightStripped(g: Grammar, lines: seq<string>): (out: seq<string>)
    ensures |out| == |lines| && forall i :: 0 <= i < |lines| ==> out[i] == RightStrip(g, lines[i])
  {
    seq(|lines|, i requires 0 <= i < |lines| => RightStrip(g, lines[i]))
  }

  /** `sha(normalize(lines))`. */
  function TextSha(g: Grammar, lines: seq<string>): string {
    g.sha(Join(RightStripped(g, lines), '\n'))
  }

  /** `'::'.join(names)`. */
  function Qualified(names: seq<string>): string {
    if names == [] then ""
    else if |names| == 1 then names[0]
    else names[0] + "::" + Qualified(names[1..])
  }

  // ---------------------------------------------------------------- looking around

  /** The first line from `index` on with a brace at column 0. */
  function FindClose(lines: seq<string>, index: nat): (end: nat)
    requires index <= |lines|
    ensures index <= end <= |lines|
    decreases |lines| - index
  {
    if index == |lines| || Closes(lines[index]) then index else FindClose(lines, index + 1)
  }

  /** One past the last non-blank line before `index`, or 0. */
  function TrimBack(g: Grammar, lines: seq<string>, index: nat): (end: nat)
    requires index <= |lines|
    ensures end <= index
  {
    if index > 0 && Blank(g, lines[index - 1]) then TrimBack(g, lines, index - 1) else index
  }

  /** The last line before `index` which starts a block comment. */
  function FindOpener(g: Grammar, lines: seq<string>, index: nat): (opener: Option<nat>)
    requires index <= |lines|
    ensures opener.Some? ==> opener.value < index
  {
    if index == 0 then None
    else if StartsComment(g, lines[index - 1]) then Some(index - 1)
    else FindOpener(g, lines, index - 1)
  }

  /** The block comment immediately above a case: first line, and one past the last. */
  function DocCommentSpan(g: Grammar, lines: seq<string>, caseStart: nat): (span: Option<(nat, nat)>)
    requires caseStart <= |lines|
    ensures span.Some? ==> span.value.0 < span.value.1 <= caseStart
  {
    var end := TrimBack(g, lines, caseStart);
    if end == 0 || !EndsComment(g, lines[end - 1]) then None
    else
      match FindOpener(g, lines, end)
      case None => None
      case Some(opener) => Some((opener, end))
  }

  /** `first..end` is the comment right above the case: it ends on the last non-blank line before it, and starts on
      the last line up to there which starts a comment. */
  predicate IsDocComment(g: Grammar, lines: seq<string>, caseStart: nat, first: nat, end: nat)
    requires caseStart <= |lines|
  {
    && first < end <= caseStart
    && (forall j :: end <= j < caseStart ==> Blank(g, lines[j]))
    && !Blank(g, lines[end - 1]) && EndsComment(g, lines[end - 1])
    && StartsComment(g, lines[first]) && forall j :: first < j < end ==> !StartsComment(g, lines[j])
  }

  lemma {:induction false} TrimBackIs(g: Grammar, lines: seq<string>, index: nat)
    requires index <= |lines|
    ensures var end := TrimBack(g, lines, index);
            && (forall j :: end <= j < index ==> Blank(g, lines[j]))
            && (end > 0 ==> !Blank(g, lines[end - 1]))
  {
    hide Blank;
    if index == 0 || !Blank(g, lines[index - 1]) {
    } else {
      TrimBackIs(g, lines, index - 1);
    }
  }

  lemma {:induction false} FindOpenerIs(g: Grammar, lines: seq<string>, index: nat)
    requires index <= |lines|
    ensures match FindOpener(g, lines, index)
            case None => forall j :: 0 <= j < index ==> !StartsComment(g, lines[j])
            case Some(o) => StartsComment(g, lines[o]) && forall j :: o < j < index ==> !StartsComment(g, lines[j])
  {
    hide StartsComment;
    if index == 0 || StartsComment(g, lines[index - 1]) {
    } else {
      FindOpenerIs(g, lines, index - 1);
    }
  }

  /** The span found is the doc comment, and there is none where none is found. */
  lemma DocCommentIsNearest(g: Grammar, lines: seq<string>, caseStart: nat, first: nat, end: nat)
    requires caseStart <= |lines|
    ensures DocCommentSpan(g, lines, caseStart) == Some((first, end)) <==> IsDocComment(g, lines, caseStart, first, end)
  {
    hide Blank, StartsComment, EndsComment, TrimBack, FindOpener;
    TrimBackIs(g, lines, caseStart);
    var last := TrimBack(g, lines, caseStart);
    FindOpenerIs(g, lines, last);
    if IsDocComment(g, lines, caseStart, first, end) {
      assert last <= end;
      assert last == end;
      assert FindOpener(g, lines, last) == Some(first);
    }
  }

  /** The guarded symbol is defined on the first line from `probe` on which is not blank or comment. */
  function DefinesNext(g: Grammar, lines: seq<string>, probe: nat, symbol: string): bool
    requires probe <= |lines|
    decreases |lines| - probe
  {
    if probe == |lines| then false
    else if Skippable(g, lines[probe]) then DefinesNext(g, lines, probe + 1, symbol)
    else g.defined(lines[probe]) == Some(symbol)
  }

  function IsIncludeGuard(g: Grammar, lines: seq<string>, index: nat, keyword: string, rest: string): bool
    requires index < |lines|
  {
    keyword == "ifndef" && Strip(g, rest) != "" && DefinesNext(g, lines, index + 1, Strip(g, rest))
  }

  // ---------------------------------------------------------------- one step

  function Guards(conds: seq<Option<string>>): seq<string> {
    if conds == [] then []
    else Guards(conds[..|conds| - 1]) + match conds[|conds| - 1] { case None => [] case Some(guard) => [guard] }
  }

  function RefsOf(g: Grammar, lines: seq<string>): set<string> {
    set line, r | line in lines && r in g.dataRefs(line) :: r
  }

  function LiteralsOf(g: Grammar, lines: seq<string>): set<string> {
    set line, r | line in lines && r in g.dataLiterals(line) :: r
  }

  function DocSha(g: Grammar, lines: seq<string>, index: nat): Option<string>
    requires index <= |lines|
  {
    match DocCommentSpan(g, lines, index)
    case None => None
    case Some((first, end)) => Some(TextSha(g, lines[first..end]))
  }

  function MemberAt(g: Grammar, origin: Origin, lines: seq<string>, ns: string, span: (nat, nat)): Member
    requires span.0 <= span.1 < |lines|
  {
    var stripped := Strip(g, lines[span.0]);
    Member(origin, span.0 + 1, ns, TextSha(g, lines[span.0..span.1 + 1]), if |stripped| <= 60 then stripped
        else stripped[..60])
  }

  ghost predicate InRange(lines: seq<string>, spans: seq<(nat, nat)>) {
    forall i :: 0 <= i < |spans| ==> spans[i].0 <= spans[i].1 < |lines|
  }

  function MembersOf(g: Grammar, origin: Origin, lines: seq<string>, ns: string,
      spans: seq<(nat, nat)>): (out: seq<Member>)
    requires InRange(lines, spans)
    ensures |out| == |spans| && forall i :: 0 <= i < |spans| ==> out[i] == MemberAt(g, origin, lines, ns, spans[i])
  {
    seq(|spans|, i requires 0 <= i < |spans| => MemberAt(g, origin, lines, ns, spans[i]))
  }

  /** The diagnostics for lines of a block which no member covers. */
  function Uncovered(g: Grammar, lines: seq<string>, start: nat, stop: nat, spans: seq<(nat, nat)>): seq<Problem>
    requires start <= stop <= |lines|
  {
    if start == stop then []
    else
      Uncovered(g, lines, start, stop - 1, spans)
      + if !Blank(g, lines[stop - 1]) && !Covered(spans, stop - 1) then [UncoveredLine(stop)] else []
  }

  /** What a case which ends at line `end` reports. */
  function CaseReport(g: Grammar, origin: Origin, lines: seq<string>, at: Position,
      header: (string, string, Option<string>), end: nat): Report
    requires at.index < end < |lines|
  {
    var (kind, name, fixture) := header;
    var body := lines[at.index..end + 1];
    var found := Case(origin, at.index + 1, name, kind, fixture, TextSha(g, body), DocSha(g, lines, at.index),
        Guards(at.conds), at.spaces);
    Report([found], [], [], [], RefsOf(g, body), LiteralsOf(g, body),
           if Strip(g, lines[at.index + 1]) != "{" then [NoOpeningBrace(at.index + 2, name)] else [])
  }

  function CaseStep(g: Grammar, origin: Origin, lines: seq<string>, at: Position,
      header: (string, string, Option<string>)): (Position, Report)
    requires at.index < |lines|
  {
    var end := FindClose(lines, at.index + 1);
    if end == |lines| then
      (at.(index := at.index + 1), NOTHING.(problems := [NoClosingBrace(at.index + 1, header.1)]))
    else
      (at.(index := end + 1), CaseReport(g, origin, lines, at, header, end))
  }

  /** Where the block of a namespace line opens; nothing where a bare line is not followed by a brace. */
  function OpenIndex(g: Grammar, lines: seq<string>, index: nat, brace: bool): (open: Option<nat>)
    requires index < |lines|
    ensures open.Some? ==> index <= open.value < |lines|
  {
    if brace then Some(index)
    else if index + 1 < |lines| && Strip(g, lines[index + 1]) == "{" then Some(index + 1)
    else None
  }

  /** What a namespace block which opens at `open` reports. */
  function SpaceReport(g: Grammar, origin: Origin, lines: seq<string>, index: nat, open: nat, name: string,
      ns: string): Report
    requires index <= open < |lines|
  {
    var end := FindClose(lines, open + 1);
    var last := if end < |lines| then end else |lines| - 1;
    SpansInRange(g, lines, open + 1, end);
    var spans := SplitFrom(g, lines, open + 1, end);
    NOTHING.(blocks := [Block(origin, index + 1, name, TextSha(g, lines[index..last + 1]))],
             members := MembersOf(g, origin, lines, ns, spans),
             problems := Uncovered(g, lines, open + 1, end, spans))
  }

  function SpaceStep(g: Grammar, origin: Origin, lines: seq<string>, at: Position, title: Option<string>,
      brace: bool): (Position, Report)
    requires at.index < |lines|
  {
    match OpenIndex(g, lines, at.index, brace)
    case None => (at.(index := at.index + 1), NOTHING)
    case Some(open) =>
      var name := if title.Some? then title.value else "<anonymous>";
      (at.(index := open + 1, spaces := at.spaces + [name]),
       SpaceReport(g, origin, lines, at.index, open, name, Qualified(at.spaces + [name])))
  }

  lemma SpansInRange(g: Grammar, lines: seq<string>, start: nat, stop: nat)
    requires stop <= |lines|
    ensures InRange(lines, SplitFrom(g, lines, start, stop))
  {
    SplitFromSplits(g, lines, start, stop);
  }

  /** The rest of the loop body, past the preprocessor lines. */
  function TextStep(g: Grammar, origin: Origin, lines: seq<string>, at: Position): (Position, Report)
    requires at.index < |lines|
  {
    var line := lines[at.index];
    if g.testCase(line).Some? then CaseStep(g, origin, lines, at, g.testCase(line).value)
    else if g.namespaceOpen(line).Some? then
      var (title, brace) := g.namespaceOpen(line).value;
      SpaceStep(g, origin, lines, at, title, brace)
    else if Closes(line) && at.spaces != [] then
        (at.(index := at.index + 1, spaces := at.spaces[..|at.spaces| - 1]), NOTHING)
    else (at.(index := at.index + 1), NOTHING)
  }

  /** What a conditional pushes: an include guard is not a guard. */
  function Pushed(g: Grammar, lines: seq<string>, index: nat): Option<string>
    requires index < |lines| && g.condOpen(lines[index]).Some?
  {
    var (keyword, rest) := g.condOpen(lines[index]).value;
    if IsIncludeGuard(g, lines, index, keyword, rest) then None else Some(keyword + " " + Strip(g, rest))
  }

  /** What an `#elif` or `#else` makes of the conditional it belongs to. */
  function Extended(g: Grammar, line: string, guard: Option<string>): Option<string>
    requires g.condMid(line).Some?
  {
    var (keyword, rest) := g.condMid(line).value;
    if guard.Some? then Some(guard.value + " | " + keyword + " " + Strip(g, rest)) else None
  }

  /** The stack of conditionals after a conditional directive; nothing where the line is not treated as one. */
  function Directive(g: Grammar, lines: seq<string>, at: Position): Option<seq<Option<string>>>
    requires at.index < |lines|
  {
    var line, n := lines[at.index], |at.conds|;
    if g.condOpen(line).Some? then Some(at.conds + [Pushed(g, lines, at.index)])
    else if g.condMid(line).Some? && n > 0 then Some(at.conds[..n - 1] + [Extended(g, line, at.conds[n - 1])])
    else if g.condClose(line) then Some(if n > 0 then at.conds[..n - 1] else at.conds)
    else None
  }

  /** The loop body. */
  function Step(g: Grammar, origin: Origin, lines: seq<string>, at: Position): (next: (Position, Report))
    requires at.index < |lines|
    ensures at.index < next.0.index <= |lines|
  {
    var line := lines[at.index];
    if Directive(g, lines, at).Some? then
      (at.(index := at.index + 1, conds := Directive(g, lines, at).value), NOTHING)
    else if g.inclusion(line).Some? then
      (at.(index := at.index + 1), NOTHING.(includes := [g.inclusion(line).value]))
    else
      var (next, report) := TextStep(g, origin, lines, at);
      (next, Plus(NOTHING.(refs := g.dataRefs(line), literals := g.dataLiterals(line)), report))
  }

  /** The scan of the lines from a position on. */
  function ScanFrom(g: Grammar, origin: Origin, lines: seq<string>, at: Position): (Position, Report)
    requires at.index <= |lines|
    decreases |lines| - at.index
  {
    if at.index == |lines| then (at, NOTHING)
    else
      var (next, report) := Step(g, origin, lines, at);
      var (last, rest) := ScanFrom(g, origin, lines, next);
      (last, Plus(report, rest))
  }

  const BEGIN: Position := Position(0, [], [])

  function Scan(g: Grammar, origin: Origin, lines: seq<string>): (Position, Report) {
    ScanFrom(g, origin, lines, BEGIN)
  }

  // ---------------------------------------------------------------- about scans

  lemma PlusAssociates(x: Report, y: Report, z: Report)
    ensures Plus(Plus(x, y), z) == Plus(x, Plus(y, z))
    ensures Plus(NOTHING, x) == x == Plus(x, NOTHING)
  {
    var l, r := Plus(Plus(x, y), z), Plus(x, Plus(y, z));
    assert l.cases == r.cases && l.blocks == r.blocks && l.members == r.members;
    assert l.includes == r.includes && l.problems == r.problems && l.refs == r.refs && l.literals == r.literals;
  }

  lemma StepAdvances(g: Grammar, origin: Origin, lines: seq<string>, at: Position)
    requires at.index < |lines|
    ensures at.index < Step(g, origin, lines, at).0.index <= |lines|
  {
    hide TextStep;
  }

  lemma AtTheEnd(g: Grammar, origin: Origin, lines: seq<string>, at: Position)
    requires at.index == |lines|
    ensures ScanFrom(g, origin, lines, at) == (at, NOTHING)
  {
  }
}
