/** Scanning two self-contained pieces of a header one after the other (scripts/utests/utf_inventory.py).

This is what makes a split provable: the scan of a header is the scan of its pieces. */
module Concatenation {
  import opened Wrappers
  import opened Members
  import opened Scanner

  // ---------------------------------------------------------------- elsewhere

  /** The same place in a piece which now stands `offset` lines down, inside the conditionals `under`. */
  function Lowered(at: Position, under: seq<Option<string>>, offset: nat): Position {
    at.(index := at.index + offset, conds := under + at.conds)
  }

  function MoveCases(cases: seq<Case>, origin: Origin, offset: nat): (out: seq<Case>)
    ensures |out| == |cases| && forall i :: 0 <= i < |cases| ==>
        out[i] == cases[i].(origin := origin, line := cases[i].line + offset)
  {
    seq(|cases|, i requires 0 <= i < |cases| => cases[i].(origin := origin, line := cases[i].line + offset))
  }

  function MoveBlocks(blocks: seq<Block>, origin: Origin, offset: nat): (out: seq<Block>)
    ensures |out| == |blocks| && forall i :: 0 <= i < |blocks| ==>
        out[i] == blocks[i].(origin := origin, line := blocks[i].line + offset)
  {
    seq(|blocks|, i requires 0 <= i < |blocks| => blocks[i].(origin := origin, line := blocks[i].line + offset))
  }

  function MoveMembers(members: seq<Member>, origin: Origin, offset: nat): (out: seq<Member>)
    ensures |out| == |members| && forall i :: 0 <= i < |members| ==>
        out[i] == members[i].(origin := origin, line := members[i].line + offset)
  {
    seq(|members|, i requires 0 <= i < |members| => members[i].(origin := origin, line := members[i].line + offset))
  }

  function MoveProblems(problems: seq<Problem>, offset: nat): (out: seq<Problem>)
    ensures |out| == |problems| && forall i :: 0 <= i < |problems| ==>
        out[i] == problems[i].(line := problems[i].line + offset)
  {
    seq(|problems|, i requires 0 <= i < |problems| => problems[i].(line := problems[i].line + offset))
  }

  /** The same report from another file, `offset` lines further down. */
  function Move(r: Report, origin: Origin, offset: nat): Report {
    r.(cases := MoveCases(r.cases, origin, offset), blocks := MoveBlocks(r.blocks, origin, offset),
       members := MoveMembers(r.members, origin, offset), problems := MoveProblems(r.problems, offset))
  }

  lemma PlusMoves(x: Report, y: Report, origin: Origin, offset: nat)
    ensures Move(Plus(x, y), origin, offset) == Plus(Move(x, origin, offset), Move(y, origin, offset))
    ensures Move(NOTHING, origin, offset) == NOTHING
  {
    var sum, parts := Move(Plus(x, y), origin, offset), Plus(Move(x, origin, offset), Move(y, origin, offset));
    assert sum.cases == parts.cases && sum.blocks == parts.blocks;
    assert sum.members == parts.members && sum.problems == parts.problems;
  }

  // ---------------------------------------------------------------- the member diagnostic

  /** The diagnostic for an uncovered line never fires. */
  lemma {:induction false} NothingIsUncovered(g: Grammar, lines: seq<string>, start: nat, stop: nat, end: nat)
    requires start <= stop <= end <= |lines|
    ensures Uncovered(g, lines, start, stop, SplitFrom(g, lines, start, end)) == []
    decreases stop
  {
    hide Blank, Covered;
    if start >= stop {
    } else {
      NothingIsUncovered(g, lines, start, stop - 1, end);
      SplitFromSplits(g, lines, start, end);
      assert !Blank(g, lines[stop - 1]) ==> Covered(SplitFrom(g, lines, start, end), stop - 1);
    }
  }

  lemma StepHasNoProblem(g: Grammar, origin: Origin, lines: seq<string>, at: Position)
    requires at.index < |lines| && g.testCase(lines[at.index]).None?
    ensures Step(g, origin, lines, at).1.problems == []
  {
    hide FindClose, TextSha, Strip, SplitFrom, MembersOf, Qualified, Uncovered, Directive, OpenIndex;
    var line := lines[at.index];
    if g.namespaceOpen(line).Some? {
      var (_, brace) := g.namespaceOpen(line).value;
      if OpenIndex(g, lines, at.index, brace).Some? {
        var open := OpenIndex(g, lines, at.index, brace).value;
        NothingIsUncovered(g, lines, open + 1, FindClose(lines, open + 1), FindClose(lines, open + 1));
      }
    }
  }

  /** Only test cases can draw a problem: whatever the helper blocks look like, nothing is reported of them. */
  lemma {:induction false} OnlyCasesDrawProblems(g: Grammar, origin: Origin, lines: seq<string>, at: Position)
    requires at.index <= |lines| && forall i :: 0 <= i < |lines| ==> g.testCase(lines[i]).None?
    ensures ScanFrom(g, origin, lines, at).1.problems == []
    decreases |lines| - at.index
  {
    hide Step;
    if at.index == |lines| {
    } else {
      StepHasNoProblem(g, origin, lines, at);
      StepAdvances(g, origin, lines, at);
      OnlyCasesDrawProblems(g, origin, lines, Step(g, origin, lines, at).0);
    }
  }

  /** A grammar in which `n` opens a namespace, and brackets count as they stand. */
  function PlainGrammar(): Grammar {
    Grammar(c => c == ' ', _ => None, _ => None, _ => false, _ => None, _ => None, _ => None,
            line => if line == "n" then Some((None, true)) else None, _ => {}, _ => {}, line => line, line => line)
  }

  /** A member which leaves a bracket open across a blank line, against the style the source says it asserts, and a
      scan which reports no problem. */
  lemma OpenBracketGoesUnnoticed(origin: Origin)
    ensures var g, lines := PlainGrammar(), ["n", "(", "", ")", "}"];
            && SplitFrom(g, lines, 1, 4) == [(1, 3)] && Blank(g, lines[2]) && Depth(g, lines, 1, 2) > 0
            && |Scan(g, origin, lines).1.members| == 1 && Scan(g, origin, lines).1.problems == []
  {
    var g, lines := PlainGrammar(), ["n", "(", "", ")", "}"];
    OpenBracketIsOneMember();
    OnlyCasesDrawProblems(g, origin, lines, BEGIN);
    OneMemberScanned(origin);
  }

  lemma OpenBracketIsOneMember()
    ensures var g, lines := PlainGrammar(), ["n", "(", "", ")", "}"];
            SplitFrom(g, lines, 1, 4) == [(1, 3)] && Blank(g, lines[2]) && Depth(g, lines, 1, 2) > 0
  {
    var g, lines := PlainGrammar(), ["n", "(", "", ")", "}"];
    assert BracketDelta(g, "(") == 1 && BracketDelta(g, "") == 0 && BracketDelta(g, ")") == -1;
    assert Depth(g, lines, 1, 1) == 1 && Depth(g, lines, 1, 2) == 1 && Depth(g, lines, 1, 3) == 0;
    assert !Blank(g, "(") && Blank(g, "");
    assert MemberEnd(g, lines, 1, 3, 4) == 4 && MemberEnd(g, lines, 1, 2, 4) == 4 && MemberEnd(g, lines, 1, 1, 4) == 4;
    assert SplitFrom(g, lines, 4, 4) == [];
  }

  lemma OneMemberScanned(origin: Origin)
    ensures var g, lines := PlainGrammar(), ["n", "(", "", ")", "}"]; |Scan(g, origin, lines).1.members| == 1
  {
    var g, lines := PlainGrammar(), ["n", "(", "", ")", "}"];
    OpenBracketIsOneMember();
    assert FindClose(lines, 4) == 4 && FindClose(lines, 1) == 4;
    hide SplitFrom, TextSha, FindClose;
    var at1 := Position(1, [], ["<anonymous>"]);
    assert Step(g, origin, lines, BEGIN).0 == at1 && |Step(g, origin, lines, BEGIN).1.members| == 1;
    NoMoreMembers(origin, at1);
  }

  lemma {:induction false} NoMoreMembers(origin: Origin, at: Position)
    requires 0 < at.index <= 5
    ensures ScanFrom(PlainGrammar(), origin, ["n", "(", "", ")", "}"], at).1.members == []
    decreases 5 - at.index
  {
    var g, lines := PlainGrammar(), ["n", "(", "", ")", "}"];
    if at.index == 5 {
    } else {
      assert lines[at.index] != "n";
      NoMoreMembers(origin, Step(g, origin, lines, at).0);
    }
  }

  // ---------------------------------------------------------------- the first piece

  lemma {:induction false} FindCloseAlong(a: seq<string>, b: seq<string>, i: nat)
    requires i <= |a| && FindClose(a, i) < |a|
    ensures FindClose(a + b, i) == FindClose(a, i)
    decreases |a| - i
  {
    if Closes(a[i]) {
    } else {
      FindCloseAlong(a, b, i + 1);
    }
  }

  lemma {:induction false} FindCloseStops(lines: seq<string>, i: nat, j: nat)
    requires i <= j < |lines| && Closes(lines[j])
    ensures FindClose(lines, i) <= j
    decreases j - i
  {
    if i >= j {
    } else {
      FindCloseStops(lines, i + 1, j);
    }
  }

  lemma {:induction false} DefinesNextAlong(g: Grammar, a: seq<string>, b: seq<string>, i: nat, symbol: string, j: nat)
    requires i <= j < |a| && !Skippable(g, a[j])
    ensures DefinesNext(g, a + b, i, symbol) == DefinesNext(g, a, i, symbol)
    decreases j - i
  {
    hide Skippable;
    if i >= j {
    } else {
      DefinesNextAlong(g, a, b, i + 1, symbol, j);
    }
  }

  lemma {:induction false} TrimBackAlong(g: Grammar, a: seq<string>, b: seq<string>, i: nat)
    requires i <= |a|
    ensures TrimBack(g, a + b, i) == TrimBack(g, a, i)
    decreases i
  {
    hide Blank;
    if i == 0 {
    } else {
      TrimBackAlong(g, a, b, i - 1);
    }
  }

  lemma {:induction false} FindOpenerAlong(g: Grammar, a: seq<string>, b: seq<string>, i: nat)
    requires i <= |a|
    ensures FindOpener(g, a + b, i) == FindOpener(g, a, i)
    decreases i
  {
    hide StartsComment;
    if i == 0 {
    } else {
      FindOpenerAlong(g, a, b, i - 1);
    }
  }

  lemma DocShaAlong(g: Grammar, a: seq<string>, b: seq<string>, i: nat)
    requires i <= |a|
    ensures DocSha(g, a + b, i) == DocSha(g, a, i)
  {
    hide EndsComment, TrimBack, FindOpener, TextSha;
    TrimBackAlong(g, a, b, i);
    var end := TrimBack(g, a, i);
    FindOpenerAlong(g, a, b, end);
    forall first: nat | first < end ensures (a + b)[first..end] == a[first..end] {
    }
  }

  lemma CaseStepAlong(g: Grammar, origin: Origin, a: seq<string>, b: seq<string>, at: Position,
      header: (string, string, Option<string>))
    requires at.index < |a| && CaseStep(g, origin, a, at, header).1.problems == []
    ensures CaseStep(g, origin, a + b, at, header) == CaseStep(g, origin, a, at, header)
  {
    hide FindClose, DocSha, TextSha, Guards, Strip, RefsOf, LiteralsOf;
    var end := FindClose(a, at.index + 1);
    FindCloseAlong(a, b, at.index + 1);
    DocShaAlong(g, a, b, at.index);
    assert (a + b)[at.index..end + 1] == a[at.index..end + 1];
  }

  /** A block is reported alike wherever its lines stand. */
  lemma SpaceReportMoves(g: Grammar, origin: Origin, lines: seq<string>, home: Origin, moved: seq<string>, offset: nat,
                         index: nat, open: nat, name: string, ns: string)
    requires index <= open < |lines| && offset + open < |moved|
    requires var end := FindClose(lines, open + 1);
             && FindClose(moved, offset + open + 1) == offset + end
             && offset + end <= |moved| && (end == |lines| <==> offset + end == |moved|)
             && Moved(lines, if end < |lines| then end + 1 else end, moved, offset)
    ensures SpaceReport(g, home, moved, offset + index, offset + open, name, ns) ==
            Move(SpaceReport(g, origin, lines, index, open, name, ns), home, offset)
  {
    hide FindClose, TextSha, SplitFrom, MembersOf, MemberAt, Moved, Move, InRange, MoveMembers, SpaceReport,
        BlockReport;
    var end := FindClose(lines, open + 1);
    var last := if end < |lines| then end else |lines| - 1;
    MovedFewer(lines, last + 1, end, moved, offset);
    BlockMembersMove(g, origin, lines, home, moved, offset, open + 1, end, ns);
    SliceMoves(lines, last + 1, moved, offset, index);
    SpaceReportIs(g, origin, lines, index, open, name, ns, last);
    SpaceReportIs(g, home, moved, offset + index, offset + open, name, ns, offset + last);
    var block := Block(origin, index + 1, name, TextSha(g, lines[index..last + 1]));
    MoveBlock(block, MembersOf(g, origin, lines, ns, SplitFrom(g, lines, open + 1, end)), home, offset);
  }

  lemma SpaceReportIs(g: Grammar, origin: Origin, lines: seq<string>, index: nat, open: nat, name: string, ns: string,
      last: nat)
    requires index <= open < |lines|
    requires last == if FindClose(lines, open + 1) < |lines| then FindClose(lines, open + 1) else |lines| - 1
    ensures index <= last < |lines|
    ensures InRange(lines, SplitFrom(g, lines, open + 1, FindClose(lines, open + 1)))
    ensures SpaceReport(g, origin, lines, index, open, name, ns) ==
            BlockReport(Block(origin, index + 1, name, TextSha(g, lines[index..last + 1])),
                        MembersOf(g, origin, lines, ns, SplitFrom(g, lines, open + 1, FindClose(lines, open + 1))))
  {
    hide FindClose, TextSha, SplitFrom, MembersOf, Uncovered, InRange;
    var end := FindClose(lines, open + 1);
    SpansInRange(g, lines, open + 1, end);
    NothingIsUncovered(g, lines, open + 1, end, end);
  }

  function BlockReport(block: Block, members: seq<Member>): Report {
    Report([], [block], members, [], {}, {}, [])
  }

  lemma MoveBlock(block: Block, members: seq<Member>, home: Origin, offset: nat)
    ensures Move(BlockReport(block, members), home, offset) ==
            BlockReport(block.(origin := home, line := block.line + offset), MoveMembers(members, home, offset))
  {
  }

  lemma BlockMembersMove(g: Grammar, origin: Origin, lines: seq<string>, home: Origin, moved: seq<string>, offset: nat,
                         start: nat, stop: nat, ns: string)
    requires start <= stop <= |lines| && offset + stop <= |moved|
    requires Moved(lines, stop, moved, offset)
    ensures var spans, down := SplitFrom(g, lines, start, stop), SplitFrom(g, moved, offset + start, offset + stop);
            InRange(lines, spans) && InRange(moved, down) &&
            MembersOf(g, home, moved, ns, down) == MoveMembers(MembersOf(g, origin, lines, ns, spans), home, offset)
  {
    hide TextSha, SplitFrom, MembersOf, Moved, MoveMembers, MemberOk, Covered;
    SplitMoves(g, lines, moved, offset, start, stop);
    SpansInRange(g, lines, start, stop);
    SpansInRange(g, moved, offset + start, offset + stop);
    SplitFromSplits(g, lines, start, stop);
    MembersMove(g, origin, lines, home, moved, offset, stop, ns, SplitFrom(g, lines, start, stop));
  }

  lemma MovedFewer(lines: seq<string>, stop: nat, fewer: nat, moved: seq<string>, offset: nat)
    requires Moved(lines, stop, moved, offset) && fewer <= stop
    ensures Moved(lines, fewer, moved, offset)
  {
  }

  lemma SliceMoves(lines: seq<string>, stop: nat, moved: seq<string>, offset: nat, first: nat)
    requires Moved(lines, stop, moved, offset) && first <= stop
    ensures moved[offset + first..offset + stop] == lines[first..stop]
  {
  }

  lemma MembersMove(g: Grammar, origin: Origin, lines: seq<string>, home: Origin, moved: seq<string>, offset: nat,
      stop: nat, ns: string, spans: seq<(nat, nat)>)
    requires Moved(lines, stop, moved, offset) && InRange(lines, spans) && InRange(moved, Shifted(spans, offset))
    requires forall i :: 0 <= i < |spans| ==> spans[i].1 < stop
    ensures MembersOf(g, home, moved, ns, Shifted(spans, offset)) ==
            MoveMembers(MembersOf(g, origin, lines, ns, spans), home, offset)
  {
    hide Strip, TextSha;
    var out := MembersOf(g, home, moved, ns, Shifted(spans, offset));
    forall i | 0 <= i < |spans|
      ensures out[i] == MemberAt(g, origin, lines, ns, spans[i]).(origin := home, line := spans[i].0 + 1 + offset)
    {
      SliceMoves(lines, spans[i].1 + 1, moved, offset, spans[i].0);
      assert moved[offset + spans[i].0] == lines[spans[i].0];
    }
  }

  lemma SpaceReportStays(g: Grammar, origin: Origin, lines: seq<string>, index: nat, open: nat, name: string,
      ns: string)
    requires index <= open < |lines|
    ensures var report := SpaceReport(g, origin, lines, index, open, name, ns); Move(report, origin, 0) == report
  {
    hide FindClose, TextSha, SplitFrom, Uncovered, Strip;
    var report := SpaceReport(g, origin, lines, index, open, name, ns);
    assert MoveBlocks(report.blocks, origin, 0) == report.blocks;
    assert MoveMembers(report.members, origin, 0) == report.members;
    assert MoveProblems(report.problems, 0) == report.problems;
  }

  lemma OpenIndexAlong(g: Grammar, a: seq<string>, b: seq<string>, index: nat, brace: bool)
    requires index < |a| && (brace || index + 1 < |a|)
    ensures OpenIndex(g, a + b, index, brace) == OpenIndex(g, a, index, brace)
  {
    hide Strip;
  }

  lemma SpaceStepAlong(g: Grammar, origin: Origin, a: seq<string>, b: seq<string>, at: Position, title: Option<string>,
      brace: bool)
    requires at.index < |a| && (brace || at.index + 1 < |a|)
    requires OpenIndex(g, a, at.index, brace).Some? ==> FindClose(a, OpenIndex(g, a, at.index, brace).value + 1) < |a|
    ensures SpaceStep(g, origin, a + b, at, title, brace) == SpaceStep(g, origin, a, at, title, brace)
  {
    hide FindClose, Strip, SpaceReport, Move, Qualified, OpenIndex;
    OpenIndexAlong(g, a, b, at.index, brace);
    match OpenIndex(g, a, at.index, brace)
    case None =>
    case Some(open) =>
      var name := if title.Some? then title.value else "<anonymous>";
      SpaceReportAlong(g, origin, a, b, at.index, open, name, Qualified(at.spaces + [name]));
  }

  lemma SpaceReportAlong(g: Grammar, origin: Origin, a: seq<string>, b: seq<string>, index: nat, open: nat,
      name: string, ns: string)
    requires index <= open < |a| && FindClose(a, open + 1) < |a|
    ensures SpaceReport(g, origin, a + b, index, open, name, ns) == SpaceReport(g, origin, a, index, open, name, ns)
  {
    hide FindClose, SpaceReport, Move;
    FindCloseAlong(a, b, open + 1);
    if b == [] {
      assert a + b == a;
    } else {
      SpaceReportMoves(g, origin, a, origin, a + b, 0, index, open, name, ns);
      SpaceReportStays(g, origin, a, index, open, name, ns);
    }
  }

  /** The lines after a step answer it: a line of code after a new conditional, a closing line after a new namespace. */
  ghost predicate Answered(g: Grammar, lines: seq<string>, at: Position, next: Position) {
    && (|next.conds| > |at.conds| ==> exists j :: next.index <= j < |lines| && !Skippable(g, lines[j]))
    && (|next.spaces| > |at.spaces| ==> exists j :: next.index <= j < |lines| && Closes(lines[j]))
  }

  predicate EndsInBareNamespace(g: Grammar, lines: seq<string>) {
    lines != [] && g.namespaceOpen(lines[|lines| - 1]).Some? && !g.namespaceOpen(lines[|lines| - 1]).value.1
  }

  lemma TextStepAlong(g: Grammar, origin: Origin, a: seq<string>, b: seq<string>, at: Position)
    requires at.index < |a| && !EndsInBareNamespace(g, a)
    requires TextStep(g, origin, a, at).1.problems == []
    requires Answered(g, a, at, TextStep(g, origin, a, at).0)
    ensures TextStep(g, origin, a + b, at) == TextStep(g, origin, a, at)
  {
    hide CaseStep, FindClose, Closes, Qualified, Uncovered, MembersOf, TextSha, SplitFrom, Strip;
    var line := a[at.index];
    if g.testCase(line).Some? {
      CaseStepAlong(g, origin, a, b, at, g.testCase(line).value);
    } else if g.namespaceOpen(line).Some? {
      var (title, brace) := g.namespaceOpen(line).value;
      if OpenIndex(g, a, at.index, brace).Some? {
        var open := OpenIndex(g, a, at.index, brace).value;
        var j :| open + 1 <= j < |a| && Closes(a[j]);
        FindCloseStops(a, open + 1, j);
      }
      SpaceStepAlong(g, origin, a, b, at, title, brace);
    }
  }

  lemma StepAlong(g: Grammar, origin: Origin, a: seq<string>, b: seq<string>, at: Position)
    requires at.index < |a| && !EndsInBareNamespace(g, a)
    requires Step(g, origin, a, at).1.problems == []
    requires Answered(g, a, at, Step(g, origin, a, at).0)
    ensures Step(g, origin, a + b, at) == Step(g, origin, a, at)
  {
    hide TextStep, Directive, EndsInBareNamespace, Skippable;
    if g.condOpen(a[at.index]).Some? {
      DirectiveOpens(g, a, at);
    }
    DirectiveAlong(g, a, b, at);
    if Directive(g, a, at).None? && g.inclusion(a[at.index]).None? {
      TextStepAlong(g, origin, a, b, at);
    }
  }

  lemma DirectiveOpens(g: Grammar, lines: seq<string>, at: Position)
    requires at.index < |lines|
    ensures g.condOpen(lines[at.index]).Some? <==>
            Directive(g, lines, at).Some? && |Directive(g, lines, at).value| > |at.conds|
    ensures Directive(g, lines, at).Some? && |Directive(g, lines, at).value| < |at.conds| ==>
        g.condClose(lines[at.index])
  {
    hide Pushed, Extended;
  }

  lemma DirectiveAlong(g: Grammar, a: seq<string>, b: seq<string>, at: Position)
    requires at.index < |a|
    requires g.condOpen(a[at.index]).Some? ==> exists j :: at.index < j < |a| && !Skippable(g, a[j])
    ensures Directive(g, a + b, at) == Directive(g, a, at)
  {
    hide Skippable, DefinesNext, Strip;
    if g.condOpen(a[at.index]).Some? {
      var j :| at.index < j < |a| && !Skippable(g, a[j]);
      DefinesNextAlong(g, a, b, at.index + 1, Strip(g, g.condOpen(a[at.index]).value.1), j);
    }
  }

  /** A step shortens a stack only at a closing line. */
  lemma StepShrinks(g: Grammar, origin: Origin, lines: seq<string>, at: Position)
    requires at.index < |lines|
    ensures var next := Step(g, origin, lines, at).0;
            && (|next.conds| < |at.conds| ==> g.condClose(lines[at.index]))
            && (|next.spaces| < |at.spaces| ==> Closes(lines[at.index]))
  {
    hide FindClose, TextSha, Strip, SplitFrom, MembersOf, Qualified, Uncovered, Directive, DocSha, Closes, RefsOf,
        LiteralsOf, Guards;
    DirectiveOpens(g, lines, at);
  }

  lemma {:induction false} EmptiedLater(g: Grammar, origin: Origin, lines: seq<string>, at: Position)
    requires at.index <= |lines|
    ensures var last := ScanFrom(g, origin, lines, at).0;
            && last.index == |lines|
            && (last.conds == [] && at.conds != [] ==> exists j :: at.index <= j < |lines| && g.condClose(lines[j]))
            && (last.spaces == [] && at.spaces != [] ==> exists j :: at.index <= j < |lines| && Closes(lines[j]))
    decreases |lines| - at.index
  {
    hide Step, Closes;
    if at.index >= |lines| {
    } else {
      StepAdvances(g, origin, lines, at);
      StepShrinks(g, origin, lines, at);
      EmptiedLater(g, origin, lines, Step(g, origin, lines, at).0);
    }
  }

  // ---------------------------------------------------------------- the second piece

  lemma {:induction false} FindCloseDown(a: seq<string>, b: seq<string>, i: nat)
    requires i <= |b|
    ensures FindClose(a + b, |a| + i) == |a| + FindClose(b, i)
    decreases |b| - i
  {
    if i >= |b| {
    } else {
      assert (a + b)[|a| + i] == b[i];
      FindCloseDown(a, b, i + 1);
    }
  }

  lemma {:induction false} DefinesNextDown(g: Grammar, a: seq<string>, b: seq<string>, i: nat, symbol: string)
    requires i <= |b|
    ensures DefinesNext(g, a + b, |a| + i, symbol) == DefinesNext(g, b, i, symbol)
    decreases |b| - i
  {
    hide Skippable;
    if i >= |b| {
    } else {
      assert (a + b)[|a| + i] == b[i];
      DefinesNextDown(g, a, b, i + 1, symbol);
    }
  }

  lemma {:induction false} TrimBackDown(g: Grammar, a: seq<string>, b: seq<string>, i: nat)
    requires i <= |b|
    ensures TrimBack(g, a + b, |a| + i) == if TrimBack(g, b, i) > 0 then |a| + TrimBack(g, b, i)
        else TrimBack(g, a, |a|)
    decreases i
  {
    hide Blank;
    if i == 0 {
      TrimBackAlong(g, a, b, |a|);
    } else {
      assert (a + b)[|a| + i - 1] == b[i - 1];
      TrimBackDown(g, a, b, i - 1);
    }
  }

  lemma {:induction false} FindOpenerDown(g: Grammar, a: seq<string>, b: seq<string>, i: nat)
    requires i <= |b| && FindOpener(g, b, i).Some?
    ensures FindOpener(g, a + b, |a| + i) == Some(|a| + FindOpener(g, b, i).value)
    decreases i
  {
    hide StartsComment;
    assert (a + b)[|a| + i - 1] == b[i - 1];
    if StartsComment(g, b[i - 1]) {
    } else {
      FindOpenerDown(g, a, b, i - 1);
    }
  }

  /** A doc comment which ends in the lines before `index` also starts there. */
  predicate DocInside(g: Grammar, lines: seq<string>, index: nat)
    requires index <= |lines|
  {
    var end := TrimBack(g, lines, index);
    end > 0 && EndsComment(g, lines[end - 1]) ==> FindOpener(g, lines, end).Some?
  }

  /** The doc comment of every case starts in the same lines as the case. */
  ghost predicate DocsInside(g: Grammar, lines: seq<string>) {
    forall i :: 0 <= i < |lines| && g.testCase(lines[i]).Some? ==> DocInside(g, lines, i)
  }

  /** A case right after these lines would take a doc comment from them. */
  predicate EndsInDocComment(g: Grammar, lines: seq<string>) {
    DocCommentSpan(g, lines, |lines|).Some?
  }

  lemma DocShaDown(g: Grammar, a: seq<string>, b: seq<string>, i: nat)
    requires i <= |b| && (a == [] || DocInside(g, b, i)) && !EndsInDocComment(g, a)
    ensures DocSha(g, a + b, |a| + i) == DocSha(g, b, i)
  {
    hide EndsComment, TrimBack, FindOpener, TextSha;
    if a == [] {
      assert a + b == b;
      return;
    }
    TrimBackDown(g, a, b, i);
    var end := TrimBack(g, b, i);
    if end > 0 {
      assert (a + b)[|a| + end - 1] == b[end - 1];
      if EndsComment(g, b[end - 1]) {
        FindOpenerDown(g, a, b, end);
        var opener := FindOpener(g, b, end).value;
        assert (a + b)[|a| + opener..|a| + end] == b[opener..end];
      }
    } else {
      var last := TrimBack(g, a, |a|);
      assert last > 0 ==> (a + b)[last - 1] == a[last - 1];
      FindOpenerAlong(g, a, b, last);
    }
  }

  /** The proviso is exact: a case which leads its piece is hashed alike after other lines if and only if those do not
      end in a doc comment. */
  lemma LeadingCaseKeepsItsDoc(g: Grammar, a: seq<string>, b: seq<string>)
    ensures DocSha(g, a + b, |a|) == DocSha(g, b, 0) <==> !EndsInDocComment(g, a)
  {
    hide DocCommentSpan, TextSha;
    DocShaAlong(g, a, b, |a|);
    NoDocAtTheTop(g, b);
  }

  lemma NoDocAtTheTop(g: Grammar, lines: seq<string>)
    ensures DocSha(g, lines, 0).None?
  {
  }

  lemma MoveCase(r: Report, home: Origin, offset: nat)
    requires |r.cases| == 1 && |r.problems| <= 1 && r.blocks == [] && r.members == []
    ensures Move(r, home, offset) ==
            r.(cases := [r.cases[0].(origin := home, line := r.cases[0].line + offset)],
               problems := if r.problems == [] then [] else [r.problems[0].(line := r.problems[0].line + offset)])
  {
    var moved := Move(r, home, offset);
    assert moved.cases == [r.cases[0].(origin := home, line := r.cases[0].line + offset)];
    assert moved.problems == if r.problems == [] then [] else [r.problems[0].(line := r.problems[0].line + offset)];
  }

  lemma MoveProblem(problem: Problem, home: Origin, offset: nat)
    ensures Move(NOTHING.(problems := [problem]), home, offset) ==
        NOTHING.(problems := [problem.(line := problem.line + offset)])
  {
    PlusMoves(NOTHING, NOTHING, home, offset);
  }

  lemma SliceDown(a: seq<string>, b: seq<string>, i: nat, j: nat)
    requires i <= j <= |b|
    ensures (a + b)[|a| + i..|a| + j] == b[i..j]
    ensures i < |b| ==> (a + b)[|a| + i] == b[i]
  {
  }

  /** Include guards, which are no guards. */
  predicate AllInclude(under: seq<Option<string>>) {
    forall i :: 0 <= i < |under| ==> under[i].None?
  }

  lemma {:induction false} GuardsUnder(under: seq<Option<string>>, conds: seq<Option<string>>)
    requires AllInclude(under)
    ensures Guards(under + conds) == Guards(conds)
    decreases |under| + |conds|
  {
    var all := under + conds;
    if conds != [] {
      assert all[..|all| - 1] == under + conds[..|conds| - 1];
      GuardsUnder(under, conds[..|conds| - 1]);
    } else if under != [] {
      assert all[..|all| - 1] == under[..|under| - 1] + [];
      GuardsUnder(under[..|under| - 1], []);
    }
  }

  lemma CaseReportDown(g: Grammar, origin: Origin, a: seq<string>, b: seq<string>, at: Position,
      header: (string, string, Option<string>), end: nat, home: Origin, under: seq<Option<string>>)
    requires at.index < end < |b| && AllInclude(under)
    requires DocSha(g, a + b, |a| + at.index) == DocSha(g, b, at.index)
    ensures CaseReport(g, home, a + b, Lowered(at, under, |a|), header, |a| + end) ==
            Move(CaseReport(g, origin, b, at, header, end), home, |a|)
  {
    hide DocSha, TextSha, Guards, Strip, RefsOf, LiteralsOf, Move, AllInclude;
    SliceDown(a, b, at.index, end + 1);
    SliceDown(a, b, at.index + 1, end + 1);
    GuardsUnder(under, at.conds);
    MoveCase(CaseReport(g, origin, b, at, header, end), home, |a|);
  }

  lemma CaseStepDown(g: Grammar, origin: Origin, a: seq<string>, b: seq<string>, at: Position,
      header: (string, string, Option<string>), home: Origin, under: seq<Option<string>>)
    requires at.index < |b| && (a == [] || DocInside(g, b, at.index)) && !EndsInDocComment(g, a) && AllInclude(under)
    ensures var (next, report) := CaseStep(g, origin, b, at, header);
            CaseStep(g, home, a + b, Lowered(at, under, |a|), header) ==
                (Lowered(next, under, |a|), Move(report, home, |a|))
  {
    hide FindClose, DocSha, CaseReport, Move, AllInclude, DocInside, EndsInDocComment;
    var end := FindClose(b, at.index + 1);
    FindCloseDown(a, b, at.index + 1);
    if end < |b| {
      DocShaDown(g, a, b, at.index);
      CaseReportDown(g, origin, a, b, at, header, end, home, under);
    } else {
      MoveProblem(NoClosingBrace(at.index + 1, header.1), home, |a|);
    }
  }

  lemma SpaceStepDown(g: Grammar, origin: Origin, a: seq<string>, b: seq<string>, at: Position, title: Option<string>,
      brace: bool, home: Origin, under: seq<Option<string>>)
    requires at.index < |b|
    ensures var (next, report) := SpaceStep(g, origin, b, at, title, brace);
            SpaceStep(g, home, a + b, Lowered(at, under, |a|), title, brace) ==
                (Lowered(next, under, |a|), Move(report, home, |a|))
  {
    hide FindClose, Strip, SpaceReport, Move, Qualified;
    if at.index + 1 < |b| {
      assert (a + b)[|a| + at.index + 1] == b[at.index + 1];
    }
    match OpenIndex(g, b, at.index, brace)
    case None =>
      PlusMoves(NOTHING, NOTHING, home, |a|);
    case Some(open) =>
      var name := if title.Some? then title.value else "<anonymous>";
      FindCloseDown(a, b, open + 1);
      SpaceReportMoves(g, origin, b, home, a + b, |a|, at.index, open, name, Qualified(at.spaces + [name]));
  }

  lemma TextStepDown(g: Grammar, origin: Origin, a: seq<string>, b: seq<string>, at: Position, home: Origin,
      under: seq<Option<string>>)
    requires at.index < |b| && !EndsInDocComment(g, a) && AllInclude(under)
    requires a != [] && g.testCase(b[at.index]).Some? ==> DocInside(g, b, at.index)
    ensures var (next, report) := TextStep(g, origin, b, at);
            TextStep(g, home, a + b, Lowered(at, under, |a|)) == (Lowered(next, under, |a|), Move(report, home, |a|))
  {
    hide CaseStep, SpaceStep, Closes, DocInside, EndsInDocComment, Move;
    var line := b[at.index];
    assert (a + b)[|a| + at.index] == line;
    PlusMoves(NOTHING, NOTHING, home, |a|);
    if g.testCase(line).Some? {
      CaseStepDown(g, origin, a, b, at, g.testCase(line).value, home, under);
    } else if g.namespaceOpen(line).Some? {
      SpaceStepDown(g, origin, a, b, at, g.namespaceOpen(line).value.0, g.namespaceOpen(line).value.1, home, under);
    }
  }

  /** The line does not touch a conditional below the ones on the stack. */
  predicate StaysAbove(g: Grammar, line: string, conds: seq<Option<string>>) {
    conds != [] || g.condOpen(line).Some? || (g.condMid(line).None? && !g.condClose(line))
  }

  lemma StackUnder(under: seq<Option<string>>, conds: seq<Option<string>>, x: Option<string>)
    ensures (under + conds) + [x] == under + (conds + [x])
    ensures conds == [] ==> under + conds == under
    ensures conds != [] ==>
              (var all := under + conds;
               && all[|all| - 1] == conds[|conds| - 1]
               && all[..|all| - 1] == under + conds[..|conds| - 1]
               && all[..|all| - 1] + [x] == under + (conds[..|conds| - 1] + [x]))
  {
  }

  lemma PushedDown(g: Grammar, a: seq<string>, b: seq<string>, index: nat)
    requires index < |b| && g.condOpen(b[index]).Some?
    ensures (a + b)[|a| + index] == b[index] && Pushed(g, a + b, |a| + index) == Pushed(g, b, index)
  {
    hide Strip, DefinesNext;
    DefinesNextDown(g, a, b, index + 1, Strip(g, g.condOpen(b[index]).value.1));
  }

  lemma DirectiveDown(g: Grammar, a: seq<string>, b: seq<string>, at: Position, under: seq<Option<string>>)
    requires at.index < |b| && (under == [] || StaysAbove(g, b[at.index], at.conds))
    ensures Directive(g, a + b, Lowered(at, under, |a|)) ==
            if Directive(g, b, at).Some? then Some(under + Directive(g, b, at).value) else None
  {
    hide Pushed, Extended;
    assert (a + b)[|a| + at.index] == b[at.index];
    if g.condOpen(b[at.index]).Some? {
      PushedDown(g, a, b, at.index);
    }
    var next := if Directive(g, b, at).Some? then Directive(g, b, at).value else [];
    StackUnder(under, at.conds, if next != [] then next[|next| - 1] else None);
  }

  lemma StepDown(g: Grammar, origin: Origin, a: seq<string>, b: seq<string>, at: Position, home: Origin,
      under: seq<Option<string>>)
    requires at.index < |b| && !EndsInDocComment(g, a) && AllInclude(under)
    requires a != [] && g.testCase(b[at.index]).Some? ==> DocInside(g, b, at.index)
    requires under == [] || StaysAbove(g, b[at.index], at.conds)
    ensures var (next, report) := Step(g, origin, b, at);
            Step(g, home, a + b, Lowered(at, under, |a|)) == (Lowered(next, under, |a|), Move(report, home, |a|))
  {
    hide TextStep, Directive, DocInside, EndsInDocComment, Plus, AllInclude, Move, StaysAbove;
    var line := b[at.index];
    assert (a + b)[|a| + at.index] == line;
    DirectiveDown(g, a, b, at, under);
    MoveInclude(g, line, home, |a|);
    TextStepDown(g, origin, a, b, at, home, under);
    PlusMoves(NOTHING.(refs := g.dataRefs(line), literals := g.dataLiterals(line)), TextStep(g, origin, b, at).1, home,
        |a|);
  }

  lemma MoveInclude(g: Grammar, line: string, home: Origin, offset: nat)
    ensures Move(NOTHING, home, offset) == NOTHING
    ensures g.inclusion(line).Some? ==>
              (var r := NOTHING.(includes := [g.inclusion(line).value]); Move(r, home, offset) == r)
    ensures var r := NOTHING.(refs := g.dataRefs(line), literals := g.dataLiterals(line)); Move(r, home, offset) == r
  {
    PlusMoves(NOTHING, NOTHING, home, offset);
  }

  // ---------------------------------------------------------------- a piece in its place

  /** The scan ends with nothing open and nothing to report as a problem. */
  ghost predicate EndsClean(out: (Position, Report)) {
    out.0.conds == [] && out.0.spaces == [] && out.1.problems == []
  }

  /** An `#endif` line is not blank and not a comment. */
  ghost predicate EndifsAreCode(g: Grammar) {
    forall line :: g.condClose(line) ==> !Skippable(g, line)
  }

  /** After every conditional there is a line of code. */
  ghost predicate CodeFollows(g: Grammar, lines: seq<string>) {
    forall i :: 0 <= i < |lines| && g.condOpen(lines[i]).Some? ==>
        exists j :: i < j < |lines| && !Skippable(g, lines[j])
  }

  /** Whatever follows cannot change the scan of these lines. */
  ghost predicate Sealed(g: Grammar, lines: seq<string>, out: (Position, Report)) {
    && out.0.spaces == [] && out.1.problems == [] && !EndsInBareNamespace(g, lines)
    && ((out.0.conds == [] && EndifsAreCode(g)) || CodeFollows(g, lines))
  }

  lemma StepIsAnswered(g: Grammar, origin: Origin, lines: seq<string>, at: Position)
    requires at.index < |lines| && Sealed(g, lines, ScanFrom(g, origin, lines, at))
    ensures var (next, report) := Step(g, origin, lines, at);
            && next.index <= |lines|
            && Answered(g, lines, at, next) && report.problems == []
            && Sealed(g, lines, ScanFrom(g, origin, lines, next))
  {
    hide Step, Skippable, Closes, EndsInBareNamespace;
    var (next, report) := Step(g, origin, lines, at);
    StepAdvances(g, origin, lines, at);
    EmptiedLater(g, origin, lines, next);
    StepPushes(g, origin, lines, at);
    if |next.conds| > |at.conds| && CodeFollows(g, lines) {
      var j :| at.index < j < |lines| && !Skippable(g, lines[j]);
    }
  }

  lemma StepPushes(g: Grammar, origin: Origin, lines: seq<string>, at: Position)
    requires at.index < |lines|
    ensures var next := Step(g, origin, lines, at).0;
            |next.conds| > |at.conds| ==> g.condOpen(lines[at.index]).Some? && next.index == at.index + 1
  {
    hide FindClose, TextSha, Strip, SplitFrom, MembersOf, Qualified, Uncovered, Directive, DocSha, Closes, RefsOf,
        LiteralsOf, Guards;
    DirectiveOpens(g, lines, at);
  }

  /** The scan of these lines keeps to the conditionals they open themselves. */
  ghost predicate KeepsLevel(g: Grammar, origin: Origin, lines: seq<string>, at: Position)
    requires at.index <= |lines|
    decreases |lines| - at.index
  {
    at.index < |lines| ==>
      && StaysAbove(g, lines[at.index], at.conds)
      && KeepsLevel(g, origin, lines, Step(g, origin, lines, at).0)
  }

  lemma {:induction false} DocInsideAlong(g: Grammar, b: seq<string>, c: seq<string>, i: nat)
    requires i <= |b| && DocInside(g, b, i)
    ensures DocInside(g, b + c, i)
  {
    hide TrimBack, FindOpener, EndsComment;
    TrimBackAlong(g, b, c, i);
    FindOpenerAlong(g, b, c, TrimBack(g, b, i));
  }

  /** One step inside a piece, between any lines `a` and any lines `c`. */
  lemma StepInside(g: Grammar, origin: Origin, a: seq<string>, b: seq<string>, c: seq<string>, at: Position,
                   home: Origin, under: seq<Option<string>>)
    requires at.index < |b| && !EndsInDocComment(g, a) && (a == [] || DocsInside(g, b)) && AllInclude(under)
    requires under == [] || StaysAbove(g, b[at.index], at.conds)
    requires c == [] || Sealed(g, b, ScanFrom(g, origin, b, at))
    ensures var (next, report) := Step(g, origin, b, at);
            Step(g, home, a + (b + c), Lowered(at, under, |a|)) == (Lowered(next, under, |a|), Move(report, home, |a|))
  {
    hide Step, Sealed, EndsInDocComment, DocInside, AllInclude, StaysAbove, Move;
    if c == [] {
      assert b + c == b;
    } else {
      StepIsAnswered(g, origin, b, at);
      SealedEnd(g, origin, b, at);
      StepAlong(g, origin, b, c, at);
      if a != [] && g.testCase(b[at.index]).Some? {
        DocInsideAlong(g, b, c, at.index);
      }
    }
    StepDown(g, origin, a, b + c, at, home, under);
  }

  lemma SealedEnd(g: Grammar, origin: Origin, lines: seq<string>, at: Position)
    requires at.index <= |lines| && Sealed(g, lines, ScanFrom(g, origin, lines, at))
    ensures !EndsInBareNamespace(g, lines)
  {
  }

  /** A piece is scanned alike wherever it stands: the scan of `a + b + c` from the start of `b` goes through what the
      scan of `b` alone goes through, in the conditionals `under`, and then on through `c`. */
  lemma {:induction false} ScanInside(g: Grammar, origin: Origin, a: seq<string>, b: seq<string>, c: seq<string>,
      at: Position, home: Origin, under: seq<Option<string>>)
    requires at.index <= |b| && !EndsInDocComment(g, a) && (a == [] || DocsInside(g, b)) && AllInclude(under)
    requires under == [] || KeepsLevel(g, origin, b, at)
    requires c == [] || Sealed(g, b, ScanFrom(g, origin, b, at))
    ensures ScanFrom(g, origin, b, at).0.index == |b|
    ensures var (last, report) := ScanFrom(g, origin, b, at);
            var (end, rest) := ScanFrom(g, home, a + (b + c), Lowered(last, under, |a|));
            ScanFrom(g, home, a + (b + c), Lowered(at, under, |a|)) == (end, Plus(Move(report, home, |a|), rest))
    decreases |b| - at.index
  {
    hide Step, Sealed, EndsInDocComment, DocsInside, AllInclude, StaysAbove, Move, Plus;
    PlusMoves(NOTHING, NOTHING, home, |a|);
    if at.index < |b| {
      var (next, report) := Step(g, origin, b, at);
      var (last, rest) := ScanFrom(g, origin, b, next);
      StepAdvances(g, origin, b, at);
      StepInside(g, origin, a, b, c, at, home, under);
      if c != [] {
        StepIsAnswered(g, origin, b, at);
      }
      ScanInside(g, origin, a, b, c, next, home, under);
      PlusMoves(report, rest, home, |a|);
      PlusAssociates(Move(report, home, |a|), Move(rest, home, |a|),
          ScanFrom(g, home, a + (b + c), Lowered(last, under, |a|)).1);
    } else {
      PlusAssociates(ScanFrom(g, home, a + (b + c), Lowered(at, under, |a|)).1, NOTHING, NOTHING);
    }
  }

  // ---------------------------------------------------------------- two pieces

  lemma FirstPiece(g: Grammar, origin: Origin, a: seq<string>, b: seq<string>)
    requires b == [] || Sealed(g, a, Scan(g, origin, a))
    ensures Scan(g, origin, a).0.index == |a|
    ensures Scan(g, origin, a + b).0 == ScanFrom(g, origin, a + b, Scan(g, origin, a).0).0
    ensures Scan(g, origin, a + b).1 == Plus(Scan(g, origin, a).1, ScanFrom(g, origin, a + b, Scan(g, origin, a).0).1)
  {
    hide ScanFrom, Sealed, Move, Plus;
    assert !EndsInDocComment(g, []);
    var (last, report) := Scan(g, origin, a);
    ScanInside(g, origin, [], a, b, BEGIN, origin, []);
    ScanInside(g, origin, [], a, [], BEGIN, origin, []);
    assert [] + (a + b) == a + b && [] + (a + []) == a;
    assert [] + BEGIN.conds == [] && [] + last.conds == last.conds;
    assert Lowered(BEGIN, [], 0) == BEGIN && Lowered(last, [], 0) == last;
    assert ScanFrom(g, origin, a, last) == (last, NOTHING) by { AtTheEnd(g, origin, a, last); }
    assert Scan(g, origin, a) == (last, Plus(Move(report, origin, 0), NOTHING));
    PlusAssociates(Move(report, origin, 0), NOTHING, NOTHING);
    assert Move(report, origin, 0) == report;
    assert Scan(g, origin, a + b).1 == Plus(report, ScanFrom(g, origin, a + b, last).1);
  }

  /** The scan of two pieces is the two scans: nothing is lost, gained or hashed differently, and only the line
      numbers of the second piece move. The second piece may come from another file. */
  lemma ScanOfConcatenation(g: Grammar, origin: Origin, a: seq<string>, other: Origin, b: seq<string>)
    requires EndsClean(Scan(g, origin, a)) && EndifsAreCode(g) && !EndsInBareNamespace(g, a) && !EndsInDocComment(g, a)
    requires DocsInside(g, b)
    ensures var (last, report) := Scan(g, other, b);
            Scan(g, origin, a + b) ==
            (last.(index := last.index + |a|), Plus(Scan(g, origin, a).1, Move(report, origin, |a|)))
  {
    hide ScanFrom, EndifsAreCode, DocsInside, EndsInDocComment, EndsInBareNamespace, Plus, Move;
    var (last, report) := Scan(g, other, b);
    FirstPiece(g, origin, a, b);
    ScanInside(g, other, a, b, [], BEGIN, origin, []);
    assert b + [] == b && [] + last.conds == last.conds;
    assert Scan(g, origin, a).0 == Lowered(BEGIN, [], |a|);
    AtTheEnd(g, origin, a + b, Lowered(last, [], |a|));
    PlusAssociates(Move(report, origin, |a|), NOTHING, NOTHING);
  }
}
