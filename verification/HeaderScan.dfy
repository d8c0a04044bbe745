/** The scanner as the loops it is (scripts/utests/utf_inventory.py), each proved to compute its specification in
    `Scanner`. */
module HeaderScan {
  import opened Wrappers
  import opened Members
  import opened Scanner

  // ---------------------------------------------------------------- looking around

  method ClosingLine(lines: seq<string>, start: nat) returns (end: nat)
    requires start <= |lines|
    ensures end == FindClose(lines, start)
  {
    end := start;
    while end < |lines| && !Closes(lines[end])
      invariant start <= end <= |lines|
      invariant FindClose(lines, end) == FindClose(lines, start)
    {
      end := end + 1;
    }
  }

  method DocComment(g: Grammar, lines: seq<string>, caseStart: nat) returns (span: Option<(nat, nat)>)
    requires caseStart <= |lines|
    ensures span == DocCommentSpan(g, lines, caseStart)
  {
    hide Blank, StartsComment, EndsComment;
    var index: int := caseStart - 1;
    while index >= 0 && Blank(g, lines[index])
      invariant -1 <= index < caseStart
      invariant TrimBack(g, lines, index + 1) == TrimBack(g, lines, caseStart)
    {
      index := index - 1;
    }
    assert TrimBack(g, lines, index + 1) == index + 1;
    if index < 0 || !EndsComment(g, lines[index]) {
      return None;
    }
    var end := index + 1;
    while index >= 0
      invariant -1 <= index < end
      invariant FindOpener(g, lines, index + 1) == FindOpener(g, lines, end)
    {
      if StartsComment(g, lines[index]) {
        return Some((index, end));
      }
      index := index - 1;
    }
    return None;
  }

  method IncludeGuard(g: Grammar, lines: seq<string>, index: nat, keyword: string, rest: string) returns (guard: bool)
    requires index < |lines|
    ensures guard == IsIncludeGuard(g, lines, index, keyword, rest)
  {
    hide Skippable, Strip;
    if keyword != "ifndef" {
      return false;
    }
    var symbol := Strip(g, rest);
    if symbol == "" {
      return false;
    }
    var probe := index + 1;
    while probe < |lines|
      invariant probe <= |lines|
      invariant DefinesNext(g, lines, probe, symbol) == DefinesNext(g, lines, index + 1, symbol)
    {
      if Skippable(g, lines[probe]) {
        probe := probe + 1;
        continue;
      }
      return g.defined(lines[probe]) == Some(symbol);
    }
    return false;
  }

  // ---------------------------------------------------------------- the two long branches

  /** The data files the lines of a body name. */
  method DataFiles(g: Grammar, body: seq<string>) returns (refs: set<string>, literals: set<string>)
    ensures refs == RefsOf(g, body) && literals == LiteralsOf(g, body)
  {
    refs, literals := {}, {};
    for i := 0 to |body|
      invariant refs == RefsOf(g, body[..i]) && literals == LiteralsOf(g, body[..i])
    {
      DataFilesStep(g, body, i);
      refs := refs + g.dataRefs(body[i]);
      literals := literals + g.dataLiterals(body[i]);
    }
    assert body[..|body|] == body;
  }

  lemma DataFilesStep(g: Grammar, body: seq<string>, i: nat)
    requires i < |body|
    ensures RefsOf(g, body[..i + 1]) == RefsOf(g, body[..i]) + g.dataRefs(body[i])
    ensures LiteralsOf(g, body[..i + 1]) == LiteralsOf(g, body[..i]) + g.dataLiterals(body[i])
  {
    assert forall line :: line in body[..i + 1] <==> line in body[..i] || line == body[i];
  }

  method ScanCase(g: Grammar, origin: Origin, lines: seq<string>, at: Position,
      header: (string, string, Option<string>)) returns (next: Position, report: Report)
    requires at.index < |lines|
    ensures (next, report) == CaseStep(g, origin, lines, at, header)
  {
    hide FindClose, DocCommentSpan, TextSha, Guards, Strip, RefsOf, LiteralsOf;
    var index := at.index;
    var (kind, name, fixture) := header;
    var end := ClosingLine(lines, index + 1);
    if end >= |lines| {
      return at.(index := index + 1), NOTHING.(problems := [NoClosingBrace(index + 1, name)]);
    }
    var problems := [];
    if Strip(g, lines[index + 1]) != "{" {
      problems := [NoOpeningBrace(index + 2, name)];
    }
    var doc := DocComment(g, lines, index);
    var docSha := None;
    if doc.Some? {
      docSha := Some(TextSha(g, lines[doc.value.0..doc.value.1]));
    }
    var body := lines[index..end + 1];
    var refs, literals := DataFiles(g, body);
    var found := Case(origin, index + 1, name, kind, fixture, TextSha(g, body), docSha, Guards(at.conds), at.spaces);
    return at.(index := end + 1), NOTHING.(cases := [found], refs := refs, literals := literals, problems := problems);
  }

  function LineRange(first: nat, last: nat): (range: set<nat>)
    ensures forall k: nat :: k in range <==> first <= k <= last
    decreases last
  {
    if first > last then {} else {last} + if last == 0 then {} else LineRange(first, last - 1)
  }

  /** The members of a block and the lines they cover. */
  method CollectMembers(g: Grammar, origin: Origin, lines: seq<string>, ns: string, start: nat, stop: nat)
    returns (members: seq<Member>, covered: set<nat>)
    requires start <= stop <= |lines|
    ensures InRange(lines, SplitFrom(g, lines, start, stop))
    ensures members == MembersOf(g, origin, lines, ns, SplitFrom(g, lines, start, stop))
    ensures forall k: nat :: k in covered <==> Covered(SplitFrom(g, lines, start, stop), k)
  {
    hide MemberAt, SplitFrom;
    SpansInRange(g, lines, start, stop);
    var spans := SplitMembers(g, lines, start, stop);
    members, covered := [], {};
    for i := 0 to |spans|
      invariant |members| == i
      invariant forall j :: 0 <= j < i ==> members[j] == MemberAt(g, origin, lines, ns, spans[j])
      invariant forall k: nat :: k in covered <==> exists j :: 0 <= j < i && spans[j].0 <= k <= spans[j].1
    {
      var (first, last) := spans[i];
      covered := covered + LineRange(first, last);
      members := members + [MemberAt(g, origin, lines, ns, spans[i])];
    }
  }

  method UncoveredLines(g: Grammar, lines: seq<string>, start: nat, stop: nat, covered: set<nat>,
      ghost spans: seq<(nat, nat)>) returns (problems: seq<Problem>)
    requires start <= stop <= |lines|
    requires forall k: nat :: k in covered <==> Covered(spans, k)
    ensures problems == Uncovered(g, lines, start, stop, spans)
  {
    hide Blank, Covered;
    problems := [];
    for probe := start to stop
      invariant problems == Uncovered(g, lines, start, probe, spans)
    {
      if !Blank(g, lines[probe]) && probe !in covered {
        problems := problems + [UncoveredLine(probe + 1)];
      }
    }
  }

  method ScanNamespace(g: Grammar, origin: Origin, lines: seq<string>, at: Position, title: Option<string>, brace: bool)
    returns (next: Position, report: Report)
    requires at.index < |lines|
    ensures (next, report) == SpaceStep(g, origin, lines, at, title, brace)
  {
    hide FindClose, TextSha, Strip, SplitFrom, MembersOf, MemberAt, Qualified, Uncovered, Covered, InRange;
    var name := if title.Some? then title.value else "<anonymous>";
    var open := if brace then at.index else at.index + 1;
    if open >= |lines| || Strip(g, lines[open]) != "{" {
      if !brace {
        return at.(index := at.index + 1), NOTHING;
      }
    }
    var end := ClosingLine(lines, open + 1);
    var last := if end < |lines| then end else |lines| - 1;
    var block := Block(origin, at.index + 1, name, TextSha(g, lines[at.index..last + 1]));
    var members, covered := CollectMembers(g, origin, lines, Qualified(at.spaces + [name]), open + 1, end);
    var problems := UncoveredLines(g, lines, open + 1, end, covered, SplitFrom(g, lines, open + 1, end));
    return at.(index := open + 1, spaces := at.spaces + [name]),
           NOTHING.(blocks := [block], members := members, problems := problems);
  }

  // ---------------------------------------------------------------- the scan

  lemma ScanFromStep(g: Grammar, origin: Origin, lines: seq<string>, at: Position, before: Report)
    requires at.index < |lines|
    ensures var (next, report) := Step(g, origin, lines, at);
            var (last, rest) := ScanFrom(g, origin, lines, next);
            && at.index < next.index <= |lines|
            && ScanFrom(g, origin, lines, at).0 == last
            && Plus(before, ScanFrom(g, origin, lines, at).1) == Plus(Plus(before, report), rest)
  {
    hide Step, Plus;
    StepAdvances(g, origin, lines, at);
    var (next, report) := Step(g, origin, lines, at);
    PlusAssociates(before, report, ScanFrom(g, origin, lines, next).1);
  }

  method ScanText(g: Grammar, origin: Origin, lines: seq<string>, at: Position) returns (next: Position, report: Report)
    requires at.index < |lines|
    ensures (next, report) == TextStep(g, origin, lines, at)
  {
    hide CaseStep, SpaceStep, Closes;
    var line := lines[at.index];
    if g.testCase(line).Some? {
      next, report := ScanCase(g, origin, lines, at, g.testCase(line).value);
    } else if g.namespaceOpen(line).Some? {
      var (title, brace) := g.namespaceOpen(line).value;
      next, report := ScanNamespace(g, origin, lines, at, title, brace);
    } else if Closes(line) && at.spaces != [] {
      next, report := at.(index := at.index + 1, spaces := at.spaces[..|at.spaces| - 1]), NOTHING;
    } else {
      next, report := at.(index := at.index + 1), NOTHING;
    }
  }

  /** `scan_file`: one pass over the lines, with the stack of conditionals and the stack of namespaces. */
  method ScanFile(g: Grammar, origin: Origin, lines: seq<string>)
      returns (found: Report, conds: seq<Option<string>>, spaces: seq<string>)
    ensures (Position(|lines|, conds, spaces), found) == Scan(g, origin, lines)
  {
    hide ScanFrom, TextStep, IsIncludeGuard, Strip;
    found, conds, spaces := NOTHING, [], [];
    var index := 0;
    PlusAssociates(Scan(g, origin, lines).1, NOTHING, NOTHING);
    while index < |lines|
      invariant index <= |lines|
      invariant ScanFrom(g, origin, lines, Position(index, conds, spaces)).0 == Scan(g, origin, lines).0
      invariant Plus(found, ScanFrom(g, origin, lines, Position(index, conds, spaces)).1) == Scan(g, origin, lines).1
    {
      hide Plus;
      var line := lines[index];
      ghost var at, before := Position(index, conds, spaces), found;
      ScanFromStep(g, origin, lines, at, before);
      PlusAssociates(before, NOTHING, NOTHING);
      if g.condOpen(line).Some? {
        var (keyword, rest) := g.condOpen(line).value;
        var guard := IncludeGuard(g, lines, index, keyword, rest);
        if guard {
          conds := conds + [None];
        } else {
          conds := conds + [Some(keyword + " " + Strip(g, rest))];
        }
        index := index + 1;
        continue;
      }
      if g.condMid(line).Some? && conds != [] {
        var (keyword, rest) := g.condMid(line).value;
        if conds[|conds| - 1].Some? {
          conds := conds[|conds| - 1 := Some(conds[|conds| - 1].value + " | " + keyword + " " + Strip(g, rest))];
        }
        assert conds == Step(g, origin, lines, at).0.conds;
        index := index + 1;
        continue;
      }
      if g.condClose(line) {
        if conds != [] {
          conds := conds[..|conds| - 1];
        }
        index := index + 1;
        continue;
      }
      if g.inclusion(line).Some? {
        found := Plus(found, NOTHING.(includes := [g.inclusion(line).value]));
        index := index + 1;
        continue;
      }
      var next, report := ScanText(g, origin, lines, Position(index, conds, spaces));
      found := Plus(found, Plus(NOTHING.(refs := g.dataRefs(line), literals := g.dataLiterals(line)), report));
      index, conds, spaces := next.index, next.conds, next.spaces;
    }
    AtTheEnd(g, origin, lines, Position(index, conds, spaces));
    PlusAssociates(found, NOTHING, NOTHING);
  }
}
