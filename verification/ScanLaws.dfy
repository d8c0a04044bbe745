/** What a scan reports of a case, said of the lines (scripts/utests/utf_inventory.py): which cases are found, and which
    conditionals and namespaces are open around each of them. */
module ScanLaws {
  import opened Wrappers
  import opened Sequences
  import opened Members
  import opened Scanner
  import opened Concatenation

  // ---------------------------------------------------------------- what is open after some events

  /** What a line does to a nesting: opens a level, amends the innermost, shuts it, or nothing. */
  datatype Event = Opens(text: Option<string>) | Amends(more: string) | Shuts | Nothing

  /** The nesting depth counted from the event at `i`, after the events before `n`. */
  function Level(es: seq<Event>, i: nat, n: nat): int
    requires i < n <= |es|
  {
    if n == i + 1 then 1
    else Level(es, i, n - 1) + if es[n - 1].Opens? then 1 else if es[n - 1].Shuts? then -1 else 0
  }

  /** The level opened at `i` has not been shut before `n`. */
  ghost predicate StillOpen(es: seq<Event>, i: nat, n: nat)
    requires n <= |es|
  {
    i < n && es[i].Opens? && forall m :: i < m <= n ==> Level(es, i, m) >= 1
  }

  /** The text of the level opened at `i`, with the amendments made while it was the innermost. */
  function TextAt(es: seq<Event>, i: nat, n: nat): Option<string>
    requires i < n <= |es| && es[i].Opens?
  {
    if n == i + 1 then es[i].text
    else
      var text := TextAt(es, i, n - 1);
      if es[n - 1].Amends? && Level(es, i, n - 1) == 1 && text.Some? then Some(text.value + " | " + es[n - 1].more)
      else text
  }

  /** The same with a stack. */
  function Apply(stack: seq<Option<string>>, e: Event): seq<Option<string>> {
    var n := |stack|;
    match e
    case Opens(text) => stack + [text]
    case Amends(more) =>
      if n == 0 then stack
      else stack[..n - 1] + [if stack[n - 1].Some? then Some(stack[n - 1].value + " | " + more) else None]
    case Shuts => if n == 0 then stack else stack[..n - 1]
    case Nothing => stack
  }

  function StackOf(es: seq<Event>): seq<Option<string>> {
    if es == [] then [] else Apply(StackOf(es[..|es| - 1]), es[|es| - 1])
  }

  /** The positions at which the levels on the stack were opened. */
  ghost predicate OpenAt(es: seq<Event>, open: seq<nat>, stack: seq<Option<string>>) {
    && |open| == |stack|
    && (forall k, l :: 0 <= k < l < |open| ==> open[k] < open[l])
    && (forall k :: 0 <= k < |open| ==>
          && StillOpen(es, open[k], |es|)
          && Level(es, open[k], |es|) == |open| - k
          && stack[k] == TextAt(es, open[k], |es|))
    && forall i: nat :: i < |es| && StillOpen(es, i, |es|) ==> i in open
  }

  lemma {:induction false} LevelLater(es: seq<Event>, e: Event, i: nat, n: nat)
    requires i < n <= |es|
    ensures Level(es + [e], i, n) == Level(es, i, n)
    ensures es[i].Opens? ==> TextAt(es + [e], i, n) == TextAt(es, i, n)
    decreases n
  {
    if n == i + 1 {
    } else {
      LevelLater(es, e, i, n - 1);
    }
  }

  lemma StillOpenLater(es: seq<Event>, e: Event, i: nat)
    requires i < |es|
    ensures StillOpen(es + [e], i, |es| + 1) <==>
            StillOpen(es, i, |es|) && Level(es + [e], i, |es| + 1) >= 1
  {
    forall m | i < m <= |es| ensures Level(es + [e], i, m) == Level(es, i, m) {
      LevelLater(es, e, i, m);
    }
  }

  /** How one event changes one level. */
  lemma OneLater(es: seq<Event>, e: Event, i: nat)
    requires i < |es| && es[i].Opens?
    ensures var n := |es|;
            && Level(es + [e], i, n + 1) == Level(es, i, n) + (if e.Opens? then 1 else if e.Shuts? then -1 else 0)
            && TextAt(es + [e], i, n + 1) ==
               (if e.Amends? && Level(es, i, n) == 1 && TextAt(es, i, n).Some? then
                  Some(TextAt(es, i, n).value + " | " + e.more)
                else TextAt(es, i, n))
  {
    LevelLater(es, e, i, |es|);
  }

  /** The stack holds exactly the levels which are still open, outermost first, each with its text. */
  lemma {:induction false} StackMeans(es: seq<Event>) returns (open: seq<nat>)
    ensures OpenAt(es, open, StackOf(es))
  {
    if es == [] {
      open := [];
    } else {
      var init, e := es[..|es| - 1], es[|es| - 1];
      assert es == init + [e];
      open := StackMeans(init);
      open := OpenNext(init, e, open, StackOf(init));
    }
  }

  lemma NextFacts(es: seq<Event>, e: Event, all: seq<Event>, open: seq<nat>, stack: seq<Option<string>>)
    requires OpenAt(es, open, stack) && all == es + [e]
    ensures forall k :: 0 <= k < |open| ==> open[k] < |es| && es[open[k]].Opens? && all[open[k]].Opens?
    ensures forall i: nat :: i < |es| ==>
              (StillOpen(all, i, |all|) <==> i in open && Level(all, i, |all|) >= 1)
    ensures forall k :: 0 <= k < |open| ==>
              && Level(all, open[k], |all|) == |open| - k + (if e.Opens? then 1 else if e.Shuts? then -1 else 0)
              && TextAt(all, open[k], |all|) ==
                 (if e.Amends? && k == |open| - 1 && stack[k].Some? then Some(stack[k].value + " | " + e.more)
                     else stack[k])
  {
    var n := |es|;
    hide Level, TextAt, StillOpen;
    forall k | 0 <= k < |open| ensures open[k] < n && es[open[k]].Opens? {
      OpensThere(es, open[k], n);
    }
    forall i: nat | i < n
      ensures StillOpen(all, i, |all|) <==> StillOpen(es, i, n) && Level(all, i, |all|) >= 1
    {
      StillOpenLater(es, e, i);
    }
    forall k | 0 <= k < |open|
      ensures Level(all, open[k], |all|) == |open| - k + (if e.Opens? then 1 else if e.Shuts? then -1 else 0)
      ensures TextAt(all, open[k], |all|) ==
              (if e.Amends? && k == |open| - 1 && stack[k].Some? then Some(stack[k].value + " | " + e.more)
                  else stack[k])
    {
      OneLater(es, e, open[k]);
    }
  }

  lemma OpenPush(es: seq<Event>, e: Event, open: seq<nat>, stack: seq<Option<string>>)
    requires OpenAt(es, open, stack) && e.Opens?
    ensures OpenAt(es + [e], open + [|es|], stack + [e.text])
  {
    hide Level, TextAt, StillOpen;
    var all := es + [e];
    NextFacts(es, e, all, open, stack);
    LastEvent(es, e);
    var next := open + [|es|];
    forall i: nat | i < |all| && StillOpen(all, i, |all|) ensures i in next {
      if i < |es| {
        var k :| 0 <= k < |open| && open[k] == i;
        assert next[k] == i;
      } else {
        assert next[|open|] == i;
      }
    }
  }

  lemma OpenShut(es: seq<Event>, e: Event, open: seq<nat>, stack: seq<Option<string>>)
    requires OpenAt(es, open, stack) && e.Shuts? && open != []
    ensures OpenAt(es + [e], open[..|open| - 1], stack[..|stack| - 1])
  {
    hide Level, TextAt, StillOpen;
    var all := es + [e];
    NextFacts(es, e, all, open, stack);
    LastEvent(es, e);
    var next := open[..|open| - 1];
    forall k | 0 <= k < |next| ensures next[k] == open[k] && next[k] in open {
    }
    forall i: nat | i < |all| && StillOpen(all, i, |all|) ensures i in next {
      assert i < |es|;
      var k :| 0 <= k < |open| && open[k] == i;
      assert next[k] == i;
    }
  }

  lemma OpenKeep(es: seq<Event>, e: Event, open: seq<nat>, stack: seq<Option<string>>, next: seq<Option<string>>)
    requires OpenAt(es, open, stack) && (e.Nothing? || e.Amends? || (e.Shuts? && open == [])) && |next| == |stack|
    requires forall k :: 0 <= k < |stack| ==>
               next[k] == if e.Amends? && k == |open| - 1 && stack[k].Some? then Some(stack[k].value + " | " + e.more)
                   else stack[k]
    ensures OpenAt(es + [e], open, next)
  {
    hide Level, TextAt, StillOpen;
    var all := es + [e];
    NextFacts(es, e, all, open, stack);
    LastEvent(es, e);
    forall i: nat | i < |all| && StillOpen(all, i, |all|) ensures i in open {
    }
  }

  lemma OpenNext(es: seq<Event>, e: Event, open: seq<nat>, stack: seq<Option<string>>) returns (next: seq<nat>)
    requires OpenAt(es, open, stack)
    ensures OpenAt(es + [e], next, Apply(stack, e))
  {
    assert |open| == |stack|;
    if e.Opens? {
      next := open + [|es|];
      OpenPush(es, e, open, stack);
    } else if e.Shuts? && open != [] {
      next := open[..|open| - 1];
      OpenShut(es, e, open, stack);
    } else {
      next := open;
      OpenKeep(es, e, open, stack, Apply(stack, e));
    }
  }

  lemma OpensThere(es: seq<Event>, i: nat, n: nat)
    requires n <= |es| && StillOpen(es, i, n)
    ensures i < n && es[i].Opens?
  {
  }

  lemma LastEvent(es: seq<Event>, e: Event)
    ensures var n, all := |es|, es + [e];
            && (StillOpen(all, n, n + 1) <==> e.Opens?)
            && Level(all, n, n + 1) == 1 && (e.Opens? ==> TextAt(all, n, n + 1) == e.text)
  {
  }

  // ---------------------------------------------------------------- the events of some lines

  predicate IsDirective(g: Grammar, line: string) {
    g.condOpen(line).Some? || g.condMid(line).Some? || g.condClose(line)
  }

  /** The kinds of lines the scanner tells apart exclude one another, and a lone brace is none of them. */
  predicate OneKind(g: Grammar, line: string) {
    var text := g.testCase(line).None? && g.namespaceOpen(line).None? && !Closes(line);
    && (g.condMid(line).Some? ==> !g.condClose(line))
    && (IsDirective(g, line) ==> g.inclusion(line).None? && text)
    && (g.inclusion(line).Some? ==> text)
    && (g.testCase(line).Some? ==> g.namespaceOpen(line).None? && !Closes(line))
    && (g.namespaceOpen(line).Some? ==> !Closes(line))
    && (Strip(g, line) == "{" ==> !IsDirective(g, line) && g.inclusion(line).None? && text)
  }

  ghost predicate Regular(g: Grammar) {
    forall line :: OneKind(g, line)
  }

  /** What a line does to the conditionals.  An include guard opens a level without a text. */
  function CondEvent(g: Grammar, lines: seq<string>, j: nat): Event
    requires j < |lines|
  {
    match g.condOpen(lines[j])
    case Some((keyword, rest)) =>
      Opens(if IsIncludeGuard(g, lines, j, keyword, rest) then None else Some(keyword + " " + Strip(g, rest)))
    case None =>
      match g.condMid(lines[j])
      case Some((keyword, rest)) => Amends(keyword + " " + Strip(g, rest))
      case None => if g.condClose(lines[j]) then Shuts else Nothing
  }

  /** What a line does to the namespaces: a brace at column 0 shuts one. */
  function SpaceEvent(g: Grammar, lines: seq<string>, j: nat): Event
    requires j < |lines|
  {
    match g.namespaceOpen(lines[j])
    case Some((title, brace)) =>
      if brace || (j + 1 < |lines| && Strip(g, lines[j + 1]) == "{") then
        Opens(Some(if title.Some? then title.value else "<anonymous>"))
      else Nothing
    case None => if Closes(lines[j]) then Shuts else Nothing
  }

  /** A line below the first of a case, its closing brace included. */
  predicate Within(lines: seq<string>, c: Case, j: nat) {
    0 < c.line <= |lines| && c.line <= j <= FindClose(lines, c.line)
  }

  predicate Inside(lines: seq<string>, cases: seq<Case>, j: nat) {
    exists k :: 0 <= k < |cases| && Within(lines, cases[k], j)
  }

  /** The events of the first `n` lines; the lines inside cases do nothing. */
  function CondEvents(g: Grammar, lines: seq<string>, cases: seq<Case>, n: nat): (es: seq<Event>)
    requires n <= |lines|
    ensures |es| == n
    ensures forall j :: 0 <= j < n ==> es[j] == if Inside(lines, cases, j) then Nothing else CondEvent(g, lines, j)
  {
    seq(n, j requires 0 <= j < n => if Inside(lines, cases, j) then Nothing else CondEvent(g, lines, j))
  }

  function SpaceEvents(g: Grammar, lines: seq<string>, cases: seq<Case>, n: nat): (es: seq<Event>)
    requires n <= |lines|
    ensures |es| == n
    ensures forall j :: 0 <= j < n ==> es[j] == if Inside(lines, cases, j) then Nothing else SpaceEvent(g, lines, j)
  {
    seq(n, j requires 0 <= j < n => if Inside(lines, cases, j) then Nothing else SpaceEvent(g, lines, j))
  }

  lemma {:induction false} NothingHappens(es: seq<Event>, more: seq<Event>)
    requires forall i :: 0 <= i < |more| ==> more[i] == Nothing
    ensures StackOf(es + more) == StackOf(es)
    decreases |more|
  {
    if more == [] {
      assert es + more == es;
    } else {
      var init := more[..|more| - 1];
      assert (es + more)[..|es + more| - 1] == es + init;
      NothingHappens(es, init);
    }
  }

  /** One event, and then nothing. */
  lemma StackStep(all: seq<Event>, n: nat)
    requires n < |all| && forall j :: n < j < |all| ==> all[j] == Nothing
    ensures StackOf(all) == Apply(StackOf(all[..n]), all[n])
  {
    var one := all[..n + 1];
    assert one[..n] == all[..n] && one[n] == all[n];
    NothingHappens(one, all[n + 1..]);
    assert one + all[n + 1..] == all;
  }

  // ---------------------------------------------------------------- the scan follows the events

  function Known(spaces: seq<string>): (stack: seq<Option<string>>)
    ensures |stack| == |spaces| && forall k :: 0 <= k < |spaces| ==> stack[k] == Some(spaces[k])
  {
    seq(|spaces|, k requires 0 <= k < |spaces| => Some(spaces[k]))
  }

  lemma StepConds(g: Grammar, origin: Origin, lines: seq<string>, at: Position)
    requires at.index < |lines| && OneKind(g, lines[at.index])
    ensures Step(g, origin, lines, at).0.conds == Apply(at.conds, CondEvent(g, lines, at.index))
  {
    hide TextStep, IsIncludeGuard, Strip;
    StepKeepsConds(g, origin, lines, at);
    DirectiveIsEvent(g, lines, at);
  }

  lemma DirectiveIsEvent(g: Grammar, lines: seq<string>, at: Position)
    requires at.index < |lines| && OneKind(g, lines[at.index])
    ensures Directive(g, lines, at).Some? ==>
              Directive(g, lines, at).value == Apply(at.conds, CondEvent(g, lines, at.index))
    ensures Directive(g, lines, at).None? ==> Apply(at.conds, CondEvent(g, lines, at.index)) == at.conds
  {
    hide IsIncludeGuard, Strip, Closes, Extended;
    if g.condMid(lines[at.index]).Some? && at.conds != [] {
      ExtendedIs(g, lines[at.index], at.conds[|at.conds| - 1]);
    }
  }

  lemma ExtendedIs(g: Grammar, line: string, guard: Option<string>)
    requires g.condMid(line).Some?
    ensures var (keyword, rest) := g.condMid(line).value;
            Extended(g, line, guard) ==
            if guard.Some? then Some(guard.value + " | " + (keyword + " " + Strip(g, rest))) else None
  {
    hide Strip;
    var (keyword, rest) := g.condMid(line).value;
    if guard.Some? {
      var v, k, s := guard.value + " | ", keyword + " ", Strip(g, rest);
      assert v + keyword + " " + s == v + (k + s);
    }
  }

  lemma StepKeepsConds(g: Grammar, origin: Origin, lines: seq<string>, at: Position)
    requires at.index < |lines|
    ensures TextStep(g, origin, lines, at).0.conds == at.conds
  {
    hide SpaceReport, CaseReport, Strip, OpenIndex, Closes, FindClose;
  }

  lemma StepSpaces(g: Grammar, origin: Origin, lines: seq<string>, at: Position)
    requires at.index < |lines| && OneKind(g, lines[at.index])
    ensures Known(Step(g, origin, lines, at).0.spaces) == Apply(Known(at.spaces), SpaceEvent(g, lines, at.index))
  {
    hide SpaceReport, CaseReport, Strip, Closes, FindClose, Pushed, Extended;
  }

  /** Which lines a step passes over: those inside the case it found, or the lone brace of a namespace. */
  lemma StepPasses(g: Grammar, origin: Origin, lines: seq<string>, at: Position)
    requires at.index < |lines|
    ensures var (next, report) := Step(g, origin, lines, at);
            && at.index < next.index <= |lines|
            && |report.cases| <= 1
            && (forall c :: c in report.cases ==>
                  c.line == at.index + 1 && FindClose(lines, c.line) + 1 == next.index <= |lines|)
            && (report.cases == [] ==> forall j :: at.index < j < next.index ==> Strip(g, lines[j]) == "{")
  {
    hide TextStep, Strip, Directive;
    StepAdvances(g, origin, lines, at);
    TextPasses(g, origin, lines, at);
  }

  lemma TextPasses(g: Grammar, origin: Origin, lines: seq<string>, at: Position)
    requires at.index < |lines|
    ensures var (next, report) := TextStep(g, origin, lines, at);
            && |report.cases| <= 1
            && (forall c :: c in report.cases ==>
                  c.line == at.index + 1 && FindClose(lines, c.line) + 1 == next.index <= |lines|)
            && (report.cases == [] ==> forall j :: at.index < j < next.index ==> Strip(g, lines[j]) == "{")
  {
    hide CaseStep, SpaceStep, Strip, Closes, FindClose;
    var line := lines[at.index];
    if g.testCase(line).Some? {
      CasePasses(g, origin, lines, at, g.testCase(line).value);
    } else if g.namespaceOpen(line).Some? {
      SpacePasses(g, origin, lines, at, g.namespaceOpen(line).value.0, g.namespaceOpen(line).value.1);
    }
  }

  lemma SpacePasses(g: Grammar, origin: Origin, lines: seq<string>, at: Position, title: Option<string>, brace: bool)
    requires at.index < |lines|
    ensures var (next, report) := SpaceStep(g, origin, lines, at, title, brace);
            && report.cases == [] && at.index < next.index <= |lines|
            && forall j :: at.index < j < next.index ==> Strip(g, lines[j]) == "{"
  {
    hide Strip, FindClose, TextSha, SplitFrom, MembersOf, Uncovered, Qualified;
  }

  lemma CasePasses(g: Grammar, origin: Origin, lines: seq<string>, at: Position,
      header: (string, string, Option<string>))
    requires at.index < |lines|
    ensures var (next, report) := CaseStep(g, origin, lines, at, header);
            && |report.cases| <= 1 && at.index < next.index <= |lines|
            && (forall c :: c in report.cases ==> c.line == at.index + 1 && FindClose(lines, c.line) + 1 == next.index)
            && (report.cases == [] ==> next.index == at.index + 1)
  {
    hide FindClose, TextSha, DocSha, Guards, RefsOf, LiteralsOf, Strip;
  }

  /** The case ends above line `n`. */
  predicate Past(lines: seq<string>, c: Case, n: nat) {
    0 < c.line <= |lines| && FindClose(lines, c.line) < n
  }

  /** `cases` are the cases still to come and some which are past. */
  ghost predicate AllCases(g: Grammar, origin: Origin, lines: seq<string>, at: Position, cases: seq<Case>)
    requires at.index <= |lines|
  {
    var later := ScanFrom(g, origin, lines, at).1.cases;
    && (forall c :: c in later ==> c in cases)
    && forall c :: c in cases ==> c in later || Past(lines, c, at.index)
  }

  /** What is reported of a case, said of the lines. */
  ghost predicate CaseLaw(g: Grammar, lines: seq<string>, cases: seq<Case>, c: Case) {
    && 0 < c.line <= |lines| && FindClose(lines, c.line) < |lines| && !Inside(lines, cases, c.line - 1)
    && g.testCase(lines[c.line - 1]) == Some((c.kind, c.name, c.fixture))
    && c.guards == Guards(StackOf(CondEvents(g, lines, cases, c.line - 1)))
    && Known(c.namespaces) == StackOf(SpaceEvents(g, lines, cases, c.line - 1))
  }

  lemma {:induction false} LaterCases(g: Grammar, origin: Origin, lines: seq<string>, at: Position)
    requires at.index <= |lines|
    ensures forall c :: c in ScanFrom(g, origin, lines, at).1.cases ==>
              at.index < c.line <= |lines| && FindClose(lines, c.line) < |lines|
    decreases |lines| - at.index
  {
    hide Step, FindClose;
    if at.index == |lines| {
    } else {
      StepPasses(g, origin, lines, at);
      LaterCases(g, origin, lines, Step(g, origin, lines, at).0);
    }
  }

  lemma CaseOfStep(g: Grammar, origin: Origin, lines: seq<string>, at: Position)
    requires at.index < |lines| && OneKind(g, lines[at.index])
    ensures forall c :: c in Step(g, origin, lines, at).1.cases ==>
              && g.testCase(lines[at.index]) == Some((c.kind, c.name, c.fixture))
              && c.guards == Guards(at.conds) && c.namespaces == at.spaces
    ensures g.testCase(lines[at.index]).Some? && FindClose(lines, at.index + 1) < |lines| ==>
              Step(g, origin, lines, at).1.cases != []
  {
    hide CaseStep, SpaceStep, Strip, Closes, FindClose, Directive;
    var line := lines[at.index];
    DirectiveIsDirective(g, lines, at);
    if g.testCase(line).Some? {
      HeaderOfCase(g, origin, lines, at, g.testCase(line).value);
    } else if g.namespaceOpen(line).Some? {
      SpacePasses(g, origin, lines, at, g.namespaceOpen(line).value.0, g.namespaceOpen(line).value.1);
    }
  }

  lemma DirectiveIsDirective(g: Grammar, lines: seq<string>, at: Position)
    requires at.index < |lines|
    ensures Directive(g, lines, at).Some? ==> IsDirective(g, lines[at.index])
  {
    hide Pushed, Extended;
  }

  lemma HeaderOfCase(g: Grammar, origin: Origin, lines: seq<string>, at: Position,
      header: (string, string, Option<string>))
    requires at.index < |lines|
    ensures var report := CaseStep(g, origin, lines, at, header).1;
            && (forall c :: c in report.cases ==>
                  header == (c.kind, c.name, c.fixture) && c.guards == Guards(at.conds) && c.namespaces == at.spaces)
            && (FindClose(lines, at.index + 1) < |lines| ==> report.cases != [])
  {
    hide FindClose, TextSha, DocSha, Guards, RefsOf, LiteralsOf, Strip;
  }

  lemma NextAllCases(g: Grammar, origin: Origin, lines: seq<string>, at: Position, cases: seq<Case>)
    requires at.index < |lines| && AllCases(g, origin, lines, at, cases)
    ensures var next := Step(g, origin, lines, at).0; next.index <= |lines| && AllCases(g, origin, lines, next, cases)
    ensures !Inside(lines, cases, at.index)
    ensures var (next, report) := Step(g, origin, lines, at);
            report.cases != [] ==> forall j :: at.index < j < next.index ==> Inside(lines, cases, j)
  {
    hide Step, FindClose;
    var (next, report) := Step(g, origin, lines, at);
    StepPasses(g, origin, lines, at);
    LaterCases(g, origin, lines, at);
    assert ScanFrom(g, origin, lines, at).1.cases == report.cases + ScanFrom(g, origin, lines, next).1.cases;
    if report.cases != [] {
      var c := report.cases[0];
      assert c in cases;
      var k :| 0 <= k < |cases| && cases[k] == c;
      forall j | at.index < j < next.index ensures Inside(lines, cases, j) {
        assert Within(lines, cases[k], j);
      }
    }
  }

  lemma NextStacks(g: Grammar, origin: Origin, lines: seq<string>, at: Position, cases: seq<Case>)
    requires at.index < |lines| && Regular(g) && AllCases(g, origin, lines, at, cases)
    ensures var next := Step(g, origin, lines, at).0.index;
            && at.index < next <= |lines|
            && StackOf(CondEvents(g, lines, cases, next)) ==
               Apply(StackOf(CondEvents(g, lines, cases, at.index)), CondEvent(g, lines, at.index))
            && StackOf(SpaceEvents(g, lines, cases, next)) ==
               Apply(StackOf(SpaceEvents(g, lines, cases, at.index)), SpaceEvent(g, lines, at.index))
  {
    hide Step, FindClose, StackOf, Apply, Inside, AllCases, Closes, Strip;
    StepPasses(g, origin, lines, at);
    NextAllCases(g, origin, lines, at, cases);
    var n, next := at.index, Step(g, origin, lines, at).0.index;
    var conds, spaces := CondEvents(g, lines, cases, next), SpaceEvents(g, lines, cases, next);
    forall j | n < j < next ensures conds[j] == Nothing && spaces[j] == Nothing {
      assert OneKind(g, lines[j]);
    }
    StackStep(conds, n);
    StackStep(spaces, n);
    assert conds[..n] == CondEvents(g, lines, cases, n) && spaces[..n] == SpaceEvents(g, lines, cases, n);
  }

  /** Every reported case obeys the law, and every test case line outside the cases which has a closing brace below
      it is reported. */
  lemma {:induction false} ScanFollows(g: Grammar, origin: Origin, lines: seq<string>, at: Position, cases: seq<Case>)
    requires at.index <= |lines| && Regular(g) && AllCases(g, origin, lines, at, cases)
    requires at.conds == StackOf(CondEvents(g, lines, cases, at.index))
    requires Known(at.spaces) == StackOf(SpaceEvents(g, lines, cases, at.index))
    ensures forall c :: c in ScanFrom(g, origin, lines, at).1.cases ==> CaseLaw(g, lines, cases, c)
    ensures forall j: nat :: at.index <= j < |lines| && IsCase(g, lines, cases, j) ==>
              exists c :: c in ScanFrom(g, origin, lines, at).1.cases && c.line == j + 1
    decreases |lines| - at.index
  {
    if at.index == |lines| {
    } else {
      hide Step, FindClose, StackOf, Apply, Inside, AllCases, CondEvents, SpaceEvents, CondEvent, SpaceEvent, Guards,
          Closes, Strip;
      var (next, report) := Step(g, origin, lines, at);
      NextStacks(g, origin, lines, at, cases);
      NextAllCases(g, origin, lines, at, cases);
      assert OneKind(g, lines[at.index]);
      StepConds(g, origin, lines, at);
      StepSpaces(g, origin, lines, at);
      StepPasses(g, origin, lines, at);
      CaseOfStep(g, origin, lines, at);
      ScanFollows(g, origin, lines, next, cases);
      var later := ScanFrom(g, origin, lines, next).1.cases;
      assert ScanFrom(g, origin, lines, at).1.cases == report.cases + later;
      forall j: nat | at.index < j < next.index ensures !IsCase(g, lines, cases, j) {
        assert OneKind(g, lines[j]);
      }
      forall j: nat | at.index <= j < |lines| && IsCase(g, lines, cases, j)
        ensures exists c :: c in report.cases + later && c.line == j + 1
      {
        if j == at.index {
          assert report.cases[0] in report.cases + later;
        } else {
          assert j >= next.index;
          var c :| c in later && c.line == j + 1;
          assert c in report.cases + later;
        }
      }
    }
  }

  /** A test case line outside the other cases, with a closing brace below it. */
  ghost predicate IsCase(g: Grammar, lines: seq<string>, cases: seq<Case>, j: nat) {
    && j < |lines| && g.testCase(lines[j]).Some? && !Inside(lines, cases, j)
    && FindClose(lines, j + 1) < |lines|
  }

  // ---------------------------------------------------------------- guards and namespaces of a case

  /** The texts of the levels which are open before event `n`, outermost first; levels without a text do not count. */
  ghost predicate TextsOfOpen(es: seq<Event>, positions: seq<nat>, texts: seq<string>) {
    && |positions| == |texts|
    && (forall k, l :: 0 <= k < l < |positions| ==> positions[k] < positions[l])
    && (forall k :: 0 <= k < |positions| ==>
          StillOpen(es, positions[k], |es|) && TextAt(es, positions[k], |es|) == Some(texts[k]))
    && forall i: nat :: i < |es| && HasText(es, i) ==> i in positions
  }

  ghost predicate HasText(es: seq<Event>, i: nat) {
    StillOpen(es, i, |es|) && TextAt(es, i, |es|).Some?
  }

  function Texts(stack: seq<Option<string>>): seq<Option<string>> {
    Filter((text: Option<string>) => text.Some?, stack)
  }

  lemma {:induction false} GuardsAreTexts(stack: seq<Option<string>>)
    ensures |Guards(stack)| == |Texts(stack)|
    ensures forall k :: 0 <= k < |Guards(stack)| ==> Texts(stack)[k] == Some(Guards(stack)[k])
  {
    if stack == [] {
    } else {
      GuardsAreTexts(stack[..|stack| - 1]);
    }
  }

  lemma OpenThere(es: seq<Event>, open: seq<nat>, stack: seq<Option<string>>)
    requires OpenAt(es, open, stack)
    ensures |open| == |stack| && forall k, l :: 0 <= k < l < |open| ==> open[k] < open[l]
    ensures forall k :: 0 <= k < |open| ==>
              StillOpen(es, open[k], |es|) && open[k] < |es| && es[open[k]].Opens?
                  && TextAt(es, open[k], |es|) == stack[k]
    ensures forall i: nat :: i < |es| && HasText(es, i) ==>
        exists m :: 0 <= m < |open| && open[m] == i && stack[m].Some?
  {
    hide Level, TextAt;
    forall i: nat | i < |es| && HasText(es, i) ensures exists m :: 0 <= m < |open| && open[m] == i && stack[m].Some? {
      var m :| 0 <= m < |open| && open[m] == i;
    }
  }

  /** The positions of the entries with a text. */
  lemma TextsOfStack(stack: seq<Option<string>>) returns (picked: seq<nat>)
    ensures |picked| == |Guards(stack)| && forall k, l :: 0 <= k < l < |picked| ==> picked[k] < picked[l]
    ensures forall k :: 0 <= k < |picked| ==> picked[k] < |stack| && stack[picked[k]] == Some(Guards(stack)[k])
    ensures forall k: nat :: k < |stack| && stack[k].Some? ==> k in picked
  {
    hide Guards;
    GuardsAreTexts(stack);
    hide Filter;
    picked := FilterMeans((text: Option<string>) => text.Some?, stack);
  }

  lemma SomeTexts(es: seq<Event>, open: seq<nat>, stack: seq<Option<string>>) returns (positions: seq<nat>)
    requires OpenAt(es, open, stack)
    ensures TextsOfOpen(es, positions, Guards(stack))
  {
    OpenThere(es, open, stack);
    hide OpenAt, HasText, Level, TextAt, StillOpen, Guards;
    var picked := TextsOfStack(stack);
    positions := seq(|picked|, k requires 0 <= k < |picked| => open[picked[k]]);
    forall i: nat | i < |es| && HasText(es, i) ensures i in positions {
      var m :| 0 <= m < |open| && open[m] == i && stack[m].Some?;
      assert m in picked;
      var k :| 0 <= k < |picked| && picked[k] == m;
      assert positions[k] == i;
    }
  }

  /** The law of a case. Its guards are the conditionals opened above it and not yet shut by their own `#endif`,
      outermost first, each with its `#elif` and `#else` additions, include guards left out; its namespaces are the
      namespaces opened above it and not yet shut by a brace at column 0; the lines inside earlier cases do not
      count. */
  lemma GuardsAndNamespaces(g: Grammar, origin: Origin, lines: seq<string>, c: Case)
    returns (guards: seq<nat>, namespaces: seq<nat>)
    requires Regular(g) && c in Scan(g, origin, lines).1.cases
    ensures var cases := Scan(g, origin, lines).1.cases;
            && 0 < c.line <= |lines| && g.testCase(lines[c.line - 1]) == Some((c.kind, c.name, c.fixture))
            && FindClose(lines, c.line) < |lines| && !Inside(lines, cases, c.line - 1)
            && TextsOfOpen(CondEvents(g, lines, cases, c.line - 1), guards, c.guards)
            && TextsOfOpen(SpaceEvents(g, lines, cases, c.line - 1), namespaces, c.namespaces)
  {
    hide ScanFrom, Regular, Inside, FindClose, TextsOfOpen, OpenAt, StackOf, Guards;
    var cases := Scan(g, origin, lines).1.cases;
    ScanBegins(g, origin, lines);
    ScanFollows(g, origin, lines, BEGIN, cases);
    assert CaseLaw(g, lines, cases, c);
    var conds, spaces := CondEvents(g, lines, cases, c.line - 1), SpaceEvents(g, lines, cases, c.line - 1);
    var open := StackMeans(conds);
    guards := SomeTexts(conds, open, StackOf(conds));
    var levels := StackMeans(spaces);
    namespaces := SomeTexts(spaces, levels, StackOf(spaces));
    KnownTexts(c.namespaces);
  }

  lemma ScanBegins(g: Grammar, origin: Origin, lines: seq<string>)
    ensures AllCases(g, origin, lines, BEGIN, Scan(g, origin, lines).1.cases)
    ensures forall cases :: StackOf(CondEvents(g, lines, cases, 0)) == BEGIN.conds
    ensures forall cases :: StackOf(SpaceEvents(g, lines, cases, 0)) == Known(BEGIN.spaces)
  {
    hide ScanFrom;
  }

  lemma {:induction false} KnownTexts(spaces: seq<string>)
    ensures Guards(Known(spaces)) == spaces
  {
    if spaces == [] {
    } else {
      assert Known(spaces)[..|spaces| - 1] == Known(spaces[..|spaces| - 1]);
      KnownTexts(spaces[..|spaces| - 1]);
    }
  }

  /** A case is reported for line `j`. */
  ghost predicate ReportedAt(cases: seq<Case>, j: nat) {
    exists c :: c in cases && c.line == j + 1
  }

  ghost predicate InLineOrder(cases: seq<Case>) {
    forall k, l :: 0 <= k < l < |cases| ==> cases[k].line < cases[l].line
  }

  /** Exactly the test case lines are reported which have a closing brace below them and are not inside another
      case, in the order of the lines. */
  lemma CasesMean(g: Grammar, origin: Origin, lines: seq<string>)
    requires Regular(g)
    ensures var cases := Scan(g, origin, lines).1.cases;
            InLineOrder(cases) && forall j: nat :: IsCase(g, lines, cases, j) <==> ReportedAt(cases, j)
  {
    hide ScanFrom, Regular, Inside, FindClose, Guards, InLineOrder, CondEvents, SpaceEvents, StackOf, AllCases, IsCase;
    var cases := Scan(g, origin, lines).1.cases;
    ScanBegins(g, origin, lines);
    ScanFollows(g, origin, lines, BEGIN, cases);
    CasesInOrder(g, origin, lines, BEGIN);
    forall j: nat ensures IsCase(g, lines, cases, j) <==> ReportedAt(cases, j) {
      CaseIsBelow(g, lines, cases, j);
      if ReportedAt(cases, j) {
        var c :| c in cases && c.line == j + 1;
        LawIsCase(g, lines, cases, c);
      }
    }
  }

  lemma CaseIsBelow(g: Grammar, lines: seq<string>, cases: seq<Case>, j: nat)
    ensures IsCase(g, lines, cases, j) ==> j < |lines|
  {
  }

  lemma LawIsCase(g: Grammar, lines: seq<string>, cases: seq<Case>, c: Case)
    requires CaseLaw(g, lines, cases, c)
    ensures c.line > 0 && IsCase(g, lines, cases, c.line - 1)
  {
  }

  lemma AppendInOrder(xs: seq<Case>, ys: seq<Case>, bound: nat)
    requires |xs| <= 1 && InLineOrder(ys)
    requires (forall x :: x in xs ==> x.line <= bound) && (forall y :: y in ys ==> bound < y.line)
    ensures InLineOrder(xs + ys)
  {
    forall l | 0 <= l < |ys| ensures bound < ys[l].line {
      assert ys[l] in ys;
    }
  }

  lemma {:induction false} CasesInOrder(g: Grammar, origin: Origin, lines: seq<string>, at: Position)
    requires at.index <= |lines|
    ensures InLineOrder(ScanFrom(g, origin, lines, at).1.cases)
    decreases |lines| - at.index
  {
    hide Step, FindClose;
    if at.index == |lines| {
    } else {
      hide InLineOrder;
      var (next, report) := Step(g, origin, lines, at);
      StepPasses(g, origin, lines, at);
      CasesInOrder(g, origin, lines, next);
      LaterCases(g, origin, lines, next);
      AppendInOrder(report.cases, ScanFrom(g, origin, lines, next).1.cases, next.index);
    }
  }

  // ---------------------------------------------------------------- includes, data files, blocks and problems

  /** Data files are looked for on the lines of cases, and on all others but directives and includes. */
  predicate IsData(g: Grammar, lines: seq<string>, cases: seq<Case>, j: nat)
    requires j < |lines|
  {
    Inside(lines, cases, j) || (!IsDirective(g, lines[j]) && g.inclusion(lines[j]).None?)
  }

  /** A lone brace and an `#elif` or `#else` name no data file. */
  ghost predicate Plain(g: Grammar) {
    forall line :: Strip(g, line) == "{" || g.condMid(line).Some? ==>
        g.dataRefs(line) == {} && g.dataLiterals(line) == {}
  }

  /** What the report holds of the lines from `lo` up to `hi`. */
  ghost predicate Holds(g: Grammar, lines: seq<string>, cases: seq<Case>, r: Report, lo: nat, hi: nat)
    requires lo <= hi <= |lines|
  {
    && HoldsData(g, lines, cases, r, lo, hi)
    && (forall l: nat, name :: NoClosingBrace(l, name) in r.problems <==>
          lo < l <= hi && LacksBrace(g, lines, cases, l - 1, name))
    && (forall l: nat, name :: NoOpeningBrace(l, name) in r.problems <==>
          exists c :: c in r.cases && c.line + 1 == l && c.name == name && l <= |lines|
              && Strip(g, lines[l - 1]) != "{")
  }

  ghost predicate HoldsData(g: Grammar, lines: seq<string>, cases: seq<Case>, r: Report, lo: nat, hi: nat)
    requires lo <= hi <= |lines|
  {
    && (forall x :: x in r.refs <==>
        exists j :: lo <= j < hi && IsData(g, lines, cases, j) && x in g.dataRefs(lines[j]))
    && (forall x :: x in r.literals <==>
          exists j :: lo <= j < hi && IsData(g, lines, cases, j) && x in g.dataLiterals(lines[j]))
  }

  /** A test case line outside the cases without a closing brace below it. */
  ghost predicate LacksBrace(g: Grammar, lines: seq<string>, cases: seq<Case>, j: nat, name: string) {
    && j < |lines| && g.testCase(lines[j]).Some? && g.testCase(lines[j]).value.1 == name
    && !Inside(lines, cases, j) && FindClose(lines, j + 1) == |lines|
  }

  lemma {:induction false} HoldsJoin(g: Grammar, lines: seq<string>, cases: seq<Case>, x: Report, y: Report,
      lo: nat, mid: nat, hi: nat)
    requires lo <= mid <= hi <= |lines|
    requires Holds(g, lines, cases, x, lo, mid) && Holds(g, lines, cases, y, mid, hi)
    ensures Holds(g, lines, cases, Plus(x, y), lo, hi)
  {
    hide IsData, LacksBrace, Strip;
  }

  lemma NothingHeld(g: Grammar, lines: seq<string>, cases: seq<Case>, n: nat)
    requires n <= |lines|
    ensures Holds(g, lines, cases, NOTHING, n, n)
  {
  }

  /** A line which is no test case adds its own data files, if it counts. */
  lemma LineHolds(g: Grammar, lines: seq<string>, cases: seq<Case>, r: Report, n: nat, next: nat)
    requires n < next <= |lines| && Plain(g) && g.testCase(lines[n]).None? && r.cases == [] && r.problems == []
    requires r.refs == (if IsData(g, lines, cases, n) then g.dataRefs(lines[n]) else {})
    requires r.literals == (if IsData(g, lines, cases, n) then g.dataLiterals(lines[n]) else {})
    requires forall j :: n < j < next ==> Strip(g, lines[j]) == "{" && g.testCase(lines[j]).None?
    ensures Holds(g, lines, cases, r, n, next)
  {
    hide IsData, Strip, FindClose, Inside;
    forall j | n < j < next ensures g.dataRefs(lines[j]) == {} && g.dataLiterals(lines[j]) == {} {
    }
  }

  lemma CaseHolds(g: Grammar, origin: Origin, lines: seq<string>, cases: seq<Case>, at: Position)
    requires at.index < |lines| && g.testCase(lines[at.index]).Some? && IsData(g, lines, cases, at.index)
    requires !Inside(lines, cases, at.index)
    requires FindClose(lines, at.index + 1) < |lines| ==>
               forall j :: at.index < j <= FindClose(lines, at.index + 1) ==> Inside(lines, cases, j)
    ensures var line := lines[at.index];
            var (next, report) := CaseStep(g, origin, lines, at, g.testCase(line).value);
            && at.index < next.index <= |lines|
            && Holds(g, lines, cases,
                Plus(NOTHING.(refs := g.dataRefs(line), literals := g.dataLiterals(line)), report),
                     at.index, next.index)
  {
    hide Strip, FindClose, Inside, CaseReport, IsData, Holds, Plus;
    var n, end := at.index, FindClose(lines, at.index + 1);
    FindCloseBelow(lines, n + 1);
    if end < |lines| {
      FoundCaseHolds(g, origin, lines, cases, at, end);
    } else {
      OpenCaseHolds(g, lines, cases, n);
    }
  }

  lemma FindCloseBelow(lines: seq<string>, i: nat)
    requires i <= |lines|
    ensures i <= FindClose(lines, i) <= |lines|
  {
  }

  lemma OpenCaseHolds(g: Grammar, lines: seq<string>, cases: seq<Case>, n: nat)
    requires n < |lines| && g.testCase(lines[n]).Some? && IsData(g, lines, cases, n) && !Inside(lines, cases, n)
    requires FindClose(lines, n + 1) == |lines|
    ensures var line := lines[n];
            var report := NOTHING.(problems := [NoClosingBrace(n + 1, g.testCase(line).value.1)]);
            Holds(g, lines, cases, Plus(NOTHING.(refs := g.dataRefs(line), literals := g.dataLiterals(line)), report),
                n, n + 1)
  {
    hide Strip, FindClose, Inside, IsData;
  }

  lemma BodyLines(lines: seq<string>, n: nat, end: nat, body: seq<string>)
    requires n <= end < |lines| && body == lines[n..end + 1]
    ensures forall line :: line in body <==> exists j :: n <= j <= end && lines[j] == line
  {
    forall line ensures line in body <==> exists j :: n <= j <= end && lines[j] == line {
      if line in body {
        var i :| 0 <= i < |body| && body[i] == line;
        assert lines[n + i] == line;
      }
      if j :| n <= j <= end && lines[j] == line {
        assert body[j - n] == line;
      }
    }
  }

  lemma BodyHoldsData(g: Grammar, lines: seq<string>, cases: seq<Case>, r: Report, n: nat, end: nat)
    requires n <= end < |lines| && forall j :: n <= j <= end ==> IsData(g, lines, cases, j)
    requires r.refs == g.dataRefs(lines[n]) + RefsOf(g, lines[n..end + 1])
    requires r.literals == g.dataLiterals(lines[n]) + LiteralsOf(g, lines[n..end + 1])
    ensures HoldsData(g, lines, cases, r, n, end + 1)
  {
    hide IsData;
    BodyLines(lines, n, end, lines[n..end + 1]);
  }

  lemma FoundCaseHolds(g: Grammar, origin: Origin, lines: seq<string>, cases: seq<Case>, at: Position, end: nat)
    requires at.index < end < |lines| && g.testCase(lines[at.index]).Some? && IsData(g, lines, cases, at.index)
    requires !Inside(lines, cases, at.index) && FindClose(lines, at.index + 1) == end
    requires forall j :: at.index < j <= end ==> Inside(lines, cases, j)
    ensures var line := lines[at.index];
            var report := CaseReport(g, origin, lines, at, g.testCase(line).value, end);
            Holds(g, lines, cases, Plus(NOTHING.(refs := g.dataRefs(line), literals := g.dataLiterals(line)), report),
                  at.index, end + 1)
  {
    hide Strip, FindClose, Inside, CaseReport, RefsOf, LiteralsOf, IsData, Holds, HoldsData, Plus;
    var n, line := at.index, lines[at.index];
    forall j | n <= j <= end ensures IsData(g, lines, cases, j) {
      if j > n {
        InsideIsData(g, lines, cases, j);
      }
    }
    var report := CaseReport(g, origin, lines, at, g.testCase(line).value, end);
    var all := Plus(NOTHING.(refs := g.dataRefs(line), literals := g.dataLiterals(line)), report);
    CaseReportFields(g, origin, lines, at, g.testCase(line).value, end);
    PlusData(g, line, report);
    BodyHoldsData(g, lines, cases, all, n, end);
    NoneLacks(g, lines, cases, n, end);
    FoundHolds(g, lines, cases, all, n, end, report.cases[0]);
  }

  lemma PlusData(g: Grammar, line: string, report: Report)
    ensures var all := Plus(NOTHING.(refs := g.dataRefs(line), literals := g.dataLiterals(line)), report);
            && all.cases == report.cases && all.problems == report.problems
            && all.refs == g.dataRefs(line) + report.refs && all.literals == g.dataLiterals(line) + report.literals
  {
  }

  lemma CaseReportFields(g: Grammar, origin: Origin, lines: seq<string>, at: Position,
      header: (string, string, Option<string>), end: nat)
    requires at.index < end < |lines|
    ensures var n, r := at.index, CaseReport(g, origin, lines, at, header, end);
            && |r.cases| == 1 && r.cases[0].line == n + 1 && r.cases[0].name == header.1
            && r.refs == RefsOf(g, lines[n..end + 1]) && r.literals == LiteralsOf(g, lines[n..end + 1])
            && r.problems == if Strip(g, lines[n + 1]) != "{" then [NoOpeningBrace(n + 2, header.1)] else []
  {
    hide Strip, TextSha, DocSha, Guards, RefsOf, LiteralsOf;
  }

  lemma FoundHolds(g: Grammar, lines: seq<string>, cases: seq<Case>, r: Report, n: nat, end: nat, c: Case)
    requires n < end < |lines| && HoldsData(g, lines, cases, r, n, end + 1)
    requires r.cases == [c] && c.line == n + 1
    requires r.problems == if Strip(g, lines[n + 1]) != "{" then [NoOpeningBrace(n + 2, c.name)] else []
    requires forall j, name :: n <= j < end + 1 ==> !LacksBrace(g, lines, cases, j, name)
    ensures Holds(g, lines, cases, r, n, end + 1)
  {
    hide Strip, HoldsData, LacksBrace;
  }

  lemma NoneLacks(g: Grammar, lines: seq<string>, cases: seq<Case>, n: nat, end: nat)
    requires n < end < |lines| && FindClose(lines, n + 1) == end
    requires forall j :: n < j <= end ==> Inside(lines, cases, j)
    ensures forall j, name :: n <= j < end + 1 ==> !LacksBrace(g, lines, cases, j, name)
  {
    hide FindClose, Inside;
  }

  lemma InsideIsData(g: Grammar, lines: seq<string>, cases: seq<Case>, j: nat)
    requires j < |lines| && Inside(lines, cases, j)
    ensures IsData(g, lines, cases, j)
  {
  }

  lemma CaseIsText(g: Grammar, origin: Origin, lines: seq<string>, at: Position)
    requires at.index < |lines| && OneKind(g, lines[at.index]) && g.testCase(lines[at.index]).Some?
    ensures var line := lines[at.index];
            var (next, report) := CaseStep(g, origin, lines, at, g.testCase(line).value);
            && Step(g, origin, lines, at) ==
               (next, Plus(NOTHING.(refs := g.dataRefs(line), literals := g.dataLiterals(line)), report))
            && (FindClose(lines, at.index + 1) < |lines| ==>
                  report.cases != [] && next.index == FindClose(lines, at.index + 1) + 1)
  {
    hide Directive, CaseStep, Closes, Strip;
    DirectiveIsDirective(g, lines, at);
    CaseStepEnds(g, origin, lines, at, g.testCase(lines[at.index]).value);
  }

  lemma CaseStepEnds(g: Grammar, origin: Origin, lines: seq<string>, at: Position,
      header: (string, string, Option<string>))
    requires at.index < |lines|
    ensures var (next, report) := CaseStep(g, origin, lines, at, header);
            FindClose(lines, at.index + 1) < |lines| ==>
              report.cases != [] && next.index == FindClose(lines, at.index + 1) + 1
  {
    hide FindClose, CaseReport;
    CaseReportHasCase(g, origin, lines, at, header);
  }

  lemma CaseReportHasCase(g: Grammar, origin: Origin, lines: seq<string>, at: Position,
      header: (string, string, Option<string>))
    requires at.index < |lines|
    ensures forall end :: at.index < end < |lines| ==> CaseReport(g, origin, lines, at, header, end).cases != []
  {
    hide TextSha, DocSha, Guards, RefsOf, LiteralsOf, Strip;
  }

  /** A line which is no test case reports its own data files at most. */
  lemma TextIsQuiet(g: Grammar, origin: Origin, lines: seq<string>, at: Position)
    requires at.index < |lines| && OneKind(g, lines[at.index]) && g.testCase(lines[at.index]).None? && Plain(g)
    ensures var line, report := lines[at.index], Step(g, origin, lines, at).1;
            var counts := !IsDirective(g, line) && g.inclusion(line).None?;
            && report.cases == []
            && report.refs == (if counts then g.dataRefs(line) else {})
            && report.literals == (if counts then g.dataLiterals(line) else {})
  {
    hide SpaceReport, Strip, Closes, OpenIndex, Pushed, Extended;
    if g.namespaceOpen(lines[at.index]).Some? {
      SpaceIsQuiet(g, origin, lines, at, g.namespaceOpen(lines[at.index]).value.0,
          g.namespaceOpen(lines[at.index]).value.1);
    }
  }

  lemma SpaceIsQuiet(g: Grammar, origin: Origin, lines: seq<string>, at: Position, title: Option<string>, brace: bool)
    requires at.index < |lines|
    ensures var report := SpaceStep(g, origin, lines, at, title, brace).1;
            report.cases == [] && report.refs == {} && report.literals == {}
  {
    hide FindClose, TextSha, Strip, SplitFrom, MembersOf, Uncovered, Qualified, OpenIndex;
  }

  /** What one step reports is what the lines hold which it reads or passes over. */
  lemma StepHolds(g: Grammar, origin: Origin, lines: seq<string>, at: Position, cases: seq<Case>)
    requires at.index < |lines| && Regular(g) && Plain(g) && AllCases(g, origin, lines, at, cases)
    ensures var (next, report) := Step(g, origin, lines, at);
            at.index < next.index <= |lines| && Holds(g, lines, cases, report, at.index, next.index)
  {
    hide TextStep, Directive, FindClose, Inside, AllCases, Closes, Strip, Holds;
    var n, line := at.index, lines[at.index];
    var (next, report) := Step(g, origin, lines, at);
    StepPasses(g, origin, lines, at);
    NextAllCases(g, origin, lines, at, cases);
    DirectiveIsDirective(g, lines, at);
    forall j | n <= j < |lines| ensures OneKind(g, lines[j]) {
    }
    if g.testCase(line).Some? {
      CaseIsText(g, origin, lines, at);
      CaseHolds(g, origin, lines, cases, at);
    } else {
      TextIsQuiet(g, origin, lines, at);
      StepHasNoProblem(g, origin, lines, at);
      LineHolds(g, lines, cases, report, n, next.index);
    }
  }

  lemma {:induction false} ScanHolds(g: Grammar, origin: Origin, lines: seq<string>, at: Position, cases: seq<Case>)
    requires at.index <= |lines| && Regular(g) && Plain(g) && AllCases(g, origin, lines, at, cases)
    ensures Holds(g, lines, cases, ScanFrom(g, origin, lines, at).1, at.index, |lines|)
    decreases |lines| - at.index
  {
    hide Step, Holds, AllCases, Regular, Plain, Plus;
    if at.index == |lines| {
      NothingHeld(g, lines, cases, at.index);
    } else {
      var (next, report) := Step(g, origin, lines, at);
      NextAllCases(g, origin, lines, at, cases);
      StepHolds(g, origin, lines, at, cases);
      ScanHolds(g, origin, lines, next, cases);
      HoldsJoin(g, lines, cases, report, ScanFrom(g, origin, lines, next).1, at.index, next.index, |lines|);
    }
  }

  /** The data files of a scan are those named on the lines of cases and on all other lines but directives and
      includes; a test case line without a closing brace below it is reported as a problem, and so is every
      reported case whose next line is no lone brace. */
  lemma DataAndProblemsMean(g: Grammar, origin: Origin, lines: seq<string>)
    requires Regular(g) && Plain(g)
    ensures var report := Scan(g, origin, lines).1; Holds(g, lines, report.cases, report, 0, |lines|)
  {
    hide ScanFrom, Holds, Regular, Plain;
    ScanBegins(g, origin, lines);
    ScanHolds(g, origin, lines, BEGIN, Scan(g, origin, lines).1.cases);
  }

  /** The headers included on the lines from `lo` up to `hi`, those inside cases left out. */
  function IncludesAt(g: Grammar, lines: seq<string>, cases: seq<Case>, lo: nat, hi: nat): seq<string>
    requires lo <= hi <= |lines|
    decreases hi - lo
  {
    if lo == hi then []
    else
      (if !Inside(lines, cases, lo) && g.inclusion(lines[lo]).Some? then [g.inclusion(lines[lo]).value] else [])
      + IncludesAt(g, lines, cases, lo + 1, hi)
  }

  /** The namespace blocks which open on these lines: each reaches down to the first brace at column 0 below its opening
      brace, or to the end. */
  function BlocksAt(g: Grammar, origin: Origin, lines: seq<string>, cases: seq<Case>, lo: nat, hi: nat): seq<Block>
    requires lo <= hi <= |lines|
    decreases hi - lo
  {
    if lo == hi then []
    else
      (if !Inside(lines, cases, lo) then BlockAt(g, origin, lines, lo) else [])
      + BlocksAt(g, origin, lines, cases, lo + 1, hi)
  }

  function BlockAt(g: Grammar, origin: Origin, lines: seq<string>, j: nat): seq<Block>
    requires j < |lines|
  {
    match g.namespaceOpen(lines[j])
    case None => []
    case Some((title, brace)) =>
      if !brace && (j + 1 == |lines| || Strip(g, lines[j + 1]) != "{") then []
      else
        var close := FindClose(lines, if brace then j + 1 else j + 2);
        var stop := if close < |lines| then close + 1 else |lines|;
        [Block(origin, j + 1, if title.Some? then title.value else "<anonymous>", TextSha(g, lines[j..stop]))]
  }

  lemma QuietLine(g: Grammar, origin: Origin, lines: seq<string>, cases: seq<Case>, lo: nat, hi: nat)
    requires lo < hi <= |lines|
    requires Inside(lines, cases, lo) || (g.inclusion(lines[lo]).None? && g.namespaceOpen(lines[lo]).None?)
    ensures IncludesAt(g, lines, cases, lo, hi) == IncludesAt(g, lines, cases, lo + 1, hi)
    ensures BlocksAt(g, origin, lines, cases, lo, hi) == BlocksAt(g, origin, lines, cases, lo + 1, hi)
  {
    hide Inside, FindClose, TextSha, Strip;
  }

  /** Lines inside cases, and lone braces, add nothing. */
  lemma {:induction false} QuietLines(g: Grammar, origin: Origin, lines: seq<string>, cases: seq<Case>,
      lo: nat, mid: nat, hi: nat)
    requires lo <= mid <= hi <= |lines|
    requires forall j :: lo <= j < mid ==>
               Inside(lines, cases, j) || (g.inclusion(lines[j]).None? && g.namespaceOpen(lines[j]).None?)
    ensures IncludesAt(g, lines, cases, lo, hi) == IncludesAt(g, lines, cases, mid, hi)
    ensures BlocksAt(g, origin, lines, cases, lo, hi) == BlocksAt(g, origin, lines, cases, mid, hi)
    decreases mid - lo
  {
    hide Inside, IncludesAt, BlocksAt;
    if lo == mid {
    } else {
      QuietLine(g, origin, lines, cases, lo, hi);
      QuietLines(g, origin, lines, cases, lo + 1, mid, hi);
    }
  }

  lemma StepLists(g: Grammar, origin: Origin, lines: seq<string>, at: Position)
    requires at.index < |lines| && OneKind(g, lines[at.index])
    ensures var line, report := lines[at.index], Step(g, origin, lines, at).1;
            && report.includes == (if g.inclusion(line).Some? then [g.inclusion(line).value] else [])
            && report.blocks == BlockAt(g, origin, lines, at.index)
  {
    hide CaseStep, SpaceStep, Closes, Strip, Directive, BlockAt;
    var line := lines[at.index];
    DirectiveIsDirective(g, lines, at);
    if g.testCase(line).Some? {
      CaseLists(g, origin, lines, at, g.testCase(line).value);
    }
    SpaceLists(g, origin, lines, at);
    NoBlockAt(g, origin, lines, at.index);
  }

  lemma NoBlockAt(g: Grammar, origin: Origin, lines: seq<string>, j: nat)
    requires j < |lines|
    ensures g.namespaceOpen(lines[j]).None? ==> BlockAt(g, origin, lines, j) == []
  {
  }

  lemma CaseLists(g: Grammar, origin: Origin, lines: seq<string>, at: Position,
      header: (string, string, Option<string>))
    requires at.index < |lines|
    ensures var report := CaseStep(g, origin, lines, at, header).1; report.includes == [] && report.blocks == []
  {
    hide TextSha, DocSha, Guards, RefsOf, LiteralsOf, Strip, FindClose;
  }

  lemma SpaceLists(g: Grammar, origin: Origin, lines: seq<string>, at: Position)
    requires at.index < |lines|
    ensures g.namespaceOpen(lines[at.index]).Some? ==>
              (var (title, brace) := g.namespaceOpen(lines[at.index]).value;
               var report := SpaceStep(g, origin, lines, at, title, brace).1;
               report.includes == [] && report.blocks == BlockAt(g, origin, lines, at.index))
  {
    hide TextSha, Strip, FindClose, SplitFrom, MembersOf, Uncovered, Qualified;
  }

  lemma {:induction false} ListsFollow(g: Grammar, origin: Origin, lines: seq<string>, at: Position, cases: seq<Case>)
    requires at.index <= |lines| && Regular(g) && AllCases(g, origin, lines, at, cases)
    ensures var report := ScanFrom(g, origin, lines, at).1;
            && report.includes == IncludesAt(g, lines, cases, at.index, |lines|)
            && report.blocks == BlocksAt(g, origin, lines, cases, at.index, |lines|)
    decreases |lines| - at.index
  {
    hide Step, AllCases, Inside, BlockAt, Closes, Strip, FindClose;
    if at.index == |lines| {
    } else {
      var (next, report) := Step(g, origin, lines, at);
      StepPasses(g, origin, lines, at);
      NextAllCases(g, origin, lines, at, cases);
      forall j | at.index <= j < |lines| ensures OneKind(g, lines[j]) {
      }
      StepLists(g, origin, lines, at);
      QuietLines(g, origin, lines, cases, at.index + 1, next.index, |lines|);
      ListsFollow(g, origin, lines, next, cases);
    }
  }

  /** The includes and the namespace blocks of a scan are those of the lines outside the cases, in their order. */
  lemma IncludesAndBlocksMean(g: Grammar, origin: Origin, lines: seq<string>)
    requires Regular(g)
    ensures var report := Scan(g, origin, lines).1;
            && report.includes == IncludesAt(g, lines, report.cases, 0, |lines|)
            && report.blocks == BlocksAt(g, origin, lines, report.cases, 0, |lines|)
  {
    hide ScanFrom, Regular;
    ScanBegins(g, origin, lines);
    ListsFollow(g, origin, lines, BEGIN, Scan(g, origin, lines).1.cases);
  }

  // ---------------------------------------------------------------- helper members

  /** The namespaces open before line `j`, outermost first. */
  function PathAt(g: Grammar, lines: seq<string>, cases: seq<Case>, j: nat): seq<string>
    requires j <= |lines|
  {
    Guards(StackOf(SpaceEvents(g, lines, cases, j)))
  }

  lemma PathMeans(g: Grammar, lines: seq<string>, cases: seq<Case>, j: nat) returns (positions: seq<nat>)
    requires j <= |lines|
    ensures TextsOfOpen(SpaceEvents(g, lines, cases, j), positions, PathAt(g, lines, cases, j))
  {
    hide TextsOfOpen, OpenAt, StackOf, Guards, SpaceEvents;
    var es := SpaceEvents(g, lines, cases, j);
    var open := StackMeans(es);
    positions := SomeTexts(es, open, StackOf(es));
  }

  /** The members of a block which opens on line `j`, inside the namespaces of `path`: its lines run from behind the
      opening brace to the next closing brace at column 0, or to the end. */
  function MembersAt(g: Grammar, origin: Origin, lines: seq<string>, path: seq<string>, j: nat): seq<Member>
    requires j < |lines|
  {
    match g.namespaceOpen(lines[j])
    case None => []
    case Some((title, brace)) =>
      if !brace && (j + 1 == |lines| || Strip(g, lines[j + 1]) != "{") then []
      else
        var first := if brace then j + 1 else j + 2;
        var ns := Qualified(path + [if title.Some? then title.value else "<anonymous>"]);
        SpansInRange(g, lines, first, FindClose(lines, first));
        MembersOf(g, origin, lines, ns, SplitFrom(g, lines, first, FindClose(lines, first)))
  }

  /** The members of all blocks which open on these lines, those inside cases left out. */
  function MembersIn(g: Grammar, origin: Origin, lines: seq<string>, cases: seq<Case>, lo: nat, hi: nat): seq<Member>
    requires lo <= hi <= |lines|
    decreases hi - lo
  {
    if lo == hi then []
    else
      (if !Inside(lines, cases, lo) then MembersAt(g, origin, lines, PathAt(g, lines, cases, lo), lo) else [])
      + MembersIn(g, origin, lines, cases, lo + 1, hi)
  }

  lemma NoMember(g: Grammar, origin: Origin, lines: seq<string>, cases: seq<Case>, lo: nat, hi: nat)
    requires lo < hi <= |lines| && (Inside(lines, cases, lo) || g.namespaceOpen(lines[lo]).None?)
    ensures MembersIn(g, origin, lines, cases, lo, hi) == MembersIn(g, origin, lines, cases, lo + 1, hi)
  {
    hide Inside, FindClose, Strip, PathAt, SplitFrom, MembersOf, Qualified;
  }

  lemma {:induction false} NoMembers(g: Grammar, origin: Origin, lines: seq<string>, cases: seq<Case>,
      lo: nat, mid: nat, hi: nat)
    requires lo <= mid <= hi <= |lines|
    requires forall j :: lo <= j < mid ==> Inside(lines, cases, j) || g.namespaceOpen(lines[j]).None?
    ensures MembersIn(g, origin, lines, cases, lo, hi) == MembersIn(g, origin, lines, cases, mid, hi)
    decreases mid - lo
  {
    hide Inside, MembersIn;
    if lo == mid {
    } else {
      NoMember(g, origin, lines, cases, lo, hi);
      NoMembers(g, origin, lines, cases, lo + 1, mid, hi);
    }
  }

  lemma StepMembers(g: Grammar, origin: Origin, lines: seq<string>, at: Position)
    requires at.index < |lines| && OneKind(g, lines[at.index])
    ensures Step(g, origin, lines, at).1.members == MembersAt(g, origin, lines, at.spaces, at.index)
  {
    hide CaseStep, SpaceStep, Closes, Strip, Directive, FindClose, SplitFrom, MembersOf, Qualified;
    var line := lines[at.index];
    DirectiveIsDirective(g, lines, at);
    if g.testCase(line).Some? {
      CaseHasNoMembers(g, origin, lines, at, g.testCase(line).value);
    }
    SpaceMembers(g, origin, lines, at);
  }

  lemma CaseHasNoMembers(g: Grammar, origin: Origin, lines: seq<string>, at: Position,
      header: (string, string, Option<string>))
    requires at.index < |lines|
    ensures CaseStep(g, origin, lines, at, header).1.members == []
  {
    hide TextSha, DocSha, Guards, RefsOf, LiteralsOf, Strip, FindClose;
  }

  lemma SpaceMembers(g: Grammar, origin: Origin, lines: seq<string>, at: Position)
    requires at.index < |lines|
    ensures g.namespaceOpen(lines[at.index]).Some? ==>
              var (title, brace) := g.namespaceOpen(lines[at.index]).value;
              SpaceStep(g, origin, lines, at, title, brace).1.members ==
              MembersAt(g, origin, lines, at.spaces, at.index)
  {
    hide TextSha, Strip, FindClose, SplitFrom, MembersOf, Uncovered, Qualified;
  }

  lemma {:induction false} MembersFollow(g: Grammar, origin: Origin, lines: seq<string>, at: Position,
      cases: seq<Case>)
    requires at.index <= |lines| && Regular(g) && AllCases(g, origin, lines, at, cases)
    requires Known(at.spaces) == StackOf(SpaceEvents(g, lines, cases, at.index))
    ensures ScanFrom(g, origin, lines, at).1.members == MembersIn(g, origin, lines, cases, at.index, |lines|)
    decreases |lines| - at.index
  {
    hide Step, FindClose, StackOf, Apply, Inside, AllCases, SpaceEvents, SpaceEvent, Guards, Closes, Strip, MembersAt;
    if at.index == |lines| {
    } else {
      var (next, report) := Step(g, origin, lines, at);
      NextStacks(g, origin, lines, at, cases);
      NextAllCases(g, origin, lines, at, cases);
      forall j | at.index <= j < |lines| ensures OneKind(g, lines[j]) {
      }
      StepSpaces(g, origin, lines, at);
      StepPasses(g, origin, lines, at);
      StepMembers(g, origin, lines, at);
      KnownTexts(at.spaces);
      NoMembers(g, origin, lines, cases, at.index + 1, next.index, |lines|);
      MembersFollow(g, origin, lines, next, cases);
    }
  }

  /** The helper members of a scan are those of the blocks which open on the lines outside the cases, in their order,
      each block under the path of the namespaces open there and its own name. */
  lemma MembersMean(g: Grammar, origin: Origin, lines: seq<string>)
    requires Regular(g)
    ensures var report := Scan(g, origin, lines).1;
            report.members == MembersIn(g, origin, lines, report.cases, 0, |lines|)
  {
    hide ScanFrom, Regular, MembersIn, StackOf, SpaceEvents;
    ScanBegins(g, origin, lines);
    MembersFollow(g, origin, lines, BEGIN, Scan(g, origin, lines).1.cases);
  }
}
