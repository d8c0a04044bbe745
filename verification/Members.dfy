/** Lines of a test header, and splitting a helper block into members (scripts/utests/utf_inventory.py). */
module Members {
  import opened Wrappers

  /** What the scanner's regular expressions and string operations say about one line. */
  datatype Grammar = Grammar(
    isSpace: char -> bool,
    condOpen: string -> Option<(string, string)>,
    condMid: string -> Option<(string, string)>,
    condClose: string -> bool,
    inclusion: string -> Option<string>,
    defined: string -> Option<string>,
    testCase: string -> Option<(string, string, Option<string>)>,
    namespaceOpen: string -> Option<(Option<string>, bool)>,
    dataRefs: string -> set<string>,
    dataLiterals: string -> set<string>,
    withoutLiterals: string -> string,
    sha: string -> string)

  function LeftStrip(g: Grammar, s: string): string {
    if s != "" && g.isSpace(s[0]) then LeftStrip(g, s[1..]) else s
  }

  function RightStrip(g: Grammar, s: string): string {
    if s != "" && g.isSpace(s[|s| - 1]) then RightStrip(g, s[..|s| - 1]) else s
  }

  function Strip(g: Grammar, s: string): string {
    RightStrip(g, LeftStrip(g, s))
  }

  predicate Blank(g: Grammar, line: string) {
    Strip(g, line) == ""
  }

  function Count(s: string, c: char): nat {
    if s == "" then 0 else (if s[0] == c then 1 else 0) + Count(s[1..], c)
  }

  /** Net bracket depth of one line, literals and line comments removed. */
  function BracketDelta(g: Grammar, line: string): int {
    var text := g.withoutLiterals(line);
    Count(text, '{') + Count(text, '(') + Count(text, '[') - Count(text, '}') - Count(text, ')') - Count(text, ']')
  }

  /** The bracket depth after line `j` of a member which starts at `first`. */
  function Depth(g: Grammar, lines: seq<string>, first: nat, j: nat): int
    requires first <= j < |lines|
    decreases j
  {
    (if j == first then 0 else Depth(g, lines, first, j - 1)) + BracketDelta(g, lines[j])
  }

  /** A member which starts at `first` may end after line `j`. */
  predicate Closed(g: Grammar, lines: seq<string>, first: nat, j: nat, stop: nat)
    requires first <= j < stop <= |lines|
  {
    Depth(g, lines, first, j) <= 0 && (j + 1 == stop || Blank(g, lines[j + 1]))
  }

  // ---------------------------------------------------------------- what stripping and counting mean

  ghost predicate AllSpace(g: Grammar, s: string) {
    forall i :: 0 <= i < |s| ==> g.isSpace(s[i])
  }

  /** `core` is `s` without the white space around it. */
  ghost predicate IsStripped(g: Grammar, s: string, core: string) {
    && (core != "" ==> !g.isSpace(core[0]) && !g.isSpace(core[|core| - 1]))
    && exists left, right :: s == left + core + right && AllSpace(g, left) && AllSpace(g, right)
  }

  lemma {:induction false} RightStripMeans(g: Grammar, s: string)
    ensures var core := RightStrip(g, s);
            && core <= s && AllSpace(g, s[|core|..]) && (core != "" ==> !g.isSpace(core[|core| - 1]))
  {
    if s == "" || !g.isSpace(s[|s| - 1]) {
    } else {
      RightStripMeans(g, s[..|s| - 1]);
    }
  }

  lemma {:induction false} LeftStripMeans(g: Grammar, s: string)
    ensures var core := LeftStrip(g, s);
            && |core| <= |s| && core == s[|s| - |core|..] && AllSpace(g, s[..|s| - |core|])
            && (core != "" ==> !g.isSpace(core[0]))
  {
    if s == "" || !g.isSpace(s[0]) {
    } else {
      LeftStripMeans(g, s[1..]);
      assert s == [s[0]] + s[1..];
    }
  }

  lemma CoreShows(g: Grammar, left: string, core: string, right: string)
    ensures core != "" && !g.isSpace(core[0]) ==> !AllSpace(g, left + core + right)
  {
    var s := left + core + right;
    if core != "" {
      assert s[|left|] == core[0];
    }
  }

  lemma StripMeans(g: Grammar, s: string)
    ensures IsStripped(g, s, Strip(g, s))
    ensures Blank(g, s) <==> AllSpace(g, s)
  {
    var l := LeftStrip(g, s);
    LeftStripMeans(g, s);
    RightStripMeans(g, l);
    var core := RightStrip(g, l);
    var left, right := s[..|s| - |l|], l[|core|..];
    assert s == left + core + right;
    CoreShows(g, left, core, right);
    if core == "" {
      assert s == left + right;
    }
  }

  function Weight(c: char): int {
    if c in {'{', '(', '['} then 1 else if c in {'}', ')', ']'} then -1 else 0
  }

  /** The sum of the weights of the characters. */
  function Weights(text: string): int {
    if text == "" then 0 else Weight(text[0]) + Weights(text[1..])
  }

  lemma {:induction false} CountsWeigh(text: string)
    ensures Weights(text) ==
            Count(text, '{') + Count(text, '(')
                + Count(text, '[') - Count(text, '}') - Count(text, ')') - Count(text, ']')
  {
    if text == "" {
    } else {
      CountsWeigh(text[1..]);
    }
  }

  /** A bracket of either kind counts, whatever its shape. */
  lemma BracketDeltaMeans(g: Grammar, line: string)
    ensures BracketDelta(g, line) == Weights(g.withoutLiterals(line))
  {
    CountsWeigh(g.withoutLiterals(line));
  }

  lemma {:induction false} WeightsJoin(x: string, y: string)
    ensures Weights(x + y) == Weights(x) + Weights(y)
  {
    if x == "" {
      assert x + y == y;
    } else {
      assert (x + y)[1..] == x[1..] + y;
      WeightsJoin(x[1..], y);
    }
  }

  /** The text of some lines without literals and comments. */
  function TextOf(g: Grammar, lines: seq<string>): string {
    if lines == [] then "" else TextOf(g, lines[..|lines| - 1]) + g.withoutLiterals(lines[|lines| - 1])
  }

  lemma NoText(g: Grammar)
    ensures Weights(TextOf(g, [])) == 0
  {
  }

  /** The depth after a line is what the brackets from the start of the member to that line weigh. */
  lemma {:induction false} DepthMeans(g: Grammar, lines: seq<string>, first: nat, j: nat)
    requires first <= j < |lines|
    ensures Depth(g, lines, first, j) == Weights(TextOf(g, lines[first..j + 1]))
    decreases j
  {
    hide BracketDelta, Weights;
    var all := lines[first..j + 1];
    BracketDeltaMeans(g, lines[j]);
    assert all[..|all| - 1] == lines[first..j];
    WeightsJoin(TextOf(g, lines[first..j]), g.withoutLiterals(lines[j]));
    if j == first {
      assert lines[first..j] == [];
      NoText(g);
    } else {
      DepthMeans(g, lines, first, j - 1);
    }
  }

  // ---------------------------------------------------------------- the splitter

  /** The first index after the member which starts at `first`, lines before `index` being part of it. */
  function MemberEnd(g: Grammar, lines: seq<string>, first: nat, index: nat, stop: nat): (end: nat)
    requires first <= index < stop <= |lines|
    ensures index < end <= stop
    decreases stop - index
  {
    if index + 1 == stop || Closed(g, lines, first, index, stop) then index + 1
    else MemberEnd(g, lines, first, index + 1, stop)
  }

  function SplitFrom(g: Grammar, lines: seq<string>, index: nat, stop: nat): seq<(nat, nat)>
    requires stop <= |lines|
    decreases if index < stop then stop - index else 0
  {
    if index >= stop then []
    else if Blank(g, lines[index]) then SplitFrom(g, lines, index + 1, stop)
    else
      var end := MemberEnd(g, lines, index, index, stop);
      [(index, end - 1)] + SplitFrom(g, lines, end, stop)
  }

  method SplitMembers(g: Grammar, lines: seq<string>, start: nat, stop: nat) returns (members: seq<(nat, nat)>)
    requires stop <= |lines|
    ensures members == SplitFrom(g, lines, start, stop)
  {
    hide Blank, BracketDelta, MemberEnd, SplitFrom, Closed, Depth;
    members := [];
    var index := start;
    while index < stop
      invariant members + SplitFrom(g, lines, index, stop) == SplitFrom(g, lines, start, stop)
    {
      SplitStep(g, lines, index, stop);
      if Blank(g, lines[index]) {
        index := index + 1;
        continue;
      }
      var first := index;
      var depth := 0;
      ghost var end := MemberEnd(g, lines, first, first, stop);
      while index < stop
        invariant first <= index <= stop
        invariant depth == if index == first then 0 else Depth(g, lines, first, index - 1)
        invariant if index < stop then end == MemberEnd(g, lines, first, index, stop) else end == stop
      {
        MemberStep(g, lines, first, index, stop);
        depth := depth + BracketDelta(g, lines[index]);
        index := index + 1;
        if depth <= 0 && (index >= stop || Blank(g, lines[index])) {
          break;
        }
      }
      assert members + ([(first, end - 1)] + SplitFrom(g, lines, end, stop)) ==
          members + [(first, end - 1)] + SplitFrom(g, lines, end, stop);
      members := members + [(first, index - 1)];
    }
    SplitStep(g, lines, index, stop);
    assert members + [] == members;
  }

  lemma SplitStep(g: Grammar, lines: seq<string>, index: nat, stop: nat)
    requires stop <= |lines|
    ensures index >= stop ==> SplitFrom(g, lines, index, stop) == []
    ensures index < stop && Blank(g, lines[index]) ==>
        SplitFrom(g, lines, index, stop) == SplitFrom(g, lines, index + 1, stop)
    ensures index < stop && !Blank(g, lines[index]) ==>
              (var end := MemberEnd(g, lines, index, index, stop);
               SplitFrom(g, lines, index, stop) == [(index, end - 1)] + SplitFrom(g, lines, end, stop))
  {
  }

  lemma MemberStep(g: Grammar, lines: seq<string>, first: nat, index: nat, stop: nat)
    requires first <= index < stop <= |lines|
    ensures Depth(g, lines, first, index) ==
        (if index == first then 0 else Depth(g, lines, first, index - 1)) + BracketDelta(g, lines[index])
    ensures Closed(g, lines, first, index, stop) <==>
            Depth(g, lines, first, index) <= 0 && (index + 1 == stop || Blank(g, lines[index + 1]))
    ensures MemberEnd(g, lines, first, index, stop) ==
            if index + 1 == stop || Closed(g, lines, first, index, stop) then index + 1
                else MemberEnd(g, lines, first, index + 1, stop)
  {
  }

  // ---------------------------------------------------------------- what a split is

  /** Ordered, disjoint, non-empty ranges which start at non-blank lines, cover every non-blank line, and
      end at the first place they may. */
  ghost predicate IsSplit(g: Grammar, lines: seq<string>, start: nat, stop: nat, members: seq<(nat, nat)>)
    requires stop <= |lines|
  {
    && (forall i :: 0 <= i < |members| ==> start <= members[i].0 <= members[i].1 < stop)
    && (forall i, j :: 0 <= i < j < |members| ==> members[i].1 < members[j].0)
    && (forall i :: 0 <= i < |members| ==> MemberOk(g, lines, stop, members[i]))
    && (forall k :: start <= k < stop && !Blank(g, lines[k]) ==> Covered(members, k))
  }

  ghost predicate MemberOk(g: Grammar, lines: seq<string>, stop: nat, m: (nat, nat))
    requires stop <= |lines|
  {
    && m.0 <= m.1 < stop
    && !Blank(g, lines[m.0])
    && (m.1 + 1 == stop || Closed(g, lines, m.0, m.1, stop))
    && forall j :: m.0 <= j < m.1 ==> !Closed(g, lines, m.0, j, stop)
  }

  predicate Covered(members: seq<(nat, nat)>, k: nat) {
    exists i :: 0 <= i < |members| && members[i].0 <= k <= members[i].1
  }

  lemma {:induction false} MemberEndIsFirst(g: Grammar, lines: seq<string>, first: nat, index: nat, stop: nat)
    requires first <= index < stop <= |lines|
    ensures var last := MemberEnd(g, lines, first, index, stop) - 1;
            && (last + 1 == stop || Closed(g, lines, first, last, stop))
            && forall j :: index <= j < last ==> !Closed(g, lines, first, j, stop)
    decreases stop - index
  {
    hide Closed;
    if index + 1 == stop || Closed(g, lines, first, index, stop) {
    } else {
      MemberEndIsFirst(g, lines, first, index + 1, stop);
    }
  }

  /** The splitter splits: the diagnostic for an uncovered line can never fire. */
  lemma {:induction false} SplitFromSplits(g: Grammar, lines: seq<string>, start: nat, stop: nat)
    requires stop <= |lines|
    ensures IsSplit(g, lines, start, stop, SplitFrom(g, lines, start, stop))
    decreases if start < stop then stop - start else 0
  {
    hide Blank, Closed;
    if start >= stop {
    } else {
      hide MemberOk, Covered;
      if Blank(g, lines[start]) {
        SplitFromSplits(g, lines, start + 1, stop);
      } else {
        var end := MemberEnd(g, lines, start, start, stop);
        MemberEndIsFirst(g, lines, start, start, stop);
        SplitFromSplits(g, lines, end, stop);
        PrependMember(g, lines, (start, end - 1), stop, SplitFrom(g, lines, end, stop));
      }
    }
  }

  lemma PrependMember(g: Grammar, lines: seq<string>, m: (nat, nat), stop: nat, rest: seq<(nat, nat)>)
    requires stop <= |lines| && MemberOk(g, lines, stop, m) && IsSplit(g, lines, m.1 + 1, stop, rest)
    ensures IsSplit(g, lines, m.0, stop, [m] + rest)
  {
    hide Blank, MemberOk;
    var members := [m] + rest;
    assert m.0 <= m.1 < stop by { MemberRange(g, lines, stop, m); }
    assert forall i :: 0 < i < |members| ==> members[i] == rest[i - 1];
    forall k | m.0 <= k < stop && !Blank(g, lines[k]) ensures Covered(members, k) {
      if k <= m.1 {
        assert members[0].0 <= k <= members[0].1;
      } else {
        assert Covered(rest, k);
        var i :| 0 <= i < |rest| && rest[i].0 <= k <= rest[i].1;
        assert members[i + 1] == rest[i];
      }
    }
  }

  lemma MemberRange(g: Grammar, lines: seq<string>, stop: nat, m: (nat, nat))
    requires stop <= |lines| && MemberOk(g, lines, stop, m)
    ensures m.0 <= m.1 < stop
  {
  }

  /** And it is the only way to split a block. */
  lemma {:induction false} SplitIsUnique(g: Grammar, lines: seq<string>, start: nat, stop: nat,
      members: seq<(nat, nat)>)
    requires stop <= |lines| && IsSplit(g, lines, start, stop, members)
    ensures members == SplitFrom(g, lines, start, stop)
    decreases if start < stop then stop - start else 0
  {
    hide Blank, Closed, MemberEnd, MemberOk, Covered;
    if start >= stop {
      assert |members| == 0;
    } else if Blank(g, lines[start]) {
      SkipBlank(g, lines, start, stop, members);
      SplitIsUnique(g, lines, start + 1, stop, members);
    } else {
      FirstMember(g, lines, start, stop, members);
      SplitIsUnique(g, lines, members[0].1 + 1, stop, members[1..]);
      assert members == [members[0]] + members[1..];
    }
  }

  lemma SkipBlank(g: Grammar, lines: seq<string>, start: nat, stop: nat, members: seq<(nat, nat)>)
    requires start < stop <= |lines| && IsSplit(g, lines, start, stop, members) && Blank(g, lines[start])
    ensures IsSplit(g, lines, start + 1, stop, members)
  {
    hide Blank, Closed, Covered;
    forall i | 0 <= i < |members| ensures members[i].0 != start {
      assert MemberOk(g, lines, stop, members[i]);
    }
  }

  lemma FirstMember(g: Grammar, lines: seq<string>, start: nat, stop: nat, members: seq<(nat, nat)>)
    requires start < stop <= |lines| && IsSplit(g, lines, start, stop, members) && !Blank(g, lines[start])
    ensures members != [] && members[0] == (start, MemberEnd(g, lines, start, start, stop) - 1)
    ensures IsSplit(g, lines, members[0].1 + 1, stop, members[1..])
  {
    hide Blank, MemberOk, MemberEnd;
    assert Covered(members, start);
    var i :| 0 <= i < |members| && members[i].0 <= start <= members[i].1;
    assert members[0].0 == start;
    assert MemberOk(g, lines, stop, members[0]);
    MemberEndsThere(g, lines, stop, members[0]);
    DropFirst(g, lines, start, stop, members);
  }

  lemma MemberEndsThere(g: Grammar, lines: seq<string>, stop: nat, m: (nat, nat))
    requires stop <= |lines| && MemberOk(g, lines, stop, m)
    ensures m.1 == MemberEnd(g, lines, m.0, m.0, stop) - 1
  {
    hide Blank, Closed;
    MemberEndIsFirst(g, lines, m.0, m.0, stop);
    SameEnd(g, lines, m.0, stop, m.1, MemberEnd(g, lines, m.0, m.0, stop) - 1);
  }

  lemma DropFirst(g: Grammar, lines: seq<string>, start: nat, stop: nat, members: seq<(nat, nat)>)
    requires stop <= |lines| && IsSplit(g, lines, start, stop, members) && members != []
    ensures IsSplit(g, lines, members[0].1 + 1, stop, members[1..])
  {
    hide Blank, MemberOk;
    var rest := members[1..];
    assert forall j :: 0 <= j < |rest| ==> rest[j] == members[j + 1];
    forall k | members[0].1 < k < stop && !Blank(g, lines[k]) ensures Covered(rest, k) {
      assert Covered(members, k);
      var j :| 0 <= j < |members| && members[j].0 <= k <= members[j].1;
      assert rest[j - 1] == members[j];
    }
  }

  lemma SameEnd(g: Grammar, lines: seq<string>, first: nat, stop: nat, last: nat, other: nat)
    requires stop <= |lines| && first <= last < stop && first <= other < stop
    requires last + 1 == stop || Closed(g, lines, first, last, stop)
    requires other + 1 == stop || Closed(g, lines, first, other, stop)
    requires forall j :: first <= j < last ==> !Closed(g, lines, first, j, stop)
    requires forall j :: first <= j < other ==> !Closed(g, lines, first, j, stop)
    ensures last == other
  {
  }

  // ---------------------------------------------------------------- moving a block

  function Shifted(members: seq<(nat, nat)>, offset: nat): (out: seq<(nat, nat)>)
    ensures |out| == |members| && forall i :: 0 <= i < |members| ==>
        out[i] == (members[i].0 + offset, members[i].1 + offset)
  {
    seq(|members|, i requires 0 <= i < |members| => (members[i].0 + offset, members[i].1 + offset))
  }

  /** `moved` holds the lines of `lines` up to `stop`, `offset` lines further down. */
  ghost predicate Moved(lines: seq<string>, stop: nat, moved: seq<string>, offset: nat) {
    stop <= |lines| && offset + stop <= |moved| && forall k :: 0 <= k < stop ==> moved[offset + k] == lines[k]
  }

  lemma {:induction false} DepthMoves(g: Grammar, lines: seq<string>, moved: seq<string>, offset: nat, stop: nat,
      first: nat, j: nat)
    requires Moved(lines, stop, moved, offset) && first <= j < stop
    ensures Depth(g, moved, offset + first, offset + j) == Depth(g, lines, first, j)
    decreases j
  {
    if j <= first {
    } else {
      DepthMoves(g, lines, moved, offset, stop, first, j - 1);
    }
  }

  lemma {:induction false} MemberEndMoves(g: Grammar, lines: seq<string>, moved: seq<string>, offset: nat, first: nat,
      index: nat, stop: nat)
    requires Moved(lines, stop, moved, offset) && first <= index < stop
    ensures MemberEnd(g, moved, offset + first, offset + index, offset + stop) ==
        offset + MemberEnd(g, lines, first, index, stop)
    decreases stop - index
  {
    hide Blank;
    DepthMoves(g, lines, moved, offset, stop, first, index);
    if index + 1 < stop {
      assert moved[offset + (index + 1)] == lines[index + 1];
      if !Closed(g, lines, first, index, stop) {
        MemberEndMoves(g, lines, moved, offset, first, index + 1, stop);
      }
    }
  }

  /** Moving a block moves its members. */
  lemma {:induction false} SplitMoves(g: Grammar, lines: seq<string>, moved: seq<string>, offset: nat, index: nat,
      stop: nat)
    requires Moved(lines, stop, moved, offset)
    ensures SplitFrom(g, moved, offset + index, offset + stop) == Shifted(SplitFrom(g, lines, index, stop), offset)
    decreases if index < stop then stop - index else 0
  {
    hide Blank, MemberEnd;
    if index >= stop {
    } else {
      assert moved[offset + index] == lines[index];
      if Blank(g, lines[index]) {
        SplitMoves(g, lines, moved, offset, index + 1, stop);
      } else {
        MemberEndMoves(g, lines, moved, offset, index, index, stop);
        SplitMoves(g, lines, moved, offset, MemberEnd(g, lines, index, index, stop), stop);
      }
    }
  }
}
