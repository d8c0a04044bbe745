/** What the scanner's tests on single lines and its look-ahead mean (scripts/utests/utf_inventory.py). */
module LineLaws {
  import opened Wrappers
  import opened Members
  import opened Scanner

  /** The line shows `text` at position `k`. */
  predicate ShowsAt(line: string, k: nat, text: string) {
    k + |text| <= |line| && line[k..k + |text|] == text
  }

  /** The line starts with `text`, white space in front of it aside. */
  ghost predicate Leads(g: Grammar, line: string, text: string) {
    exists k: nat :: ShowsAt(line, k, text) && AllSpace(g, line[..k])
  }

  /** The line ends with `text`, white space behind it aside. */
  ghost predicate Trails(g: Grammar, line: string, text: string) {
    exists k: nat :: ShowsAt(line, k, text) && AllSpace(g, line[k + |text|..])
  }

  /** White space holds none of the characters of comments. */
  predicate PlainSpace(g: Grammar) {
    !g.isSpace('/') && !g.isSpace('*')
  }

  lemma SpacesEnd(g: Grammar, line: string, core: string, k: nat, text: string)
    requires |core| <= |line| && core == line[|line| - |core|..] && AllSpace(g, line[..|line| - |core|])
    requires core != "" ==> !g.isSpace(core[0])
    requires text != "" && !g.isSpace(text[0]) && ShowsAt(line, k, text) && AllSpace(g, line[..k])
    ensures k == |line| - |core|
  {
    var n := |line| - |core|;
    assert line[k] == line[k..k + |text|][0] == text[0];
    FirstNonSpace(g, line, n, k);
    FirstNonSpace(g, line, k, n);
  }

  lemma FirstNonSpace(g: Grammar, line: string, n: nat, k: nat)
    ensures n < k <= |line| && AllSpace(g, line[..k]) ==> g.isSpace(line[n])
  {
    if n < k <= |line| {
      assert line[..k][n] == line[n];
    }
  }

  /** A line starts with some text after white space exactly when stripping it leaves the text in front. */
  lemma LeadsMeans(g: Grammar, line: string, text: string)
    requires text != "" && !g.isSpace(text[0])
    ensures Leads(g, line, text) <==> text <= LeftStrip(g, line)
  {
    LeftStripMeans(g, line);
    var core := LeftStrip(g, line);
    if k: nat :| ShowsAt(line, k, text) && AllSpace(g, line[..k]) {
      SpacesEnd(g, line, core, k, text);
    }
    if text <= core {
      assert ShowsAt(line, |line| - |core|, text);
    }
  }

  lemma TrailsMeans(g: Grammar, line: string, text: string)
    requires text != "" && !g.isSpace(text[|text| - 1])
    ensures Trails(g, line, text) <==>
            (var core := RightStrip(g, line); |core| >= |text| && core[|core| - |text|..] == text)
  {
    RightStripMeans(g, line);
    var core := RightStrip(g, line);
    if k: nat :| ShowsAt(line, k, text) && AllSpace(g, line[k + |text|..]) {
      var end := k + |text|;
      assert line[end - 1] == line[k..end][|text| - 1] == text[|text| - 1];
      LastNonSpace(g, line, end, |core|);
      LastNonSpace(g, line, |core|, end);
      assert |core| == end;
      assert core == line[..end];
    }
    if |core| >= |text| && core[|core| - |text|..] == text {
      assert ShowsAt(line, |core| - |text|, text);
    }
  }

  /** White space from `from` on leaves no other character in front of a later place. */
  lemma LastNonSpace(g: Grammar, line: string, from: nat, end: nat)
    ensures from < end <= |line| && AllSpace(g, line[from..]) ==> g.isSpace(line[end - 1])
  {
    if from < end <= |line| {
      assert line[from..][end - 1 - from] == line[end - 1];
    }
  }

  /** The tests on single lines: a closing brace at column 0; a line which starts or ends a block comment; and a
      line the include-guard test looks past. */
  lemma LinesMean(g: Grammar, line: string)
    requires PlainSpace(g)
    ensures Closes(line) <==> |line| >= 1 && line[0] == '}'
    ensures StartsComment(g, line) <==> Leads(g, line, "/*")
    ensures EndsComment(g, line) <==> Trails(g, line, "*/")
    ensures Skippable(g, line) <==>
            AllSpace(g, line) || Leads(g, line, "//") || Leads(g, line, "/*") || Leads(g, line, "*")
  {
    LeadsMeans(g, line, "/*");
    LeadsMeans(g, line, "//");
    LeadsMeans(g, line, "*");
    TrailsMeans(g, line, "*/");
    StripMeans(g, line);
    StripKeepsFront(g, LeftStrip(g, line));
  }

  /** Stripping the end does not touch a front which ends in no white space. */
  lemma StripKeepsFront(g: Grammar, s: string)
    ensures forall text :: text != "" && !g.isSpace(text[|text| - 1]) ==> (text <= s <==> text <= RightStrip(g, s))
  {
    RightStripMeans(g, s);
    var core := RightStrip(g, s);
    forall text: string | text != "" && !g.isSpace(text[|text| - 1]) && text <= s ensures text <= core {
      LastNonSpace(g, s, |core|, |text|);
    }
  }

  lemma {:induction false} FindCloseMeans(lines: seq<string>, i: nat)
    requires i <= |lines|
    ensures var end := FindClose(lines, i);
            (end < |lines| ==> Closes(lines[end])) && forall j :: i <= j < end ==> !Closes(lines[j])
    decreases |lines| - i
  {
    hide Closes;
    if i == |lines| || Closes(lines[i]) {
    } else {
      FindCloseMeans(lines, i + 1);
    }
  }

  /** The first line of code from `i` on defines the symbol. */
  ghost predicate DefinedFirst(g: Grammar, lines: seq<string>, i: nat, symbol: string) {
    exists j: nat ::
      && i <= j < |lines| && !Skippable(g, lines[j]) && g.defined(lines[j]) == Some(symbol)
      && forall l :: i <= l < j ==> Skippable(g, lines[l])
  }

  lemma {:induction false} DefinesMeans(g: Grammar, lines: seq<string>, i: nat, symbol: string)
    requires i <= |lines|
    ensures DefinesNext(g, lines, i, symbol) <==> DefinedFirst(g, lines, i, symbol)
    decreases |lines| - i
  {
    hide Skippable;
    if i == |lines| {
    } else if Skippable(g, lines[i]) {
      var next := i + 1;
      DefinesMeans(g, lines, next, symbol);
      assert DefinedFirst(g, lines, i, symbol) <==> DefinedFirst(g, lines, next, symbol) by {
        OneMoreSkipped(g, lines, i, symbol);
      }
    }
  }

  lemma OneMoreSkipped(g: Grammar, lines: seq<string>, i: nat, symbol: string)
    requires i < |lines| && Skippable(g, lines[i])
    ensures DefinedFirst(g, lines, i, symbol) <==> DefinedFirst(g, lines, i + 1, symbol)
  {
    hide Skippable;
    if DefinedFirst(g, lines, i, symbol) {
      var j: nat :| && i <= j < |lines| && !Skippable(g, lines[j]) && g.defined(lines[j]) == Some(symbol)
                    && forall l :: i <= l < j ==> Skippable(g, lines[l]);
      assert i < j;
    }
  }

  /** An include guard is an `#ifndef` of some symbol which the next line of code defines. */
  lemma IncludeGuardMeans(g: Grammar, lines: seq<string>, index: nat, keyword: string, rest: string)
    requires index < |lines|
    ensures IsIncludeGuard(g, lines, index, keyword, rest) <==>
            keyword == "ifndef" && !AllSpace(g, rest) && DefinedFirst(g, lines, index + 1, Strip(g, rest))
  {
    hide Strip, Skippable, DefinedFirst, DefinesNext;
    StripMeans(g, rest);
    DefinesMeans(g, lines, index + 1, Strip(g, rest));
  }

  /** A namespace path: the names with two colons between them. */
  lemma {:induction false} QualifiedMeans(xs: seq<string>, ys: seq<string>, name: string)
    requires xs != [] && ys != []
    ensures Qualified([name]) == name
    ensures Qualified(xs + ys) == Qualified(xs) + "::" + Qualified(ys)
  {
    if |xs| == 1 {
      assert (xs + ys)[1..] == ys;
    } else {
      assert (xs + ys)[1..] == xs[1..] + ys;
      QualifiedMeans(xs[1..], ys, name);
      var a, b, c := xs[0] + "::", Qualified(xs[1..]), "::" + Qualified(ys);
      assert a + (b + c) == (a + b) + c;
      assert Qualified(xs[1..]) + "::" + Qualified(ys) == b + c;
      assert Qualified(xs) + "::" + Qualified(ys) == (a + b) + c;
    }
  }

  /** A member is named after its first line, stripped and cut to sixty characters. */
  lemma TitleMeans(g: Grammar, origin: Origin, lines: seq<string>, ns: string, span: (nat, nat))
    requires span.0 <= span.1 < |lines|
    ensures var m := MemberAt(g, origin, lines, ns, span);
            && m.line == span.0 + 1 && m.ns == ns && m.title <= Strip(g, lines[span.0])
            && |m.title| == if |Strip(g, lines[span.0])| < 60 then |Strip(g, lines[span.0])| else 60
  {
    hide Strip, TextSha;
  }
}
