/** What it means that the gate lets a step pass (scripts/utests/utf_inventory.py). */
module Agreement {
  import opened Wrappers
  import opened Sequences
  import opened Scanner
  import opened Gate
  import opened Intrinsic

  /** What the gate keeps of a case: not its file, its line or its module. */
  datatype Content = Content(name: string, bodySha: string, docSha: Option<string>, guards: seq<string>,
      namespaces: seq<string>)

  function ContentOf(c: Case): Content {
    Content(c.name, c.bodySha, c.docSha, c.guards, c.namespaces)
  }

  function Contents(cases: seq<Case>): seq<Content> {
    Map(ContentOf, cases)
  }

  /** `check_against` has nothing to report. */
  ghost predicate Passes(before: Manifest, after: Manifest) {
    forall change :: !Raised(change, before, after)
  }

  ghost predicate SameIndex(prior: map<string, Case>, current: map<string, Case>) {
    prior.Keys == current.Keys && forall name :: name in prior ==> ContentOf(prior[name]) == ContentOf(current[name])
  }

  ghost predicate KeepsMembers(before: Manifest, after: Manifest) {
    before.members != [] && after.members != [] && Shas(before.members) <= Shas(after.members)
  }

  /** The step passes exactly when the last cases of every name agree, and no member text is lost. */
  lemma PassIsAgreement(before: Manifest, after: Manifest)
    ensures Passes(before, after) <==> SameIndex(Index(before.cases), Index(after.cases)) && KeepsMembers(before, after)
  {
    hide CaseRaised, MemberRaised, Index, SameIndex;
    CasesPass(before.cases, after.cases);
    MembersPass(before, after);
    if Passes(before, after) {
      assert forall change :: !CaseRaised(change, Index(before.cases), Index(after.cases)) by {
        assert forall change :: CaseRaised(change, Index(before.cases), Index(after.cases)) ==>
            Raised(change, before, after);
      }
      assert forall change :: !MemberRaised(change, before.members, after.members) by {
        assert forall change :: MemberRaised(change, before.members, after.members) ==> Raised(change, before, after);
      }
    }
  }

  lemma CasesPass(before: seq<Case>, after: seq<Case>)
    ensures (forall change :: !CaseRaised(change, Index(before), Index(after))) <==>
        SameIndex(Index(before), Index(after))
  {
    hide Index;
    var prior, current := Index(before), Index(after);
    IndexIsWellNamed(before);
    IndexIsWellNamed(after);
    if forall change :: !CaseRaised(change, prior, current) {
      forall name | name in prior ensures name in current && ContentOf(prior[name]) == ContentOf(current[name]) {
        assert !CaseRaised(Lost(prior[name]), prior, current);
        assert !CaseRaised(Changed(Body, prior[name], current[name]), prior, current);
        assert !CaseRaised(Changed(DocComment, prior[name], current[name]), prior, current);
        assert !CaseRaised(Changed(GuardStack, prior[name], current[name]), prior, current);
        assert !CaseRaised(Changed(NamespaceStack, prior[name], current[name]), prior, current);
      }
      forall name | name in current ensures name in prior {
        assert !CaseRaised(Added(current[name]), prior, current);
      }
    }
  }

  lemma MembersPass(before: Manifest, after: Manifest)
    ensures (forall change :: !MemberRaised(change, before.members, after.members)) <==> KeepsMembers(before, after)
  {
    if forall change :: !MemberRaised(change, before.members, after.members) {
      assert !MemberRaised(NoMembersBefore, before.members, after.members);
      assert !MemberRaised(NoMembersAfter, before.members, after.members);
      forall sha | sha in Shas(before.members) ensures sha in Shas(after.members) {
        assert !MemberRaised(MemberLost(FirstOfText(before.members)[sha]), before.members, after.members);
      }
    }
  }

  /** The tool's verdict on a step: the later manifest on its own, and against the one before it. */
  ghost predicate Verdict(before: Manifest, after: Manifest) {
    Passes(before, after) && Clean(after)
  }

  method Compare(before: Manifest, after: Manifest) returns (pass: bool)
    ensures pass <==> Verdict(before, after)
  {
    hide Raised, Clashes, Clean;
    var clashes := CheckIntrinsic(after);
    var changes := CheckAgainst(before, after);
    CleanIsUnique(after);
    if clashes != [] {
      assert Clashes(clashes[0], after);
    }
    if changes != [] {
      assert Raised(changes[0], before, after);
    }
    pass := clashes == [] && changes == [];
  }

  // ---------------------------------------------------------------- chains of steps

  /** Steps which pass compose, along any chain of splits. */
  lemma {:induction false} PassingStepsCompose(steps: seq<Manifest>)
    requires |steps| > 1 && forall i :: 0 < i < |steps| ==> Passes(steps[i - 1], steps[i])
    ensures Passes(steps[0], steps[|steps| - 1])
  {
    hide Passes, Index;
    var n := |steps| - 1;
    assert Passes(steps[n - 1], steps[n]);
    if n <= 1 {
    } else {
      PassingStepsCompose(steps[..n]);
      PassIsAgreement(steps[0], steps[n - 1]);
      PassIsAgreement(steps[n - 1], steps[n]);
      PassIsAgreement(steps[0], steps[n]);
    }
  }

  // ---------------------------------------------------------------- bijection

  lemma {:induction false} DistinctCounts<T>(xs: seq<T>)
    requires forall i, j :: 0 <= i < j < |xs| ==> xs[i] != xs[j]
    ensures forall x :: multiset(xs)[x] == if x in xs then 1 else 0
  {
    if xs == [] {
    } else {
      var init, last := xs[..|xs| - 1], xs[|xs| - 1];
      DistinctCounts(init);
      assert xs == init + [last];
    }
  }

  lemma CountsDistinct<T>(xs: seq<T>, i: nat, j: nat)
    requires i < j < |xs| && multiset(xs)[xs[i]] <= 1
    ensures xs[i] != xs[j]
  {
    assert xs == xs[..j] + xs[j..];
    assert xs[i] in xs[..j] && xs[j] in xs[j..];
    assert multiset(xs) == multiset(xs[..j]) + multiset(xs[j..]);
  }

  lemma UniqueIndex(cases: seq<Case>, i: nat)
    requires Unique(cases, NameOf) && i < |cases|
    ensures cases[i].name in Index(cases) && Index(cases)[cases[i].name] == cases[i]
  {
    forall j | i < j < |cases| ensures cases[j].name != cases[i].name {
      assert NameOf(cases[i]) != NameOf(cases[j]);
    }
    LastIsIndexed(cases, i);
  }

  lemma ContentKept(before: seq<Case>, after: seq<Case>, x: Content)
    requires Unique(before, NameOf) && SameIndex(Index(before), Index(after)) && x in Contents(before)
    ensures x in Contents(after)
  {
    hide Index;
    var i: nat :| i < |before| && Contents(before)[i] == x;
    UniqueIndex(before, i);
    var j := IndexedIsLast(after, x.name);
    assert Contents(after)[j] == x;
  }

  lemma ContentIndexed(before: seq<Case>, after: seq<Case>, name: string)
    requires Unique(after, NameOf) && multiset(Contents(before)) == multiset(Contents(after)) && name in Index(before)
    ensures name in Index(after) && ContentOf(Index(before)[name]) == ContentOf(Index(after)[name])
  {
    hide Index;
    var i := IndexedIsLast(before, name);
    assert Contents(before)[i] in multiset(Contents(after));
    var j: nat :| j < |after| && Contents(after)[j] == Contents(before)[i];
    UniqueIndex(after, j);
  }

  lemma SameContentsSameNames(before: seq<Case>, after: seq<Case>)
    requires Unique(before, NameOf) && multiset(Contents(before)) == multiset(Contents(after))
    ensures Unique(after, NameOf)
  {
    var prior, current := Contents(before), Contents(after);
    forall i, j | 0 <= i < j < |prior| ensures prior[i] != prior[j] {
      assert NameOf(before[i]) != NameOf(before[j]);
    }
    DistinctCounts(prior);
    forall i, j | 0 <= i < j < |after| ensures NameOf(after[i]) != NameOf(after[j]) {
      CountsDistinct(current, i, j);
      assert current[i] in multiset(prior) && current[j] in multiset(prior);
      var k: nat :| k < |prior| && prior[k] == current[i];
      var l: nat :| l < |prior| && prior[l] == current[j];
      assert k != l;
      assert NameOf(before[k]) != NameOf(before[l]);
    }
  }

  /** Where neither side has a duplicate name, the step passes exactly when the cases of both sides pair off one to one
      with the same content, whatever their order, files, lines and modules, and no member text is lost. */
  lemma PassIsBijection(before: Manifest, after: Manifest)
    requires Unique(before.cases, NameOf) && Unique(after.cases, NameOf)
    ensures Passes(before, after) <==>
            multiset(Contents(before.cases)) == multiset(Contents(after.cases)) && KeepsMembers(before, after)
  {
    hide Passes, Index, KeepsMembers;
    PassIsAgreement(before, after);
    if SameIndex(Index(before.cases), Index(after.cases)) {
      SameContents(before.cases, after.cases);
    }
    if multiset(Contents(before.cases)) == multiset(Contents(after.cases)) {
      forall name ensures (name in Index(before.cases) <==> name in Index(after.cases))
                          && (name in Index(before.cases) ==>
                              ContentOf(Index(before.cases)[name]) == ContentOf(Index(after.cases)[name]))
      {
        if name in Index(before.cases) {
          ContentIndexed(before.cases, after.cases, name);
        }
        if name in Index(after.cases) {
          ContentIndexed(after.cases, before.cases, name);
        }
      }
    }
  }

  lemma SameContents(before: seq<Case>, after: seq<Case>)
    requires Unique(before, NameOf) && Unique(after, NameOf) && SameIndex(Index(before), Index(after))
    ensures multiset(Contents(before)) == multiset(Contents(after))
  {
    hide Index;
    var prior, current := Contents(before), Contents(after);
    forall i, j | 0 <= i < j < |prior| ensures prior[i] != prior[j] {
      assert NameOf(before[i]) != NameOf(before[j]);
    }
    forall i, j | 0 <= i < j < |current| ensures current[i] != current[j] {
      assert NameOf(after[i]) != NameOf(after[j]);
    }
    DistinctCounts(prior);
    DistinctCounts(current);
    forall x ensures x in prior <==> x in current {
      if x in prior {
        ContentKept(before, after, x);
      }
      if x in current {
        ContentKept(after, before, x);
      }
    }
    assert forall x :: multiset(prior)[x] == multiset(current)[x];
  }

  /** When a pass can be trusted: a baseline which was never checked by itself may hold a name twice, and only then can
      a case get lost, or be gained, unnoticed. */
  lemma PassIsRightWhenBaselineIsUnique(before: Manifest, after: Manifest)
    requires Verdict(before, after)
    ensures multiset(Contents(before.cases)) == multiset(Contents(after.cases)) <==> Unique(before.cases, NameOf)
  {
    hide Passes, Unique, DataInPlace;
    if Unique(before.cases, NameOf) {
      PassIsBijection(before, after);
    }
    if multiset(Contents(before.cases)) == multiset(Contents(after.cases)) {
      SameContentsSameNames(after.cases, before.cases);
    }
  }

  /** Such a baseline: of two cases with one name only the last is compared, and the tool's whole verdict is a pass. */
  lemma DuplicateHidesLoss(first: Case, second: Case, m: Member)
    requires first.name == second.name
    ensures var before, after := Manifest([first, second], [], [m], map[]), Manifest([second], [], [m], map[]);
            Verdict(before, after) && multiset(Contents(before.cases)) != multiset(Contents(after.cases))
  {
    var before, after := Manifest([first, second], [], [m], map[]), Manifest([second], [], [m], map[]);
    assert before.cases[..1] == [first] && after.cases[..0] == [] && [first][..0] == [];
    assert Index(before.cases) == Index(after.cases);
    PassIsAgreement(before, after);
    assert |multiset(Contents(before.cases))| == 2 && |multiset(Contents(after.cases))| == 1;
  }
}
