/** Manifests of a test tree, and what changed between two of them (scripts/utests/utf_inventory.py): C1 to C4 and the
    half of C6 which compares manifests. */
module Gate {
  import opened Scanner

  /** What the headers of a module name, its data files with their digests, the cases its notes name, and what each
      of its sources includes. */
  datatype Info = Info(refs: set<string>, literals: set<string>, files: map<string, string>, notes: set<string>,
                       includes: seq<(string, seq<string>)>)

  datatype Manifest = Manifest(cases: seq<Case>, blocks: seq<Block>, members: seq<Member>, modules: map<string, Info>)

  // ---------------------------------------------------------------- the index

  /** The last case of every name. */
  function Index(cases: seq<Case>): map<string, Case> {
    if cases == [] then map[]
    else
      var last := cases[|cases| - 1];
      Index(cases[..|cases| - 1])[last.name := last]
  }

  method IndexCases(cases: seq<Case>) returns (index: map<string, Case>)
    ensures index == Index(cases)
  {
    index := map[];
    for i := 0 to |cases|
      invariant index == Index(cases[..i])
    {
      assert cases[..i + 1][..i] == cases[..i];
      index := index[cases[i].name := cases[i]];
    }
    assert cases[..|cases|] == cases;
  }

  ghost predicate LastNamed(cases: seq<Case>, i: nat) {
    i < |cases| && forall j :: i < j < |cases| ==> cases[j].name != cases[i].name
  }

  lemma {:induction false} IndexedIsLast(cases: seq<Case>, name: string) returns (i: nat)
    requires name in Index(cases)
    ensures LastNamed(cases, i) && cases[i].name == name && Index(cases)[name] == cases[i]
  {
    i := |cases| - 1;
    if cases[i].name != name {
      i := IndexedIsLast(cases[..i], name);
    }
  }

  lemma {:induction false} LastIsIndexed(cases: seq<Case>, i: nat)
    requires LastNamed(cases, i)
    ensures cases[i].name in Index(cases) && Index(cases)[cases[i].name] == cases[i]
  {
    var n := |cases| - 1;
    if i >= n {
    } else {
      assert cases[n].name != cases[i].name;
      LastIsIndexed(cases[..n], i);
    }
  }

  lemma {:induction false} CaseIsIndexed(cases: seq<Case>, c: Case)
    requires c in cases
    ensures c.name in Index(cases)
  {
    if c != cases[|cases| - 1] {
      CaseIsIndexed(cases[..|cases| - 1], c);
    }
  }

  predicate WellNamed(index: map<string, Case>) {
    forall name :: name in index ==> index[name].name == name
  }

  lemma IndexIsWellNamed(cases: seq<Case>)
    ensures WellNamed(Index(cases))
  {
    forall name | name in Index(cases) ensures Index(cases)[name].name == name {
      var i := IndexedIsLast(cases, name);
    }
  }

  // ---------------------------------------------------------------- two manifests

  /** What must stay the same about a case. */
  datatype Part = Body | DocComment | GuardStack | NamespaceStack

  datatype Change =
    | Lost(was: Case)
    | Added(now: Case)
    | Changed(part: Part, was: Case, now: Case)
    | NoMembersBefore
    | NoMembersAfter
    | MemberLost(where: Member)

  function Shas(members: seq<Member>): set<string> {
    set m | m in members :: m.sha
  }

  /** The first member with every text. */
  function FirstOfText(members: seq<Member>): (first: map<string, Member>)
    ensures first.Keys == Shas(members)
    ensures forall sha :: sha in first ==> first[sha].sha == sha
  {
    if members == [] then map[]
    else
      var last := members[|members| - 1];
      var first := FirstOfText(members[..|members| - 1]);
      assert members == members[..|members| - 1] + [last];
      if last.sha in first then first else first[last.sha := last]
  }

  /** The member found under a text is the first with it. */
  lemma {:induction false} FirstOfTextMeans(members: seq<Member>, sha: string) returns (i: nat)
    requires sha in FirstOfText(members)
    ensures i < |members| && members[i] == FirstOfText(members)[sha] && members[i].sha == sha
    ensures forall j :: 0 <= j < i ==> members[j].sha != sha
  {
    var n := |members| - 1;
    var init := members[..n];
    if sha in FirstOfText(init) {
      i := FirstOfTextMeans(init, sha);
    } else {
      i := n;
      forall j | 0 <= j < n ensures members[j].sha != sha {
        assert init[j] in init;
      }
    }
  }

  predicate Differs(part: Part, was: Case, now: Case) {
    match part
    case Body => was.bodySha != now.bodySha
    case DocComment => was.docSha != now.docSha
    case GuardStack => was.guards != now.guards
    case NamespaceStack => was.namespaces != now.namespaces
  }

  predicate Paired(prior: map<string, Case>, current: map<string, Case>, was: Case, now: Case) {
    && was.name == now.name && was.name in prior && now.name in current
    && prior[was.name] == was && current[now.name] == now
  }

  /** What each failure about cases says. */
  predicate CaseRaised(change: Change, prior: map<string, Case>, current: map<string, Case>) {
    match change
    case Lost(was) => was.name in prior && prior[was.name] == was && was.name !in current
    case Added(now) => now.name in current && current[now.name] == now && now.name !in prior
    case Changed(part, was, now) => Paired(prior, current, was, now) && Differs(part, was, now)
    case _ => false
  }

  /** What each failure about members says. */
  predicate MemberRaised(change: Change, before: seq<Member>, after: seq<Member>) {
    match change
    case NoMembersBefore => before == []
    case NoMembersAfter => before != [] && after == []
    case MemberLost(where) =>
      && before != [] && after != [] && where.sha !in Shas(after)
      && where.sha in FirstOfText(before) && FirstOfText(before)[where.sha] == where
    case _ => false
  }

  predicate Raised(change: Change, before: Manifest, after: Manifest) {
    CaseRaised(change, Index(before.cases), Index(after.cases)) || MemberRaised(change, before.members, after.members)
  }

  method LostCases(prior: map<string, Case>, current: map<string, Case>) returns (changes: seq<Change>)
    requires WellNamed(prior)
    ensures forall change :: change in changes <==> change.Lost? && CaseRaised(change, prior, current)
  {
    changes := [];
    var rest := prior.Keys - current.Keys;
    while rest != {}
      invariant rest <= prior.Keys - current.Keys
      invariant forall change :: change in changes <==>
                  change.Lost? && CaseRaised(change, prior, current) && change.was.name !in rest
      decreases |rest|
    {
      var name :| name in rest;
      changes := changes + [Lost(prior[name])];
      rest := rest - {name};
    }
  }

  method AddedCases(prior: map<string, Case>, current: map<string, Case>) returns (changes: seq<Change>)
    requires WellNamed(current)
    ensures forall change :: change in changes <==> change.Added? && CaseRaised(change, prior, current)
  {
    changes := [];
    var rest := current.Keys - prior.Keys;
    while rest != {}
      invariant rest <= current.Keys - prior.Keys
      invariant forall change :: change in changes <==>
                  change.Added? && CaseRaised(change, prior, current) && change.now.name !in rest
      decreases |rest|
    {
      var name :| name in rest;
      changes := changes + [Added(current[name])];
      rest := rest - {name};
    }
  }

  method CompareCase(was: Case, now: Case) returns (changes: seq<Change>)
    ensures forall change :: change in changes <==>
        change.Changed? && change.was == was && change.now == now && Differs(change.part, was, now)
  {
    changes := [];
    if was.bodySha != now.bodySha {
      changes := changes + [Changed(Body, was, now)];
    }
    if was.docSha != now.docSha {
      changes := changes + [Changed(DocComment, was, now)];
    }
    if was.guards != now.guards {
      changes := changes + [Changed(GuardStack, was, now)];
    }
    if was.namespaces != now.namespaces {
      changes := changes + [Changed(NamespaceStack, was, now)];
    }
    forall change: Change | change.Changed? && change.was == was && change.now == now && Differs(change.part, was, now)
      ensures change in changes
    {
      match change.part
      case Body => assert change == Changed(Body, was, now);
      case DocComment => assert change == Changed(DocComment, was, now);
      case GuardStack => assert change == Changed(GuardStack, was, now);
      case NamespaceStack => assert change == Changed(NamespaceStack, was, now);
    }
  }

  method ChangedCases(prior: map<string, Case>, current: map<string, Case>) returns (changes: seq<Change>)
    requires WellNamed(prior) && WellNamed(current)
    ensures forall change :: change in changes <==> change.Changed? && CaseRaised(change, prior, current)
  {
    hide Differs;
    changes := [];
    var rest := prior.Keys * current.Keys;
    while rest != {}
      invariant rest <= prior.Keys * current.Keys
      invariant forall change :: change in changes <==>
                  change.Changed? && CaseRaised(change, prior, current) && change.was.name !in rest
      decreases |rest|
    {
      var name :| name in rest;
      var found := CompareCase(prior[name], current[name]);
      changes := changes + found;
      rest := rest - {name};
    }
  }

  /** The half of C6 which compares two manifests. */
  method CompareMembers(before: seq<Member>, after: seq<Member>) returns (changes: seq<Change>)
    ensures forall change :: change in changes <==> MemberRaised(change, before, after)
  {
    if before == [] {
      return [NoMembersBefore];
    }
    if after == [] {
      return [NoMembersAfter];
    }
    var first: map<string, Member> := map[];
    for i := 0 to |before|
      invariant first == FirstOfText(before[..i])
    {
      assert before[..i + 1][..i] == before[..i];
      if before[i].sha !in first {
        first := first[before[i].sha := before[i]];
      }
    }
    assert before[..|before|] == before;
    changes := LostMembers(first, Shas(after));
  }

  method LostMembers(first: map<string, Member>, kept: set<string>) returns (changes: seq<Change>)
    requires forall sha :: sha in first ==> first[sha].sha == sha
    ensures forall change :: change in changes <==>
              && change.MemberLost? && change.where.sha in first && first[change.where.sha] == change.where
              && change.where.sha !in kept
  {
    var lost := first.Keys - kept;
    changes := [];
    while lost != {}
      invariant lost <= first.Keys - kept
      invariant forall change :: change in changes <==>
                  && change.MemberLost? && change.where.sha in first && first[change.where.sha] == change.where
                  && change.where.sha !in kept && change.where.sha !in lost
      decreases |lost|
    {
      var sha :| sha in lost;
      changes := changes + [MemberLost(first[sha])];
      lost := lost - {sha};
    }
  }

  /** `check_against`: C1 to C4, and the half of C6 which compares two manifests. */
  method CheckAgainst(before: Manifest, after: Manifest) returns (changes: seq<Change>)
    ensures forall change :: change in changes <==> Raised(change, before, after)
  {
    hide CaseRaised, MemberRaised, WellNamed;
    var prior := IndexCases(before.cases);
    var current := IndexCases(after.cases);
    IndexIsWellNamed(before.cases);
    IndexIsWellNamed(after.cases);
    var lost := LostCases(prior, current);
    var added := AddedCases(prior, current);
    var changed := ChangedCases(prior, current);
    forall change | CaseRaised(change, prior, current) ensures change.Lost? || change.Added? || change.Changed? {
      KindsOfCaseFailure(change, prior, current);
    }
    var members := CompareMembers(before.members, after.members);
    return lost + added + changed + members;
  }

  lemma KindsOfCaseFailure(change: Change, prior: map<string, Case>, current: map<string, Case>)
    requires CaseRaised(change, prior, current)
    ensures change.Lost? || change.Added? || change.Changed?
  {
  }
}
