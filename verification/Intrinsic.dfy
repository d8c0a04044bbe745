/** What makes a single manifest unsound (scripts/utests/utf_inventory.py): C5, C7, C8 and the duplication half of
    C6. */
module Intrinsic {
  import opened Wrappers
  import opened Sequences
  import opened Scanner
  import opened Gate

  // ---------------------------------------------------------------- one manifest

  /** What `check_intrinsic` finds. */
  datatype Clash =
    | DuplicateCase(first: Case, second: Case)
    | DuplicateBlock(block: (string, string), blocks: seq<Block>)
    | DuplicateMember(member: (string, string, string), members: seq<Member>)
    | MissingFile(moduleName: string, ref: string)
    | MissingCopy(moduleName: string, literal: string)
    | StaleNote(moduleName: string, name: string, now: Option<string>)
    | FilesDiffer(file: string, owners: set<string>)

  /** The entries with a key, in order. */
  function Sharing<T, K(==)>(xs: seq<T>, key: T -> K, k: K): seq<T> {
    if xs == [] then []
    else Sharing(xs[..|xs| - 1], key, k) + if key(xs[|xs| - 1]) == k then [xs[|xs| - 1]] else []
  }

  lemma {:induction false} SharingIsFilter<T, K>(xs: seq<T>, key: T -> K, k: K)
    ensures Sharing(xs, key, k) == Filter((x: T) => key(x) == k, xs)
  {
    if xs == [] {
    } else {
      SharingIsFilter(xs[..|xs| - 1], key, k);
    }
  }

  /** The keys which more than one entry has. */
  method Repeated<T(!new), K(!new, ==)>(xs: seq<T>, key: T -> K) returns (repeats: map<K, seq<T>>)
    ensures forall k :: k in repeats <==> |Sharing(xs, key, k)| > 1
    ensures forall k :: k in repeats ==> repeats[k] == Sharing(xs, key, k)
  {
    var groups: map<K, seq<T>> := map[];
    for i := 0 to |xs|
      invariant forall k :: k in groups <==> Sharing(xs[..i], key, k) != []
      invariant forall k :: k in groups ==> groups[k] == Sharing(xs[..i], key, k)
    {
      assert xs[..i + 1][..i] == xs[..i];
      var k := key(xs[i]);
      groups := groups[k := (if k in groups then groups[k] else []) + [xs[i]]];
    }
    assert xs[..|xs|] == xs;
    repeats := map k | k in groups && |groups[k]| > 1 :: groups[k];
  }

  function BlockKey(b: Block): (string, string) {
    (b.origin.moduleName, b.sha)
  }

  function MemberKey(m: Member): (string, string, string) {
    (m.origin.moduleName, m.sha, m.ns)
  }

  /** Two cases with one name, and none with it between them. */
  predicate Consecutive(cases: seq<Case>, first: Case, second: Case) {
    exists i, j :: 0 <= i < j < |cases| && SameNameNext(cases, i, j) && cases[i] == first && cases[j] == second
  }

  predicate SameNameNext(cases: seq<Case>, i: nat, j: nat)
    requires i < j < |cases|
  {
    cases[i].name == cases[j].name && forall k :: i < k < j ==> cases[k].name != cases[i].name
  }

  /** A data file of some module. */
  predicate Known(modules: map<string, Info>, file: string) {
    exists m :: m in modules && file in modules[m].files
  }

  predicate Owns(cases: seq<Case>, moduleName: string, name: string) {
    exists c :: c in cases && c.name == name && c.origin.moduleName == moduleName
  }

  /** The module a case of this name was last seen in. */
  function Whereabouts(cases: seq<Case>, name: string): Option<string> {
    if name in Index(cases) then Some(Index(cases)[name].origin.moduleName) else None
  }

  /** The modules which carry a data file. */
  function Owners(modules: map<string, Info>, file: string): set<string> {
    set m | m in modules && file in modules[m].files
  }

  predicate Differing(modules: map<string, Info>, file: string) {
    exists m, n :: && m in modules && n in modules && file in modules[m].files && file in modules[n].files
                   && modules[m].files[file] != modules[n].files[file]
  }

  /** A failure about data files or notes. */
  predicate DataClashes(clash: Clash, cases: seq<Case>, modules: map<string, Info>) {
    match clash
    case MissingFile(m, ref) => m in modules && ref in modules[m].refs && ref !in modules[m].files
    case MissingCopy(m, literal) =>
      m in modules && literal in modules[m].literals && Known(modules, literal) && literal !in modules[m].files
    case StaleNote(m, name, now) =>
      m in modules && name in modules[m].notes && !Owns(cases, m, name) && now == Whereabouts(cases, name)
    case FilesDiffer(file, owners) => Differing(modules, file) && owners == Owners(modules, file)
    case _ => false
  }

  predicate Clashes(clash: Clash, m: Manifest) {
    match clash
    case DuplicateCase(first, second) => Consecutive(m.cases, first, second)
    case DuplicateBlock(key, blocks) => |blocks| > 1 && blocks == Sharing(m.blocks, BlockKey, key)
    case DuplicateMember(key, members) => |members| > 1 && members == Sharing(m.members, MemberKey, key)
    case _ => DataClashes(clash, m.cases, m.modules)
  }

  lemma ConsecutiveStep(cases: seq<Case>, c: Case, first: Case, second: Case)
    ensures Consecutive(cases + [c], first, second) <==>
            Consecutive(cases, first, second)
                || (c == second && c.name in Index(cases) && Index(cases)[c.name] == first)
  {
    hide Index;
    var all := cases + [c];
    assert forall k :: 0 <= k < |cases| ==> all[k] == cases[k];
    if i: nat, j: nat :| i < j < |all| && SameNameNext(all, i, j) && all[i] == first && all[j] == second {
      if j < |cases| {
        assert SameNameNext(cases, i, j);
      } else {
        assert LastNamed(cases, i);
        LastIsIndexed(cases, i);
      }
    }
    if i: nat, j: nat :| i < j < |cases| && SameNameNext(cases, i, j) && cases[i] == first && cases[j] == second {
      assert SameNameNext(all, i, j);
    }
    if c == second && c.name in Index(cases) && Index(cases)[c.name] == first {
      var i := IndexedIsLast(cases, c.name);
      assert SameNameNext(all, i, |cases|);
    }
  }

  method RepeatedNames(cases: seq<Case>) returns (clashes: seq<Clash>)
    ensures forall clash :: clash in clashes <==> clash.DuplicateCase? && Consecutive(cases, clash.first, clash.second)
  {
    clashes := [];
    var seen: map<string, Case> := map[];
    for i := 0 to |cases|
      invariant seen == Index(cases[..i])
      invariant forall clash :: clash in clashes <==>
          clash.DuplicateCase? && Consecutive(cases[..i], clash.first, clash.second)
    {
      assert cases[..i + 1][..i] == cases[..i];
      assert cases[..i + 1] == cases[..i] + [cases[i]];
      forall first, second ensures Consecutive(cases[..i + 1], first, second) <==>
                || Consecutive(cases[..i], first, second)
                || (cases[i] == second && cases[i].name in seen && seen[cases[i].name] == first)
      {
        ConsecutiveStep(cases[..i], cases[i], first, second);
      }
      if cases[i].name in seen {
        clashes := clashes + [DuplicateCase(seen[cases[i].name], cases[i])];
      }
      seen := seen[cases[i].name := cases[i]];
    }
    assert cases[..|cases|] == cases;
  }

  method RepeatedBlocks(blocks: seq<Block>) returns (clashes: seq<Clash>)
    ensures forall clash :: clash in clashes <==>
              clash.DuplicateBlock? && |clash.blocks| > 1 && clash.blocks == Sharing(blocks, BlockKey, clash.block)
  {
    var repeats := Repeated(blocks, BlockKey);
    clashes := [];
    var rest := repeats.Keys;
    while rest != {}
      invariant rest <= repeats.Keys
      invariant forall clash :: clash in clashes <==>
                  clash.DuplicateBlock? && clash.block in repeats && clash.block !in rest
                      && clash.blocks == repeats[clash.block]
      decreases |rest|
    {
      var key :| key in rest;
      clashes := clashes + [DuplicateBlock(key, repeats[key])];
      rest := rest - {key};
    }
  }

  method RepeatedMembers(members: seq<Member>) returns (clashes: seq<Clash>)
    ensures forall clash :: clash in clashes <==>
              clash.DuplicateMember? && |clash.members| > 1
                  && clash.members == Sharing(members, MemberKey, clash.member)
  {
    var repeats := Repeated(members, MemberKey);
    clashes := [];
    var rest := repeats.Keys;
    while rest != {}
      invariant rest <= repeats.Keys
      invariant forall clash :: clash in clashes <==>
                  clash.DuplicateMember? && clash.member in repeats && clash.member !in rest
                      && clash.members == repeats[clash.member]
      decreases |rest|
    {
      var key :| key in rest;
      clashes := clashes + [DuplicateMember(key, repeats[key])];
      rest := rest - {key};
    }
  }

  /** The elements of a set one by one, in whatever order. */
  method Listing<T>(all: set<T>) returns (xs: seq<T>)
    ensures forall x :: x in xs <==> x in all
  {
    xs := [];
    var rest := all;
    while rest != {}
      invariant rest <= all
      invariant forall x :: x in xs <==> x in all && x !in rest
      decreases |rest|
    {
      var x :| x in rest;
      xs := xs + [x];
      rest := rest - {x};
    }
  }

  /** C7: what a module loads it must carry. */
  method MissingFiles(m: string, info: Info) returns (clashes: seq<Clash>)
    ensures forall clash :: clash in clashes <==>
              clash.MissingFile? && clash.moduleName == m && clash.ref in info.refs && clash.ref !in info.files
  {
    clashes := [];
    var refs := Listing(info.refs);
    for i := 0 to |refs|
      invariant forall clash :: clash in clashes <==>
                  clash.MissingFile? && clash.moduleName == m && clash.ref in refs[..i] && clash.ref !in info.files
    {
      assert refs[..i + 1] == refs[..i] + [refs[i]];
      if refs[i] !in info.files {
        clashes := clashes + [MissingFile(m, refs[i])];
      }
    }
    assert refs[..|refs|] == refs;
  }

  /** C7: what a module names, and is a data file anywhere, it must carry. */
  method MissingCopies(m: string, info: Info, known: set<string>) returns (clashes: seq<Clash>)
    ensures forall clash :: clash in clashes <==>
              && clash.MissingCopy? && clash.moduleName == m && clash.literal in info.literals
              && clash.literal in known && clash.literal !in info.files
  {
    clashes := [];
    var literals := Listing(info.literals);
    for i := 0 to |literals|
      invariant forall clash :: clash in clashes <==>
                  && clash.MissingCopy? && clash.moduleName == m && clash.literal in literals[..i]
                  && clash.literal in known && clash.literal !in info.files
    {
      assert literals[..i + 1] == literals[..i] + [literals[i]];
      if literals[i] in known && literals[i] !in info.files {
        clashes := clashes + [MissingCopy(m, literals[i])];
      }
    }
    assert literals[..|literals|] == literals;
  }

  /** C8: the cases the notes of a module name must be its own. */
  method StaleNotes(m: string, info: Info, cases: seq<Case>) returns (clashes: seq<Clash>)
    ensures forall clash :: clash in clashes <==>
              && clash.StaleNote? && clash.moduleName == m && clash.name in info.notes
              && !Owns(cases, m, clash.name) && clash.now == Whereabouts(cases, clash.name)
  {
    clashes := [];
    var everywhere := IndexCases(cases);
    var own := set c | c in cases && c.origin.moduleName == m :: c.name;
    var notes := Listing(info.notes);
    for i := 0 to |notes|
      invariant forall clash :: clash in clashes <==>
                  && clash.StaleNote? && clash.moduleName == m && clash.name in notes[..i]
                  && !Owns(cases, m, clash.name) && clash.now == Whereabouts(cases, clash.name)
    {
      assert notes[..i + 1] == notes[..i] + [notes[i]];
      var name := notes[i];
      assert name in own <==> Owns(cases, m, name);
      if name !in own {
        clashes := clashes + [StaleNote(m, name, if name in everywhere then Some(everywhere[name].origin.moduleName)
            else None)];
      }
    }
    assert notes[..|notes|] == notes;
  }

  predicate OfModule(clash: Clash, m: string) {
    (clash.MissingFile? || clash.MissingCopy? || clash.StaleNote?) && clash.moduleName == m
  }

  method CheckModule(m: string, cases: seq<Case>, modules: map<string, Info>, known: set<string>)
      returns (clashes: seq<Clash>)
    requires m in modules && forall file :: file in known <==> Known(modules, file)
    ensures forall clash :: clash in clashes <==> OfModule(clash, m) && DataClashes(clash, cases, modules)
  {
    hide Known, Owns, Whereabouts;
    var files := MissingFiles(m, modules[m]);
    var copies := MissingCopies(m, modules[m], known);
    var notes := StaleNotes(m, modules[m], cases);
    clashes := files + copies + notes;
  }

  /** The names of all data files of the tree. */
  method KnownFiles(modules: map<string, Info>) returns (known: set<string>)
    ensures forall file :: file in known <==> Known(modules, file)
  {
    known := {};
    var names := Listing(modules.Keys);
    for i := 0 to |names|
      invariant forall file :: file in known <==> exists m :: m in names[..i] && file in modules[m].files
    {
      assert names[..i + 1] == names[..i] + [names[i]];
      known := known + modules[names[i]].files.Keys;
    }
    assert names[..|names|] == names;
  }

  /** C7: one name, one content. */
  method DifferingFiles(modules: map<string, Info>, known: set<string>) returns (clashes: seq<Clash>)
    requires forall file :: file in known <==> Known(modules, file)
    ensures forall clash :: clash in clashes <==> clash.FilesDiffer? && DataClashes(clash, [], modules)
  {
    clashes := [];
    var files := Listing(known);
    for i := 0 to |files|
      invariant forall clash :: clash in clashes <==>
                  && clash.FilesDiffer? && clash.file in files[..i] && Differing(modules, clash.file)
                  && clash.owners == Owners(modules, clash.file)
    {
      hide Differing, Owners;
      assert files[..i + 1] == files[..i] + [files[i]];
      var owners := Owners(modules, files[i]);
      var digests := set m | m in owners :: modules[m].files[files[i]];
      ManyDigests(modules, files[i], digests);
      if |digests| > 1 {
        clashes := clashes + [FilesDiffer(files[i], owners)];
      }
    }
    assert files[..|files|] == files;
  }

  lemma ManyDigests(modules: map<string, Info>, file: string, digests: set<string>)
    requires digests == set m | m in Owners(modules, file) :: modules[m].files[file]
    ensures |digests| > 1 <==> Differing(modules, file)
  {
    if |digests| > 1 {
      var x :| x in digests;
      assert |digests - {x}| > 0;
      var y :| y in digests - {x};
    }
    if Differing(modules, file) {
      var m, n :| && m in modules && n in modules && file in modules[m].files && file in modules[n].files
                  && modules[m].files[file] != modules[n].files[file];
      var x, y := modules[m].files[file], modules[n].files[file];
      assert {x, y} <= digests;
      TwoAtLeast(digests, x, y);
    }
  }

  lemma TwoAtLeast(xs: set<string>, x: string, y: string)
    requires x in xs && y in xs && x != y
    ensures |xs| > 1
  {
    assert y in xs - {x};
    assert |xs - {x}| == |xs| - 1;
  }

  /** C7 and C8. */
  method CheckModules(cases: seq<Case>, modules: map<string, Info>) returns (clashes: seq<Clash>)
    ensures forall clash :: clash in clashes <==> DataClashes(clash, cases, modules)
  {
    var known := KnownFiles(modules);
    clashes := DifferingFiles(modules, known);
    var names := Listing(modules.Keys);
    for i := 0 to |names|
      invariant forall clash :: clash in clashes <==>
                  DataClashes(clash, cases, modules)
                      && (clash.FilesDiffer? || exists m :: m in names[..i] && OfModule(clash, m))
    {
      hide DataClashes;
      assert names[..i + 1] == names[..i] + [names[i]];
      var found := CheckModule(names[i], cases, modules, known);
      clashes := clashes + found;
    }
    assert names[..|names|] == names;
    forall clash | DataClashes(clash, cases, modules)
        ensures clash.FilesDiffer? || exists m :: m in names && OfModule(clash, m) {
      if !clash.FilesDiffer? {
        assert OfModule(clash, clash.moduleName);
      }
    }
  }

  /** `check_intrinsic`. */
  method CheckIntrinsic(m: Manifest) returns (clashes: seq<Clash>)
    ensures forall clash :: clash in clashes <==> Clashes(clash, m)
  {
    hide Sharing, Consecutive, DataClashes;
    var names := RepeatedNames(m.cases);
    var blocks := RepeatedBlocks(m.blocks);
    var members := RepeatedMembers(m.members);
    var data := CheckModules(m.cases, m.modules);
    clashes := names + blocks + members + data;
    forall clash | DataClashes(clash, m.cases, m.modules)
      ensures !clash.DuplicateCase? && !clash.DuplicateBlock? && !clash.DuplicateMember?
    {
      KindsOfDataFailure(clash, m.cases, m.modules);
    }
  }

  lemma KindsOfDataFailure(clash: Clash, cases: seq<Case>, modules: map<string, Info>)
    requires DataClashes(clash, cases, modules)
    ensures !clash.DuplicateCase? && !clash.DuplicateBlock? && !clash.DuplicateMember?
  {
  }

  lemma DataFailureIsClash(clash: Clash, m: Manifest)
    ensures DataClashes(clash, m.cases, m.modules) ==> Clashes(clash, m)
  {
  }

  // ---------------------------------------------------------------- what a clean manifest is

  ghost predicate Unique<T(!new), K>(xs: seq<T>, key: T -> K) {
    forall i, j :: 0 <= i < j < |xs| ==> key(xs[i]) != key(xs[j])
  }

  lemma {:induction false} SharingNothing<T(!new), K>(xs: seq<T>, key: T -> K, k: K)
    ensures Sharing(xs, key, k) == [] <==> forall i :: 0 <= i < |xs| ==> key(xs[i]) != k
  {
    if xs == [] {
    } else {
      SharingNothing(xs[..|xs| - 1], key, k);
      assert xs == xs[..|xs| - 1] + [xs[|xs| - 1]];
    }
  }

  lemma {:induction false} UniqueMeansNoRepeats<T(!new), K(!new)>(xs: seq<T>, key: T -> K)
    ensures Unique(xs, key) <==> forall k :: |Sharing(xs, key, k)| <= 1
  {
    if xs == [] {
    } else {
      var n := |xs| - 1;
      var init, last := xs[..n], key(xs[n]);
      UniqueMeansNoRepeats(init, key);
      SharingNothing(init, key, last);
      assert Unique(xs, key) <==> Unique(init, key) && Sharing(init, key, last) == [];
      assert forall k :: Sharing(xs, key, k) == Sharing(init, key, k) + if k == last then [xs[n]] else [];
      if Unique(xs, key) {
        forall k ensures |Sharing(xs, key, k)| <= 1 {
          assert |Sharing(init, key, k)| <= 1;
        }
      } else if Unique(init, key) {
        assert |Sharing(xs, key, last)| > 1;
      } else {
        var k :| |Sharing(init, key, k)| > 1;
        assert |Sharing(xs, key, k)| > 1;
      }
    }
  }

  function NameOf(c: Case): string {
    c.name
  }

  lemma {:induction false} UniqueMeansNoneConsecutive(cases: seq<Case>)
    ensures Unique(cases, NameOf) <==> forall first, second :: !Consecutive(cases, first, second)
  {
    if cases == [] {
    } else {
      var n := |cases| - 1;
      var init, c := cases[..n], cases[n];
      UniqueMeansNoneConsecutive(init);
      assert cases == init + [c];
      forall first, second ensures Consecutive(cases, first, second) <==>
                Consecutive(init, first, second)
                    || (c == second && c.name in Index(init) && Index(init)[c.name] == first)
      {
        ConsecutiveStep(init, c, first, second);
      }
      if c.name in Index(init) {
        var i := IndexedIsLast(init, c.name);
        assert NameOf(cases[i]) == NameOf(cases[n]);
        assert Consecutive(cases, Index(init)[c.name], c);
      } else {
        forall i | 0 <= i < n ensures NameOf(cases[i]) != NameOf(c) {
          assert init[i] in init;
          CaseIsIndexed(init, init[i]);
        }
      }
    }
  }

  /** Every module carries what it loads, and what it names of the data files of the tree, one name has one content
      everywhere, and the notes name the module's own cases. */
  ghost predicate DataInPlace(cases: seq<Case>, modules: map<string, Info>) {
    && (forall m :: m in modules ==> Carries(modules, m) && forall name :: name in modules[m].notes ==>
        Owns(cases, m, name))
    && (forall file :: !Differing(modules, file))
  }

  ghost predicate Carries(modules: map<string, Info>, m: string)
    requires m in modules
  {
    && modules[m].refs <= modules[m].files.Keys
    && forall literal :: literal in modules[m].literals && Known(modules, literal) ==> literal in modules[m].files
  }

  lemma NoDataFailure(cases: seq<Case>, modules: map<string, Info>)
    ensures (forall clash :: !DataClashes(clash, cases, modules)) <==> DataInPlace(cases, modules)
  {
    hide Known, Owns, Differing, Whereabouts, Owners;
    if forall clash :: !DataClashes(clash, cases, modules) {
      forall m | m in modules ensures Carries(modules, m) && forall name :: name in modules[m].notes ==>
          Owns(cases, m, name) {
        forall ref | ref in modules[m].refs ensures ref in modules[m].files {
          assert !DataClashes(MissingFile(m, ref), cases, modules);
        }
        forall literal | literal in modules[m].literals && Known(modules, literal) ensures literal in modules[m].files {
          assert !DataClashes(MissingCopy(m, literal), cases, modules);
        }
        forall name | name in modules[m].notes ensures Owns(cases, m, name) {
          assert !DataClashes(StaleNote(m, name, Whereabouts(cases, name)), cases, modules);
        }
      }
      forall file ensures !Differing(modules, file) {
        assert !DataClashes(FilesDiffer(file, Owners(modules, file)), cases, modules);
      }
    }
  }

  /** A manifest which draws no complaint of its own. */
  ghost predicate Clean(m: Manifest) {
    && Unique(m.cases, NameOf) && Unique(m.blocks, BlockKey) && Unique(m.members, MemberKey)
    && DataInPlace(m.cases, m.modules)
  }

  /** A manifest draws no complaint of its own exactly when no two cases share a name, no two blocks of a module
      a text, no two members of a module a text and a namespace, and data files and notes are in place. */
  lemma CleanIsUnique(m: Manifest)
    ensures (forall clash :: !Clashes(clash, m)) <==> Clean(m)
  {
    hide Sharing, Consecutive, Unique, DataClashes, DataInPlace;
    UniqueMeansNoneConsecutive(m.cases);
    UniqueMeansNoRepeats(m.blocks, BlockKey);
    UniqueMeansNoRepeats(m.members, MemberKey);
    NoDataFailure(m.cases, m.modules);
    if Clean(m) {
      forall clash ensures !Clashes(clash, m) {
        match clash
        case DuplicateCase(first, second) => assert !Consecutive(m.cases, first, second);
        case DuplicateBlock(key, _) => assert |Sharing(m.blocks, BlockKey, key)| <= 1;
        case DuplicateMember(key, _) => assert |Sharing(m.members, MemberKey, key)| <= 1;
        case _ => assert !DataClashes(clash, m.cases, m.modules);
      }
    }
    if forall clash :: !Clashes(clash, m) {
      forall first, second ensures !Consecutive(m.cases, first, second) {
        assert !Clashes(DuplicateCase(first, second), m);
      }
      forall k ensures |Sharing(m.blocks, BlockKey, k)| <= 1 {
        assert !Clashes(DuplicateBlock(k, Sharing(m.blocks, BlockKey, k)), m);
      }
      forall k ensures |Sharing(m.members, MemberKey, k)| <= 1 {
        assert !Clashes(DuplicateMember(k, Sharing(m.members, MemberKey, k)), m);
      }
      forall clash ensures !DataClashes(clash, m.cases, m.modules) {
        DataFailureIsClash(clash, m);
      }
    }
  }
}
