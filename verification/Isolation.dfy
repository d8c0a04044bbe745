/** Exactly when concurrent download workers cannot tell that the others exist (scripts/s3_manage.py). */
module Isolation {
  import opened Wrappers
  import opened Digests
  import opened DownloadVerification
  import opened DownloadProtocol

  ghost predicate Destinations(setting: Setting, dests: seq<Path>) {
    |setting.jobs| == |dests| && forall w :: 0 <= w < |dests| ==> setting.jobs[w].dest == dests[w]
  }

  /** No call of this worker fails in the run. */
  ghost predicate NeverFails(run: seq<Action>, w: nat) {
    forall i :: 0 <= i < |run| && run[i].worker == w ==> !run[i].fault
  }

  /** A worker which is done has the outcome it would have alone. */
  ghost predicate EndsAsAlone(setting: Setting, tree0: Tree, run: seq<Action>, w: nat)
    requires setting.Placed() && w < |setting.jobs|
  {
    var pc := Run(setting, Initial(setting, tree0), run).pcs[w];
    pc.Done? ==> pc.outcome == Expected(setting, tree0, setting.jobs[w])
  }

  /** Whatever the objects, the tree and the run: a worker none of whose own calls fails ends as it would alone. */
  ghost predicate Isolated(dests: seq<Path>, isTemp: Name -> bool) {
    forall setting: Setting, tree0, run, w: nat ::
      setting.isTemp == isTemp && Destinations(setting, dests) && setting.Placed() && WellFormed(tree0) && w < |dests|
          && NeverFails(run, w)
      ==> EndsAsAlone(setting, tree0, run, w)
  }

  /** No destination equals another or lies below it. */
  ghost predicate NoneRelated(dests: seq<Path>) {
    forall v, w :: 0 <= v < |dests| && 0 <= w < |dests| && v != w ==> !(dests[v] <= dests[w])
  }

  /** No destination is, or lies below, a path at which some worker may make its temporary file. */
  ghost predicate NoneTemporary(dests: seq<Path>, isTemp: Name -> bool) {
    forall v, w, k :: 0 <= v < |dests| && 0 <= w < |dests| && 0 < k <= |dests[w]| ==>
        !TempOf(dests[v], dests[w][..k], isTemp)
  }

  /** `p` may be the temporary file of the worker for `dest`. */
  ghost predicate TempOf(dest: Path, p: Path, isTemp: Name -> bool) {
    dest != [] && p != [] && isTemp(p[|p| - 1]) && Parent(p) == Parent(dest)
  }

  lemma ValidMeansNoneTemporary(setting: Setting, dests: seq<Path>)
    requires Destinations(setting, dests) && setting.Placed()
    ensures setting.Valid() <==> NoneTemporary(dests, setting.isTemp)
  {
    if setting.Valid() {
      forall v, w, k | 0 <= v < |dests| && 0 <= w < |dests| && 0 < k <= |dests[w]|
        ensures !TempOf(dests[v], dests[w][..k], setting.isTemp)
      {
        assert !TempPath(setting, setting.jobs[w].dest[..k]);
        assert MakesTempIn(setting.jobs, v, Parent(dests[v]));
      }
    }
    if NoneTemporary(dests, setting.isTemp) {
      forall w, k | 0 <= w < |dests| && 0 < k <= |dests[w]| ensures !TempPath(setting, setting.jobs[w].dest[..k]) {
        var p := dests[w][..k];
        if v: nat :| MakesTempIn(setting.jobs, v, Parent(p)) {
          forall u: nat | MakesTempIn(setting.jobs, u, Parent(p)) ensures !setting.isTemp(p[|p| - 1]) {
            assert !TempOf(dests[u], dests[w][..k], setting.isTemp);
          }
        }
      }
    }
  }

  // ---------------------------------------------------------------- runs made of one worker's steps

  lemma {:induction false} RunOn(setting: Setting, s: State, first: seq<Action>, more: seq<Action>)
    requires setting.Placed() && |s.pcs| == |setting.jobs|
    ensures Run(setting, s, first + more) == Run(setting, Run(setting, s, first), more)
    decreases |more|
  {
    hide Step;
    if more == [] {
      assert first + more == first;
    } else {
      assert (first + more)[..|first + more| - 1] == first + more[..|more| - 1];
      RunOn(setting, s, first, more[..|more| - 1]);
    }
  }

  ghost predicate Quiet(run: seq<Action>) {
    forall i :: 0 <= i < |run| ==> !run[i].fault
  }

  /** The state after worker `w` has moved to `pc` without touching the tree. */
  ghost function At(s: State, w: nat, pc: Pc): State
    requires w < |s.pcs|
  {
    s.(pcs := s.pcs[w := pc])
  }

  lemma RunOne(setting: Setting, s: State, a: Action)
    requires setting.Placed() && |s.pcs| == |setting.jobs|
    ensures Run(setting, s, [a]) == Step(setting, s, a)
  {
    hide Step;
    assert [a][..0] == [];
  }

  lemma RunThen(setting: Setting, s: State, run: seq<Action>, a: Action)
    requires setting.Placed() && |s.pcs| == |setting.jobs|
    ensures Run(setting, s, run + [a]) == Step(setting, Run(setting, s, run), a)
  {
    hide Step;
    RunOn(setting, s, run, [a]);
    RunOne(setting, Run(setting, s, run), a);
  }

  /** A worker walks down folders. */
  lemma {:induction false} WalkTo(setting: Setting, s: State, a: Action, k: nat, stop: nat) returns (run: seq<Action>)
    requires setting.Placed() && a.worker < |s.pcs| == |setting.jobs| && !a.fault && s.pcs[a.worker] == Walking(k)
    requires k <= stop <= |setting.jobs[a.worker].dest|
    requires forall j :: k <= j < stop ==> IsFolder(s.tree, setting.jobs[a.worker].dest[..j])
    ensures Quiet(run) && Run(setting, s, run) == At(s, a.worker, Walking(stop))
    decreases stop - k
  {
    if k == stop {
      run := [];
      assert s.pcs[a.worker := Walking(k)] == s.pcs;
    } else {
      var next := At(s, a.worker, Walking(k + 1));
      assert IsFolder(s.tree, setting.jobs[a.worker].dest[..k]);
      assert Step(setting, s, a) == next;
      hide Step;
      RunOne(setting, s, a);
      var rest := WalkTo(setting, next, a, k + 1, stop);
      RunOn(setting, s, [a], rest);
      run := [a] + rest;
    }
  }

  /** A worker making folders finds them there. */
  lemma {:induction false} MakeTo(setting: Setting, s: State, a: Action, k: nat, stop: nat) returns (run: seq<Action>)
    requires setting.Placed() && a.worker < |s.pcs| == |setting.jobs| && !a.fault && s.pcs[a.worker] == Making(k)
    requires k <= stop <= |setting.jobs[a.worker].dest|
    requires forall j :: k <= j < stop ==> IsFolder(s.tree, setting.jobs[a.worker].dest[..j])
    ensures Quiet(run) && Run(setting, s, run) == At(s, a.worker, Making(stop))
    decreases stop - k
  {
    if k == stop {
      run := [];
      assert s.pcs[a.worker := Making(k)] == s.pcs;
    } else {
      var next := At(s, a.worker, Making(k + 1));
      assert IsFolder(s.tree, setting.jobs[a.worker].dest[..k]);
      assert Step(setting, s, a) == next;
      hide Step;
      RunOne(setting, s, a);
      var rest := MakeTo(setting, next, a, k + 1, stop);
      RunOn(setting, s, [a], rest);
      run := [a] + rest;
    }
  }

  /** From the start down to depth `stop`. */
  lemma Arrive(setting: Setting, s: State, a: Action, stop: nat) returns (run: seq<Action>)
    requires setting.Placed() && a.worker < |s.pcs| == |setting.jobs| && !a.fault && s.pcs[a.worker] == Start
    requires setting.jobs[a.worker].head.Some? && 0 < stop <= |setting.jobs[a.worker].dest|
    requires forall j :: 0 < j < stop ==> IsFolder(s.tree, setting.jobs[a.worker].dest[..j])
    ensures Quiet(run) && Run(setting, s, run) == At(s, a.worker, Walking(stop))
  {
    var next := At(s, a.worker, Walking(1));
    assert Step(setting, s, a) == next;
    hide Step;
    RunOne(setting, s, a);
    var rest := WalkTo(setting, next, a, 1, stop);
    RunOn(setting, s, [a], rest);
    run := [a] + rest;
  }

  /** From there, where nothing is, to making folders at that depth. */
  lemma ArriveMaking(setting: Setting, s: State, a: Action, stop: nat) returns (run: seq<Action>)
    requires setting.Placed() && a.worker < |s.pcs| == |setting.jobs| && !a.fault && s.pcs[a.worker] == Start
    requires setting.jobs[a.worker].head.Some? && 0 < stop <= |setting.jobs[a.worker].dest| && !setting.dryRun
    requires forall j :: 0 < j < stop ==> IsFolder(s.tree, setting.jobs[a.worker].dest[..j])
    requires setting.jobs[a.worker].dest[..stop] !in s.tree
    ensures Quiet(run) && Run(setting, s, run) == At(s, a.worker, Making(stop))
  {
    var first := Arrive(setting, s, a, stop);
    var there, made := At(s, a.worker, Walking(stop)), At(s, a.worker, Making(1));
    assert Step(setting, there, a) == made;
    hide Step;
    RunThen(setting, s, first, a);
    var rest := MakeTo(setting, made, a, 1, stop);
    RunOn(setting, s, first + [a], rest);
    run := first + [a] + rest;
  }

  // ---------------------------------------------------------------- empty objects below given folders

  /** The folders a destination needs, and nothing else. */
  ghost function Above(dest: Path): (tree: Tree)
    ensures forall p :: p in tree <==> p <= dest && |p| < |dest|
    ensures forall p :: p in tree ==> tree[p] == Folder
  {
    var prefixes := set k | 0 <= k < |dest| :: dest[..k];
    assert forall p :: p <= dest && |p| < |dest| ==> p == dest[..|p|];
    map p | p in prefixes :: Folder
  }

  lemma AboveIsWellFormed(dest: Path)
    requires dest != []
    ensures WellFormed(Above(dest))
  {
    forall p | p in Above(dest) && p != [] ensures InFolder(Above(dest), p) {
      assert Parent(p) <= p <= dest;
    }
  }

  /** Objects without content, which verify. */
  ghost function EmptyObjects(dests: seq<Path>, isTemp: Name -> bool): (setting: Setting)
    ensures Destinations(setting, dests) && setting.isTemp == isTemp && !setting.dryRun
    ensures (forall w :: 0 <= w < |dests| ==> dests[w] != []) ==> setting.Placed()
    ensures forall w :: 0 <= w < |setting.jobs| ==>
        setting.jobs[w].head == Some(Meta("", 0, None)) && setting.jobs[w].delivery == Delivered([])
    ensures Judge(setting.checks, [], Meta("", 0, None)) == Verified
  {
    var hash := Hash([], _ => [], 0);
    Setting(Checks(hash, hash, _ => None),
            seq(|dests|, w requires 0 <= w < |dests| => Job(dests[w], Some(Meta("", 0, None)), Delivered([]))), false,
                isTemp)
  }

  lemma {:induction false} ScanComesToNothing(tree: Tree, dest: Path, k: nat)
    requires 0 < k <= |dest| && dest !in tree && forall p :: p in tree ==> tree[p] == Folder
    ensures ScanFrom(tree, dest, k) == Missing
    decreases |dest| - k
  {
    if k == |dest| {
      assert dest[..k] == dest;
    } else {
      ScanComesToNothing(tree, dest, k + 1);
    }
  }

  lemma DownloadsAlone(dests: seq<Path>, isTemp: Name -> bool, v: nat, w: nat)
    requires v < |dests| && w < |dests| && dests[v] != [] && dests[w] != [] && dests[w] !in Above(dests[v])
    ensures var setting := EmptyObjects(dests, isTemp);
            Expected(setting, Above(dests[v]), setting.jobs[w]) == Downloaded
  {
    hide Judge;
    ScanComesToNothing(Above(dests[v]), dests[w], 1);
  }

  // ---------------------------------------------------------------- interference

  /** A run without failing calls after which worker `w` is done with an outcome it would not have alone. */
  ghost predicate Disturbed(setting: Setting, tree0: Tree, run: seq<Action>, w: nat)
    requires setting.Placed()
  {
    w < |setting.jobs| && WellFormed(tree0) && Quiet(run) && Run(setting, Initial(setting, tree0), run).pcs[w].Done?
    && !EndsAsAlone(setting, tree0, run, w)
  }

  lemma FoldersOf(dest: Path)
    requires dest != []
    ensures dest !in Above(dest) && forall j :: 0 <= j < |dest| ==> IsFolder(Above(dest), dest[..j])
    ensures forall name :: Parent(dest) + [name] !in Above(dest)
  {
  }

  /** With all folders there a worker opens its temporary file. */
  lemma OpenFile(setting: Setting, s: State, a: Action)
    requires setting.Placed() && a.worker < |s.pcs| == |setting.jobs| && !a.fault
    requires s.pcs[a.worker] == Making(|setting.jobs[a.worker].dest|) && setting.isTemp(a.name)
    requires var folder := Parent(setting.jobs[a.worker].dest); IsFolder(s.tree, folder) && folder + [a.name] !in s.tree
    ensures var temp := Parent(setting.jobs[a.worker].dest) + [a.name];
            Run(setting, s, [a, a]) == State(s.tree[temp := File([])], s.pcs[a.worker := Writing(temp, 0)], s.leaked)
  {
    var opening := At(s, a.worker, Opening);
    assert Step(setting, s, a) == opening;
    var temp := Parent(setting.jobs[a.worker].dest) + [a.name];
    assert s.leaked + {} == s.leaked
        && opening.pcs[a.worker := Writing(temp, 0)] == s.pcs[a.worker := Writing(temp, 0)];
    assert Step(setting, opening, a) == State(s.tree[temp := File([])], s.pcs[a.worker := Writing(temp, 0)], s.leaked);
    hide Step;
    RunOne(setting, s, a);
    RunThen(setting, s, [a], a);
    assert [a] + [a] == [a, a];
  }

  /** A worker opens its temporary file. */
  lemma Opens(dests: seq<Path>, isTemp: Name -> bool, v: nat, name: Name) returns (run: seq<Action>)
    requires v < |dests| && isTemp(name) && forall w :: 0 <= w < |dests| ==> dests[w] != []
    ensures var setting, temp := EmptyObjects(dests, isTemp), Parent(dests[v]) + [name];
            var s0 := Initial(setting, Above(dests[v]));
            && Quiet(run) && temp !in s0.tree
            && Run(setting, s0, run) == State(s0.tree[temp := File([])], s0.pcs[v := Writing(temp, 0)], {})
  {
    hide Step, Above, EmptyObjects, Run, Quiet;
    var setting, dest := EmptyObjects(dests, isTemp), dests[v];
    var s0, a := Initial(setting, Above(dest)), Action(v, false, name, 0);
    FoldersOf(dest);
    assert dest[..|dest|] == dest && Parent(dest) == dest[..|dest| - 1];
    var first := ArriveMaking(setting, s0, a, |dest|);
    OpenFile(setting, At(s0, v, Making(|dest|)), a);
    RunOn(setting, s0, first, [a, a]);
    run := first + [a, a];
    QuietJoin(first, [a, a]) by { QuietTwo(a); }
    var temp := Parent(dest) + [name];
    assert s0.pcs[v := Making(|dest|)][v := Writing(temp, 0)] == s0.pcs[v := Writing(temp, 0)];
  }

  lemma QuietJoin(first: seq<Action>, more: seq<Action>)
    requires Quiet(first) && Quiet(more)
    ensures Quiet(first + more)
  {
  }

  lemma QuietTwo(a: Action)
    requires !a.fault
    ensures Quiet([a, a]) && Quiet([a])
  {
  }

  /** A worker walks into a file. */
  lemma MeetsFile(setting: Setting, s: State, a: Action, k: nat) returns (run: seq<Action>)
    requires setting.Placed() && a.worker < |s.pcs| == |setting.jobs| && !a.fault && s.pcs[a.worker] == Start
    requires setting.jobs[a.worker].head.Some? && 0 < k <= |setting.jobs[a.worker].dest|
    requires forall j :: 0 < j < k ==> IsFolder(s.tree, setting.jobs[a.worker].dest[..j])
    requires IsFile(s.tree, setting.jobs[a.worker].dest[..k])
    ensures Quiet(run)
    ensures var pc := Run(setting, s, run).pcs[a.worker]; pc.Done? && pc.outcome != Downloaded
  {
    var first := Arrive(setting, s, a, k);
    var there := At(s, a.worker, Walking(k));
    var dest := setting.jobs[a.worker].dest;
    if k < |dest| {
      assert Step(setting, there, a).pcs[a.worker] == Done(FAILED);
      hide Step;
      RunThen(setting, s, first, a);
      run := first + [a];
    } else {
      assert dest[..k] == dest;
      var checking := At(s, a.worker, Checking);
      assert Step(setting, there, a) == checking;
      assert Step(setting, checking, a).pcs[a.worker].Done?
          && Step(setting, checking, a).pcs[a.worker].outcome != Downloaded by { hide Judge; }
      hide Step;
      RunThen(setting, s, first, a);
      RunThen(setting, s, first + [a], a);
      run := first + [a] + [a];
    }
  }

  /** A worker whose empty file is open verifies it and looks at its destination again. */
  lemma Verifies(setting: Setting, s: State, a: Action, temp: Path) returns (run: seq<Action>)
    requires setting.Placed() && a.worker < |s.pcs| == |setting.jobs| && !a.fault
    requires s.pcs[a.worker] == Writing(temp, 0) && temp in s.tree && s.tree[temp] == File([])
    requires setting.jobs[a.worker].head.Some? && setting.jobs[a.worker].delivery == Delivered([])
    requires Judge(setting.checks, [], setting.jobs[a.worker].head.value) == Verified
    ensures Quiet(run) && Run(setting, s, run) == At(s, a.worker, Rechecking(temp))
  {
    hide Judge;
    var verifying, rechecking := At(s, a.worker, Verifying(temp)), At(s, a.worker, Rechecking(temp));
    assert s.leaked + {} == s.leaked;
    assert Step(setting, s, a) == verifying;
    assert Step(setting, verifying, a) == rechecking;
    hide Step;
    RunOne(setting, s, a);
    RunThen(setting, s, [a], a);
    run := [a] + [a];
  }

  /** A worker which finds something at its destination then cleans up and fails. */
  lemma FindsDestination(setting: Setting, s: State, a: Action, temp: Path)
    requires setting.Placed() && a.worker < |s.pcs| == |setting.jobs| && !a.fault
    requires s.pcs[a.worker] == Rechecking(temp) && setting.jobs[a.worker].dest in s.tree
    ensures Run(setting, s, [a, a]).pcs[a.worker] == Done(FAILED)
  {
    var cleaning := At(s, a.worker, Cleaning(temp, FAILED));
    assert s.leaked + {} == s.leaked;
    assert Step(setting, s, a) == cleaning;
    assert Step(setting, cleaning, a).pcs[a.worker] == Done(FAILED);
    hide Step;
    RunOne(setting, s, a);
    RunThen(setting, s, [a], a);
    assert [a] + [a] == [a, a];
  }

  /** A worker which finds nothing there publishes. */
  lemma PublishesFile(setting: Setting, s: State, a: Action, temp: Path)
    requires setting.Placed() && a.worker < |s.pcs| == |setting.jobs| && !a.fault
    requires s.pcs[a.worker] == Rechecking(temp) && setting.jobs[a.worker].dest !in s.tree && temp in s.tree
    ensures Run(setting, s, [a, a]) ==
            State((s.tree - {temp})[setting.jobs[a.worker].dest := s.tree[temp]], s.pcs[a.worker := Done(Downloaded)],
                s.leaked)
  {
    var publishing := At(s, a.worker, Publishing(temp));
    assert s.leaked + {} == s.leaked;
    assert Step(setting, s, a) == publishing;
    assert publishing.pcs[a.worker := Done(Downloaded)] == s.pcs[a.worker := Done(Downloaded)];
    assert Step(setting, publishing, a) ==
           State((s.tree - {temp})[setting.jobs[a.worker].dest := s.tree[temp]], s.pcs[a.worker := Done(Downloaded)],
               s.leaked);
    hide Step;
    RunOne(setting, s, a);
    RunThen(setting, s, [a], a);
    assert [a] + [a] == [a, a];
  }

  // ---------------------------------------------------------------- the three ways

  /** The runs found below disturb worker `x`. */
  lemma IsDisturbed(dests: seq<Path>, isTemp: Name -> bool, v: nat, x: nat, run: seq<Action>)
    requires v < |dests| && x < |dests| && (forall w :: 0 <= w < |dests| ==> dests[w] != [])
        && dests[x] !in Above(dests[v])
    requires var setting := EmptyObjects(dests, isTemp);
             var pc := Run(setting, Initial(setting, Above(dests[v])), run).pcs[x]; pc.Done? && pc.outcome != Downloaded
    requires Quiet(run)
    ensures Disturbed(EmptyObjects(dests, isTemp), Above(dests[v]), run, x)
  {
    hide Run, Above, Expected;
    AboveIsWellFormed(dests[v]);
    DownloadsAlone(dests, isTemp, v, x);
  }

  /** A worker whose own temporary file is its destination stops before publishing. */
  lemma OwnTemporary(dests: seq<Path>, isTemp: Name -> bool, v: nat, name: Name) returns (run: seq<Action>)
    requires v < |dests| && isTemp(name) && forall w :: 0 <= w < |dests| ==> dests[w] != []
    requires Parent(dests[v]) + [name] == dests[v]
    ensures Disturbed(EmptyObjects(dests, isTemp), Above(dests[v]), run, v)
  {
    hide Step, Run, Above, EmptyObjects, Quiet, Judge, Disturbed;
    var setting, a := EmptyObjects(dests, isTemp), Action(v, false, name, 0);
    var s0, temp := Initial(setting, Above(dests[v])), dests[v];
    var opening := Opens(dests, isTemp, v, name);
    var s1 := Run(setting, s0, opening);
    var verifying := Verifies(setting, s1, a, temp);
    RunOn(setting, s0, opening, verifying);
    FindsDestination(setting, At(s1, v, Rechecking(temp)), a, temp);
    RunOn(setting, s0, opening + verifying, [a, a]);
    run := opening + verifying + [a, a];
    QuietTwo(a);
    QuietJoin(opening, verifying);
    QuietJoin(opening + verifying, [a, a]);
    FoldersOf(dests[v]);
    IsDisturbed(dests, isTemp, v, v, run);
  }

  /** The temporary file of one worker is in the way of another. */
  lemma OthersTemporary(dests: seq<Path>, isTemp: Name -> bool, v: nat, w: nat, k: nat, name: Name)
      returns (run: seq<Action>)
    requires v < |dests| && w < |dests| && v != w && isTemp(name) && forall w :: 0 <= w < |dests| ==> dests[w] != []
    requires 0 < k <= |dests[w]| && Parent(dests[v]) + [name] == dests[w][..k]
    ensures Disturbed(EmptyObjects(dests, isTemp), Above(dests[v]), run, w)
  {
    hide Step, Run, EmptyObjects, Quiet, Judge, Disturbed;
    var setting, b := EmptyObjects(dests, isTemp), Action(w, false, name, 0);
    var s0, temp := Initial(setting, Above(dests[v])), Parent(dests[v]) + [name];
    var opening := Opens(dests, isTemp, v, name);
    var s1 := Run(setting, s0, opening);
    forall j | 0 < j < k ensures IsFolder(s1.tree, dests[w][..j]) {
      assert dests[w][..j] == dests[w][..k][..j] == Parent(dests[v])[..j];
    }
    var meeting := MeetsFile(setting, s1, b, k);
    RunOn(setting, s0, opening, meeting);
    run := opening + meeting;
    QuietJoin(opening, meeting);
    assert |dests[w]| >= k == |dests[v]|;
    IsDisturbed(dests, isTemp, v, w, run);
  }

  /** One destination lies below another: the folder made for the one is in the way of the other. */
  lemma FolderInTheWay(dests: seq<Path>, isTemp: Name -> bool, v: nat, w: nat) returns (run: seq<Action>)
    requires v < |dests| && w < |dests| && v != w && forall w :: 0 <= w < |dests| ==> dests[w] != []
    requires dests[v] <= dests[w] && |dests[v]| < |dests[w]|
    ensures Disturbed(EmptyObjects(dests, isTemp), Above(dests[v]), run, v)
  {
    hide Step, Run, EmptyObjects, Quiet, Judge, Disturbed;
    var setting := EmptyObjects(dests, isTemp);
    var a, b, n := Action(v, false, "", 0), Action(w, false, "", 0), |dests[v]|;
    var s0 := Initial(setting, Above(dests[v]));
    assert dests[w][..n] == dests[v] && dests[v][..n] == dests[v];
    forall j | 0 <= j < n ensures IsFolder(s0.tree, dests[w][..j]) && IsFolder(s0.tree, dests[v][..j]) {
      assert dests[w][..j] == dests[v][..j];
    }
    var first := ArriveMaking(setting, s0, b, n);
    var s1 := At(s0, w, Making(n));
    MakesFolder(setting, s1, b, n);
    var s2 := Run(setting, s1, [b, b]);
    var second := MeetsFolder(setting, s2, a);
    RunOn(setting, s0, first, [b, b]);
    RunOn(setting, s0, first + [b, b], second);
    run := first + [b, b] + second;
    QuietTwo(b);
    QuietJoin(first, [b, b]);
    QuietJoin(first + [b, b], second);
    FoldersOf(dests[v]);
    IsDisturbed(dests, isTemp, v, v, run);
  }

  /** A worker makes the folder it misses. */
  lemma MakesFolder(setting: Setting, s: State, a: Action, k: nat)
    requires setting.Placed() && a.worker < |s.pcs| == |setting.jobs| && !a.fault && s.pcs[a.worker] == Making(k)
    requires 0 < k < |setting.jobs[a.worker].dest| && setting.jobs[a.worker].dest[..k] !in s.tree
    requires IsFolder(s.tree, setting.jobs[a.worker].dest[..k - 1])
    ensures Run(setting, s, [a, a]) ==
            State(s.tree[setting.jobs[a.worker].dest[..k] := Folder], s.pcs[a.worker := Remade(k)], s.leaked)
  {
    var next := At(s, a.worker, MakeFolder(k));
    assert s.leaked + {} == s.leaked && next.pcs[a.worker := Remade(k)] == s.pcs[a.worker := Remade(k)];
    assert Step(setting, s, a) == next;
    hide Step;
    RunOne(setting, s, a);
    RunThen(setting, s, [a], a);
    assert [a] + [a] == [a, a];
    StepMakes(setting, next, a, k);
  }

  lemma StepMakes(setting: Setting, s: State, a: Action, k: nat)
    requires setting.Placed() && a.worker < |s.pcs| == |setting.jobs| && !a.fault && s.pcs[a.worker] == MakeFolder(k)
    requires 0 < k < |setting.jobs[a.worker].dest| && setting.jobs[a.worker].dest[..k] !in s.tree
    requires IsFolder(s.tree, setting.jobs[a.worker].dest[..k - 1])
    ensures Step(setting, s, a) ==
            State(s.tree[setting.jobs[a.worker].dest[..k] := Folder], s.pcs[a.worker := Remade(k)], s.leaked)
  {
    assert s.leaked + {} == s.leaked;
  }

  /** A worker walks to its destination and finds a folder there. */
  lemma MeetsFolder(setting: Setting, s: State, a: Action) returns (run: seq<Action>)
    requires setting.Placed() && a.worker < |s.pcs| == |setting.jobs| && !a.fault && s.pcs[a.worker] == Start
    requires setting.jobs[a.worker].head.Some?
    requires forall j :: 0 < j < |setting.jobs[a.worker].dest| ==> IsFolder(s.tree, setting.jobs[a.worker].dest[..j])
    requires IsFolder(s.tree, setting.jobs[a.worker].dest)
    ensures Quiet(run) && Run(setting, s, run).pcs[a.worker] == Done(FAILED)
  {
    var dest := setting.jobs[a.worker].dest;
    var first := Arrive(setting, s, a, |dest|);
    var there := At(s, a.worker, Walking(|dest|));
    assert dest[..|dest|] == dest;
    assert Step(setting, there, a).pcs[a.worker] == Done(FAILED);
    hide Step;
    RunThen(setting, s, first, a);
    run := first + [a];
  }

  /** Two destinations are one: what the one worker publishes is in the way of the other. */
  lemma FileInTheWay(dests: seq<Path>, isTemp: Name -> bool, v: nat, w: nat, name: Name) returns (run: seq<Action>)
    requires v < |dests| && w < |dests| && v != w && isTemp(name) && forall w :: 0 <= w < |dests| ==> dests[w] != []
    requires dests[v] == dests[w] && Parent(dests[v]) + [name] != dests[v]
    ensures Disturbed(EmptyObjects(dests, isTemp), Above(dests[v]), run, w)
  {
    hide Step, Run, EmptyObjects, Quiet, Judge, Disturbed;
    var setting, n := EmptyObjects(dests, isTemp), |dests[v]|;
    var a, b := Action(v, false, name, 0), Action(w, false, name, 0);
    var s0, temp := Initial(setting, Above(dests[v])), Parent(dests[v]) + [name];
    FoldersOf(dests[v]);
    var opening := Opens(dests, isTemp, v, name);
    var s1 := Run(setting, s0, opening);
    var verifying := Verifies(setting, s1, a, temp);
    RunOn(setting, s0, opening, verifying);
    var s2 := At(s1, v, Rechecking(temp));
    PublishesFile(setting, s2, a, temp);
    var s3 := Run(setting, s2, [a, a]);
    RunOn(setting, s0, opening + verifying, [a, a]);
    var published := opening + verifying + [a, a];
    assert dests[w][..n] == dests[v];
    forall j | 0 < j < n ensures IsFolder(s3.tree, dests[w][..j]) {
      assert IsFolder(s0.tree, dests[v][..j]);
    }
    var meeting := MeetsFile(setting, s3, b, n);
    RunOn(setting, s0, published, meeting);
    run := published + meeting;
    QuietTwo(a);
    QuietJoin(opening, verifying);
    QuietJoin(opening + verifying, [a, a]);
    QuietJoin(published, meeting);
    IsDisturbed(dests, isTemp, v, w, run);
  }

  // ---------------------------------------------------------------- exactly when

  lemma DisturbedIsNotIsolated(dests: seq<Path>, isTemp: Name -> bool, setting: Setting, tree0: Tree, run: seq<Action>,
      x: nat)
    requires setting.Placed() && setting.isTemp == isTemp && Destinations(setting, dests)
        && Disturbed(setting, tree0, run, x)
    ensures !Isolated(dests, isTemp)
  {
    hide EndsAsAlone, Run, WellFormed;
    assert NeverFails(run, x);
  }

  /** Any two related destinations interfere. */
  lemma RelatedWorkersInterfere(dests: seq<Path>, isTemp: Name -> bool, v: nat, w: nat, name: Name)
      returns (run: seq<Action>, x: nat)
    requires v < |dests| && w < |dests| && v != w && isTemp(name) && forall w :: 0 <= w < |dests| ==> dests[w] != []
    requires dests[v] <= dests[w]
    ensures Disturbed(EmptyObjects(dests, isTemp), Above(dests[v]), run, x)
  {
    hide Disturbed, EmptyObjects, Above;
    if |dests[v]| < |dests[w]| {
      run := FolderInTheWay(dests, isTemp, v, w);
      x := v;
    } else if Parent(dests[v]) + [name] == dests[v] {
      run := OwnTemporary(dests, isTemp, v, name);
      x := v;
    } else {
      run := FileInTheWay(dests, isTemp, v, w, name);
      x := w;
    }
  }

  /** Any destination at or below a path of a temporary file is interfered with. */
  lemma TemporaryNamesInterfere(dests: seq<Path>, isTemp: Name -> bool, v: nat, w: nat, k: nat)
      returns (run: seq<Action>)
    requires v < |dests| && w < |dests| && 0 < k <= |dests[w]| && forall w :: 0 <= w < |dests| ==> dests[w] != []
    requires TempOf(dests[v], dests[w][..k], isTemp)
    ensures Disturbed(EmptyObjects(dests, isTemp), Above(dests[v]), run, w)
  {
    hide Disturbed, EmptyObjects, Above;
    var p := dests[w][..k];
    var name := p[k - 1];
    assert p == Parent(p) + [name];
    if v == w {
      assert |Parent(p)| == k - 1 && |Parent(dests[v])| == |dests[v]| - 1;
      assert p == dests[v];
      run := OwnTemporary(dests, isTemp, v, name);
    } else {
      run := OthersTemporary(dests, isTemp, v, w, k, name);
    }
  }

  lemma UnrelatedIsIsolated(dests: seq<Path>, isTemp: Name -> bool)
    requires NoneRelated(dests) && NoneTemporary(dests, isTemp)
    ensures Isolated(dests, isTemp)
  {
    hide EndsAsAlone, WellFormed, NoneTemporary;
    forall setting: Setting, tree0, run, w: nat
      | setting.isTemp == isTemp && Destinations(setting, dests) && setting.Placed() && WellFormed(tree0) && w < |dests|
          && NeverFails(run, w)
      ensures EndsAsAlone(setting, tree0, run, w)
    {
      ValidMeansNoneTemporary(setting, dests);
      AloneInAnyRun(setting, tree0, run, w);
    }
  }

  lemma AloneInAnyRun(setting: Setting, tree0: Tree, run: seq<Action>, w: nat)
    requires setting.Valid() && Unrelated(setting) && WellFormed(tree0) && w < |setting.jobs| && NeverFails(run, w)
    ensures EndsAsAlone(setting, tree0, run, w)
  {
    hide Run, Expected, Unrelated, WellFormed;
    WorkersAreIsolated(setting, tree0, run, w);
  }

  /** Workers for these destinations are isolated, whatever the objects, the tree and the run, if and only if no
      destination equals another or lies below it, and none is, or lies below, a path at which some worker may make
      its temporary file. */
  lemma IsolatedExactlyWhenApart(dests: seq<Path>, isTemp: Name -> bool)
    requires (forall w :: 0 <= w < |dests| ==> dests[w] != []) && exists name :: isTemp(name)
    ensures Isolated(dests, isTemp) <==> NoneRelated(dests) && NoneTemporary(dests, isTemp)
  {
    hide Isolated, TempOf, Disturbed, Above, EmptyObjects;
    var name :| isTemp(name);
    if NoneRelated(dests) && NoneTemporary(dests, isTemp) {
      UnrelatedIsIsolated(dests, isTemp);
    } else if !NoneRelated(dests) {
      var v: nat, w: nat :| v < |dests| && w < |dests| && v != w && dests[v] <= dests[w];
      var run, x := RelatedWorkersInterfere(dests, isTemp, v, w, name);
      DisturbedIsNotIsolated(dests, isTemp, EmptyObjects(dests, isTemp), Above(dests[v]), run, x);
    } else {
      var v: nat, w: nat, k: nat :| v < |dests| && w < |dests| && 0 < k <= |dests[w]|
          && TempOf(dests[v], dests[w][..k], isTemp);
      var run := TemporaryNamesInterfere(dests, isTemp, v, w, k);
      DisturbedIsNotIsolated(dests, isTemp, EmptyObjects(dests, isTemp), Above(dests[v]), run, w);
    }
  }
}
