/** What the outcome of a download worker says about the tree and the bytes (scripts/s3_manage.py), whichever of
    its calls fail. */
module Outcomes {
  import opened Digests
  import opened DownloadVerification
  import opened DownloadProtocol

  /** Bytes a worker may have judged: those at its destination at the start, those delivered to it, or those which a
      worker with the same destination published. */
  ghost predicate Judgeable(setting: Setting, tree0: Tree, w: nat, content: Bytes)
    requires w < |setting.jobs|
  {
    || (setting.jobs[w].dest in tree0 && tree0[setting.jobs[w].dest] == File(content))
    || setting.jobs[w].delivery == Delivered(content)
    || exists v :: PublishedThere(setting, v, setting.jobs[w].dest, content)
  }

  ghost predicate PublishedThere(setting: Setting, v: nat, dest: Path, content: Bytes) {
    v < |setting.jobs| && setting.jobs[v].dest == dest && Accepted(setting, v, content)
  }

  ghost predicate Judged(setting: Setting, tree0: Tree, w: nat, category: Category)
    requires w < |setting.jobs|
  {
    && setting.jobs[w].head.Some?
    && exists content ::
         Judgeable(setting, tree0, w, content)
         && category == Judge(setting.checks, content, setting.jobs[w].head.value)
  }

  /** Something on the way to the destination, or the destination itself, was not there at the start. */
  ghost predicate MissingAtStart(tree0: Tree, dest: Path) {
    exists k :: 0 < k <= |dest| && dest[..k] !in tree0
  }

  /** A final outcome says what happened. */
  ghost predicate TrueOutcome(setting: Setting, tree0: Tree, tree: Tree, w: nat, outcome: Outcome)
    requires w < |setting.jobs|
  {
    var dest := setting.jobs[w].dest;
    match outcome
    case Downloaded => IsFile(tree, dest) && dest !in tree0
    case WouldDownload => setting.dryRun && MissingAtStart(tree0, dest)
    case Reported(category) => category != Error ==> Judged(setting, tree0, w, category)
  }

  /** What a worker which is still at work may come to report. */
  ghost predicate OnTheWay(setting: Setting, tree0: Tree, tree: Tree, w: nat, pc: Pc)
    requires w < |setting.jobs|
  {
    match pc
    case Start => true
    case Done(outcome) => TrueOutcome(setting, tree0, tree, w, outcome)
    case Walking(k) => setting.jobs[w].head.Some? && k > 0
    case Cleaning(_, outcome) => outcome.Reported? && TrueOutcome(setting, tree0, tree, w, outcome)
    case _ => setting.jobs[w].head.Some?
  }

  /** A file at a destination stays a file. */
  lemma FileStays(setting: Setting, tree0: Tree, s: State, a: Action, w: nat)
    requires setting.Valid() && |s.pcs| == |setting.jobs| && Safe(setting, tree0, s) && w < |s.pcs|
    requires IsFile(s.tree, setting.jobs[w].dest)
    ensures IsFile(Step(setting, s, a).tree, setting.jobs[w].dest)
  {
    hide Safe, Judge, TempPath, Accepted;
    DestIsNoTemp(setting, w);
    if a.worker < |s.pcs| {
      WorkerFacts(setting, tree0, s, a.worker);
      TempsAreTemp(setting, a);
    }
  }

  lemma TempsAreTemp(setting: Setting, a: Action)
    requires setting.Placed() && a.worker < |setting.jobs|
    ensures setting.isTemp(a.name) ==> TempPath(setting, Parent(setting.jobs[a.worker].dest) + [a.name])
  {
    if setting.isTemp(a.name) {
      TempIsTempPath(setting, a.worker, a.name);
    }
  }

  /** What a worker finds at its destination can be judged. */
  lemma FoundIsJudgeable(setting: Setting, tree0: Tree, s: State, w: nat)
    requires setting.Valid() && |s.pcs| == |setting.jobs| && Safe(setting, tree0, s) && w < |s.pcs|
    requires IsFile(s.tree, setting.jobs[w].dest)
    ensures Judgeable(setting, tree0, w, s.tree[setting.jobs[w].dest].content)
  {
    hide TempPath, Accepted, TempValid;
    var dest := setting.jobs[w].dest;
    if dest !in tree0 {
      DestIsNoTemp(setting, w);
      assert Explained(setting, s, dest);
      var v: nat :| PublishedBy(setting, s, v, dest);
      assert PublishedThere(setting, v, dest, s.tree[dest].content);
    }
  }

  lemma OwnStep(setting: Setting, tree0: Tree, s: State, a: Action)
    requires setting.Valid() && |s.pcs| == |setting.jobs| && Safe(setting, tree0, s) && a.worker < |s.pcs|
    requires OnTheWay(setting, tree0, s.tree, a.worker, s.pcs[a.worker])
    ensures var s' := Step(setting, s, a); OnTheWay(setting, tree0, s'.tree, a.worker, s'.pcs[a.worker])
  {
    hide Safe, Judge, TempPath, Accepted, Judgeable, Judged;
    var w := a.worker;
    var job := setting.jobs[w];
    WorkerFacts(setting, tree0, s, w);
    match s.pcs[w]
    case Walking(k) =>
      if 0 < k <= |job.dest| && job.dest[..k] !in s.tree {
        assert job.dest[..k] !in tree0;
      }
    case Checking =>
      if IsFile(s.tree, job.dest) {
        FoundIsJudgeable(setting, tree0, s, w);
        JudgedSo(setting, tree0, w, s.tree[job.dest].content);
      }
    case Verifying(temp) =>
      DeliveredIsJudgeable(setting, tree0, w);
      if job.delivery.Delivered? {
        JudgedSo(setting, tree0, w, job.delivery.content);
      }
    case _ =>
  }

  lemma JudgedSo(setting: Setting, tree0: Tree, w: nat, content: Bytes)
    requires w < |setting.jobs| && setting.jobs[w].head.Some? && Judgeable(setting, tree0, w, content)
    ensures Judged(setting, tree0, w, Judge(setting.checks, content, setting.jobs[w].head.value))
  {
  }

  lemma DeliveredIsJudgeable(setting: Setting, tree0: Tree, w: nat)
    requires w < |setting.jobs|
    ensures setting.jobs[w].delivery.Delivered? ==> Judgeable(setting, tree0, w, setting.jobs[w].delivery.content)
  {
  }

  lemma OtherStep(setting: Setting, tree0: Tree, s: State, a: Action, w: nat)
    requires setting.Valid() && |s.pcs| == |setting.jobs| && Safe(setting, tree0, s) && w < |s.pcs| && a.worker != w
    requires OnTheWay(setting, tree0, s.tree, w, s.pcs[w])
    ensures var s' := Step(setting, s, a); OnTheWay(setting, tree0, s'.tree, w, s'.pcs[w])
  {
    hide Safe, StepOf, Judged, IsFile;
    if IsFile(s.tree, setting.jobs[w].dest) {
      FileStays(setting, tree0, s, a, w);
    }
  }

  lemma {:induction false} RunIsOnTheWay(setting: Setting, tree0: Tree, run: seq<Action>, w: nat)
    requires setting.Valid() && w < |setting.jobs|
    ensures var s := Run(setting, Initial(setting, tree0), run); OnTheWay(setting, tree0, s.tree, w, s.pcs[w])
    decreases |run|
  {
    hide Safe, Step, OnTheWay;
    var s0 := Initial(setting, tree0);
    if run == [] {
      assert OnTheWay(setting, tree0, tree0, w, Start) by { StartIsOnTheWay(setting, tree0, w); }
    } else {
      var before, a := run[..|run| - 1], run[|run| - 1];
      RunIsOnTheWay(setting, tree0, before, w);
      RunIsSafe(setting, tree0, before);
      if a.worker == w {
        OwnStep(setting, tree0, Run(setting, s0, before), a);
      } else {
        OtherStep(setting, tree0, Run(setting, s0, before), a, w);
      }
    }
  }

  lemma StartIsOnTheWay(setting: Setting, tree0: Tree, w: nat)
    requires w < |setting.jobs|
    ensures OnTheWay(setting, tree0, tree0, w, Start)
  {
  }

  /** The outcome of a worker is true, in every run, whichever calls of whichever workers fail: `Downloaded` means
      that the destination is a file which was not there at the start, and holds bytes verification accepted for
      it; a category other than an error is the judgement on bytes found at the destination or delivered. */
  lemma OutcomesAreTrue(setting: Setting, tree0: Tree, run: seq<Action>, w: nat)
    requires setting.Valid() && w < |setting.jobs|
    ensures var s, dest := Run(setting, Initial(setting, tree0), run), setting.jobs[w].dest;
            && (s.pcs[w].Done? ==> TrueOutcome(setting, tree0, s.tree, w, s.pcs[w].outcome))
            && (s.pcs[w] == Done(Downloaded) ==>
                  && IsFile(s.tree, dest) && dest !in tree0
                  && exists v :: PublishedThere(setting, v, dest, s.tree[dest].content))
  {
    hide Run, Safe, Judged;
    RunIsOnTheWay(setting, tree0, run, w);
    var s, dest := Run(setting, Initial(setting, tree0), run), setting.jobs[w].dest;
    if s.pcs[w] == Done(Downloaded) {
      PublishSafety(setting, tree0, run);
      assert DestinationIsGood(setting, s.tree, dest);
      var v :| 0 <= v < |setting.jobs| && setting.jobs[v].dest == dest && Accepted(setting, v, s.tree[dest].content);
      assert PublishedThere(setting, v, dest, s.tree[dest].content);
    }
  }

  // ---------------------------------------------------------------- with unrelated destinations

  /** The worker has failed, or is cleaning up after failing. */
  predicate Failing(pc: Pc) {
    pc == Done(FAILED) || (pc.Cleaning? && pc.outcome == FAILED)
  }

  /** A failing call makes the worker fail, or there was no call to fail. */
  lemma FaultFails(setting: Setting, s: State, a: Action)
    requires setting.Placed() && a.worker < |s.pcs| == |setting.jobs| && a.fault
    ensures Failing(Step(setting, s, a).pcs[a.worker]) || Step(setting, s, a) == Step(setting, s, a.(fault := false))
  {
    hide Judge;
  }

  lemma StaysFailing(setting: Setting, s: State, a: Action, w: nat)
    requires setting.Placed() && w < |s.pcs| == |setting.jobs| && Failing(s.pcs[w])
    ensures Failing(Step(setting, s, a).pcs[w])
  {
    hide Judge;
  }

  lemma {:induction false} OnTrackOrFailing(setting: Setting, tree0: Tree, run: seq<Action>, w: nat)
    requires setting.Valid() && Unrelated(setting) && WellFormed(tree0) && w < |setting.jobs|
    ensures var s := Run(setting, Initial(setting, tree0), run); OnTrack(setting, tree0, s, w) || Failing(s.pcs[w])
    decreases |run|
  {
    hide Safe, Step, OnTrack, Unrelated, WellFormed, Failing;
    var s0 := Initial(setting, tree0);
    if run == [] {
      InitialOnTrack(setting, tree0, w);
    } else {
      var before, a := run[..|run| - 1], run[|run| - 1];
      OnTrackOrFailing(setting, tree0, before, w);
      RunIsSafe(setting, tree0, before);
      var s := Run(setting, s0, before);
      if Failing(s.pcs[w]) {
        StaysFailing(setting, s, a, w);
      } else if a.worker != w {
        OthersKeepTrack(setting, tree0, s, a, w);
      } else if a.fault {
        FaultFails(setting, s, a);
        OwnStepOnTrack(setting, tree0, s, a.(fault := false));
      } else {
        OwnStepOnTrack(setting, tree0, s, a);
      }
    }
  }

  /** With unrelated destinations a finished worker has the outcome it would have alone, or the error its own
      failing call leads to. */
  lemma OutcomeIsExpectedOrFailed(setting: Setting, tree0: Tree, run: seq<Action>, w: nat)
    requires setting.Valid() && Unrelated(setting) && WellFormed(tree0) && w < |setting.jobs|
    ensures var pc := Run(setting, Initial(setting, tree0), run).pcs[w];
            pc.Done? ==> pc.outcome == Expected(setting, tree0, setting.jobs[w]) || pc.outcome == FAILED
  {
    hide Run, Expected;
    OnTrackOrFailing(setting, tree0, run, w);
  }

  // ---------------------------------------------------------------- the outcome alone

  ghost predicate FoldersBefore(tree: Tree, dest: Path, from: nat, k: nat)
    requires k <= |dest|
  {
    forall j :: from <= j < k ==> IsFolder(tree, dest[..j])
  }

  /** The walk comes to nothing at depth `k`. */
  ghost predicate EndsAt(tree: Tree, dest: Path, from: nat, k: nat) {
    from <= k <= |dest| && dest[..k] !in tree && FoldersBefore(tree, dest, from, k)
  }

  lemma {:induction false} ScanMeans(tree: Tree, dest: Path, from: nat)
    requires 0 < from <= |dest|
    ensures ScanFrom(tree, dest, from) == Missing <==> exists k :: EndsAt(tree, dest, from, k)
    ensures ScanFrom(tree, dest, from).Existing? <==> FoldersBefore(tree, dest, from, |dest|) && IsFile(tree, dest)
    ensures ScanFrom(tree, dest, from).Existing? ==> ScanFrom(tree, dest, from) == Existing(tree[dest].content)
    decreases |dest| - from
  {
    assert dest[..|dest|] == dest;
    if dest[..from] !in tree {
      assert EndsAt(tree, dest, from, from);
    } else if from < |dest| && IsFolder(tree, dest[..from]) {
      var next := from + 1;
      ScanMeans(tree, dest, next);
      if k :| EndsAt(tree, dest, next, k) {
        assert EndsAt(tree, dest, from, k);
      }
      if k :| EndsAt(tree, dest, from, k) {
        assert k != from;
        assert EndsAt(tree, dest, next, k);
      }
    } else if from < |dest| {
      assert !IsFolder(tree, dest[..from]);
    }
  }

  /** What a worker which runs alone comes to: an existing file is judged and left alone; where the walk comes to
      nothing the object is downloaded, and reported so if and only if it arrives whole and verifies; everything
      else is an error. */
  lemma AloneMeans(setting: Setting, tree0: Tree, w: nat)
    requires setting.Placed() && w < |setting.jobs|
    ensures var job, outcome := setting.jobs[w], Expected(setting, tree0, setting.jobs[w]);
            var present := FoldersBefore(tree0, job.dest, 1, |job.dest|) && IsFile(tree0, job.dest);
            var absent := exists k :: EndsAt(tree0, job.dest, 1, k);
            && (job.head.None? || (!present && !absent) ==> outcome == Reported(Error))
            && (job.head.Some? && present ==>
                  outcome == Reported(Judge(setting.checks, tree0[job.dest].content, job.head.value)))
            && (job.head.Some? && absent && setting.dryRun ==> outcome == WouldDownload)
            && (job.head.Some? && absent && !setting.dryRun ==>
                  match job.delivery
                  case Broken(_) => outcome == Reported(Error)
                  case Delivered(content) =>
                    var category := Judge(setting.checks, content, job.head.value);
                    outcome == if category == Verified then Downloaded else Reported(category))
  {
    hide Judge, ScanFrom;
    ScanMeans(tree0, setting.jobs[w].dest, 1);
  }
}
