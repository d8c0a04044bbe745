/** Concurrent download workers in one file tree (scripts/s3_manage.py).

A worker is a machine whose every step is one system call; a scheduler interleaves the workers and may
make any call fail.  Two results: what a run can leave behind whatever happens, and that after a clean
preflight no worker can tell that the others exist. */
module DownloadProtocol {
  import opened Wrappers
  import opened Digests
  import opened DownloadVerification

  /** A name as the file system tells names apart. */
  type Name = string

  type Path = seq<Name>

  /** `Other` stands for links, reparse points and devices. */
  datatype Node = Folder | File(content: Bytes) | Other

  type Tree = map<Path, Node>

  datatype Delivery = Delivered(content: Bytes) | Broken(partial: Bytes)

  /** One object: destination below the root, metadata unless the request for it fails, and what the
      transfer writes. */
  datatype Job = Job(dest: Path, head: Option<Meta>, delivery: Delivery)

  datatype Setting = Setting(checks: Checks, jobs: seq<Job>, dryRun: bool, isTemp: Name -> bool) {

    /** Destinations are below the root. */
    ghost predicate Placed() {
      forall w :: 0 <= w < |jobs| ==> jobs[w].dest != []
    }

    /** And no destination is, or lies below, a path at which some worker may make its temporary file. */
    ghost predicate Valid() {
      Placed() && forall w, k :: 0 <= w < |jobs| && 0 < k <= |jobs[w].dest| ==> !TempPath(this, jobs[w].dest[..k])
    }
  }

  /** A name `mkstemp` may return, in the folder of some destination. */
  ghost predicate TempPath(setting: Setting, p: Path) {
    p != [] && setting.isTemp(p[|p| - 1]) && exists v :: MakesTempIn(setting.jobs, v, Parent(p))
  }

  ghost predicate MakesTempIn(jobs: seq<Job>, v: nat, folder: Path) {
    v < |jobs| && jobs[v].dest != [] && Parent(jobs[v].dest) == folder
  }

  datatype Outcome = Downloaded | WouldDownload | Reported(category: Category)

  /** Where a worker stands; `k` counts components of the destination, `temp` is its temporary file. */
  datatype Pc =
    | Start
    | Walking(k: nat)
    | Checking
    | Making(k: nat)
    | MakeFolder(k: nat)
    | Remade(k: nat)
    | Opening
    | Writing(temp: Path, written: nat)
    | Verifying(temp: Path)
    | Rechecking(temp: Path)
    | Publishing(temp: Path)
    | Cleaning(temp: Path, outcome: Outcome)
    | Done(outcome: Outcome)

  /** `leaked` collects temporary files whose removal failed. */
  datatype State = State(tree: Tree, pcs: seq<Pc>, leaked: set<Path>)

  /** The scheduler's choice: who moves, whether the call fails, which temporary name the system offers,
      and how many bytes a write moves. */
  datatype Action = Action(worker: nat, fault: bool, name: Name, amount: nat)

  // ---------------------------------------------------------------- one step

  function Payload(delivery: Delivery): Bytes {
    match delivery
    case Delivered(content) => content
    case Broken(partial) => partial
  }

  const FAILED: Outcome := Reported(Error)

  function Parent(p: Path): Path
    requires p != []
  {
    p[..|p| - 1]
  }

  predicate IsFolder(tree: Tree, p: Path) {
    p in tree && tree[p].Folder?
  }

  predicate IsFile(tree: Tree, p: Path) {
    p in tree && tree[p].File?
  }

  /** One system call of a worker: the new tree, its new position, and a leaked file if any. */
  ghost function StepOf(setting: Setting, job: Job, tree: Tree, pc: Pc, a: Action): (Tree, Pc, set<Path>)
    requires job.dest != []
  {
    var dest := job.dest;
    match pc
    case Start =>
      (tree, if a.fault || job.head.None? then Done(FAILED) else Walking(1), {})
    case Walking(k) =>
      if a.fault || k > |dest| then (tree, Done(FAILED), {})
      else if dest[..k] !in tree then (tree, if setting.dryRun then Done(WouldDownload) else Making(1), {})
      else if k == |dest| then (tree, if tree[dest[..k]].File? then Checking else Done(FAILED), {})
      else (tree, if tree[dest[..k]].Folder? then Walking(k + 1) else Done(FAILED), {})
    case Checking =>
      if a.fault || !IsFile(tree, dest) || job.head.None? then (tree, Done(FAILED), {})
      else (tree, Done(Reported(Judge(setting.checks, tree[dest].content, job.head.value))), {})
    case Making(k) =>
      if k >= |dest| then (tree, Opening, {})
      else if a.fault then (tree, Done(FAILED), {})
      else if dest[..k] !in tree then (tree, MakeFolder(k), {})
      else (tree, if tree[dest[..k]].Folder? then Making(k + 1) else Done(FAILED), {})
    case MakeFolder(k) =>
      if a.fault || k == 0 || k >= |dest| then (tree, Done(FAILED), {})
      else if dest[..k] in tree then (tree, Remade(k), {})
      else if !IsFolder(tree, dest[..k - 1]) then (tree, Done(FAILED), {})
      else (tree[dest[..k] := Folder], Remade(k), {})
    case Remade(k) =>
      if a.fault || k >= |dest| then (tree, Done(FAILED), {})
      else (tree, if IsFolder(tree, dest[..k]) then Making(k + 1) else Done(FAILED), {})
    case Opening =>
      var temp := Parent(dest) + [a.name];
      if a.fault || !IsFolder(tree, Parent(dest)) then (tree, Done(FAILED), {})
      else if temp in tree || !setting.isTemp(a.name) then (tree, pc, {})
      else (tree[temp := File([])], Writing(temp, 0), {})
    case Writing(temp, written) =>
      var bytes := Payload(job.delivery);
      if a.fault then (tree, Cleaning(temp, FAILED), {})
      else if written < |bytes| then
        var next := if written + a.amount + 1 <= |bytes| then written + a.amount + 1 else |bytes|;
        (tree[temp := File(bytes[..next])], Writing(temp, next), {})
      else (tree, if job.delivery.Broken? then Cleaning(temp, FAILED) else Verifying(temp), {})
    case Verifying(temp) =>
      if a.fault || !IsFile(tree, temp) || job.head.None? then (tree, Cleaning(temp, FAILED), {})
      else
        var category := Judge(setting.checks, tree[temp].content, job.head.value);
        (tree, if category.Verified? then Rechecking(temp) else Cleaning(temp, Reported(category)), {})
    case Rechecking(temp) =>
      (tree, if a.fault || dest in tree then Cleaning(temp, FAILED) else Publishing(temp), {})
    case Publishing(temp) =>
      if a.fault || IsFolder(tree, dest) || temp !in tree then (tree, Cleaning(temp, FAILED), {})
      else ((tree - {temp})[dest := tree[temp]], Done(Downloaded), {})
    case Cleaning(temp, outcome) =>
      if a.fault then (tree, Done(FAILED), {temp}) else (tree - {temp}, Done(outcome), {})
    case Done(_) =>
      (tree, pc, {})
  }

  ghost function Step(setting: Setting, s: State, a: Action): (s': State)
    requires setting.Placed() && |s.pcs| == |setting.jobs|
    ensures |s'.pcs| == |s.pcs|
  {
    if a.worker >= |s.pcs| then s
    else
      var (tree, pc, leaked) := StepOf(setting, setting.jobs[a.worker], s.tree, s.pcs[a.worker], a);
      State(tree, s.pcs[a.worker := pc], s.leaked + leaked)
  }

  /** The state after the actions of `run`, oldest first. */
  ghost function Run(setting: Setting, s: State, run: seq<Action>): (s': State)
    requires setting.Placed() && |s.pcs| == |setting.jobs|
    ensures |s'.pcs| == |s.pcs|
    decreases |run|
  {
    if run == [] then s else Step(setting, Run(setting, s, run[..|run| - 1]), run[|run| - 1])
  }

  ghost function Initial(setting: Setting, tree0: Tree): (s: State)
    ensures |s.pcs| == |setting.jobs|
  {
    State(tree0, seq(|setting.jobs|, _ => Start), {})
  }

  // ---------------------------------------------------------------- safety of every run

  predicate HoldsTemp(pc: Pc) {
    pc.Writing? || pc.Verifying? || pc.Rechecking? || pc.Publishing? || pc.Cleaning?
  }

  /** What a worker which holds a temporary file knows about it. */
  ghost predicate TempValid(setting: Setting, tree0: Tree, tree: Tree, w: nat, pc: Pc)
    requires w < |setting.jobs| && HoldsTemp(pc)
  {
    var job := setting.jobs[w];
    && TempPath(setting, pc.temp) && pc.temp !in tree0 && IsFile(tree, pc.temp)
    && (pc.Writing? ==>
          && pc.written <= |Payload(job.delivery)|
          && tree[pc.temp].content == Payload(job.delivery)[..pc.written])
    && (pc.Verifying? ==> job.delivery == Delivered(tree[pc.temp].content))
    && (pc.Rechecking? || pc.Publishing? ==> Accepted(setting, w, tree[pc.temp].content))
    && (pc.Publishing? ==> job.dest !in tree0)
  }

  /** The delivered bytes, and verification accepted them. */
  ghost predicate Accepted(setting: Setting, w: nat, content: Bytes)
    requires w < |setting.jobs|
  {
    var job := setting.jobs[w];
    && job.delivery == Delivered(content) && job.head.Some?
    && Judge(setting.checks, content, job.head.value) == Verified
  }

  /** Where an entry which was not there at the start can come from. */
  ghost predicate Explained(setting: Setting, s: State, p: Path)
    requires p in s.tree && |s.pcs| == |setting.jobs|
  {
    || (s.tree[p].Folder? && exists w, k :: FolderOf(setting, w, k, p))
    || (s.tree[p].File? && exists w :: PublishedBy(setting, s, w, p))
    || (TempPath(setting, p) && s.tree[p].File? && (p in s.leaked || exists w :: HeldBy(s, w, p)))
  }

  ghost predicate FolderOf(setting: Setting, w: nat, k: nat, p: Path) {
    w < |setting.jobs| && 0 < k < |setting.jobs[w].dest| && p == setting.jobs[w].dest[..k]
  }

  ghost predicate PublishedBy(setting: Setting, s: State, w: nat, p: Path)
    requires p in s.tree && s.tree[p].File? && |s.pcs| == |setting.jobs|
  {
    && w < |setting.jobs| && p == setting.jobs[w].dest && s.pcs[w] == Done(Downloaded)
    && Accepted(setting, w, s.tree[p].content)
  }

  ghost predicate HeldBy(s: State, w: nat, p: Path) {
    w < |s.pcs| && HoldsTemp(s.pcs[w]) && s.pcs[w].temp == p
  }

  ghost predicate Safe(setting: Setting, tree0: Tree, s: State) {
    && |s.pcs| == |setting.jobs|
    && (forall p :: p in tree0 ==> p in s.tree && s.tree[p] == tree0[p])
    && (forall w :: 0 <= w < |s.pcs| && HoldsTemp(s.pcs[w]) ==>
        TempValid(setting, tree0, s.tree, w, s.pcs[w]) && s.pcs[w].temp !in s.leaked)
    && (forall v, w :: 0 <= v < |s.pcs| && 0 <= w < |s.pcs| && v != w && HoldsTemp(s.pcs[v]) && HoldsTemp(s.pcs[w]) ==>
          s.pcs[v].temp != s.pcs[w].temp)
    && (forall p :: p in s.tree && p !in tree0 ==> Explained(setting, s, p))
    && (forall p :: p in s.leaked ==> TempPath(setting, p) && p !in tree0 && p in s.tree)
  }

  lemma InitialIsSafe(setting: Setting, tree0: Tree)
    ensures Safe(setting, tree0, Initial(setting, tree0))
  {
  }

  ghost function Moved(s: State, tree: Tree, w: nat, pc: Pc, leaked: set<Path>): State
    requires w < |s.pcs|
  {
    State(tree, s.pcs[w := pc], leaked)
  }

  /** A step which leaves the tree alone. */
  lemma QuietStep(setting: Setting, tree0: Tree, s: State, w: nat, pc: Pc)
    requires Safe(setting, tree0, s) && w < |s.pcs| && !s.pcs[w].Done?
    requires HoldsTemp(pc) <==> HoldsTemp(s.pcs[w])
    requires HoldsTemp(pc) ==> pc.temp == s.pcs[w].temp && TempValid(setting, tree0, s.tree, w, pc)
    ensures Safe(setting, tree0, Moved(s, s.tree, w, pc, s.leaked))
  {
    hide TempValid, TempPath, Accepted, FolderOf;
    var s' := Moved(s, s.tree, w, pc, s.leaked);
    forall p | p in s'.tree && p !in tree0 ensures Explained(setting, s', p) {
      assert Explained(setting, s, p);
      if v :| HeldBy(s, v, p) {
        assert HeldBy(s', v, p);
      }
      if v :| s.tree[p].File? && PublishedBy(setting, s, v, p) {
        assert PublishedBy(setting, s', v, p);
      }
    }
  }

  /** Making a parent folder of the worker's own destination. */
  lemma FolderStep(setting: Setting, tree0: Tree, s: State, w: nat, k: nat, pc: Pc)
    requires Safe(setting, tree0, s) && w < |s.pcs| && !s.pcs[w].Done? && !HoldsTemp(s.pcs[w]) && !HoldsTemp(pc)
    requires 0 < k < |setting.jobs[w].dest| && setting.jobs[w].dest[..k] !in s.tree
    ensures Safe(setting, tree0, Moved(s, s.tree[setting.jobs[w].dest[..k] := Folder], w, pc, s.leaked))
  {
    hide TempPath, Accepted;
    var p := setting.jobs[w].dest[..k];
    var s' := Moved(s, s.tree[p := Folder], w, pc, s.leaked);
    forall q | q in s'.tree && q !in tree0 ensures Explained(setting, s', q) {
      if q == p {
        assert FolderOf(setting, w, k, p);
      } else {
        StillExplained(setting, tree0, s, s', w, q);
      }
    }
  }

  /** An entry which the step did not touch keeps its explanation. */
  lemma StillExplained(setting: Setting, tree0: Tree, s: State, s': State, w: nat, p: Path)
    requires |s.pcs| == |setting.jobs| && w < |s.pcs|
        && s'.pcs == s.pcs[w := if w < |s'.pcs| then s'.pcs[w] else s.pcs[w]]
    requires p in s.tree && p in s'.tree && s'.tree[p] == s.tree[p] && Explained(setting, s, p)
    requires !s.pcs[w].Done? && s.leaked <= s'.leaked
    requires HeldBy(s, w, p) ==> HeldBy(s', w, p) || p in s'.leaked
    ensures Explained(setting, s', p)
  {
    hide TempPath, Accepted, FolderOf;
    if v :| HeldBy(s, v, p) {
      assert v != w ==> HeldBy(s', v, p);
    }
    if v :| s.tree[p].File? && PublishedBy(setting, s, v, p) {
      assert PublishedBy(setting, s', v, p);
    }
  }

  /** Opening a fresh temporary file. */
  lemma OpenStep(setting: Setting, tree0: Tree, s: State, w: nat, temp: Path)
    requires Safe(setting, tree0, s) && w < |s.pcs| && !s.pcs[w].Done? && !HoldsTemp(s.pcs[w])
    requires temp !in s.tree && TempPath(setting, temp)
    ensures Safe(setting, tree0, Moved(s, s.tree[temp := File([])], w, Writing(temp, 0), s.leaked))
  {
    hide TempPath, Accepted, FolderOf;
    var s' := Moved(s, s.tree[temp := File([])], w, Writing(temp, 0), s.leaked);
    forall q | q in s'.tree && q !in tree0 ensures Explained(setting, s', q) {
      if q == temp {
        assert HeldBy(s', w, temp);
      } else {
        StillExplained(setting, tree0, s, s', w, q);
      }
    }
  }

  /** Writing to the worker's own temporary file. */
  lemma WriteStep(setting: Setting, tree0: Tree, s: State, w: nat, next: nat)
    requires Safe(setting, tree0, s) && w < |s.pcs| && s.pcs[w].Writing? && next <= |Payload(setting.jobs[w].delivery)|
    ensures var temp := s.pcs[w].temp;
            Safe(setting, tree0,
                Moved(s, s.tree[temp := File(Payload(setting.jobs[w].delivery)[..next])], w, Writing(temp, next),
                s.leaked))
  {
    hide TempPath, Accepted, FolderOf;
    var temp := s.pcs[w].temp;
    var s' := Moved(s, s.tree[temp := File(Payload(setting.jobs[w].delivery)[..next])], w, Writing(temp, next),
        s.leaked);
    assert TempValid(setting, tree0, s.tree, w, s.pcs[w]);
    forall q | q in s'.tree && q !in tree0 ensures Explained(setting, s', q) {
      if q == temp {
        assert HeldBy(s', w, temp);
      } else {
        StillExplained(setting, tree0, s, s', w, q);
      }
    }
  }

  /** Replacing the destination by the verified temporary file. */
  lemma PublishStep(setting: Setting, tree0: Tree, s: State, w: nat)
    requires setting.Valid() && Safe(setting, tree0, s) && w < |s.pcs| && s.pcs[w].Publishing?
    requires !IsFolder(s.tree, setting.jobs[w].dest) && s.pcs[w].temp in s.tree
    ensures var temp, dest := s.pcs[w].temp, setting.jobs[w].dest;
            Safe(setting, tree0, Moved(s, (s.tree - {temp})[dest := s.tree[temp]], w, Done(Downloaded), s.leaked))
  {
    hide Accepted, TempPath, FolderOf;
    var temp, dest := s.pcs[w].temp, setting.jobs[w].dest;
    var s' := Moved(s, (s.tree - {temp})[dest := s.tree[temp]], w, Done(Downloaded), s.leaked);
    assert TempValid(setting, tree0, s.tree, w, s.pcs[w]);
    DestIsNoTemp(setting, w);
    PublishedIsExplained(setting, tree0, s, s', w);
    forall v | 0 <= v < |s.pcs| && v != w && HoldsTemp(s.pcs[v])
        ensures TempValid(setting, tree0, s'.tree, v, s.pcs[v]) {
      OtherTempStays(setting, tree0, s, w, v);
    }
    hide TempValid, Explained;
  }

  lemma OtherTempStays(setting: Setting, tree0: Tree, s: State, w: nat, v: nat)
    requires setting.Valid() && Safe(setting, tree0, s) && w < |s.pcs| && s.pcs[w].Publishing?
        && s.pcs[w].temp in s.tree
    requires v < |s.pcs| && v != w && HoldsTemp(s.pcs[v])
    ensures TempValid(setting, tree0, (s.tree - {s.pcs[w].temp})[setting.jobs[w].dest := s.tree[s.pcs[w].temp]], v,
        s.pcs[v])
  {
    hide Accepted, TempPath, FolderOf, Explained;
    DestIsNoTemp(setting, w);
    assert TempValid(setting, tree0, s.tree, v, s.pcs[v]);
  }

  lemma PublishedIsExplained(setting: Setting, tree0: Tree, s: State, s': State, w: nat)
    requires Safe(setting, tree0, s) && w < |s.pcs| && s.pcs[w].Publishing? && s.pcs[w].temp in s.tree
    requires s' == Moved(s, (s.tree - {s.pcs[w].temp})[setting.jobs[w].dest := s.tree[s.pcs[w].temp]], w,
        Done(Downloaded), s.leaked)
    ensures forall q :: q in s'.tree && q !in tree0 ==> Explained(setting, s', q)
  {
    hide Accepted, TempPath, FolderOf;
    assert TempValid(setting, tree0, s.tree, w, s.pcs[w]);
    forall q | q in s'.tree && q !in tree0 ensures Explained(setting, s', q) {
      if q == setting.jobs[w].dest {
        assert PublishedBy(setting, s', w, q);
      } else {
        StillExplained(setting, tree0, s, s', w, q);
      }
    }
  }

  lemma DestIsNoTemp(setting: Setting, w: nat)
    requires setting.Valid() && w < |setting.jobs|
    ensures forall p :: TempPath(setting, p) ==> p != setting.jobs[w].dest
  {
    assert setting.jobs[w].dest[..|setting.jobs[w].dest|] == setting.jobs[w].dest;
  }

  /** Removing the worker's own temporary file. */
  lemma CleanStep(setting: Setting, tree0: Tree, s: State, w: nat, outcome: Outcome)
    requires Safe(setting, tree0, s) && w < |s.pcs| && s.pcs[w].Cleaning?
    ensures Safe(setting, tree0, Moved(s, s.tree - {s.pcs[w].temp}, w, Done(outcome), s.leaked))
  {
    hide Accepted, TempPath;
    var temp := s.pcs[w].temp;
    var s' := Moved(s, s.tree - {temp}, w, Done(outcome), s.leaked);
    assert TempValid(setting, tree0, s.tree, w, s.pcs[w]);
    forall q | q in s'.tree && q !in tree0 ensures Explained(setting, s', q) {
      StillExplained(setting, tree0, s, s', w, q);
    }
  }

  /** Failing to remove it. */
  lemma LeakStep(setting: Setting, tree0: Tree, s: State, w: nat, outcome: Outcome)
    requires Safe(setting, tree0, s) && w < |s.pcs| && s.pcs[w].Cleaning?
    ensures Safe(setting, tree0, Moved(s, s.tree, w, Done(outcome), s.leaked + {s.pcs[w].temp}))
  {
    hide Accepted, TempPath;
    var temp := s.pcs[w].temp;
    var s' := Moved(s, s.tree, w, Done(outcome), s.leaked + {temp});
    assert TempValid(setting, tree0, s.tree, w, s.pcs[w]);
    forall q | q in s'.tree && q !in tree0 ensures Explained(setting, s', q) {
      StillExplained(setting, tree0, s, s', w, q);
    }
  }

  lemma WorkerFacts(setting: Setting, tree0: Tree, s: State, w: nat)
    requires setting.Valid() && Safe(setting, tree0, s) && w < |s.pcs|
    ensures |s.pcs| == |setting.jobs| && setting.jobs[w].dest != []
    ensures HoldsTemp(s.pcs[w]) ==> TempValid(setting, tree0, s.tree, w, s.pcs[w])
    ensures forall p :: p in tree0 ==> p in s.tree && s.tree[p] == tree0[p]
  {
  }

  lemma TempIsTempPath(setting: Setting, w: nat, name: Name)
    requires w < |setting.jobs| && setting.jobs[w].dest != [] && setting.isTemp(name)
    ensures TempPath(setting, Parent(setting.jobs[w].dest) + [name])
  {
    assert MakesTempIn(setting.jobs, w, Parent(Parent(setting.jobs[w].dest) + [name]));
  }

  lemma StepIsSafe(setting: Setting, tree0: Tree, s: State, a: Action)
    requires setting.Valid() && |s.pcs| == |setting.jobs| && Safe(setting, tree0, s)
    ensures Safe(setting, tree0, Step(setting, s, a))
  {
    hide Safe, Judge, TempPath;
    if a.worker < |s.pcs| {
      var w := a.worker;
      WorkerFacts(setting, tree0, s, w);
      var job := setting.jobs[w];
      var (tree, pc, leaked) := StepOf(setting, job, s.tree, s.pcs[w], a);
      assert Step(setting, s, a) == Moved(s, tree, w, pc, s.leaked + leaked);
      assert s.leaked + {} == s.leaked;
      match s.pcs[w]
      case Done(_) =>
        assert s.pcs[w := pc] == s.pcs;
        assert Moved(s, tree, w, pc, s.leaked + leaked) == s;
      case MakeFolder(k) =>
        if tree == s.tree {
          QuietStep(setting, tree0, s, w, pc);
        } else {
          FolderStep(setting, tree0, s, w, k, pc);
        }
      case Opening =>
        if pc == Opening || pc.Done? {
          QuietStep(setting, tree0, s, w, pc);
        } else {
          TempIsTempPath(setting, w, a.name);
          OpenStep(setting, tree0, s, w, pc.temp);
        }
      case Writing(temp, written) =>
        if pc.Writing? {
          WriteStep(setting, tree0, s, w, pc.written);
        } else {
          QuietStep(setting, tree0, s, w, pc);
        }
      case Publishing(temp) =>
        if pc.Cleaning? {
          QuietStep(setting, tree0, s, w, pc);
        } else {
          PublishStep(setting, tree0, s, w);
        }
      case Cleaning(temp, outcome) =>
        if a.fault {
          LeakStep(setting, tree0, s, w, FAILED);
        } else {
          CleanStep(setting, tree0, s, w, outcome);
        }
      case _ =>
        QuietStep(setting, tree0, s, w, pc);
    }
  }

  lemma {:induction false} RunIsSafe(setting: Setting, tree0: Tree, run: seq<Action>)
    requires setting.Valid()
    ensures Safe(setting, tree0, Run(setting, Initial(setting, tree0), run))
    decreases |run|
  {
    hide Safe, Step;
    if run == [] {
      InitialIsSafe(setting, tree0);
    } else {
      RunIsSafe(setting, tree0, run[..|run| - 1]);
      StepIsSafe(setting, tree0, Run(setting, Initial(setting, tree0), run[..|run| - 1]), run[|run| - 1]);
    }
  }

  /** Publish safety: after any run, with any interleaving and any failures, what was there at the start
      is there unchanged; a new file at a destination holds delivered bytes which verification accepted;
      and once every worker is done, whatever else is new is a folder above a destination or a temporary
      file whose removal failed. */
  lemma PublishSafety(setting: Setting, tree0: Tree, run: seq<Action>)
    requires setting.Valid()
    ensures var s := Run(setting, Initial(setting, tree0), run);
            && (forall p :: p in tree0 ==> p in s.tree && s.tree[p] == tree0[p])
            && (forall w :: 0 <= w < |setting.jobs| ==>
                  && (setting.jobs[w].dest in s.tree && setting.jobs[w].dest !in tree0 ==>
                        DestinationIsGood(setting, s.tree, setting.jobs[w].dest)))
            && ((forall w :: 0 <= w < |s.pcs| ==> s.pcs[w].Done?) ==>
                  forall p :: p in s.tree && p !in tree0 ==>
                    || (s.tree[p].Folder? && exists w, k :: FolderOf(setting, w, k, p))
                    || DestinationIsGood(setting, s.tree, p)
                    || (TempPath(setting, p) && p in s.leaked))
  {
    var s := Run(setting, Initial(setting, tree0), run);
    RunIsSafe(setting, tree0, run);
    DestIsNeverTemp(setting);
    forall p | p in s.tree && p !in tree0
      ensures || (s.tree[p].Folder? && exists w, k :: FolderOf(setting, w, k, p))
              || DestinationIsGood(setting, s.tree, p)
              || (TempPath(setting, p) && (p in s.leaked || exists w :: HeldBy(s, w, p)))
    {
      assert Explained(setting, s, p);
      if w :| s.tree[p].File? && PublishedBy(setting, s, w, p) {
        assert DestinationIsGood(setting, s.tree, p);
      }
    }
  }

  lemma DestIsNeverTemp(setting: Setting)
    requires setting.Valid()
    ensures forall w :: 0 <= w < |setting.jobs| ==> !TempPath(setting, setting.jobs[w].dest)
  {
    assert forall w :: 0 <= w < |setting.jobs| ==>
        setting.jobs[w].dest[..|setting.jobs[w].dest|] == setting.jobs[w].dest;
  }

  /** The entry is a folder some worker needs, or a file with accepted bytes of a job for this destination. */
  ghost predicate DestinationIsGood(setting: Setting, tree: Tree, p: Path)
    requires p in tree
  {
    || (tree[p].Folder? && exists w, k :: FolderOf(setting, w, k, p))
    || (tree[p].File?
        && exists w :: 0 <= w < |setting.jobs| && setting.jobs[w].dest == p && Accepted(setting, w, tree[p].content))
  }

  // ---------------------------------------------------------------- workers in isolation

  datatype Scan = Missing | Blocked | Existing(content: Bytes)

  /** What walking down to the destination finds in a tree nobody changes. */
  function ScanFrom(tree: Tree, dest: Path, k: nat): Scan
    requires 0 < k <= |dest|
    decreases |dest| - k
  {
    if dest[..k] !in tree then Missing
    else
      match tree[dest[..k]]
      case Other => Blocked
      case File(content) => if k == |dest| then Existing(content) else Blocked
      case Folder => if k == |dest| then Blocked else ScanFrom(tree, dest, k + 1)
  }

  /** The outcome of a worker which runs alone on the initial tree, with no call failing. */
  ghost function Expected(setting: Setting, tree0: Tree, job: Job): Outcome
    requires job.dest != []
  {
    if job.head.None? then FAILED
    else
      match ScanFrom(tree0, job.dest, 1)
      case Blocked => FAILED
      case Existing(content) => Reported(Judge(setting.checks, content, job.head.value))
      case Missing =>
        if setting.dryRun then WouldDownload
        else
          match job.delivery
          case Broken(_) => FAILED
          case Delivered(content) =>
            var category := Judge(setting.checks, content, job.head.value);
            if category.Verified? then Downloaded else Reported(category)
  }

  /** The worker gets as far as making folders. */
  ghost predicate Makes(setting: Setting, tree0: Tree, job: Job)
    requires job.dest != []
  {
    job.head.Some? && ScanFrom(tree0, job.dest, 1).Missing? && !setting.dryRun
  }

  /** The root is a folder, and every entry sits in one. */
  ghost predicate WellFormed(tree: Tree) {
    IsFolder(tree, []) && forall p {:trigger InFolder(tree, p)} :: p in tree && p != [] ==> InFolder(tree, p)
  }

  ghost predicate InFolder(tree: Tree, p: Path)
    requires p != []
  {
    IsFolder(tree, Parent(p))
  }

  /** No destination equals another or lies below it. */
  ghost predicate Unrelated(setting: Setting) {
    forall v, w :: 0 <= v < |setting.jobs| && 0 <= w < |setting.jobs| && v != w ==>
        !(setting.jobs[v].dest <= setting.jobs[w].dest)
  }

  ghost predicate FoldersUpTo(tree: Tree, dest: Path, k: nat) {
    forall j :: 0 <= j < k && j < |dest| ==> IsFolder(tree, dest[..j])
  }

  /** A worker which nothing has disturbed: its position agrees with what it would do alone. */
  ghost predicate OnTrack(setting: Setting, tree0: Tree, s: State, w: nat)
    requires w < |s.pcs| == |setting.jobs| && setting.jobs[w].dest != []
  {
    var job := setting.jobs[w];
    var dest := job.dest;
    match s.pcs[w]
    case Start => true
    case Walking(k) => job.head.Some? && 0 < k <= |dest| && ScanFrom(tree0, dest, k) == ScanFrom(tree0, dest, 1)
    case Checking => job.head.Some? && dest in tree0 && tree0[dest].File?
        && ScanFrom(tree0, dest, 1) == Existing(tree0[dest].content)
    case Making(k) => Makes(setting, tree0, job) && 0 < k <= |dest| && FoldersUpTo(s.tree, dest, k)
    case MakeFolder(k) => Makes(setting, tree0, job) && 0 < k < |dest| && FoldersUpTo(s.tree, dest, k)
    case Remade(k) => Makes(setting, tree0, job) && 0 < k < |dest| && FoldersUpTo(s.tree, dest, k + 1)
    case Opening => Makes(setting, tree0, job) && FoldersUpTo(s.tree, dest, |dest|)
    case Writing(_, _) => Makes(setting, tree0, job) && FoldersUpTo(s.tree, dest, |dest|)
    case Verifying(_) => Makes(setting, tree0, job) && FoldersUpTo(s.tree, dest, |dest|)
    case Rechecking(_) => Makes(setting, tree0, job) && FoldersUpTo(s.tree, dest, |dest|)
    case Publishing(_) => Makes(setting, tree0, job) && FoldersUpTo(s.tree, dest, |dest|)
    case Cleaning(_, outcome) => Makes(setting, tree0, job) && FoldersUpTo(s.tree, dest, |dest|)
        && outcome == Expected(setting, tree0, job)
                                 && outcome != Downloaded
    case Done(outcome) =>
      && outcome == Expected(setting, tree0, job)
      && (Makes(setting, tree0, job) ==> FoldersUpTo(s.tree, dest, |dest|))
      && (outcome == Downloaded ==> IsFile(s.tree, dest) && s.tree[dest].content == Payload(job.delivery))
  }

  /** Only a published file of its own can be new at or above a destination, besides folders. */
  lemma {:induction false} OwnPathIsPrivate(setting: Setting, tree0: Tree, s: State, w: nat)
    requires setting.Valid() && Unrelated(setting) && Safe(setting, tree0, s) && w < |setting.jobs|
    ensures var dest := setting.jobs[w].dest;
            forall k :: 0 < k < |dest| && dest[..k] in s.tree && dest[..k] !in tree0 ==> s.tree[dest[..k]].Folder?
    ensures setting.jobs[w].dest in s.tree && setting.jobs[w].dest !in tree0 ==> s.pcs[w] == Done(Downloaded)
  {
    hide Explained;
    var dest := setting.jobs[w].dest;
    forall k | 0 < k <= |dest| && dest[..k] in s.tree && dest[..k] !in tree0
      ensures if k < |dest| then s.tree[dest[..k]].Folder? else s.pcs[w] == Done(Downloaded)
    {
      NewOnOwnPath(setting, s, w, k);
    }
    assert dest[..|dest|] == dest;
  }

  lemma NewOnOwnPath(setting: Setting, s: State, w: nat, k: nat)
    requires setting.Valid() && Unrelated(setting) && w < |setting.jobs| == |s.pcs|
    requires 0 < k <= |setting.jobs[w].dest| && setting.jobs[w].dest[..k] in s.tree
    requires Explained(setting, s, setting.jobs[w].dest[..k])
    ensures if k < |setting.jobs[w].dest| then s.tree[setting.jobs[w].dest[..k]].Folder?
        else s.pcs[w] == Done(Downloaded)
  {
    hide Accepted;
    var dest := setting.jobs[w].dest;
    var p := dest[..k];
    assert p[|p| - 1] == dest[k - 1] && dest[k - 1] in dest;
    assert !TempPath(setting, p);
    if v: nat :| s.tree[p].File? && PublishedBy(setting, s, v, p) {
      assert setting.jobs[v].dest <= dest;
    } else {
      var v: nat, j: nat :| FolderOf(setting, v, j, p);
      PrefixOfDestination(setting, v, j, p);
      assert k == |dest| ==> p == dest;
    }
  }

  lemma PrefixOfDestination(setting: Setting, v: nat, j: nat, p: Path)
    requires FolderOf(setting, v, j, p)
    ensures p <= setting.jobs[v].dest && |p| < |setting.jobs[v].dest|
  {
  }

  /** A scan which comes to nothing has seen only folders on the way. */
  lemma {:induction false} MissingSeesFolders(tree: Tree, dest: Path, j: nat, k: nat)
    requires 0 < j <= k <= |dest| && ScanFrom(tree, dest, j).Missing?
    requires WellFormed(tree)
    ensures dest[..k] in tree ==> k < |dest| && tree[dest[..k]].Folder?
    decreases k - j
  {
    if dest[..j] !in tree {
      StaysMissing(tree, dest, j, k);
    } else if j < k {
      MissingSeesFolders(tree, dest, j + 1, k);
    }
  }

  lemma {:induction false} StaysMissing(tree: Tree, dest: Path, j: nat, k: nat)
    requires WellFormed(tree) && 0 < j <= k <= |dest| && dest[..j] !in tree
    ensures dest[..k] !in tree
    decreases k
  {
    if j >= k {
    } else {
      StaysMissing(tree, dest, j, k - 1);
      assert Parent(dest[..k]) == dest[..k - 1];
      assert dest[..k] in tree ==> InFolder(tree, dest[..k]);
    }
  }

  /** What every step leaves alone: folders stay, and files at other workers' destinations. */
  lemma StepKeeps(setting: Setting, tree0: Tree, s: State, a: Action)
    requires setting.Valid() && Unrelated(setting) && |s.pcs| == |setting.jobs| && Safe(setting, tree0, s)
    ensures var s' := Step(setting, s, a);
            && (forall p :: IsFolder(s.tree, p) ==> IsFolder(s'.tree, p))
            && forall w :: 0 <= w < |s.pcs| && w != a.worker && IsFile(s.tree, setting.jobs[w].dest) ==>
                 setting.jobs[w].dest in s'.tree && s'.tree[setting.jobs[w].dest] == s.tree[setting.jobs[w].dest]
  {
    hide Safe, Judge, Accepted;
    DestIsNeverTemp(setting);
    if a.worker < |s.pcs| {
      WorkerFacts(setting, tree0, s, a.worker);
    }
  }

  lemma OthersKeepTrack(setting: Setting, tree0: Tree, s: State, a: Action, w: nat)
    requires setting.Valid() && Unrelated(setting) && |s.pcs| == |setting.jobs| && Safe(setting, tree0, s)
    requires w < |s.pcs| && a.worker != w && OnTrack(setting, tree0, s, w)
    ensures OnTrack(setting, tree0, Step(setting, s, a), w)
  {
    hide Safe, StepOf, Makes, Expected, ScanFrom;
    StepKeeps(setting, tree0, s, a);
    assert Step(setting, s, a).pcs[w] == s.pcs[w];
    FoldersStay(s.tree, Step(setting, s, a).tree);
  }

  lemma FoldersStay(tree: Tree, tree': Tree)
    requires forall p :: IsFolder(tree, p) ==> IsFolder(tree', p)
    ensures forall dest, k :: FoldersUpTo(tree, dest, k) ==> FoldersUpTo(tree', dest, k)
  {
  }

  /** Making the folders above the destination, and opening the temporary file. */
  predicate MakesFolders(pc: Pc) {
    pc.Making? || pc.MakeFolder? || pc.Remade? || pc.Opening?
  }

  lemma LookStepOnTrack(setting: Setting, tree0: Tree, s: State, a: Action)
    requires setting.Valid() && Unrelated(setting) && WellFormed(tree0) && |s.pcs| == |setting.jobs|
        && Safe(setting, tree0, s)
    requires a.worker < |s.pcs| && !a.fault && OnTrack(setting, tree0, s, a.worker)
    requires s.pcs[a.worker].Making?
    ensures OnTrack(setting, tree0, Step(setting, s, a), a.worker)
  {
    hide Safe, Judge, Expected, ScanFrom;
    var w := a.worker;
    var dest := setting.jobs[w].dest;
    WorkerFacts(setting, tree0, s, w);
    OwnPathIsPrivate(setting, tree0, s, w);
    StepKeeps(setting, tree0, s, a);
    FoldersStay(s.tree, Step(setting, s, a).tree);
    assert dest[..|dest|] == dest && dest[..|dest| - 1] == Parent(dest);
    MakerSeesFolders(setting, tree0, w, s.pcs[w].k);
  }

  lemma FolderStepOnTrack(setting: Setting, tree0: Tree, s: State, a: Action)
    requires setting.Valid() && Unrelated(setting) && WellFormed(tree0) && |s.pcs| == |setting.jobs|
        && Safe(setting, tree0, s)
    requires a.worker < |s.pcs| && !a.fault && OnTrack(setting, tree0, s, a.worker)
    requires MakesFolders(s.pcs[a.worker]) && !s.pcs[a.worker].Making?
    ensures OnTrack(setting, tree0, Step(setting, s, a), a.worker)
  {
    hide Safe, Judge, Expected, ScanFrom;
    var w := a.worker;
    var dest := setting.jobs[w].dest;
    WorkerFacts(setting, tree0, s, w);
    OwnPathIsPrivate(setting, tree0, s, w);
    StepKeeps(setting, tree0, s, a);
    FoldersStay(s.tree, Step(setting, s, a).tree);
    assert dest[..|dest|] == dest && dest[..|dest| - 1] == Parent(dest);
    match s.pcs[w]
    case MakeFolder(k) =>
      assert IsFolder(s.tree, dest[..k - 1]);
      MakerSeesFolders(setting, tree0, w, k);
    case Remade(k) =>
      assert IsFolder(s.tree, dest[..k]);
    case Opening =>
      assert IsFolder(s.tree, dest[..|dest| - 1]);
  }

  lemma OtherStepOnTrack(setting: Setting, tree0: Tree, s: State, a: Action)
    requires setting.Valid() && Unrelated(setting) && WellFormed(tree0) && |s.pcs| == |setting.jobs|
        && Safe(setting, tree0, s)
    requires a.worker < |s.pcs| && !a.fault && OnTrack(setting, tree0, s, a.worker)
    requires !MakesFolders(s.pcs[a.worker])
    ensures OnTrack(setting, tree0, Step(setting, s, a), a.worker)
  {
    hide Safe, Judge;
    var w := a.worker;
    var dest := setting.jobs[w].dest;
    WorkerFacts(setting, tree0, s, w);
    OwnPathIsPrivate(setting, tree0, s, w);
    StepKeeps(setting, tree0, s, a);
    FoldersStay(s.tree, Step(setting, s, a).tree);
    assert dest[..|dest|] == dest && dest[..|dest| - 1] == Parent(dest);
    match s.pcs[w]
    case Walking(k) =>
      WalkOnTrack(setting, tree0, s, a, k);
    case Rechecking(temp) =>
      MakerSeesFolders(setting, tree0, w, |dest|);
    case Publishing(temp) =>
      MakerSeesFolders(setting, tree0, w, |dest|);
    case _ =>
  }

  /** The worker's own step, no call of its own failing. */
  lemma OwnStepOnTrack(setting: Setting, tree0: Tree, s: State, a: Action)
    requires setting.Valid() && Unrelated(setting) && WellFormed(tree0) && |s.pcs| == |setting.jobs|
        && Safe(setting, tree0, s)
    requires a.worker < |s.pcs| && !a.fault && OnTrack(setting, tree0, s, a.worker)
    ensures OnTrack(setting, tree0, Step(setting, s, a), a.worker)
  {
    hide Safe, OnTrack, Unrelated, WellFormed, MakesFolders, Step;
    if s.pcs[a.worker].Making? {
      LookStepOnTrack(setting, tree0, s, a);
    } else if MakesFolders(s.pcs[a.worker]) {
      FolderStepOnTrack(setting, tree0, s, a);
    } else {
      OtherStepOnTrack(setting, tree0, s, a);
    }
  }

  lemma FirstFolder(tree: Tree, tree0: Tree, dest: Path)
    requires WellFormed(tree0) && forall p :: p in tree0 ==> p in tree && tree[p] == tree0[p]
    ensures FoldersUpTo(tree, dest, 1)
  {
    assert forall j :: 0 <= j < 1 && j < |dest| ==> dest[..j] == [];
  }

  lemma MakerSeesFolders(setting: Setting, tree0: Tree, w: nat, k: nat)
    requires setting.Valid() && WellFormed(tree0) && w < |setting.jobs| && 0 < k <= |setting.jobs[w].dest|
    requires Makes(setting, tree0, setting.jobs[w])
    ensures var dest := setting.jobs[w].dest; dest[..k] in tree0 ==> k < |dest| && tree0[dest[..k]].Folder?
  {
    MissingSeesFolders(tree0, setting.jobs[w].dest, 1, k);
  }

  lemma WalkOnTrack(setting: Setting, tree0: Tree, s: State, a: Action, k: nat)
    requires setting.Valid() && Unrelated(setting) && WellFormed(tree0) && |s.pcs| == |setting.jobs|
        && Safe(setting, tree0, s)
    requires a.worker < |s.pcs| && !a.fault && OnTrack(setting, tree0, s, a.worker) && s.pcs[a.worker] == Walking(k)
    ensures OnTrack(setting, tree0, Step(setting, s, a), a.worker)
  {
    hide Judge, Safe, FoldersUpTo;
    var w := a.worker;
    var dest := setting.jobs[w].dest;
    WorkerFacts(setting, tree0, s, w);
    OwnPathIsPrivate(setting, tree0, s, w);
    FirstFolder(s.tree, tree0, dest);
    assert dest[..|dest|] == dest;
    if k < |dest| && dest[..k] !in tree0 {
      StaysMissing(tree0, dest, k, k + 1);
    }
  }

  /** A worker none of whose own calls fails stays on track, whatever the others do and suffer. */
  lemma {:induction false} RunOnTrack(setting: Setting, tree0: Tree, run: seq<Action>, w: nat)
    requires setting.Valid() && Unrelated(setting) && WellFormed(tree0) && w < |setting.jobs|
    requires forall i :: 0 <= i < |run| && run[i].worker == w ==> !run[i].fault
    ensures OnTrack(setting, tree0, Run(setting, Initial(setting, tree0), run), w)
    decreases |run|
  {
    hide Safe, Step, OnTrack;
    var s0 := Initial(setting, tree0);
    if run == [] {
      InitialOnTrack(setting, tree0, w);
    } else {
      var before, a := run[..|run| - 1], run[|run| - 1];
      RunOnTrack(setting, tree0, before, w);
      RunIsSafe(setting, tree0, before);
      if a.worker == w {
        OwnStepOnTrack(setting, tree0, Run(setting, s0, before), a);
      } else {
        OthersKeepTrack(setting, tree0, Run(setting, s0, before), a, w);
      }
    }
  }

  lemma InitialOnTrack(setting: Setting, tree0: Tree, w: nat)
    requires setting.Valid() && w < |setting.jobs|
    ensures OnTrack(setting, tree0, Initial(setting, tree0), w)
  {
  }

  /** Isolation: in any interleaving a worker whose own calls succeed ends with the outcome it would have
      alone on the initial tree; no worker fails because of another. */
  lemma {:induction false} WorkersAreIsolated(setting: Setting, tree0: Tree, run: seq<Action>, w: nat)
    requires setting.Valid() && Unrelated(setting) && WellFormed(tree0) && w < |setting.jobs|
    requires forall i :: 0 <= i < |run| && run[i].worker == w ==> !run[i].fault
    ensures var pc := Run(setting, Initial(setting, tree0), run).pcs[w];
            pc.Done? ==> pc.outcome == Expected(setting, tree0, setting.jobs[w])
  {
    hide Run;
    RunOnTrack(setting, tree0, run, w);
  }

  // ---------------------------------------------------------------- the final tree

  ghost predicate MakerFolder(setting: Setting, tree0: Tree, w: nat, k: nat, p: Path)
    requires setting.Valid()
  {
    FolderOf(setting, w, k, p) && Makes(setting, tree0, setting.jobs[w])
  }

  ghost predicate Published(setting: Setting, tree0: Tree, w: nat, p: Path)
    requires setting.Valid()
  {
    w < |setting.jobs| && p == setting.jobs[w].dest && Expected(setting, tree0, setting.jobs[w]) == Downloaded
  }

  /** The one tree an undisturbed run ends in: the initial tree, the folders above every destination
      which is worked on, and the delivered content of every file which verifies. */
  ghost predicate FinalTree(setting: Setting, tree0: Tree, tree: Tree)
    requires setting.Valid()
  {
    && (forall p :: p in tree0 ==> p in tree && tree[p] == tree0[p])
    && (forall w, k, p :: MakerFolder(setting, tree0, w, k, p) ==> IsFolder(tree, p))
    && (forall w: nat, p :: Published(setting, tree0, w, p) ==>
        p in tree && tree[p] == File(Payload(setting.jobs[w].delivery)))
    && (forall p :: p in tree ==>
          p in tree0 || (exists w, k :: MakerFolder(setting, tree0, w, k, p))
              || (exists w :: Published(setting, tree0, w, p)))
  }

  lemma {:induction false} FinalTreeIsUnique(setting: Setting, tree0: Tree, tree: Tree, other: Tree)
    requires setting.Valid() && FinalTree(setting, tree0, tree) && FinalTree(setting, tree0, other)
    ensures tree == other
  {
    hide MakerFolder, Published;
    FinalTreeCarriesOver(setting, tree0, tree, other);
    FinalTreeCarriesOver(setting, tree0, other, tree);
  }

  lemma FinalTreeCarriesOver(setting: Setting, tree0: Tree, tree: Tree, other: Tree)
    requires setting.Valid() && FinalTree(setting, tree0, tree) && FinalTree(setting, tree0, other)
    ensures forall p :: p in tree ==> p in other && other[p] == tree[p]
  {
    hide MakerFolder, Published;
    forall p | p in tree ensures p in other && other[p] == tree[p] {
      if p !in tree0 {
        if w, k :| MakerFolder(setting, tree0, w, k, p) {
          assert IsFolder(tree, p) && IsFolder(other, p);
        } else {
          var w: nat :| Published(setting, tree0, w, p);
        }
      }
    }
  }

  /** With no failing call, nothing leaks and only workers which are to make folders make them. */
  ghost predicate Tidy(setting: Setting, tree0: Tree, s: State)
    requires setting.Valid()
  {
    s.leaked == {} && forall p :: IsFolder(s.tree, p) && p !in tree0 ==>
        exists w, k :: MakerFolder(setting, tree0, w, k, p)
  }

  lemma StepIsTidy(setting: Setting, tree0: Tree, s: State, a: Action)
    requires setting.Valid() && |s.pcs| == |setting.jobs| && !a.fault && Tidy(setting, tree0, s)
    requires a.worker < |s.pcs| ==> OnTrack(setting, tree0, s, a.worker)
    requires Safe(setting, tree0, s)
    ensures Tidy(setting, tree0, Step(setting, s, a))
  {
    hide Safe, Judge, Makes, Expected, ScanFrom, FoldersUpTo;
    if a.worker < |s.pcs| {
      var w := a.worker;
      WorkerFacts(setting, tree0, s, w);
      var s' := Step(setting, s, a);
      forall p | IsFolder(s'.tree, p) && p !in tree0 ensures exists v, k :: MakerFolder(setting, tree0, v, k, p) {
        if !IsFolder(s.tree, p) {
          assert s.pcs[w].MakeFolder?;
          assert MakerFolder(setting, tree0, w, s.pcs[w].k, p);
        }
      }
    }
  }

  lemma {:induction false} RunIsTidy(setting: Setting, tree0: Tree, run: seq<Action>)
    requires setting.Valid() && Unrelated(setting) && WellFormed(tree0)
    requires forall i :: 0 <= i < |run| ==> !run[i].fault
    ensures Tidy(setting, tree0, Run(setting, Initial(setting, tree0), run))
    decreases |run|
  {
    hide Safe, Step, OnTrack;
    if run == [] {
    } else {
      var before, a := run[..|run| - 1], run[|run| - 1];
      RunIsTidy(setting, tree0, before);
      RunIsSafe(setting, tree0, before);
      if a.worker < |setting.jobs| {
        RunOnTrack(setting, tree0, before, a.worker);
      }
      StepIsTidy(setting, tree0, Run(setting, Initial(setting, tree0), before), a);
    }
  }

  /** Confluence: every interleaving without failing calls ends in the same tree. */
  lemma RunsAgreeOnTheTree(setting: Setting, tree0: Tree, run: seq<Action>)
    requires setting.Valid() && Unrelated(setting) && WellFormed(tree0)
    requires forall i :: 0 <= i < |run| ==> !run[i].fault
    requires forall w :: 0 <= w < |setting.jobs| ==> Run(setting, Initial(setting, tree0), run).pcs[w].Done?
    ensures FinalTree(setting, tree0, Run(setting, Initial(setting, tree0), run).tree)
  {
    var s := Run(setting, Initial(setting, tree0), run);
    hide Run;
    RunIsSafe(setting, tree0, run);
    RunIsTidy(setting, tree0, run);
    forall w | 0 <= w < |setting.jobs| ensures OnTrack(setting, tree0, s, w) {
      RunOnTrack(setting, tree0, run, w);
    }
    DoneIsFinal(setting, tree0, s);
  }

  lemma DoneIsPublished(setting: Setting, tree0: Tree, s: State, w: nat, p: Path)
    requires setting.Valid() && w < |s.pcs| == |setting.jobs| && s.pcs[w].Done? && OnTrack(setting, tree0, s, w)
    requires Published(setting, tree0, w, p)
    ensures p in s.tree && s.tree[p] == File(Payload(setting.jobs[w].delivery))
  {
    hide Accepted, Judge, Makes, Expected, ScanFrom, FoldersUpTo;
  }

  lemma DoneIsFinal(setting: Setting, tree0: Tree, s: State)
    requires setting.Valid() && |s.pcs| == |setting.jobs| && Safe(setting, tree0, s) && Tidy(setting, tree0, s)
    requires forall w :: 0 <= w < |setting.jobs| ==> s.pcs[w].Done? && OnTrack(setting, tree0, s, w)
    ensures FinalTree(setting, tree0, s.tree)
  {
    hide Accepted, Judge, Makes, Expected, ScanFrom;
    forall w, k, p | MakerFolder(setting, tree0, w, k, p) ensures IsFolder(s.tree, p) {
      assert OnTrack(setting, tree0, s, w);
    }
    forall w: nat, p | Published(setting, tree0, w, p)
        ensures p in s.tree && s.tree[p] == File(Payload(setting.jobs[w].delivery)) {
      DoneIsPublished(setting, tree0, s, w, p);
    }
    forall p | p in s.tree && p !in tree0
      ensures (exists w, k :: MakerFolder(setting, tree0, w, k, p)) || exists w :: Published(setting, tree0, w, p)
    {
      DoneIsExplained(setting, tree0, s, p);
    }
  }

  lemma DoneIsExplained(setting: Setting, tree0: Tree, s: State, p: Path)
    requires setting.Valid() && |s.pcs| == |setting.jobs| && Safe(setting, tree0, s) && Tidy(setting, tree0, s)
    requires forall w :: 0 <= w < |setting.jobs| ==> s.pcs[w].Done? && OnTrack(setting, tree0, s, w)
    requires p in s.tree && p !in tree0
    ensures (exists w, k :: MakerFolder(setting, tree0, w, k, p)) || exists w :: Published(setting, tree0, w, p)
  {
    hide Accepted, Judge, Makes, Expected, ScanFrom, MakerFolder, FoldersUpTo;
    assert Explained(setting, s, p);
    if s.tree[p].Folder? {
      assert IsFolder(s.tree, p);
    } else {
      var w: nat :| PublishedBy(setting, s, w, p);
      assert OnTrack(setting, tree0, s, w);
      assert Published(setting, tree0, w, p);
    }
  }

  // ---------------------------------------------------------------- progress

  /** Calls a worker can still make; temporary-name clashes aside, every step uses one up. */
  function Remaining(job: Job, pc: Pc): nat {
    var n, bytes := |job.dest|, |Payload(job.delivery)|;
    match pc
    case Start => 4 * n + bytes + 15
    case Walking(k) => (if k <= n then n - k else 0) + 3 * n + bytes + 14
    case Checking => 1
    case Making(k) => (if k <= n then 3 * (n - k) else 0) + bytes + 10
    case MakeFolder(k) => (if k <= n then 3 * (n - k) else 0) + bytes + 9
    case Remade(k) => (if k <= n then 3 * (n - k) else 0) + bytes + 8
    case Opening => bytes + 7
    case Writing(_, written) => (if written <= bytes then bytes - written else 0) + 6
    case Verifying(_) => 5
    case Rechecking(_) => 4
    case Publishing(_) => 3
    case Cleaning(_, _) => 1
    case Done(_) => 0
  }

  /** No worker is ever stuck: each step of one which is not done brings it closer, unless the offered
      temporary name was taken. */
  lemma StepsMakeProgress(setting: Setting, s: State, a: Action)
    requires setting.Valid() && |s.pcs| == |setting.jobs|
    requires a.worker < |s.pcs| && !s.pcs[a.worker].Done?
    requires s.pcs[a.worker].Opening? ==>
        setting.isTemp(a.name) && Parent(setting.jobs[a.worker].dest) + [a.name] !in s.tree
    ensures Remaining(setting.jobs[a.worker], Step(setting, s, a).pcs[a.worker]) < Remaining(setting.jobs[a.worker],
        s.pcs[a.worker])
    ensures forall w :: 0 <= w < |s.pcs| && w != a.worker ==> Step(setting, s, a).pcs[w] == s.pcs[w]
  {
    hide Judge;
  }
}
