/** Collecting the entries of a directory tree for hashing (scripts/bl_tool.py). */
module TreeWalk {
  import opened Wrappers
  import opened Sequences
  import opened Digests
  import opened ByteOrder
  import opened TreeHash
  import opened HashCommand

  type Name = Bytes

  type Path = seq<Name>

  const SLASH: Byte := 47
  const DOT: Byte := 46

  /** What `lstat` and the directory listing tell of an entry.  `LinkedDirectory` is listed among the
      directories, `Irregular` (links to files, devices, pipes) among the file names. */
  datatype Node = Directory(readable: bool) | Regular(content: Bytes) | LinkedDirectory | Irregular

  predicate ValidName(name: Name) {
    name != [] && SLASH !in name
  }

  /** Every entry but the root sits in a directory under a name a file system can produce. */
  ghost predicate WellFormed(fs: map<Path, Node>) {
    && [] in fs && fs[[]].Directory?
    && forall p {:trigger Placed(fs, p)} :: p in fs && p != [] ==> Placed(fs, p)
  }

  ghost predicate Placed(fs: map<Path, Node>, p: Path)
    requires p != []
  {
    ValidName(p[|p| - 1]) && p[..|p| - 1] in fs && fs[p[..|p| - 1]].Directory?
  }

  predicate Hidden(name: Name) {
    |name| > 0 && name[0] == DOT
  }

  ghost predicate Visible(p: Path, allowHidden: bool) {
    allowHidden || forall i :: 0 <= i < |p| ==> !Hidden(p[i])
  }

  /** The '/'-separated canonical path bytes. */
  function Relative(p: Path): Bytes {
    Join(p, SLASH)
  }

  /** A hidden name starts with a full stop; path bytes are the names with slashes between them. */
  lemma NamesMean(name: Name, p: Path)
    ensures Hidden(name) <==> name != [] && name[0] == 46
    ensures Relative([name]) == name
    ensures p != [] ==> Relative([name] + p) == name + [47] + Relative(p)
  {
    assert ([name] + p)[1..] == p;
  }

  predicate IsChild(parent: Path, p: Path) {
    p != [] && p[..|p| - 1] == parent
  }

  // ---------------------------------------------------------------- paths

  lemma {:induction false} NamesAreValid(fs: map<Path, Node>, p: Path)
    requires WellFormed(fs) && p in fs
    ensures forall name :: name in p ==> ValidName(name)
    decreases |p|
  {
    if p == [] {
    } else {
      assert Placed(fs, p);
      NamesAreValid(fs, p[..|p| - 1]);
      assert p == p[..|p| - 1] + [p[|p| - 1]];
    }
  }

  lemma RelativeInjective(fs: map<Path, Node>, p: Path, gs: map<Path, Node>, q: Path)
    requires WellFormed(fs) && WellFormed(gs) && p in fs && q in gs && p != [] && q != []
    requires Relative(p) == Relative(q)
    ensures p == q
  {
    NamesAreValid(fs, p);
    NamesAreValid(gs, q);
    JoinInjective(p, q, SLASH);
  }

  /** An ancestor of a visible entry is a visible directory. */
  lemma {:induction false} AncestorsAreVisible(fs: map<Path, Node>, allowHidden: bool, p: Path, k: nat)
    requires WellFormed(fs) && p in fs && Visible(p, allowHidden) && k < |p|
    ensures p[..k] in fs && fs[p[..k]].Directory? && Visible(p[..k], allowHidden)
    decreases |p|
  {
    var parent := p[..|p| - 1];
    assert Placed(fs, p) && Visible(parent, allowHidden);
    if k < |p| - 1 {
      AncestorsAreVisible(fs, allowHidden, parent, k);
      assert parent[..k] == p[..k];
    }
  }

  // ---------------------------------------------------------------- what the walk is to find

  ghost predicate IsFile(fs: map<Path, Node>, allowHidden: bool, p: Path) {
    p in fs && p != [] && Visible(p, allowHidden) && fs[p].Regular?
  }

  ghost predicate IsDirectory(fs: map<Path, Node>, allowHidden: bool, p: Path) {
    p in fs && p != [] && Visible(p, allowHidden) && fs[p].Directory?
  }

  /** Nothing visible is a link, irregular, or an unreadable directory. */
  ghost predicate Hashable(fs: map<Path, Node>, allowHidden: bool) {
    forall p :: p in fs && Visible(p, allowHidden) ==> fs[p].Regular? || fs[p] == Directory(true)
  }

  datatype WalkError = Linked(path: Path) | NotRegular(path: Path) | Unreadable(path: Path)

  ghost predicate Offends(fs: map<Path, Node>, allowHidden: bool, error: WalkError) {
    && error.path in fs && Visible(error.path, allowHidden)
    && match error
       case Linked(p) => fs[p].LinkedDirectory?
       case NotRegular(p) => fs[p].Irregular?
       case Unreadable(p) => fs[p] == Directory(false)
  }

  function EntryPath(entry: Entry): Bytes {
    entry.path
  }

  function Relatives(paths: seq<Path>): (out: seq<Bytes>)
    ensures |out| == |paths| && forall i :: 0 <= i < |paths| ==> out[i] == Relative(paths[i])
  {
    seq(|paths|, i requires 0 <= i < |paths| => Relative(paths[i]))
  }

  function Entries(fs: map<Path, Node>, paths: seq<Path>): (out: seq<Entry>)
    requires forall p :: p in paths ==> p in fs && fs[p].Regular?
    ensures |out| == |paths|
    ensures forall i :: 0 <= i < |paths| ==>
              paths[i] in fs && fs[paths[i]].Regular? && out[i] == Entry(Relative(paths[i]), fs[paths[i]].content)
  {
    seq(|paths|, i requires 0 <= i < |paths| =>
        assert paths[i] in paths; Entry(Relative(paths[i]), fs[paths[i]].content))
  }

  // ---------------------------------------------------------------- the walk

  /** The loop over the directories of one listing. */
  method CollectDirectories(fs: map<Path, Node>, dirs: set<Path>) returns (r: Result<seq<Path>, WalkError>)
    requires forall p :: p in dirs ==> p in fs
    ensures r.Ok? ==> Distinct(r.value) && (forall p :: p in r.value <==> p in dirs) && forall p :: p in dirs ==>
        !fs[p].LinkedDirectory?
    ensures r.Err? ==> r.error.Linked? && r.error.path in dirs && fs[r.error.path].LinkedDirectory?
  {
    var rest := dirs;
    var paths: seq<Path> := [];
    while rest != {}
      invariant rest <= dirs && Distinct(paths)
      invariant forall p :: p in paths <==> p in dirs && p !in rest
      invariant forall p :: p in paths ==> !fs[p].LinkedDirectory?
    {
      var p :| p in rest;
      if fs[p].LinkedDirectory? {
        return Err(Linked(p));
      }
      paths := paths + [p];
      rest := rest - {p};
    }
    r := Ok(paths);
  }

  /** The loop over the file names of one listing. */
  method CollectFiles(fs: map<Path, Node>, names: set<Path>, allowHidden: bool)
      returns (r: Result<seq<Path>, WalkError>)
    requires forall p :: p in names ==> p in fs && p != [] && (fs[p].Regular? || fs[p].Irregular?)
    ensures r.Ok? ==>
              && Distinct(r.value)
              && (forall p :: p in r.value <==> p in names && (allowHidden || !Hidden(p[|p| - 1])))
              && forall p :: p in r.value ==> fs[p].Regular?
    ensures r.Err? ==>
              && r.error.NotRegular? && r.error.path in names && fs[r.error.path].Irregular?
              && (allowHidden || !Hidden(r.error.path[|r.error.path| - 1]))
  {
    var rest := names;
    var paths: seq<Path> := [];
    while rest != {}
      invariant rest <= names && Distinct(paths)
      invariant forall p :: p in paths <==> p in names && p !in rest && (allowHidden || !Hidden(p[|p| - 1]))
      invariant forall p :: p in paths ==> fs[p].Regular?
    {
      var p :| p in rest;
      rest := rest - {p};
      if !allowHidden && Hidden(p[|p| - 1]) {
        continue;
      }
      if !fs[p].Regular? {
        return Err(NotRegular(p));
      }
      paths := paths + [p];
    }
    r := Ok(paths);
  }

  /** The walk between two listings: `done` directories are listed, `todo` ones are known. */
  datatype Walk = Walk(todo: set<Path>, done: set<Path>, dirs: seq<Path>, files: seq<Path>)

  ghost predicate WalkInvariant(fs: map<Path, Node>, allowHidden: bool, w: Walk) {
    && w.todo !! w.done && [] in w.todo + w.done
    && (forall p :: p in w.todo + w.done ==> p == [] || IsDirectory(fs, allowHidden, p))
    && (forall p :: p in w.done ==> Listed(fs, allowHidden, p, w))
    && (forall d, q :: IsChild(d, q) && d !in w.done ==> q !in w.todo + w.done && q !in w.files)
    && Distinct(w.dirs) && (forall q :: q in w.dirs <==> q in w.todo + w.done && q != [])
    && Distinct(w.files) && (forall q :: q in w.files ==> IsFile(fs, allowHidden, q))
  }

  /** An entry the listing of `dir` shows. */
  predicate Shown(fs: map<Path, Node>, allowHidden: bool, dir: Path, q: Path) {
    q in fs && IsChild(dir, q) && (allowHidden || !Hidden(q[|q| - 1]))
  }

  /** The listing of one directory went through: all it shows is accounted for. */
  ghost predicate Listed(fs: map<Path, Node>, allowHidden: bool, dir: Path, w: Walk) {
    && dir in fs && fs[dir] == Directory(true)
    && forall q :: Shown(fs, allowHidden, dir, q) ==>
         if fs[q].Directory? then q in w.todo + w.done else fs[q].Regular? && q in w.files
  }

  /** A clean listing of `dir`. */
  ghost predicate Listing(fs: map<Path, Node>, allowHidden: bool, dir: Path, dirs: seq<Path>, files: seq<Path>) {
    && Distinct(dirs) && (forall q :: q in dirs <==> Shown(fs, allowHidden, dir, q) && fs[q].Directory?)
    && Distinct(files) && (forall q :: q in files <==> Shown(fs, allowHidden, dir, q) && fs[q].Regular?)
    && forall q :: Shown(fs, allowHidden, dir, q) ==> fs[q].Directory? || fs[q].Regular?
  }

  ghost function NextWalk(w: Walk, dir: Path, dirs: seq<Path>, files: seq<Path>): Walk {
    Walk(w.todo - {dir} + (set q | q in dirs), w.done + {dir}, w.dirs + dirs, w.files + files)
  }

  /** A walk which has run out of directories has seen every visible entry. */
  lemma {:induction false} WalkIsComplete(fs: map<Path, Node>, allowHidden: bool, w: Walk, p: Path)
    requires WellFormed(fs) && WalkInvariant(fs, allowHidden, w) && w.todo == {}
    requires p in fs && Visible(p, allowHidden)
    ensures if fs[p].Directory? then p in w.done && fs[p].readable else fs[p].Regular? && p in w.files
    decreases |p|
  {
    if p != [] {
      var parent := p[..|p| - 1];
      assert Placed(fs, p) && Visible(parent, allowHidden);
      WalkIsComplete(fs, allowHidden, w, parent);
      assert Listed(fs, allowHidden, parent, w);
      assert Shown(fs, allowHidden, parent, p);
    } else {
      assert Listed(fs, allowHidden, p, w);
    }
  }

  /** Listing one more directory keeps the invariant. */
  lemma WalkStep(fs: map<Path, Node>, allowHidden: bool, w: Walk, dir: Path, dirs: seq<Path>, files: seq<Path>)
    requires WellFormed(fs) && WalkInvariant(fs, allowHidden, w)
    requires dir in w.todo && fs[dir] == Directory(true) && Listing(fs, allowHidden, dir, dirs, files)
    ensures WalkInvariant(fs, allowHidden, NextWalk(w, dir, dirs, files))
  {
    var w' := NextWalk(w, dir, dirs, files);
    KnownDirectory(fs, allowHidden, w, dir);
    assert w'.todo + w'.done == w.todo + w.done + set q | q in dirs;
    AppendDistinct(w.dirs, dirs);
    AppendDistinct(w.files, files);
    forall p | p in w'.done ensures Listed(fs, allowHidden, p, w') {
      StaysListed(fs, allowHidden, w, dir, dirs, files, p);
    }
  }

  lemma StaysListed(fs: map<Path, Node>, allowHidden: bool, w: Walk, dir: Path, dirs: seq<Path>, files: seq<Path>,
      p: Path)
    requires p == dir || Listed(fs, allowHidden, p, w)
    requires dir in fs && fs[dir] == Directory(true) && Listing(fs, allowHidden, dir, dirs, files)
    ensures Listed(fs, allowHidden, p, NextWalk(w, dir, dirs, files))
  {
  }

  lemma AppendDistinct<T(!new)>(xs: seq<T>, ys: seq<T>)
    ensures Distinct(xs) && Distinct(ys) && (forall y :: y in ys ==> y !in xs) ==> Distinct(xs + ys)
    ensures forall z :: z in xs + ys <==> z in xs || z in ys
  {
    if Distinct(xs) && Distinct(ys) && (forall y :: y in ys ==> y !in xs) {
      forall i, j | 0 <= i < j < |xs + ys| ensures (xs + ys)[i] != (xs + ys)[j] {
        if i < |xs| <= j {
          assert ys[j - |xs|] in ys && xs[i] in xs;
        }
      }
    }
  }

  lemma ChildIsVisible(parent: Path, p: Path, allowHidden: bool)
    requires Visible(parent, allowHidden) && IsChild(parent, p) && (allowHidden || !Hidden(p[|p| - 1]))
    ensures Visible(p, allowHidden)
  {
    if !allowHidden {
      forall i | 0 <= i < |p| ensures !Hidden(p[i]) {
        assert i < |p| - 1 ==> p[i] == parent[i];
      }
    }
  }

  /** Collects the tree, listing directories in any order, and sorts both lists by canonical path bytes. */
  method CollectTree(fs: map<Path, Node>, allowHidden: bool) returns (r: Result<(seq<Entry>, seq<Bytes>), WalkError>)
    requires WellFormed(fs)
    ensures r.Ok? <==> Hashable(fs, allowHidden)
    ensures r.Err? ==> Offends(fs, allowHidden, r.error)
    ensures r.Ok? ==> Increasing(Keys(EntryPath, r.value.0)) && Increasing(r.value.1)
    ensures r.Ok? ==> forall e :: e in r.value.0 <==>
              exists p :: IsFile(fs, allowHidden, p) && e == Entry(Relative(p), fs[p].content)
    ensures r.Ok? ==> forall d :: d in r.value.1 <==> exists p :: IsDirectory(fs, allowHidden, p) && d == Relative(p)
  {
    hide WalkInvariant, WellFormed, Increasing, SortBy, Offends, Distinct;
    var todo: set<Path> := {[]};
    var dirPaths: seq<Path>, filePaths: seq<Path> := [], [];
    ghost var w := Walk({[]}, {}, [], []);
    WalkBegins(fs, allowHidden);
    while todo != {}
      invariant WalkInvariant(fs, allowHidden, w)
      invariant w.todo == todo && w.dirs == dirPaths && w.files == filePaths
      decreases fs.Keys - w.done
    {
      var dir :| dir in todo;
      KnownDirectory(fs, allowHidden, w, dir);
      if !fs[dir].readable {
        OffenderFound(fs, allowHidden, Unreadable(dir));
        return Err(Unreadable(dir));
      }
      var dirs := set q | q in fs && IsChild(dir, q) && (fs[q].Directory? || fs[q].LinkedDirectory?);
      var names := set q | q in fs && IsChild(dir, q) && (fs[q].Regular? || fs[q].Irregular?);
      if !allowHidden {
        dirs := set q | q in dirs && !Hidden(q[|q| - 1]);
      }
      var listedDirs := CollectDirectories(fs, dirs);
      if listedDirs.Err? {
        OffenderFound(fs, allowHidden, listedDirs.error);
        return Err(listedDirs.error);
      }
      var listedFiles := CollectFiles(fs, names, allowHidden);
      if listedFiles.Err? {
        OffenderFound(fs, allowHidden, listedFiles.error);
        return Err(listedFiles.error);
      }
      WalkStep(fs, allowHidden, w, dir, listedDirs.value, listedFiles.value);
      w := NextWalk(w, dir, listedDirs.value, listedFiles.value);
      todo := todo - {dir} + set q | q in listedDirs.value;
      dirPaths := dirPaths + listedDirs.value;
      filePaths := filePaths + listedFiles.value;
    }
    WalkEnds(fs, allowHidden, w);
    var files := SortBy(EntryPath, Entries(fs, filePaths));
    var directories := SortBy((d: Bytes) => d, Relatives(dirPaths));
    SortedFiles(fs, allowHidden, filePaths);
    SortedDirectories(fs, allowHidden, dirPaths);
    r := Ok((files, directories));
  }

  lemma WalkBegins(fs: map<Path, Node>, allowHidden: bool)
    ensures WalkInvariant(fs, allowHidden, Walk({[]}, {}, [], []))
  {
  }

  lemma KnownDirectory(fs: map<Path, Node>, allowHidden: bool, w: Walk, dir: Path)
    requires WellFormed(fs) && WalkInvariant(fs, allowHidden, w) && dir in w.todo
    ensures dir in fs && fs[dir].Directory? && Visible(dir, allowHidden) && dir !in w.done
    ensures forall q :: Shown(fs, allowHidden, dir, q) ==>
        Visible(q, allowHidden) && q !in w.todo + w.done && q !in w.files
  {
    forall q | Shown(fs, allowHidden, dir, q) ensures Visible(q, allowHidden) {
      ChildIsVisible(dir, q, allowHidden);
    }
  }

  lemma OffenderFound(fs: map<Path, Node>, allowHidden: bool, error: WalkError)
    requires error.path in fs && Visible(error.path, allowHidden)
    requires match error
             case Linked(p) => fs[p].LinkedDirectory?
             case NotRegular(p) => fs[p].Irregular?
             case Unreadable(p) => fs[p] == Directory(false)
    ensures Offends(fs, allowHidden, error) && !Hashable(fs, allowHidden)
  {
  }

  lemma WalkEnds(fs: map<Path, Node>, allowHidden: bool, w: Walk)
    requires WellFormed(fs) && WalkInvariant(fs, allowHidden, w) && w.todo == {}
    ensures Hashable(fs, allowHidden)
    ensures Distinct(w.dirs) && forall p :: p in w.dirs <==> IsDirectory(fs, allowHidden, p)
    ensures Distinct(w.files) && forall p :: p in w.files <==> IsFile(fs, allowHidden, p)
  {
    forall p | p in fs && Visible(p, allowHidden)
      ensures if fs[p].Directory? then p in w.done && fs[p].readable else fs[p].Regular? && p in w.files
    {
      WalkIsComplete(fs, allowHidden, w, p);
    }
  }

  lemma SortedFiles(fs: map<Path, Node>, allowHidden: bool, paths: seq<Path>)
    requires WellFormed(fs) && Distinct(paths)
    requires forall p :: p in paths ==> p in fs && fs[p].Regular?
    requires forall p :: p in paths <==> IsFile(fs, allowHidden, p)
    ensures var files := SortBy(EntryPath, Entries(fs, paths));
            && Increasing(Keys(EntryPath, files))
            && forall e :: e in files <==>
                exists p :: IsFile(fs, allowHidden, p) && e == Entry(Relative(p), fs[p].content)
  {
    var entries := Entries(fs, paths);
    SortedByKey(EntryPath, entries);
    forall i, j | 0 <= i < j < |paths| ensures Relative(paths[i]) != Relative(paths[j]) {
      assert paths[i] in paths && paths[j] in paths;
      if Relative(paths[i]) == Relative(paths[j]) {
        RelativeInjective(fs, paths[i], fs, paths[j]);
      }
    }
    forall e ensures e in entries <==>
        exists p :: IsFile(fs, allowHidden, p) && e == Entry(Relative(p), fs[p].content) {
      if e in entries {
        var i :| 0 <= i < |entries| && entries[i] == e;
        assert paths[i] in paths;
      }
      if p :| IsFile(fs, allowHidden, p) && e == Entry(Relative(p), fs[p].content) {
        var i :| 0 <= i < |paths| && paths[i] == p;
        assert entries[i] == e;
      }
    }
  }

  lemma SortedDirectories(fs: map<Path, Node>, allowHidden: bool, paths: seq<Path>)
    requires WellFormed(fs) && Distinct(paths) && forall p :: p in paths <==> IsDirectory(fs, allowHidden, p)
    ensures var directories := SortBy((d: Bytes) => d, Relatives(paths));
            && Increasing(directories)
            && forall d :: d in directories <==> exists p :: IsDirectory(fs, allowHidden, p) && d == Relative(p)
  {
    var id := (d: Bytes) => d;
    var relatives := Relatives(paths);
    SortedByKey(id, relatives);
    assert Keys(id, relatives) == relatives && Keys(id, SortBy(id, relatives)) == SortBy(id, relatives);
    forall i, j | 0 <= i < j < |paths| ensures relatives[i] != relatives[j] {
      assert paths[i] in paths && paths[j] in paths;
      if Relative(paths[i]) == Relative(paths[j]) {
        RelativeInjective(fs, paths[i], fs, paths[j]);
      }
    }
    forall d ensures d in relatives <==> exists p :: IsDirectory(fs, allowHidden, p) && d == Relative(p) {
      if d in relatives {
        var i :| 0 <= i < |relatives| && relatives[i] == d;
        assert paths[i] in paths;
      }
      if p :| IsDirectory(fs, allowHidden, p) && d == Relative(p) {
        var i :| 0 <= i < |paths| && paths[i] == p;
        assert relatives[i] == d;
      }
    }
  }

  // ---------------------------------------------------------------- end to end

  /** The snapshot a file system presents: every visible file and directory, nothing else. */
  ghost predicate Presents(fs: map<Path, Node>, allowHidden: bool, s: Snapshot) {
    && s.scope == Tree && s.Valid()
    && (forall p :: IsFile(fs, allowHidden, p) ==> Relative(p) in s.files && s.files[Relative(p)] == fs[p].content)
    && (forall r :: r in s.files ==> exists p :: IsFile(fs, allowHidden, p) && r == Relative(p))
    && (forall r :: r in s.directories <==> exists p :: IsDirectory(fs, allowHidden, p) && r == Relative(p))
  }

  /** The two file systems show the same files with the same contents, and the same directories. */
  ghost predicate SameVisibleTree(fs: map<Path, Node>, gs: map<Path, Node>, allowHidden: bool) {
    && (forall p :: IsFile(fs, allowHidden, p) <==> IsFile(gs, allowHidden, p))
    && (forall p :: IsFile(fs, allowHidden, p) && IsFile(gs, allowHidden, p) ==> fs[p].content == gs[p].content)
    && (forall p :: IsDirectory(fs, allowHidden, p) <==> IsDirectory(gs, allowHidden, p))
  }

  /** Presenting one snapshot means showing one tree. */
  lemma SnapshotShowsTree(fs: map<Path, Node>, gs: map<Path, Node>, allowHidden: bool, s: Snapshot)
    requires WellFormed(fs) && WellFormed(gs)
    requires Presents(fs, allowHidden, s) && Presents(gs, allowHidden, s)
    ensures SameVisibleTree(fs, gs, allowHidden)
  {
    SnapshotCarriesOver(fs, gs, allowHidden, s);
    SnapshotCarriesOver(gs, fs, allowHidden, s);
  }

  lemma SnapshotCarriesOver(fs: map<Path, Node>, gs: map<Path, Node>, allowHidden: bool, s: Snapshot)
    requires WellFormed(fs) && WellFormed(gs)
    requires Presents(fs, allowHidden, s) && Presents(gs, allowHidden, s)
    ensures forall p :: IsFile(fs, allowHidden, p) ==> IsFile(gs, allowHidden, p) && fs[p].content == gs[p].content
    ensures forall p :: IsDirectory(fs, allowHidden, p) ==> IsDirectory(gs, allowHidden, p)
  {
    forall p | IsFile(fs, allowHidden, p) ensures IsFile(gs, allowHidden, p) && fs[p].content == gs[p].content {
      var q :| IsFile(gs, allowHidden, q) && Relative(p) == Relative(q);
      RelativeInjective(fs, p, gs, q);
    }
    forall p | IsDirectory(fs, allowHidden, p) ensures IsDirectory(gs, allowHidden, p) {
      assert Relative(p) in s.directories;
      var q :| IsDirectory(gs, allowHidden, q) && Relative(p) == Relative(q);
      RelativeInjective(fs, p, gs, q);
    }
  }

  /** The directory case of the command, from the file system to the digest. */
  method HashDirectory(hash: Hash, fs: map<Path, Node>, allowHidden: bool, excludePaths: bool)
    returns (r: Result<Option<Bytes>, WalkError>, ghost s: Snapshot)
    requires WellFormed(fs)
    ensures r.Ok? <==> Hashable(fs, allowHidden)
    ensures r.Err? ==> Offends(fs, allowHidden, r.error)
    ensures r.Ok? ==> Presents(fs, allowHidden, s)
    ensures r.Ok? ==> r.value == if excludePaths then Some(RawDigest(hash, s.files))
                                 else if s.Fits() then Some(RootDigest(hash, s)) else None
  {
    hide RawDigest, RootDigest, Hashable, Offends, WellFormed, IsFile, IsDirectory;
    s := Snapshot(Tree, map[], {});
    var collected := CollectTree(fs, allowHidden);
    if collected.Err? {
      return Err(collected.error), s;
    }
    var (files, directories) := collected.value;
    CollectedIsPresented(fs, allowHidden, files, directories);
    s := SnapshotOf(Tree, files, directories);
    var digest := CommandHash(hash, Tree, files, directories, excludePaths);
    r := Ok(digest);
  }

  lemma CollectedIsPresented(fs: map<Path, Node>, allowHidden: bool, files: seq<Entry>, directories: seq<Bytes>)
    requires WellFormed(fs)
    requires Increasing(Keys(EntryPath, files)) && Increasing(directories)
    requires forall e :: e in files <==>
        exists p :: IsFile(fs, allowHidden, p) && e == Entry(Relative(p), fs[p].content)
    requires forall d :: d in directories <==> exists p :: IsDirectory(fs, allowHidden, p) && d == Relative(p)
    ensures DistinctPaths(files) && Distinct(directories)
    ensures forall d :: d in directories ==> d !in FileMap(files)
    ensures Presents(fs, allowHidden, SnapshotOf(Tree, files, directories))
  {
    var keys := Keys(EntryPath, files);
    forall i, j | 0 <= i < j < |files| ensures files[i].path != files[j].path {
      LessTotal(keys[i], keys[j]);
    }
    forall i, j | 0 <= i < j < |directories| ensures directories[i] != directories[j] {
      LessTotal(directories[i], directories[j]);
    }
    FileMapHolds(files);
    forall p | IsFile(fs, allowHidden, p)
      ensures Relative(p) in FileMap(files) && FileMap(files)[Relative(p)] == fs[p].content
    {
      assert Entry(Relative(p), fs[p].content) in files;
      var i :| 0 <= i < |files| && files[i] == Entry(Relative(p), fs[p].content);
    }
    forall r | r in FileMap(files) ensures exists p :: IsFile(fs, allowHidden, p) && r == Relative(p) {
      var i :| 0 <= i < |files| && files[i].path == r;
      assert files[i] in files;
      var p :| IsFile(fs, allowHidden, p) && files[i] == Entry(Relative(p), fs[p].content);
    }
    forall d | d in directories && d in FileMap(files) ensures false {
      var p :| IsDirectory(fs, allowHidden, p) && d == Relative(p);
      var q :| IsFile(fs, allowHidden, q) && d == Relative(q);
      RelativeInjective(fs, p, fs, q);
    }
  }

  /** Two directories which show different trees but hash alike exhibit a collision. */
  lemma DirectoryCommitment(hash: Hash, fs: map<Path, Node>, gs: map<Path, Node>, allowHidden: bool, s: Snapshot,
      t: Snapshot) returns (x: Bytes, y: Bytes)
    requires FixedWidth(hash) && WellFormed(fs) && WellFormed(gs)
    requires Presents(fs, allowHidden, s) && Presents(gs, allowHidden, t) && s.Fits() && t.Fits()
    requires RootDigest(hash, s) == RootDigest(hash, t) && !SameVisibleTree(fs, gs, allowHidden)
    ensures Collision(hash, x, y)
    ensures x in HashedFor(hash, s) && y in HashedFor(hash, t)
  {
    hide RootDigest, HashedFor, SameVisibleTree;
    if s == t {
      SnapshotShowsTree(fs, gs, allowHidden, s);
    }
    x, y := TreeCommitment(hash, s, t);
  }

  /** Every ancestor of a listed entry is itself listed, and no entry is listed as both kinds. */
  lemma AncestorsAreListed(fs: map<Path, Node>, allowHidden: bool, s: Snapshot, p: Path, k: nat)
    requires WellFormed(fs) && Presents(fs, allowHidden, s)
    requires IsFile(fs, allowHidden, p) || IsDirectory(fs, allowHidden, p)
    requires 0 < k < |p|
    ensures Relative(p[..k]) in s.directories && Relative(p[..k]) !in s.files
  {
    AncestorsAreVisible(fs, allowHidden, p, k);
    assert IsDirectory(fs, allowHidden, p[..k]);
  }
}
