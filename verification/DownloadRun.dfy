/** From a clean preflight to isolated workers (scripts/s3_manage.py). */
module DownloadRun {
  import opened Wrappers
  import opened Sequences
  import opened Digests
  import DownloadKeys
  import Preflight
  import opened DownloadProtocol
  import opened Isolation

  /** Names which the file system takes for one another have one collision identity.  `fold` is what the
      file system makes of a name; nothing else is assumed of either. */
  ghost predicate FoldRespectsIdentity(unicode: DownloadKeys.Unicode, fold: string -> Name) {
    forall a, b :: fold(a) == fold(b) ==> unicode.identity(a) == unicode.identity(b)
  }

  function OnDisk(fold: string -> Name, components: seq<string>): (path: Path)
    ensures |path| == |components| && forall i :: 0 <= i < |path| ==> path[i] == fold(components[i])
  {
    seq(|components|, i requires 0 <= i < |components| => fold(components[i]))
  }

  function ComponentsOf(unicode: DownloadKeys.Unicode, key: string): seq<string> {
    match DownloadKeys.ValidateKey(unicode, key)
    case Ok((components, _)) => components
    case Err(_) => []
  }

  /** The workers the command starts: one per queued key. */
  ghost predicate OneJobPerKey(unicode: DownloadKeys.Unicode, fold: string -> Name, queue: seq<Preflight.Object>,
      jobs: seq<Job>) {
    |jobs| == |queue| && forall i :: 0 <= i < |queue| ==>
        jobs[i].dest == OnDisk(fold, ComponentsOf(unicode, queue[i].key))
  }

  lemma PrefixOnDisk(unicode: DownloadKeys.Unicode, fold: string -> Name, xs: seq<string>, ys: seq<string>)
    requires FoldRespectsIdentity(unicode, fold) && OnDisk(fold, xs) <= OnDisk(fold, ys)
    ensures Preflight.Identities(unicode, xs) <= Preflight.Identities(unicode, ys)
  {
    var ps, qs := OnDisk(fold, xs), OnDisk(fold, ys);
    forall i | 0 <= i < |xs| ensures Preflight.Identities(unicode, xs)[i] == Preflight.Identities(unicode, ys)[i] {
      assert ps[i] == qs[i];
      assert fold(xs[i]) == fold(ys[i]);
    }
  }

  /** A clean preflight means unrelated destinations on disk. */
  lemma CleanPreflightUnrelates(unicode: DownloadKeys.Unicode, fold: string -> Name, objects: seq<Preflight.Object>,
      setting: Setting)
    requires Preflight.ErrorsAre(unicode, multiset(objects), map[]) && FoldRespectsIdentity(unicode, fold)
    requires OneJobPerKey(unicode, fold, Preflight.QueueOf(unicode, objects), setting.jobs)
    ensures Unrelated(setting)
    ensures forall w :: 0 <= w < |setting.jobs| ==> setting.jobs[w].dest != []
  {
    var queue := Preflight.QueueOf(unicode, objects);
    Preflight.CleanQueueIsUnrelated(unicode, objects);
    hide Preflight.ErrorsAre, DownloadKeys.ValidateKey, FoldRespectsIdentity;
    forall w | 0 <= w < |queue| ensures setting.jobs[w].dest != [] {
      assert Preflight.IsQueued(unicode, queue[w]);
      DownloadKeys.KeyRoundTrip(unicode, queue[w].key);
    }
    forall v, w | 0 <= v < |queue| && 0 <= w < |queue| && v != w
        ensures !(setting.jobs[v].dest <= setting.jobs[w].dest) {
      assert !Preflight.Related(Preflight.IdsOf(unicode, queue[v]), Preflight.IdsOf(unicode, queue[w]));
      assert Preflight.IsQueued(unicode, queue[v]) && Preflight.IsQueued(unicode, queue[w]);
      if setting.jobs[v].dest <= setting.jobs[w].dest {
        PrefixOnDisk(unicode, fold, ComponentsOf(unicode, queue[v].key), ComponentsOf(unicode, queue[w].key));
      }
    }
  }

  /** The promise of the preflight.  When it returns no errors, then in every interleaving of the
      workers each one whose own calls succeed ends as it would alone, and if no call fails at all the
      tree left behind is always the same one. */
  lemma CleanPreflightIsolatesWorkers(unicode: DownloadKeys.Unicode, fold: string -> Name,
      objects: seq<Preflight.Object>, setting: Setting, tree0: Tree, run: seq<Action>)
    requires Preflight.ErrorsAre(unicode, multiset(objects), map[]) && FoldRespectsIdentity(unicode, fold)
    requires OneJobPerKey(unicode, fold, Preflight.QueueOf(unicode, objects), setting.jobs)
    requires WellFormed(tree0)
    requires forall w, k :: 0 <= w < |setting.jobs| && 0 < k <= |setting.jobs[w].dest| ==>
        !TempPath(setting, setting.jobs[w].dest[..k])
    ensures setting.Valid() && Unrelated(setting)
    ensures var s := Run(setting, Initial(setting, tree0), run);
            && (forall w :: 0 <= w < |setting.jobs| && s.pcs[w].Done? && NeverFails(run, w) ==>
                  s.pcs[w].outcome == Expected(setting, tree0, setting.jobs[w]))
            && ((forall w :: 0 <= w < |setting.jobs| ==> s.pcs[w].Done?)
                && (forall i :: 0 <= i < |run| ==> !run[i].fault) ==>
                  FinalTree(setting, tree0, s.tree))
  {
    CleanPreflightUnrelates(unicode, fold, objects, setting);
    hide Preflight.ErrorsAre, FoldRespectsIdentity, Run, Unrelated, WellFormed, FinalTree, Expected;
    var s := Run(setting, Initial(setting, tree0), run);
    forall w | 0 <= w < |setting.jobs| && s.pcs[w].Done? && NeverFails(run, w)
      ensures s.pcs[w].outcome == Expected(setting, tree0, setting.jobs[w])
    {
      WorkersAreIsolated(setting, tree0, run, w);
    }
    if (forall w :: 0 <= w < |setting.jobs| ==> s.pcs[w].Done?) && (forall i :: 0 <= i < |run| ==> !run[i].fault) {
      RunsAgreeOnTheTree(setting, tree0, run);
    }
  }

  /** Where the file system takes exactly the names of one collision identity for one another, the preflight is
      exact: the workers for the queue are isolated, whatever the objects hold, if and only if no key is in
      conflict and no destination is, or lies below, a path at which some worker may make its temporary file. */
  lemma PreflightIsExact(unicode: DownloadKeys.Unicode, fold: string -> Name, objects: seq<Preflight.Object>,
                         errors: map<string, Preflight.Reason>, dests: seq<Path>, isTemp: Name -> bool)
    requires Preflight.ErrorsAre(unicode, multiset(objects), errors)
    requires forall a, b :: fold(a) == fold(b) <==> unicode.identity(a) == unicode.identity(b)
    requires DestinationsOf(unicode, fold, Preflight.QueueOf(unicode, objects)) == dests && exists name :: isTemp(name)
    ensures Isolated(dests, isTemp) <==>
            (forall key :: key in errors ==> errors[key] != Preflight.NamespaceConflict) && NoneTemporary(dests, isTemp)
  {
    var queue := Preflight.QueueOf(unicode, objects);
    Preflight.NoConflictExactlyWhenUnrelated(unicode, objects, errors);
    hide Preflight.ErrorsAre, DownloadKeys.ValidateKey, Isolated, NoneTemporary, Preflight.Related;
    forall w | 0 <= w < |dests| ensures dests[w] != [] {
      assert Preflight.IsQueued(unicode, queue[w]);
      DownloadKeys.KeyRoundTrip(unicode, queue[w].key);
    }
    forall v, w | 0 <= v < |queue| && 0 <= w < |queue| && v != w
      ensures Preflight.Related(Preflight.IdsOf(unicode, queue[v]), Preflight.IdsOf(unicode, queue[w])) <==>
              dests[v] <= dests[w] || dests[w] <= dests[v]
    {
      RelatedOnDisk(unicode, fold, ComponentsOf(unicode, queue[v].key), ComponentsOf(unicode, queue[w].key));
    }
    IsolatedExactlyWhenApart(dests, isTemp);
  }

  function DestinationsOf(unicode: DownloadKeys.Unicode, fold: string -> Name,
      queue: seq<Preflight.Object>): (dests: seq<Path>)
    ensures |dests| == |queue| && forall i :: 0 <= i < |queue| ==>
        dests[i] == OnDisk(fold, ComponentsOf(unicode, queue[i].key))
  {
    seq(|queue|, i requires 0 <= i < |queue| => OnDisk(fold, ComponentsOf(unicode, queue[i].key)))
  }

  lemma RelatedOnDisk(unicode: DownloadKeys.Unicode, fold: string -> Name, xs: seq<string>, ys: seq<string>)
    requires forall a, b :: fold(a) == fold(b) <==> unicode.identity(a) == unicode.identity(b)
    ensures Preflight.Related(Preflight.Identities(unicode, xs), Preflight.Identities(unicode, ys)) <==>
            OnDisk(fold, xs) <= OnDisk(fold, ys) || OnDisk(fold, ys) <= OnDisk(fold, xs)
  {
    PrefixEitherWay(unicode, fold, xs, ys);
    PrefixEitherWay(unicode, fold, ys, xs);
  }

  lemma PrefixEitherWay(unicode: DownloadKeys.Unicode, fold: string -> Name, xs: seq<string>, ys: seq<string>)
    requires forall a, b :: fold(a) == fold(b) <==> unicode.identity(a) == unicode.identity(b)
    ensures Preflight.Identities(unicode, xs) <= Preflight.Identities(unicode, ys) <==>
        OnDisk(fold, xs) <= OnDisk(fold, ys)
  {
    var ps, qs := OnDisk(fold, xs), OnDisk(fold, ys);
    var ids, jds := Preflight.Identities(unicode, xs), Preflight.Identities(unicode, ys);
    if ps <= qs {
      PrefixOnDisk(unicode, fold, xs, ys);
    }
    if ids <= jds {
      forall i | 0 <= i < |ps| ensures ps[i] == qs[i] {
        assert ids[i] == jds[i];
      }
    }
  }

  /** What is published is the object: accepted bytes other than the ones the metadata was recorded from
      exhibit a collision. */
  lemma PublishedIsTheObject(setting: Setting, w: nat, content: Bytes, original: Bytes,
      origin: DownloadVerification.Origin) returns (x: Bytes, y: Bytes)
    requires w < |setting.jobs| && Accepted(setting, w, content) && content != original
    requires FixedWidth(setting.checks.md5)
    requires DownloadVerification.Honest(setting.checks, setting.jobs[w].head.value, original, origin)
    ensures Collision(if setting.jobs[w].head.value.sha256.Some? then setting.checks.sha256
        else setting.checks.md5, x, y)
    ensures DownloadVerification.HashedFor(setting.checks.md5, content, x)
    ensures DownloadVerification.HashedFor(setting.checks.md5, original, y)
  {
    hide DownloadVerification.Honest, DownloadVerification.Judge;
    x, y := DownloadVerification.VerifiedIsOriginal(setting.checks, content, original, setting.jobs[w].head.value,
        origin);
  }

  // ---------------------------------------------------------------- keys which look like temporary files

  predicate IsTempChar(c: char) {
    'a' <= c <= 'z' || '0' <= c <= '9' || c == '_'
  }

  /** The names `mkstemp` makes: the prefix and eight of its characters. */
  predicate IsTempName(name: string) {
    |name| == 14 && name[..6] == ".s3dl-" && forall i :: 6 <= i < 14 ==> IsTempChar(name[i])
  }

  predicate IsPlainChar(c: char) {
    c != '/' && c != '\\' && c != '\0' && c != ':' && c >= ' ' && c !in DownloadKeys.WINDOWS_INVALID
  }

  lemma AllowedChar(c: char)
    requires IsTempChar(c) || c == '.' || c == '-'
    ensures IsPlainChar(c)
  {
    var invalid := DownloadKeys.WINDOWS_INVALID;
    assert |invalid| == 6;
    assert invalid[0] != c && invalid[1] != c && invalid[2] != c && invalid[3] != c && invalid[4] != c
        && invalid[5] != c;
  }

  lemma TempChars(name: string)
    requires IsTempName(name)
    ensures |name| == 14 && name[0] == '.' && name[13] != '.' && name[13] != ' '
    ensures forall i :: 0 <= i < |name| ==> IsPlainChar(name[i])
  {
    assert name[0] == name[..6][0];
    forall i | 0 <= i < |name| ensures IsPlainChar(name[i]) {
      if i < 6 {
        assert name[i] == ".s3dl-"[i];
      }
      AllowedChar(name[i]);
    }
  }

  /** Key validation accepts the names of temporary files. */
  lemma TempNameIsAccepted(unicode: DownloadKeys.Unicode, name: string)
    requires IsTempName(name) && unicode.upper("") == ""
    ensures DownloadKeys.ComponentError(unicode, name) == None
    ensures '/' !in name && '\\' !in name && '\0' !in name
  {
    hide IsTempName;
    TempChars(name);
    NothingBeforeDot(name);
  }

  lemma NothingBeforeDot(name: string)
    requires name != "" && name[0] == '.'
    ensures StripRight(Split(name, '.')[0], ' ') == ""
  {
    SplitFirst("", name[1..], '.');
    assert name == "" + "." + name[1..];
  }

  lemma PlainIsAccepted(unicode: DownloadKeys.Unicode, c: string)
    requires (c == "a" && unicode.upper(c) == "A") || (c == "b" && unicode.upper(c) == "B")
    ensures DownloadKeys.ComponentError(unicode, c) == None
  {
    SplitWhole(c, '.');
    assert StripRight(c, ' ') == c;
  }

  lemma NoErrorInOne(unicode: DownloadKeys.Unicode, c: string)
    requires DownloadKeys.ComponentError(unicode, c) == None
    ensures DownloadKeys.FirstError(unicode, [c]) == None
  {
    assert [c][1..] == [];
  }

  lemma NoErrorInTwo(unicode: DownloadKeys.Unicode, c: string, d: string)
    requires DownloadKeys.ComponentError(unicode, c) == None && DownloadKeys.ComponentError(unicode, d) == None
    ensures DownloadKeys.FirstError(unicode, [c, d]) == None
  {
    NoErrorInOne(unicode, d);
    assert [c, d][1..] == [d];
  }

  lemma KeysAreAccepted(unicode: DownloadKeys.Unicode, name: string)
    requires IsTempName(name) && unicode.upper("") == "" && unicode.upper("a") == "A" && unicode.upper("b") == "B"
    ensures DownloadKeys.ValidateKey(unicode, name + "/b") == Ok(([name, "b"], false))
    ensures DownloadKeys.ValidateKey(unicode, "a") == Ok((["a"], false))
  {
    hide IsTempName, DownloadKeys.ComponentError, DownloadKeys.FirstError;
    TempNameIsAccepted(unicode, name);
    PlainIsAccepted(unicode, "a");
    PlainIsAccepted(unicode, "b");
    SplitFirst(name, "b", '/');
    SplitWhole("b", '/');
    SplitWhole("a", '/');
    assert name + "/" + "b" == name + "/b" && [name] + ["b"] == [name, "b"];
    NoErrorInTwo(unicode, name, "b");
    NoErrorInOne(unicode, "a");
  }

  function TempPair(name: string): seq<Preflight.Object> {
    [Preflight.Object(name + "/b", 0), Preflight.Object("a", 0)]
  }

  function TempDestinations(name: string): (dests: seq<Path>)
    ensures forall w :: 0 <= w < |dests| ==> dests[w] != []
  {
    [[name, "b"], ["a"]]
  }

  /** The two objects pass the preflight. */
  lemma TempPairPasses(unicode: DownloadKeys.Unicode, name: string)
    requires IsTempName(name) && unicode.upper("") == "" && unicode.upper("a") == "A" && unicode.upper("b") == "B"
    requires unicode.identity(name) != unicode.identity("a")
    ensures Preflight.ErrorsAre(unicode, multiset(TempPair(name)), map[])
    ensures Preflight.QueueOf(unicode, TempPair(name)) == TempPair(name)
    ensures DestinationsOf(unicode, n => n, TempPair(name)) == TempDestinations(name)
  {
    hide IsTempName, DownloadKeys.ValidateKey, Preflight.ErrorsAre, Preflight.QueueOf;
    KeysAreAccepted(unicode, name);
    PairPasses(unicode, TempPair(name)[0], TempPair(name)[1], [name, "b"], ["a"]);
    var dests := DestinationsOf(unicode, n => n, TempPair(name));
    assert dests[0] == [name, "b"] && dests[1] == ["a"];
  }

  /** The two objects pass the preflight, and still one worker can fail on the temporary file of the other: a folder
      of the first key has a name `mkstemp` may return, and the second key puts its temporary file beside that
      folder. */
  lemma CleanPreflightIsNotEnough(unicode: DownloadKeys.Unicode, name: string) returns (run: seq<Action>)
    requires IsTempName(name) && unicode.upper("") == "" && unicode.upper("a") == "A" && unicode.upper("b") == "B"
    requires unicode.identity(name) != unicode.identity("a")
    ensures Preflight.ErrorsAre(unicode, multiset(TempPair(name)), map[])
    ensures Preflight.QueueOf(unicode, TempPair(name)) == TempPair(name)
    ensures DestinationsOf(unicode, n => n, TempPair(name)) == TempDestinations(name)
    ensures Disturbed(EmptyObjects(TempDestinations(name), IsTempName), Above(["a"]), run, 0)
  {
    hide IsTempName, DownloadKeys.ValidateKey, Disturbed, EmptyObjects, Above, Preflight.ErrorsAre, Preflight.QueueOf,
         TempOf;
    TempPairPasses(unicode, name);
    BesideFolder(name);
    run := TemporaryNamesInterfere(TempDestinations(name), IsTempName, 1, 0, 1);
  }

  lemma BesideFolder(name: string)
    requires IsTempName(name)
    ensures TempOf(["a"], [name, "b"][..1], IsTempName)
  {
    hide IsTempName;
    assert [name, "b"][..1] == [name] && Parent([name]) == [] == Parent(["a"]);
  }

  lemma QueueOfTwo(unicode: DownloadKeys.Unicode, first: Preflight.Object, second: Preflight.Object)
    requires Preflight.IsQueued(unicode, first) && Preflight.IsQueued(unicode, second)
    ensures Preflight.QueueOf(unicode, [first, second]) == [first, second]
  {
    hide Preflight.IsQueued, Preflight.QueueOf;
    Preflight.EmptyListing(unicode);
    Preflight.ListOne(unicode, [], first);
    Preflight.ListOne(unicode, [first], second);
    assert [] + [first] == [first] && [first] + [second] == [first, second];
  }

  lemma PairPasses(unicode: DownloadKeys.Unicode, first: Preflight.Object, second: Preflight.Object, xs: seq<string>,
      ys: seq<string>)
    requires DownloadKeys.ValidateKey(unicode, first.key) == Ok((xs, false))
        && DownloadKeys.ValidateKey(unicode, second.key) == Ok((ys, false))
    requires xs != [] && ys != [] && unicode.identity(xs[0]) != unicode.identity(ys[0])
    ensures Preflight.ErrorsAre(unicode, multiset([first, second]), map[])
        && Preflight.QueueOf(unicode, [first, second]) == [first, second]
  {
    hide DownloadKeys.ValidateKey;
    var xids, yids := Preflight.IdsOf(unicode, first), Preflight.IdsOf(unicode, second);
    assert xids[0] == unicode.identity(xs[0]) && yids[0] == unicode.identity(ys[0]);
    assert !Preflight.Related(xids, yids) && !Preflight.Related(yids, xids);
    assert Preflight.IsQueued(unicode, first) && !Preflight.RejectedAlone(unicode, first);
    assert Preflight.IsQueued(unicode, second) && !Preflight.RejectedAlone(unicode, second);
    hide Preflight.Related, Preflight.IsQueued, Preflight.RejectedAlone, Preflight.IdsOf;
    QueueOfTwo(unicode, first, second);
    NothingFails(unicode, first, second);
  }

  lemma NothingFails(unicode: DownloadKeys.Unicode, first: Preflight.Object, second: Preflight.Object)
    requires first != second && !Preflight.RejectedAlone(unicode, first) && !Preflight.RejectedAlone(unicode, second)
    requires !Preflight.Clash(unicode, first, second) && !Preflight.Clash(unicode, second, first)
    ensures Preflight.ErrorsAre(unicode, multiset([first, second]), map[])
  {
    hide Preflight.Clash, Preflight.RejectedAlone;
    assert multiset([first, second]) == multiset{first, second};
    forall key ensures !Preflight.Fails(unicode, multiset([first, second]), key) {
      forall o, other | multiset{o, other} <= multiset{first, second} ensures !Preflight.Clash(unicode, o, other) {
        PairIsBoth(first, second, o, other);
      }
    }
  }

  lemma PairIsBoth<T>(x: T, y: T, o: T, other: T)
    requires x != y && multiset{o, other} <= multiset{x, y}
    ensures (o == x && other == y) || (o == y && other == x)
  {
    assert o in multiset{o, other} && other in multiset{o, other};
    assert multiset{o, other}[o] <= multiset{x, y}[o];
  }
}
