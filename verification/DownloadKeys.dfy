/** Parsing S3 keys and mapping them below a download root (scripts/s3_manage.py). */
module DownloadKeys {
  import opened Wrappers
  import opened Sequences

  datatype KeyError =
    | EmptyKey
    | ContainsNul
    | ContainsBackslash
    | NoComponents
    | EmptyComponent
    | DotComponent
    | ContainsColon
    | EndsWithDotOrSpace
    | InvalidCharacter
    | ReservedName

  /** The Unicode operations of the interpreter: upper-casing, and the collision identity of a
      component (decomposition and case folding). */
  datatype Unicode = Unicode(upper: string -> string, identity: string -> string)

  const DEVICE_NAMES: set<string> := {"CON", "PRN", "AUX", "NUL", "CONIN$", "CONOUT$"}
  const DEVICE_PORTS: set<string> := {"COM", "LPT"}
  const PORT_DIGITS: string := "123456789\U{B9}\U{B2}\U{B3}"
  const WINDOWS_INVALID: string := "<>\"|?*"

  predicate IsReserved(name: string) {
    name in DEVICE_NAMES || (|name| == 4 && name[..3] in DEVICE_PORTS && name[3] in PORT_DIGITS)
  }

  function ComponentError(unicode: Unicode, c: string): Option<KeyError> {
    if c == "" then Some(EmptyComponent)
    else if c == "." || c == ".." then Some(DotComponent)
    else if ':' in c then Some(ContainsColon)
    else if c[|c| - 1] == '.' || c[|c| - 1] == ' ' then Some(EndsWithDotOrSpace)
    else if exists i :: 0 <= i < |c| && (c[i] < ' ' || c[i] in WINDOWS_INVALID) then Some(InvalidCharacter)
    else if IsReserved(unicode.upper(StripRight(Split(c, '.')[0], ' '))) then Some(ReservedName)
    else None
  }

  function FirstError(unicode: Unicode, components: seq<string>): Option<KeyError> {
    if components == [] then None
    else
      var here := ComponentError(unicode, components[0]);
      if here.Some? then here else FirstError(unicode, components[1..])
  }

  /** The components of a key, and whether it is a folder marker. */
  function ValidateKey(unicode: Unicode, key: string): Result<(seq<string>, bool), KeyError> {
    if key == "" then Err(EmptyKey)
    else if '\0' in key then Err(ContainsNul)
    else if '\\' in key then Err(ContainsBackslash)
    else
      var parts := Split(key, '/');
      var isMarker := parts[|parts| - 1] == "";
      var components := if isMarker then parts[..|parts| - 1] else parts;
      if components == [] then Err(NoComponents)
      else
        match FirstError(unicode, components)
        case Some(error) => Err(error)
        case None => Ok((components, isMarker))
  }

  // ---------------------------------------------------------------- which keys are accepted

  const PORT_CHARS: set<char> := {'1', '2', '3', '4', '5', '6', '7', '8', '9', '\U{B9}', '\U{B2}', '\U{B3}'}

  /** A device name, or a serial or parallel port with a digit, superscript ones included. */
  predicate IsDevice(name: string) {
    || name in {"CON", "PRN", "AUX", "NUL", "CONIN$", "CONOUT$"}
    || (|name| == 4 && (name[..3] == "COM" || name[..3] == "LPT") && name[3] in PORT_CHARS)
  }

  lemma ReservedMeans(name: string)
    ensures IsReserved(name) <==> IsDevice(name)
  {
    if |name| == 4 {
      PortMeans(name[3]);
    }
  }

  lemma PortMeans(c: char)
    ensures c in PORT_DIGITS <==> c in PORT_CHARS
  {
    var s := PORT_DIGITS;
    assert |s| == 12 && s[0] == '1' && s[1] == '2' && s[2] == '3' && s[3] == '4' && s[4] == '5' && s[5] == '6';
    assert s[6] == '7' && s[7] == '8' && s[8] == '9' && s[9] == '\U{B9}' && s[10] == '\U{B2}' && s[11] == '\U{B3}';
  }

  /** The name in front of the first full stop, without the spaces at its end. */
  ghost predicate IsBaseName(c: string, base: string) {
    exists k: nat :: EndsBefore(c, base, k)
  }

  ghost predicate EndsBefore(c: string, base: string, k: nat) {
    && |base| <= k <= |c| && (k == |c| || c[k] == '.') && '.' !in c[..k]
    && c[..|base|] == base && (base == "" || base[|base| - 1] != ' ')
    && forall i :: |base| <= i < k ==> c[i] == ' '
  }

  lemma {:induction false} FirstPart(c: string)
    ensures var part := Split(c, '.')[0]; part <= c && '.' !in part && (|part| == |c| || c[|part|] == '.')
  {
    if c == "" || c[0] == '.' {
    } else {
      FirstPart(c[1..]);
      var part, rest := Split(c, '.')[0], Split(c[1..], '.')[0];
      assert part == [c[0]] + rest;
      assert c == [c[0]] + c[1..];
    }
  }

  lemma {:induction false} StripMeans(s: string)
    ensures var base := StripRight(s, ' ');
            && base <= s && (base == "" || base[|base| - 1] != ' ') && forall i :: |base| <= i < |s| ==> s[i] == ' '
  {
    if s == "" || s[|s| - 1] != ' ' {
    } else {
      StripMeans(s[..|s| - 1]);
    }
  }

  lemma BaseMeans(c: string)
    ensures IsBaseName(c, StripRight(Split(c, '.')[0], ' '))
  {
    hide Split, StripRight;
    FirstPart(c);
    var part := Split(c, '.')[0];
    StripMeans(part);
    assert c[..|part|] == part;
    assert forall i :: 0 <= i < |part| ==> c[i] == part[i];
    assert EndsBefore(c, StripRight(part, ' '), |part|);
  }

  lemma DotWithin(c: string, k: nat, l: nat)
    ensures k < l <= |c| && c[k] == '.' ==> '.' in c[..l]
  {
    if k < l <= |c| {
      assert c[..l][k] == c[k];
    }
  }

  lemma LongerEndsInSpace(c: string, base: string, other: string, k: nat)
    ensures EndsBefore(c, base, k) && |base| < |other| <= k && c[..|other|] == other ==> other[|other| - 1] == ' '
  {
    if EndsBefore(c, base, k) && |base| < |other| <= k {
      assert c[..|other|][|other| - 1] == c[|other| - 1];
    }
  }

  lemma BaseIsUnique(c: string, base: string, other: string)
    requires IsBaseName(c, base) && IsBaseName(c, other)
    ensures base == other
  {
    var k: nat :| EndsBefore(c, base, k);
    var l: nat :| EndsBefore(c, other, l);
    DotWithin(c, k, l);
    DotWithin(c, l, k);
    assert k == l;
    LongerEndsInSpace(c, base, other, k);
    LongerEndsInSpace(c, other, base, k);
    assert |base| == |other|;
  }

  /** A component which is accepted. */
  ghost predicate Acceptable(unicode: Unicode, c: string) {
    && c != "" && c != "." && c != ".."
    && c[|c| - 1] != '.' && c[|c| - 1] != ' '
    && (forall i :: 0 <= i < |c| ==>
          c[i] as int >= 32 && c[i] !in {':', '<', '>', '"', '|', '?', '*'})
    && forall base :: IsBaseName(c, base) ==> !IsDevice(unicode.upper(base))
  }

  lemma ComponentMeans(unicode: Unicode, c: string)
    ensures ComponentError(unicode, c) == None <==> Acceptable(unicode, c)
  {
    var base := StripRight(Split(c, '.')[0], ' ');
    BaseMeans(c);
    hide Split, StripRight, IsBaseName, IsReserved, IsDevice;
    ReservedMeans(unicode.upper(base));
    forall other | IsBaseName(c, other) ensures other == base {
      BaseIsUnique(c, base, other);
    }
    forall i | 0 <= i < |c| ensures c[i] in WINDOWS_INVALID <==> c[i] in {'<', '>', '"', '|', '?', '*'} {
      InvalidChars(c[i]);
    }
  }

  lemma InvalidChars(c: char)
    ensures c in WINDOWS_INVALID <==> c in {'<', '>', '"', '|', '?', '*'}
  {
    var s := WINDOWS_INVALID;
    assert |s| == 6 && s[0] == '<' && s[1] == '>' && s[2] == '"' && s[3] == '|' && s[4] == '?' && s[5] == '*';
  }

  /** Which complaint a component draws. */
  lemma ComponentErrorsMean(unicode: Unicode, c: string)
    ensures var e := ComponentError(unicode, c);
            var spelled := c !in {"", ".", ".."} && ':' !in c;
            var ended := spelled && c[|c| - 1] !in {'.', ' '};
            && (e == Some(EmptyComponent) <==> c == "")
            && (e == Some(DotComponent) <==> c == "." || c == "..")
            && (e == Some(ContainsColon) <==> ':' in c)
            && (e == Some(EndsWithDotOrSpace) <==> spelled && !ended)
            && (e == Some(InvalidCharacter) <==> ended && HasInvalid(c))
            && (e == Some(ReservedName) <==>
                  ended && !HasInvalid(c) && exists base :: IsBaseName(c, base) && IsDevice(unicode.upper(base)))
  {
    var base := StripRight(Split(c, '.')[0], ' ');
    BaseMeans(c);
    ReservedMeans(unicode.upper(base));
    hide Split, StripRight, IsBaseName, IsReserved, IsDevice;
    forall other | IsBaseName(c, other) ensures other == base {
      BaseIsUnique(c, base, other);
    }
    forall x: char ensures x in WINDOWS_INVALID <==> x in {'<', '>', '"', '|', '?', '*'} {
      InvalidChars(x);
    }
  }

  /** A control character, or one which Windows does not allow. */
  predicate HasInvalid(c: string) {
    exists i :: 0 <= i < |c| && (c[i] as int < 32 || c[i] in {'<', '>', '"', '|', '?', '*'})
  }

  /** A path component which no lexical normalization touches. */
  predicate Normal(c: string) {
    c != "" && c != "." && c != ".." && '/' !in c
  }

  lemma {:induction false} AcceptedComponents(unicode: Unicode, components: seq<string>)
    requires FirstError(unicode, components).None?
    ensures forall c :: c in components ==> ComponentError(unicode, c).None?
  {
    if components == [] {
    } else {
      AcceptedComponents(unicode, components[1..]);
      assert components == [components[0]] + components[1..];
    }
  }

  lemma {:induction false} JoinAppendEmpty(parts: seq<string>)
    requires parts != []
    ensures Join(parts + [""], '/') == Join(parts, '/') + "/"
  {
    var all := parts + [""];
    if |parts| == 1 {
      assert all[1..] == [""];
      assert Join([""], '/') == "";
    } else {
      JoinAppendEmpty(parts[1..]);
      assert all[1..] == parts[1..] + [""];
    }
  }

  /** Round trip: the accepted components, with a slash for a marker, spell the key. */
  lemma KeyRoundTrip(unicode: Unicode, key: string)
    requires ValidateKey(unicode, key).Ok?
    ensures var (components, isMarker) := ValidateKey(unicode, key).value;
            && components != []
            && (forall c :: c in components ==> Normal(c) && ':' !in c)
            && Join(components, '/') + (if isMarker then "/" else "") == key
  {
    hide ComponentError, Join, Split;
    var parts := Split(key, '/');
    var (components, isMarker) := ValidateKey(unicode, key).value;
    JoinOfSplit(key, '/');
    AcceptedComponents(unicode, components);
    forall c | c in components ensures Normal(c) && ':' !in c {
      ComponentIsNormal(unicode, c);
      assert c in parts;
    }
    if isMarker {
      assert parts == components + [""];
      JoinAppendEmpty(components);
    }
  }

  lemma ComponentIsNormal(unicode: Unicode, c: string)
    requires ComponentError(unicode, c).None?
    ensures c != "" && c != "." && c != ".." && ':' !in c
  {
  }

  /** Different accepted keys of one kind have different components. */
  lemma KeysAreInjective(unicode: Unicode, key: string, other: string)
    requires ValidateKey(unicode, key).Ok? && ValidateKey(unicode, other) == ValidateKey(unicode, key)
    ensures key == other
  {
    KeyRoundTrip(unicode, key);
    KeyRoundTrip(unicode, other);
  }

  // ---------------------------------------------------------------- POSIX paths

  /** Removes empty and '.' components and resolves '..', below a root which absorbs the excess. */
  function Reduce(parts: seq<string>, kept: seq<string>): seq<string>
    decreases |parts|
  {
    if parts == [] then kept
    else if parts[0] == "" || parts[0] == "." then Reduce(parts[1..], kept)
    else if parts[0] != ".." then Reduce(parts[1..], kept + [parts[0]])
    else if kept != [] then Reduce(parts[1..], kept[..|kept| - 1])
    else Reduce(parts[1..], kept)
  }

  /** `os.path.normpath` of an absolute path.  Exactly two leading slashes are kept. */
  function NormPath(path: string): string
    requires |path| > 0 && path[0] == '/'
  {
    var slashes := if |path| >= 2 && path[1] == '/' && !(|path| >= 3 && path[2] == '/') then "//" else "/";
    slashes + Join(Reduce(Split(path, '/'), []), '/')
  }

  /** `os.path.join(path, *components)`. */
  function JoinPath(path: string, components: seq<string>): string
    decreases |components|
  {
    if components == [] then path
    else
      var c := components[0];
      var next := if |c| > 0 && c[0] == '/' then c
                  else if path == "" || path[|path| - 1] == '/' then path + c
                  else path + "/" + c;
      JoinPath(next, components[1..])
  }

  function CommonPrefix(xs: seq<string>, ys: seq<string>): seq<string> {
    if xs == [] || ys == [] || xs[0] != ys[0] then [] else [xs[0]] + CommonPrefix(xs[1..], ys[1..])
  }

  function DropEmpty(parts: seq<string>): seq<string> {
    if parts == [] then []
    else (if parts[0] == "" || parts[0] == "." then [] else [parts[0]]) + DropEmpty(parts[1..])
  }

  /** `os.path.commonpath` of two absolute paths. */
  function CommonPath(x: string, y: string): string {
    "/" + Join(CommonPrefix(DropEmpty(Split(x, '/')), DropEmpty(Split(y, '/'))), '/')
  }

  /** The destination of a key below the root, or nothing where the tool refuses it. */
  function ResolveDownloadPath(root: string, components: seq<string>): Option<string>
    requires |root| > 0 && root[0] == '/'
  {
    var base := NormPath(root);
    var joined := JoinPath(base, components);
    if joined == "" || joined[0] != '/' then None
    else
      var dest := NormPath(joined);
      if CommonPath(base, dest) != base || dest == base then None else Some(dest)
  }

  /** An absolute path in normal form. */
  function Absolute(names: seq<string>): string {
    "/" + Join(names, '/')
  }

  ghost predicate AllNormal(names: seq<string>) {
    forall name :: name in names ==> Normal(name)
  }

  lemma {:induction false} ReduceKeeps(parts: seq<string>, kept: seq<string>)
    requires AllNormal(parts)
    ensures Reduce(parts, kept) == kept + parts
    decreases |parts|
  {
    if parts == [] {
      assert kept + parts == kept;
    } else {
      assert parts == [parts[0]] + parts[1..];
      assert Normal(parts[0]) && AllNormal(parts[1..]);
      assert kept + [parts[0]] + parts[1..] == kept + parts;
      ReduceKeeps(parts[1..], kept + [parts[0]]);
    }
  }

  lemma {:induction false} DropKeeps(parts: seq<string>)
    requires AllNormal(parts)
    ensures DropEmpty(parts) == parts
  {
    if parts == [] {
    } else {
      assert parts == [parts[0]] + parts[1..];
      assert Normal(parts[0]) && AllNormal(parts[1..]);
      DropKeeps(parts[1..]);
    }
  }

  lemma SplitAbsolute(names: seq<string>)
    requires AllNormal(names)
    ensures Split(Absolute(names), '/') == [""] + if names == [] then [""] else names
  {
    assert Absolute(names)[1..] == Join(names, '/');
    if names == [] {
      SplitWhole("", '/');
    } else {
      SplitOfJoin(names, '/');
    }
  }

  lemma FirstOfJoin(names: seq<string>)
    requires AllNormal(names) && names != []
    ensures |Join(names, '/')| > 0 && Join(names, '/')[0] != '/'
  {
    assert names[0] in names;
    assert names[0][0] != '/';
    assert Join(names, '/')[0] == names[0][0];
  }

  lemma NormalIsFixed(names: seq<string>)
    requires AllNormal(names)
    ensures NormPath(Absolute(names)) == Absolute(names)
    ensures DropEmpty(Split(Absolute(names), '/')) == names
  {
    hide Split, Join, Normal;
    SplitAbsolute(names);
    DropKeeps(names);
    ReduceKeeps(names, []);
    if names == [] {
      assert Split(Absolute(names), '/') == ["", ""];
      assert ["", ""][1..] == [""] && [""][1..] == [];
      assert Join([], '/') == "" by { EmptyJoin(); }
    } else {
      FirstOfJoin(names);
      assert ([""] + names)[1..] == names;
      assert [] + names == names;
    }
  }

  lemma EmptyJoin()
    ensures Join<char>([], '/') == ""
  {
  }

  lemma {:induction false} JoinPathAppends(names: seq<string>, components: seq<string>)
    requires AllNormal(names) && AllNormal(components)
    ensures JoinPath(Absolute(names), components) == Absolute(names + components)
    decreases |components|
  {
    hide Join;
    if components == [] {
      assert names + components == names;
    } else {
      var c := components[0];
      assert components == [c] + components[1..];
      assert c in components;
      assert forall name :: name in names + [c] ==> Normal(name);
      LastOfAbsolute(names, c);
      JoinPathAppends(names + [c], components[1..]);
      assert names + [c] + components[1..] == names + components;
    }
  }

  lemma LastOfAbsolute(names: seq<string>, c: string)
    requires AllNormal(names)
    ensures |Absolute(names)| > 0
    ensures Absolute(names)[|Absolute(names)| - 1] == '/' <==> names == []
    ensures Absolute(names + [c]) == if names == [] then Absolute(names) + c else Absolute(names) + "/" + c
  {
    if names == [] {
      EmptyJoin();
      assert Join([c], '/') == c;
      assert names + [c] == [c];
    } else {
      JoinEnds(names, c);
    }
  }

  lemma {:induction false} JoinEnds(names: seq<string>, c: string)
    requires AllNormal(names) && names != []
    ensures |Join(names, '/')| > 0 && Join(names, '/')[|Join(names, '/')| - 1] != '/'
    ensures Join(names + [c], '/') == Join(names, '/') + "/" + c
  {
    var all := names + [c];
    assert names[0] in names;
    if |names| == 1 {
      assert all[1..] == [c];
      assert Join([c], '/') == c;
    } else {
      JoinEnds(names[1..], c);
      assert all[1..] == names[1..] + [c];
    }
  }

  lemma {:induction false} CommonPrefixOfExtension(xs: seq<string>, ys: seq<string>)
    ensures CommonPrefix(xs, xs + ys) == xs
  {
    if xs == [] {
    } else {
      CommonPrefixOfExtension(xs[1..], ys);
      assert (xs + ys)[1..] == xs[1..] + ys;
    }
  }

  lemma AbsoluteInjective(xs: seq<string>, ys: seq<string>)
    requires AllNormal(xs) && AllNormal(ys)
    ensures Absolute(xs) == Absolute(ys) ==> xs == ys
  {
    NormalIsFixed(xs);
    NormalIsFixed(ys);
  }

  lemma CancelPrefix(p: seq<string>, xs: seq<string>, ys: seq<string>)
    ensures p + xs == p + ys ==> xs == ys
  {
    assert xs == (p + xs)[|p|..] && ys == (p + ys)[|p|..];
  }

  /** Containment: an accepted key is never refused, its destination is the root path extended by
      exactly its components, and that is already in normal form. */
  lemma AcceptedKeyIsContained(unicode: Unicode, rootNames: seq<string>, key: string)
    requires AllNormal(rootNames) && ValidateKey(unicode, key).Ok?
    ensures var components := ValidateKey(unicode, key).value.0;
            var dest := Absolute(rootNames + components);
            && ResolveDownloadPath(Absolute(rootNames), components) == Some(dest)
            && NormPath(dest) == dest
  {
    hide Join, Split, ValidateKey, NormPath, Normal;
    KeyRoundTrip(unicode, key);
    var components := ValidateKey(unicode, key).value.0;
    var names := rootNames + components;
    assert AllNormal(names);
    NormalIsFixed(rootNames);
    NormalIsFixed(names);
    JoinPathAppends(rootNames, components);
    CommonPrefixOfExtension(rootNames, components);
    AbsoluteInjective(names, rootNames);
  }

  /** Distinct accepted file keys get distinct destinations. */
  lemma DestinationsAreDistinct(unicode: Unicode, rootNames: seq<string>, key: string, other: string)
    requires AllNormal(rootNames) && key != other
    requires ValidateKey(unicode, key).Ok? && !ValidateKey(unicode, key).value.1
    requires ValidateKey(unicode, other).Ok? && !ValidateKey(unicode, other).value.1
    ensures ResolveDownloadPath(Absolute(rootNames), ValidateKey(unicode, key).value.0)
         != ResolveDownloadPath(Absolute(rootNames), ValidateKey(unicode, other).value.0)
  {
    hide Join, Split, ValidateKey, ResolveDownloadPath, Normal;
    AcceptedKeyIsContained(unicode, rootNames, key);
    AcceptedKeyIsContained(unicode, rootNames, other);
    var xs, ys := ValidateKey(unicode, key).value.0, ValidateKey(unicode, other).value.0;
    KeyRoundTrip(unicode, key);
    KeyRoundTrip(unicode, other);
    assert AllNormal(rootNames + xs) && AllNormal(rootNames + ys);
    AbsoluteInjective(rootNames + xs, rootNames + ys);
    CancelPrefix(rootNames, xs, ys);
  }

  // ---------------------------------------------------------------- any components

  /** The names on a path, `..` resolved. */
  function PathNames(path: string): seq<string> {
    Reduce(Split(path, '/'), [])
  }

  /** Exactly two slashes in front. */
  predicate TwoSlashes(path: string) {
    |path| >= 2 && path[0] == '/' && path[1] == '/' && (|path| == 2 || path[2] != '/')
  }

  /** How the last part of a path acts on the names in front of it. */
  lemma {:induction false} ReduceLast(parts: seq<string>, part: string, kept: seq<string>)
    ensures var names := Reduce(parts, kept);
            Reduce(parts + [part], kept) ==
            if part == "" || part == "." then names
            else if part != ".." then names + [part]
            else if names != [] then names[..|names| - 1]
            else []
    decreases |parts|
  {
    var all := parts + [part];
    if parts == [] {
      assert all[1..] == [];
    } else {
      assert all[1..] == parts[1..] + [part];
      ReduceLast(parts[1..], part, if parts[0] == "" || parts[0] == "." then kept
                                   else if parts[0] != ".." then kept + [parts[0]]
                                   else if kept != [] then kept[..|kept| - 1]
                                   else kept);
    }
  }

  lemma {:induction false} ReduceIsNormal(parts: seq<string>, kept: seq<string>)
    requires AllNormal(kept) && forall part :: part in parts ==> '/' !in part
    ensures AllNormal(Reduce(parts, kept))
    decreases |parts|
  {
    if parts == [] {
    } else {
      assert parts[0] in parts;
      if parts[0] == "" || parts[0] == "." {
        ReduceIsNormal(parts[1..], kept);
      } else if parts[0] != ".." {
        ReduceIsNormal(parts[1..], kept + [parts[0]]);
      } else if kept != [] {
        ReduceIsNormal(parts[1..], kept[..|kept| - 1]);
      } else {
        ReduceIsNormal(parts[1..], kept);
      }
    }
  }

  /** A normal form is an absolute path of normal names, with one more slash where the path has exactly two in front. */
  lemma NormPathMeans(path: string)
    requires |path| > 0 && path[0] == '/'
    ensures AllNormal(PathNames(path))
    ensures NormPath(path) == (if TwoSlashes(path) then "/" else "") + Absolute(PathNames(path))
    ensures DropEmpty(Split(NormPath(path), '/')) == PathNames(path)
  {
    ReduceIsNormal(Split(path, '/'), []);
    var names := PathNames(path);
    NormalIsFixed(names);
    hide Split, Join, Reduce, PathNames, AllNormal;
    if TwoSlashes(path) {
      assert NormPath(path) == "/" + Absolute(names);
      SplitAtFront(Absolute(names), '/');
      var parts := Split(Absolute(names), '/');
      assert ([""] + parts)[1..] == parts;
    }
  }

  lemma SplitAtFront(text: string, sep: char)
    ensures Split([sep] + text, sep) == [""] + Split(text, sep)
  {
    assert ([sep] + text)[1..] == text;
  }

  lemma {:induction false} CommonPrefixIsFirst(xs: seq<string>, ys: seq<string>)
    ensures CommonPrefix(xs, ys) <= xs
    ensures CommonPrefix(xs, ys) == xs <==> xs <= ys
  {
    if xs == [] || ys == [] || xs[0] != ys[0] {
    } else {
      CommonPrefixIsFirst(xs[1..], ys[1..]);
      assert xs == [xs[0]] + xs[1..] && ys == [ys[0]] + ys[1..];
    }
  }

  lemma {:induction false} JoinPathIsAbsolute(path: string, components: seq<string>)
    requires |path| > 0 && path[0] == '/'
    ensures |JoinPath(path, components)| > 0 && JoinPath(path, components)[0] == '/'
    decreases |components|
  {
    if components == [] {
    } else {
      var c := components[0];
      JoinPathIsAbsolute(if |c| > 0 && c[0] == '/' then c
                         else if path[|path| - 1] == '/' then path + c
                         else path + "/" + c, components[1..]);
    }
  }

  /** Which components are resolved, accepted or not: the names of the root are in front of the names of the result.
      The root itself is never the result, except in the spelling with two slashes. */
  lemma ResolveMeans(root: string, components: seq<string>, dest: string)
    requires |root| > 0 && root[0] == '/'
    ensures var joined := JoinPath(NormPath(root), components);
            && |joined| > 0 && joined[0] == '/'
            && (ResolveDownloadPath(root, components) == Some(dest) <==>
                  && !TwoSlashes(root)
                  && PathNames(root) <= PathNames(joined)
                  && (PathNames(root) != PathNames(joined) || TwoSlashes(joined))
                  && dest == NormPath(joined))
  {
    var base := NormPath(root);
    var joined := JoinPath(base, components);
    JoinPathIsAbsolute(base, components);
    NormPathMeans(root);
    NormPathMeans(joined);
    var names, more := PathNames(root), PathNames(joined);
    CommonPrefixIsFirst(names, more);
    SameSpelling(names, more, TwoSlashes(joined));
    PrefixIsNormal(names, more);
    SameSpelling(CommonPrefix(names, more), names, TwoSlashes(root));
    hide Split, Join, NormPath, TwoSlashes, Absolute, PathNames, JoinPath, CommonPrefix, AllNormal;
  }

  lemma PrefixIsNormal(xs: seq<string>, ys: seq<string>)
    requires AllNormal(xs)
    ensures AllNormal(CommonPrefix(xs, ys))
  {
    CommonPrefixIsFirst(xs, ys);
    hide CommonPrefix, Normal;
  }

  /** Spellings with different numbers of slashes in front differ. */
  lemma SameSpelling(xs: seq<string>, ys: seq<string>, two: bool)
    requires AllNormal(xs) && AllNormal(ys)
    ensures Absolute(xs) == (if two then "/" else "") + Absolute(ys) <==> xs == ys && !two
  {
    AbsoluteInjective(xs, ys);
    hide Join, Normal;
    if two {
      var x, y := Absolute(xs), "/" + Absolute(ys);
      assert y[1] == '/' && y[0] == '/';
      if xs == [] {
        EmptyJoin();
        assert |x| == 1;
      } else {
        FirstOfJoin(xs);
        assert x[1] == Join(xs, '/')[0];
      }
    }
  }

  lemma {:induction false} NoErrorMeans(unicode: Unicode, components: seq<string>)
    ensures FirstError(unicode, components) == None <==> forall c :: c in components ==> Acceptable(unicode, c)
  {
    hide ComponentError, Acceptable;
    if components == [] {
    } else {
      NoErrorMeans(unicode, components[1..]);
      ComponentMeans(unicode, components[0]);
      assert components == [components[0]] + components[1..];
    }
  }

  /** A key is accepted, with these components and as a folder marker or not, exactly when the components are acceptable
      and spell it, and it holds no backslash. */
  lemma ValidateMeans(unicode: Unicode, key: string, components: seq<string>, isMarker: bool)
    ensures ValidateKey(unicode, key) == Ok((components, isMarker)) <==>
            && components != [] && '\\' !in key
            && (forall c :: c in components ==> '/' !in c && Acceptable(unicode, c))
            && key == Join(components, '/') + if isMarker then "/" else ""
  {
    hide ComponentError, Acceptable, Join, Split, FirstError;
    NoErrorMeans(unicode, components);
    if ValidateKey(unicode, key) == Ok((components, isMarker)) {
      KeyRoundTrip(unicode, key);
      forall c | c in components ensures '/' !in c {
        assert Normal(c);
      }
    }
    if components != [] && '\\' !in key && (forall c :: c in components ==> '/' !in c && Acceptable(unicode, c))
       && key == Join(components, '/') + if isMarker then "/" else "" {
      SpelledIsAccepted(unicode, key, components, isMarker);
    }
  }

  lemma SpelledIsAccepted(unicode: Unicode, key: string, components: seq<string>, isMarker: bool)
    requires components != [] && '\\' !in key && FirstError(unicode, components) == None
    requires forall c :: c in components ==> '/' !in c && Acceptable(unicode, c)
    requires key == Join(components, '/') + if isMarker then "/" else ""
    ensures ValidateKey(unicode, key) == Ok((components, isMarker))
  {
    hide FirstError, IsBaseName;
    NoControl(unicode, components);
    var last := components[|components| - 1];
    assert last in components && last != "";
    JoinIsLonger(components);
    if isMarker {
      JoinAppendEmpty(components);
      SplitOfJoin(components + [""], '/');
      assert (components + [""])[..|components|] == components;
    } else {
      assert key == Join(components, '/');
      SplitOfJoin(components, '/');
    }
  }

  lemma {:induction false} NoControl(unicode: Unicode, components: seq<string>)
    requires forall c :: c in components ==> Acceptable(unicode, c)
    ensures '\0' !in Join(components, '/')
  {
    hide IsBaseName;
    if components == [] {
    } else {
      assert components == [components[0]] + components[1..];
      assert components[0] in components;
      NoControl(unicode, components[1..]);
    }
  }

  lemma JoinIsLonger(components: seq<string>)
    requires components != [] && components[|components| - 1] != ""
    ensures Join(components, '/') != ""
  {
  }

  /** Which complaint a key as a whole draws; that it has no components can never be the complaint. */
  lemma KeyErrorsMean(unicode: Unicode, key: string)
    ensures ValidateKey(unicode, key) == Err(EmptyKey) <==> key == ""
    ensures ValidateKey(unicode, key) == Err(ContainsNul) <==> '\0' in key
    ensures ValidateKey(unicode, key) == Err(ContainsBackslash) <==> '\0' !in key && '\\' in key
    ensures ValidateKey(unicode, key) != Err(NoComponents)
  {
    hide ComponentError;
    if key != "" {
      JoinOfSplit(key, '/');
      var parts := Split(key, '/');
      if |parts| == 1 {
        assert parts[0] == key;
      }
      FirstErrorIsOfComponent(unicode, if parts[|parts| - 1] == "" then parts[..|parts| - 1] else parts);
    }
  }

  lemma {:induction false} FirstErrorIsOfComponent(unicode: Unicode, components: seq<string>)
    ensures FirstError(unicode, components).Some? ==>
              FirstError(unicode, components).value !in {EmptyKey, ContainsNul, ContainsBackslash, NoComponents}
  {
    if components == [] {
    } else {
      FirstErrorIsOfComponent(unicode, components[1..]);
    }
  }

  lemma {:induction false} FirstErrorMeans(unicode: Unicode, components: seq<string>) returns (k: nat)
    requires FirstError(unicode, components).Some?
    ensures k < |components| && ComponentError(unicode, components[k]) == FirstError(unicode, components)
    ensures forall j :: 0 <= j < k ==> ComponentError(unicode, components[j]) == None
  {
    hide ComponentError;
    k := 0;
    if ComponentError(unicode, components[0]) == None {
      k := FirstErrorMeans(unicode, components[1..]);
      k := k + 1;
    }
  }

  /** Any other complaint is the one of the first component which draws one. */
  lemma FirstComponentComplains(unicode: Unicode, key: string) returns (components: seq<string>, k: nat)
    requires ValidateKey(unicode, key).Err? && key != "" && '\0' !in key && '\\' !in key
    ensures key == Join(components, '/') || key == Join(components, '/') + "/"
    ensures forall c :: c in components ==> '/' !in c
    ensures k < |components| && ComponentError(unicode, components[k]) == Some(ValidateKey(unicode, key).error)
    ensures forall j :: 0 <= j < k ==> ComponentError(unicode, components[j]) == None
  {
    hide ComponentError, FirstError;
    KeyErrorsMean(unicode, key);
    JoinOfSplit(key, '/');
    var parts := Split(key, '/');
    components := parts;
    if parts[|parts| - 1] == "" {
      components := parts[..|parts| - 1];
      assert parts == components + [""];
      JoinAppendEmpty(components);
    }
    k := FirstErrorMeans(unicode, components);
  }
}
