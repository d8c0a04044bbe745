/** The domain-separated record format of the tree digest (scripts/bl_tool.py), and what it commits to. */
module TreeHash {
  import opened Wrappers
  import opened Sequences
  import opened Digests
  import opened ByteOrder

  function Ascii(text: string): (bytes: Bytes)
    requires forall i :: 0 <= i < |text| ==> text[i] < 128 as char
    ensures |bytes| == |text| && forall i :: 0 <= i < |text| ==> bytes[i] == text[i] as int
  {
    seq(|text|, i requires 0 <= i < |text| => text[i] as int)
  }

  const LEAF_TAG_FILE: Bytes := Ascii("blhash/v2/file") + [0]
  const LEAF_TAG_DIR: Bytes := Ascii("blhash/v2/dir") + [0]
  const ROOT_TAG_TREE: Bytes := Ascii("blhash/v2/tree") + [0]
  const ROOT_TAG_FILE: Bytes := Ascii("blhash/v2/single") + [0]

  const LENGTH_FIELD_SIZE: nat := 8
  const LENGTH_LIMIT: nat := 0x1_0000_0000_0000_0000
  const HASH_BLOCK_SIZE: nat := 32000
  const FILE_CHUNK_SIZE: nat := 1024 * 1024

  // ---------------------------------------------------------------- length fields

  function Pow256(n: nat): nat {
    if n == 0 then 1 else 256 * Pow256(n - 1)
  }

  function BigEndian(value: nat, width: nat): (bytes: Bytes)
    ensures |bytes| == width
    decreases width
  {
    if width == 0 then [] else BigEndian(value / 256, width - 1) + [value % 256]
  }

  lemma {:induction false} BigEndianInjective(v: nat, w: nat, width: nat)
    requires v < Pow256(width) && w < Pow256(width)
    requires BigEndian(v, width) == BigEndian(w, width)
    ensures v == w
    decreases width
  {
    if width == 0 {
    } else {
      CutEqual(BigEndian(v / 256, width - 1), [v % 256], BigEndian(w / 256, width - 1), [w % 256]);
      BigEndianInjective(v / 256, w / 256, width - 1);
      assert v % 256 == [v % 256][0] == [w % 256][0];
    }
  }

  /** An unsigned 64-bit big-endian field.  Larger values make the source raise. */
  function EncodeLength(value: nat): (bytes: Bytes)
    requires value < LENGTH_LIMIT
    ensures |bytes| == LENGTH_FIELD_SIZE
  {
    BigEndian(value, LENGTH_FIELD_SIZE)
  }

  /** The number which bytes spell, the most significant first. */
  function ValueOf(bytes: Bytes): nat {
    Folded(bytes, 0)
  }

  function Folded(bytes: Bytes, acc: nat): nat {
    if bytes == [] then acc else Folded(bytes[1..], 256 * acc + bytes[0])
  }

  lemma {:induction false} FoldedLast(bytes: Bytes, b: Byte, acc: nat)
    ensures Folded(bytes + [b], acc) == 256 * Folded(bytes, acc) + b
  {
    if bytes == [] {
      assert ([] + [b])[1..] == [];
    } else {
      assert (bytes + [b])[1..] == bytes[1..] + [b];
      FoldedLast(bytes[1..], b, 256 * acc + bytes[0]);
    }
  }

  lemma {:induction false} BigEndianValue(v: nat, width: nat)
    requires v < Pow256(width)
    ensures ValueOf(BigEndian(v, width)) == v
    decreases width
  {
    if width == 0 {
    } else {
      BigEndianValue(v / 256, width - 1);
      FoldedLast(BigEndian(v / 256, width - 1), v % 256, 0);
    }
  }

  /** A length field is eight bytes, the most significant first, which spell the length. */
  lemma EncodeLengthValue(v: nat)
    requires v < LENGTH_LIMIT
    ensures |EncodeLength(v)| == 8 && ValueOf(EncodeLength(v)) == v
  {
    assert Pow256(8) == LENGTH_LIMIT by { PowersOf256(); }
    BigEndianValue(v, 8);
  }

  lemma PowersOf256()
    ensures Pow256(8) == 0x1_0000_0000_0000_0000
  {
    assert Pow256(2) == 0x1_0000 && Pow256(4) == 0x1_0000_0000;
    assert Pow256(6) == 0x1_0000_0000_0000 && Pow256(8) == 0x1_0000_0000_0000_0000;
  }

  lemma EncodeLengthInjective(v: nat, w: nat)
    requires v < LENGTH_LIMIT && w < LENGTH_LIMIT && EncodeLength(v) == EncodeLength(w)
    ensures v == w
  {
    assert Pow256(8) == LENGTH_LIMIT by {
      assert Pow256(4) == 0x1_0000_0000;
      assert Pow256(8) == 256 * 256 * 256 * 256 * Pow256(4);
    }
    BigEndianInjective(v, w, LENGTH_FIELD_SIZE);
  }

  // ---------------------------------------------------------------- snapshots

  datatype Scope = Tree | Single

  /** What a digest is taken of: canonical path bytes of every directory, and of every file with its
      content.  A single file is a snapshot of its own scope. */
  datatype Snapshot = Snapshot(scope: Scope, files: map<Bytes, Bytes>, directories: set<Bytes>) {

    predicate Valid() {
      files.Keys !! directories
    }

    function Paths(): set<Bytes> {
      files.Keys + directories
    }

    /** Every length fits its field. */
    ghost predicate Fits() {
      && |Paths()| < LENGTH_LIMIT
      && (forall p :: p in Paths() ==> |p| < LENGTH_LIMIT)
      && (forall p :: p in files ==> |files[p]| < LENGTH_LIMIT)
    }
  }

  function FileRecordInput(hash: Hash, path: Bytes, content: Bytes): Bytes
    requires |path| < LENGTH_LIMIT && |content| < LENGTH_LIMIT
  {
    LEAF_TAG_FILE + (EncodeLength(|path|) + (path + (EncodeLength(|content|) + hash.run(content))))
  }

  function DirRecordInput(path: Bytes): Bytes
    requires |path| < LENGTH_LIMIT
  {
    LEAF_TAG_DIR + (EncodeLength(|path|) + path)
  }

  function RootTag(scope: Scope): Bytes {
    match scope
    case Tree => ROOT_TAG_TREE
    case Single => ROOT_TAG_FILE
  }

  function RootInput(hash: Hash, scope: Scope, records: seq<Bytes>): Bytes
    requires |records| < LENGTH_LIMIT
  {
    RootTag(scope) + (hash.name + ([0] + (EncodeLength(|records|) + Concat(records))))
  }

  ghost function RecordInput(hash: Hash, s: Snapshot, path: Bytes): Bytes
    requires s.Fits() && path in s.Paths()
  {
    if path in s.files then FileRecordInput(hash, path, s.files[path]) else DirRecordInput(path)
  }

  /** The record digests in canonical order. */
  ghost function Records(hash: Hash, s: Snapshot): (records: seq<Bytes>)
    requires s.Fits()
    ensures |records| == |s.Paths()|
  {
    RecordsOf(hash, s, Ordered(s.Paths()))
  }

  ghost function RecordsOf(hash: Hash, s: Snapshot, paths: seq<Bytes>): (records: seq<Bytes>)
    requires s.Fits() && forall p :: p in paths ==> p in s.Paths()
    ensures |records| == |paths|
    ensures forall i :: 0 <= i < |paths| ==>
        paths[i] in s.Paths() && records[i] == hash.run(RecordInput(hash, s, paths[i]))
  {
    seq(|paths|, i requires 0 <= i < |paths| => assert paths[i] in paths; hash.run(RecordInput(hash, s, paths[i])))
  }

  /** The digest of a snapshot: one canonical preimage, hashed once. */
  ghost function RootDigest(hash: Hash, s: Snapshot): Bytes
    requires s.Fits()
  {
    hash.run(RootInput(hash, s.scope, Records(hash, s)))
  }

  /** Every byte string hashed on the way to the digest of `s`. */
  ghost function HashedFor(hash: Hash, s: Snapshot): set<Bytes>
    requires s.Fits()
  {
    {RootInput(hash, s.scope, Records(hash, s))}
    + (set p | p in s.Paths() :: RecordInput(hash, s, p))
    + (set p | p in s.files :: s.files[p])
  }

  // ---------------------------------------------------------------- the documented format

  /** `blhash/v2/file`, `blhash/v2/dir`, `blhash/v2/tree` and `blhash/v2/single`, each with a closing zero byte. */
  lemma TagBytes()
    ensures LEAF_TAG_FILE == [98, 108, 104, 97, 115, 104, 47, 118, 50, 47, 102, 105, 108, 101, 0]
    ensures LEAF_TAG_DIR == [98, 108, 104, 97, 115, 104, 47, 118, 50, 47, 100, 105, 114, 0]
    ensures ROOT_TAG_TREE == [98, 108, 104, 97, 115, 104, 47, 118, 50, 47, 116, 114, 101, 101, 0]
    ensures ROOT_TAG_FILE == [98, 108, 104, 97, 115, 104, 47, 118, 50, 47, 115, 105, 110, 103, 108, 101, 0]
  {
  }

  /** The record layouts: a tag in front of length-prefixed fields. */
  lemma Layouts(hash: Hash, path: Bytes, content: Bytes, records: seq<Bytes>)
    requires |path| < LENGTH_LIMIT && |content| < LENGTH_LIMIT && |records| < LENGTH_LIMIT
    ensures FileRecordInput(hash, path, content) ==
            LEAF_TAG_FILE + EncodeLength(|path|) + path + EncodeLength(|content|) + hash.run(content)
    ensures DirRecordInput(path) == LEAF_TAG_DIR + EncodeLength(|path|) + path
    ensures RootInput(hash, Tree, records) ==
            ROOT_TAG_TREE + hash.name + [0] + EncodeLength(|records|) + Concat(records)
    ensures RootInput(hash, Single, records) ==
            ROOT_TAG_FILE + hash.name + [0] + EncodeLength(|records|) + Concat(records)
  {
    var n, m, k := EncodeLength(|path|), EncodeLength(|content|), EncodeLength(|records|);
    hide EncodeLength, Concat;
    FiveAppends(LEAF_TAG_FILE, n, path, m, hash.run(content));
    FiveAppends(ROOT_TAG_TREE, hash.name, [0], k, Concat(records));
    FiveAppends(ROOT_TAG_FILE, hash.name, [0], k, Concat(records));
    assert [] + LEAF_TAG_FILE == LEAF_TAG_FILE && [] + ROOT_TAG_TREE == ROOT_TAG_TREE
        && [] + ROOT_TAG_FILE == ROOT_TAG_FILE;
    assert LEAF_TAG_DIR + (n + path) == LEAF_TAG_DIR + n + path;
  }

  /** What the digest of a snapshot is the hash of: a record per path, in increasing order of the path bytes, each
      the hash of a file or a directory record. */
  lemma RootDigestMeans(hash: Hash, s: Snapshot, paths: seq<Bytes>)
    requires s.Fits() && s.files.Keys !! s.directories && Orders(paths, s.files.Keys + s.directories)
    ensures |paths| < LENGTH_LIMIT
    ensures forall p :: p in paths ==> |p| < LENGTH_LIMIT && (p in s.files ==> |s.files[p]| < LENGTH_LIMIT)
    ensures var records := seq(|paths|, i requires 0 <= i < |paths| =>
              assert paths[i] in paths;
              hash.run(if paths[i] in s.files then FileRecordInput(hash, paths[i], s.files[paths[i]])
                       else DirRecordInput(paths[i])));
            RootDigest(hash, s) == hash.run(RootInput(hash, s.scope, records))
  {
    hide FileRecordInput, DirRecordInput, RootInput, Less;
    var other := OrderExists(s.Paths());
    assert paths == Ordered(s.Paths());
    forall i | 0 <= i < |paths| ensures paths[i] in s.Paths() && |paths[i]| < LENGTH_LIMIT {
      assert paths[i] in paths;
    }
    var records := seq(|paths|, i requires 0 <= i < |paths| =>
      assert paths[i] in paths;
      hash.run(if paths[i] in s.files then FileRecordInput(hash, paths[i], s.files[paths[i]])
               else DirRecordInput(paths[i])));
    assert records == Records(hash, s);
  }

  // ---------------------------------------------------------------- injectivity of the format

  /** The byte at this position tells the four kinds of hashed record apart. */
  const TAG_POSITION: nat := 10

  lemma DomainSeparation(hash: Hash, path: Bytes, content: Bytes, other: Bytes, scope: Scope, records: seq<Bytes>)
    requires |path| < LENGTH_LIMIT && |content| < LENGTH_LIMIT && |other| < LENGTH_LIMIT && |records| < LENGTH_LIMIT
    ensures FileRecordInput(hash, path, content) != DirRecordInput(other)
    ensures RootInput(hash, scope, records) != FileRecordInput(hash, path, content)
    ensures RootInput(hash, scope, records) != DirRecordInput(other)
  {
    assert FileRecordInput(hash, path, content)[TAG_POSITION] == 'f' as int;
    assert DirRecordInput(other)[TAG_POSITION] == 'd' as int;
    assert RootInput(hash, scope, records)[TAG_POSITION] == (if scope.Tree? then 't' else 's') as int;
  }

  lemma FileRecordInjective(hash: Hash, p: Bytes, c: Bytes, q: Bytes, d: Bytes)
    requires |p| < LENGTH_LIMIT && |c| < LENGTH_LIMIT && |q| < LENGTH_LIMIT && |d| < LENGTH_LIMIT
    requires FileRecordInput(hash, p, c) == FileRecordInput(hash, q, d)
    ensures p == q && |c| == |d| && hash.run(c) == hash.run(d)
  {
    var restP := EncodeLength(|c|) + hash.run(c);
    var restQ := EncodeLength(|d|) + hash.run(d);
    CutEqual(LEAF_TAG_FILE, EncodeLength(|p|) + (p + restP), LEAF_TAG_FILE, EncodeLength(|q|) + (q + restQ));
    CutEqual(EncodeLength(|p|), p + restP, EncodeLength(|q|), q + restQ);
    EncodeLengthInjective(|p|, |q|);
    CutEqual(p, restP, q, restQ);
    CutEqual(EncodeLength(|c|), hash.run(c), EncodeLength(|d|), hash.run(d));
    EncodeLengthInjective(|c|, |d|);
  }

  lemma DirRecordInjective(p: Bytes, q: Bytes)
    requires |p| < LENGTH_LIMIT && |q| < LENGTH_LIMIT && DirRecordInput(p) == DirRecordInput(q)
    ensures p == q
  {
    CutEqual(LEAF_TAG_DIR, EncodeLength(|p|) + p, LEAF_TAG_DIR, EncodeLength(|q|) + q);
    CutEqual(EncodeLength(|p|), p, EncodeLength(|q|), q);
  }

  lemma RootTagAhead(hash: Hash, scope: Scope, records: seq<Bytes>)
    requires |records| < LENGTH_LIMIT
    ensures |RootInput(hash, scope, records)| > TAG_POSITION && |RootTag(scope)| > TAG_POSITION
    ensures RootInput(hash, scope, records)[TAG_POSITION] == RootTag(scope)[TAG_POSITION]
  {
  }

  lemma RootTagsDiffer(s: Scope, t: Scope)
    requires |RootTag(s)| > TAG_POSITION && |RootTag(t)| > TAG_POSITION
    requires RootTag(s)[TAG_POSITION] == RootTag(t)[TAG_POSITION]
    ensures s == t
  {
    assert ROOT_TAG_TREE[TAG_POSITION] == 't' as int && ROOT_TAG_FILE[TAG_POSITION] == 's' as int;
  }

  lemma RootInputInjective(hash: Hash, s: Scope, xs: seq<Bytes>, t: Scope, ys: seq<Bytes>)
    requires FixedWidth(hash) && |xs| < LENGTH_LIMIT && |ys| < LENGTH_LIMIT
    requires forall x :: x in xs ==> |x| == hash.width
    requires forall y :: y in ys ==> |y| == hash.width
    requires RootInput(hash, s, xs) == RootInput(hash, t, ys)
    ensures s == t && xs == ys
  {
    hide Concat, BigEndian;
    RootTagAhead(hash, s, xs);
    RootTagAhead(hash, t, ys);
    RootTagsDiffer(s, t);
    var restX := [0] + (EncodeLength(|xs|) + Concat(xs));
    var restY := [0] + (EncodeLength(|ys|) + Concat(ys));
    CutEqual(RootTag(s), hash.name + restX, RootTag(t), hash.name + restY);
    CutEqual(hash.name, restX, hash.name, restY);
    CutEqual([0], EncodeLength(|xs|) + Concat(xs), [0], EncodeLength(|ys|) + Concat(ys));
    CutEqual(EncodeLength(|xs|), Concat(xs), EncodeLength(|ys|), Concat(ys));
    EncodeLengthInjective(|xs|, |ys|);
    FixedWidthPieces(xs, ys, hash.width);
  }

  // ---------------------------------------------------------------- the commitment

  /** Two different snapshots with one digest exhibit two different byte strings with one hash, one
      of them hashed for each snapshot.  Scope, directories, paths and contents are all committed. */
  lemma TreeCommitment(hash: Hash, s: Snapshot, t: Snapshot) returns (x: Bytes, y: Bytes)
    requires FixedWidth(hash) && s.Valid() && t.Valid() && s.Fits() && t.Fits()
    requires s != t && RootDigest(hash, s) == RootDigest(hash, t)
    ensures Collision(hash, x, y)
    ensures x in HashedFor(hash, s) && y in HashedFor(hash, t)
  {
    hide RootInput, RecordInput;
    var rs, rt := Records(hash, s), Records(hash, t);
    x, y := RootInput(hash, s.scope, rs), RootInput(hash, t.scope, rt);
    if x == y {
      RootInputInjective(hash, s.scope, rs, t.scope, rt);
      x, y := RecordCollision(hash, s, t, Ordered(s.Paths()), Ordered(t.Paths()));
    }
  }

  /** The entry of a path: its content, or nothing for a directory. */
  function EntryOf(s: Snapshot, path: Bytes): Option<Bytes> {
    if path in s.files then Some(s.files[path]) else None
  }

  /** Equal records are of one path and one kind, and of files with equal content digests. */
  lemma EqualInputs(hash: Hash, s: Snapshot, p: Bytes, t: Snapshot, q: Bytes)
    requires s.Fits() && t.Fits() && p in s.Paths() && q in t.Paths()
    requires RecordInput(hash, s, p) == RecordInput(hash, t, q)
    ensures p == q
    ensures p in s.files <==> q in t.files
    ensures p in s.files ==> hash.run(s.files[p]) == hash.run(t.files[q])
  {
    hide FileRecordInput, DirRecordInput;
    if p in s.files && q in t.files {
      FileRecordInjective(hash, p, s.files[p], q, t.files[q]);
    } else if p in s.files {
      DomainSeparation(hash, p, s.files[p], q, Tree, []);
    } else if q in t.files {
      DomainSeparation(hash, q, t.files[q], p, Tree, []);
    } else {
      DirRecordInjective(p, q);
    }
  }

  lemma RecordCollision(hash: Hash, s: Snapshot, t: Snapshot, ps: seq<Bytes>, qs: seq<Bytes>)
      returns (x: Bytes, y: Bytes)
    requires s.Valid() && t.Valid() && s.Fits() && t.Fits()
    requires forall p :: p in ps <==> p in s.Paths()
    requires forall q :: q in qs <==> q in t.Paths()
    requires s != t && s.scope == t.scope && RecordsOf(hash, s, ps) == RecordsOf(hash, t, qs)
    ensures Collision(hash, x, y)
    ensures x in HashedFor(hash, s) && y in HashedFor(hash, t)
  {
    hide RecordInput, RecordsOf, Records, RootInput;
    assert |ps| == |RecordsOf(hash, s, ps)| == |qs|;
    if forall i :: 0 <= i < |ps| ==> ps[i] == qs[i] && EntryOf(s, ps[i]) == EntryOf(t, qs[i]) {
      SameEntries(s, t, ps, qs);
    }
    var i :| 0 <= i < |ps| && !(ps[i] == qs[i] && EntryOf(s, ps[i]) == EntryOf(t, qs[i]));
    var p, q := ps[i], qs[i];
    assert hash.run(RecordInput(hash, s, p)) == RecordsOf(hash, s, ps)[i] == RecordsOf(hash, t, qs)[i] ==
        hash.run(RecordInput(hash, t, q));
    x, y := RecordInput(hash, s, p), RecordInput(hash, t, q);
    if x == y {
      EqualInputs(hash, s, p, t, q);
      x, y := s.files[p], t.files[q];
    }
  }

  lemma SameEntries(s: Snapshot, t: Snapshot, ps: seq<Bytes>, qs: seq<Bytes>)
    requires s.Valid() && t.Valid() && s.scope == t.scope
    requires forall p :: p in ps <==> p in s.Paths()
    requires forall q :: q in qs <==> q in t.Paths()
    requires |ps| == |qs| && forall i :: 0 <= i < |ps| ==> ps[i] == qs[i] && EntryOf(s, ps[i]) == EntryOf(t, qs[i])
    ensures s == t
  {
    assert ps == qs;
    assert s.Paths() == t.Paths();
    forall p | p in s.Paths() ensures EntryOf(s, p) == EntryOf(t, p) {
      assert p in ps;
      var i :| 0 <= i < |ps| && ps[i] == p;
    }
    assert s.files.Keys == t.files.Keys by {
      forall p ensures p in s.files <==> p in t.files {
        assert p in s.files ==> p in s.Paths() && EntryOf(s, p).Some?;
        assert p in t.files ==> p in t.Paths() && EntryOf(t, p).Some?;
      }
    }
    forall p | p in s.files ensures s.files[p] == t.files[p] {
      assert p in s.Paths();
    }
    assert s.files == t.files;
    assert s.directories == s.Paths() - s.files.Keys;
    assert t.directories == t.Paths() - t.files.Keys;
  }
}
