/** Computing the tree digest with workers, a streaming hasher and blocks (scripts/bl_tool.py). */
module HashCommand {
  import opened Wrappers
  import opened Sequences
  import opened Digests
  import opened ByteOrder
  import opened TreeHash

  // ---------------------------------------------------------------- workers

  /** What one worker contributes: the record digest, the bare content digest in raw mode, or nothing
      where a length does not fit its field. */
  function WorkerDigest(hash: Hash, path: Bytes, content: Bytes, excludePaths: bool): Option<Bytes> {
    if excludePaths then Some(hash.run(content))
    else if |path| < LENGTH_LIMIT && |content| < LENGTH_LIMIT then Some(hash.run(FileRecordInput(hash, path, content)))
    else None
  }

  method HashWorker(hash: Hash, path: Bytes, file: Reader, excludePaths: bool) returns (r: Option<Bytes>)
    requires file.Valid() && file.pos == 0
    modifies file
    ensures r == WorkerDigest(hash, path, file.content, excludePaths)
  {
    hide BigEndian, Ascii;
    var hasher := new Hasher(hash);
    var fileSize := 0;
    while true
      invariant file.Valid() && hasher.fed == file.content[..file.pos] && fileSize == file.pos
      decreases |file.content| - file.pos
    {
      var chunk := file.Read(FILE_CHUNK_SIZE);
      if chunk == [] {
        break;
      }
      hasher.Update(chunk);
      fileSize := fileSize + |chunk|;
    }
    assert hasher.fed == file.content;
    if excludePaths {
      return Some(hasher.Digest());
    }
    if |path| >= LENGTH_LIMIT || fileSize >= LENGTH_LIMIT {
      return None;
    }
    var leaf := new Hasher(hash);
    leaf.Update(LEAF_TAG_FILE);
    leaf.Update(EncodeLength(|path|));
    leaf.Update(path);
    leaf.Update(EncodeLength(fileSize));
    leaf.Update(hasher.Digest());
    FiveAppends(LEAF_TAG_FILE, EncodeLength(|path|), path, EncodeLength(fileSize), hash.run(file.content));
    r := Some(leaf.Digest());
  }

  method HashDirRecord(hash: Hash, path: Bytes) returns (r: Option<Bytes>)
    ensures r == if |path| < LENGTH_LIMIT then Some(hash.run(DirRecordInput(path))) else None
  {
    if |path| >= LENGTH_LIMIT {
      return None;
    }
    var hasher := new Hasher(hash);
    hasher.Update(LEAF_TAG_DIR);
    hasher.Update(EncodeLength(|path|));
    hasher.Update(path);
    assert hasher.fed == DirRecordInput(path);
    r := Some(hasher.Digest());
  }

  // ---------------------------------------------------------------- block-wise combination

  lemma ConcatBlock(pieces: seq<Bytes>, start: nat, stop: nat)
    requires start <= stop <= |pieces|
    ensures Concat(pieces[..start]) + Concat(pieces[start..stop]) == Concat(pieces[..stop])
  {
    assert pieces[..stop] == pieces[..start] + pieces[start..stop];
    ConcatAppend(pieces[..start], pieces[start..stop]);
  }

  /** Feeds the pieces block by block; the block size leaves no trace. */
  method FeedBlocks(hasher: Hasher, pieces: seq<Bytes>, blockSize: nat)
    requires blockSize > 0
    modifies hasher
    ensures hasher.fed == old(hasher.fed) + Concat(pieces)
  {
    var total := |pieces|;
    var blockStart := 0;
    while blockStart < total
      invariant hasher.fed == old(hasher.fed) + Concat(pieces[..if blockStart < total then blockStart else total])
    {
      var blockEnd := if blockStart + blockSize < total then blockStart + blockSize else total;
      ConcatBlock(pieces, blockStart, blockEnd);
      hasher.Update(Concat(pieces[blockStart..blockEnd]));
      blockStart := blockStart + blockSize;
    }
    assert pieces[..total] == pieces;
  }

  method ComputeRootDigest(hash: Hash, records: seq<Bytes>, scope: Scope, blockSize: nat := HASH_BLOCK_SIZE)
    returns (r: Option<Bytes>)
    requires blockSize > 0
    ensures r == if |records| < LENGTH_LIMIT then Some(hash.run(RootInput(hash, scope, records))) else None
  {
    hide BigEndian, Ascii, Concat;
    if |records| >= LENGTH_LIMIT {
      return None;
    }
    var hasher := new Hasher(hash);
    hasher.Update(RootTag(scope));
    hasher.Update(hash.name);
    hasher.Update([0]);
    hasher.Update(EncodeLength(|records|));
    FeedBlocks(hasher, records, blockSize);
    FiveAppends(RootTag(scope), hash.name, [0], EncodeLength(|records|), Concat(records));
    r := Some(hasher.Digest());
  }

  /** The raw content mode: one digest is passed through, several are combined. */
  method CombineHashes(hash: Hash, hashes: seq<Bytes>, blockSize: nat := HASH_BLOCK_SIZE) returns (r: Bytes)
    requires blockSize > 0
    ensures r == if |hashes| == 1 then hashes[0] else hash.run(Concat(hashes))
  {
    if |hashes| == 1 {
      return hashes[0];
    }
    var hasher := new Hasher(hash);
    FeedBlocks(hasher, hashes, blockSize);
    assert hasher.fed == Concat(hashes);
    r := hasher.Digest();
  }

  // ---------------------------------------------------------------- the command

  datatype Entry = Entry(path: Bytes, content: Bytes)

  datatype Record = Record(path: Bytes, digest: Bytes)

  function PathOf(r: Record): Bytes {
    r.path
  }

  ghost predicate DistinctPaths(files: seq<Entry>) {
    forall i, j :: 0 <= i < j < |files| ==> files[i].path != files[j].path
  }

  ghost function FileMap(files: seq<Entry>): map<Bytes, Bytes> {
    if files == [] then map[]
    else
      var last := files[|files| - 1];
      FileMap(files[..|files| - 1])[last.path := last.content]
  }

  lemma {:induction false} FileMapHolds(files: seq<Entry>)
    requires DistinctPaths(files)
    ensures forall i :: 0 <= i < |files| ==>
        files[i].path in FileMap(files) && FileMap(files)[files[i].path] == files[i].content
    ensures forall p :: p in FileMap(files) ==> exists i :: 0 <= i < |files| && files[i].path == p
  {
    if files == [] {
    } else {
      var init, last := files[..|files| - 1], files[|files| - 1];
      FileMapHolds(init);
      forall i | 0 <= i < |init| ensures init[i] == files[i] && init[i].path != last.path {
      }
      forall p | p in FileMap(files) ensures exists i :: 0 <= i < |files| && files[i].path == p {
        if p == last.path {
          assert files[|files| - 1].path == p;
        } else {
          assert p in FileMap(init);
          var i :| 0 <= i < |init| && init[i].path == p;
          assert files[i].path == p;
        }
      }
    }
  }

  ghost function SnapshotOf(scope: Scope, files: seq<Entry>, directories: seq<Bytes>): Snapshot {
    Snapshot(scope, FileMap(files), set d | d in directories)
  }

  /** The raw mode's digest: contents in path order, without any commitment to the paths. */
  ghost function RawDigest(hash: Hash, files: map<Bytes, Bytes>): Bytes {
    var digests := ContentDigests(hash, files, Ordered(files.Keys));
    if |digests| == 1 then digests[0] else hash.run(Concat(digests))
  }

  ghost function ContentDigests(hash: Hash, files: map<Bytes, Bytes>, paths: seq<Bytes>): (digests: seq<Bytes>)
    requires forall p :: p in paths ==> p in files
    ensures |digests| == |paths|
    ensures forall i :: 0 <= i < |paths| ==> paths[i] in files && digests[i] == hash.run(files[paths[i]])
  {
    seq(|paths|, i requires 0 <= i < |paths| => assert paths[i] in paths; hash.run(files[paths[i]]))
  }

  function Indices(n: nat): (indices: set<nat>)
    ensures forall i: nat :: i in indices <==> i < n
  {
    if n == 0 then {} else Indices(n - 1) + {n - 1}
  }

  /** Runs the workers to completion in an order the thread pool chooses. */
  method RunWorkers(hash: Hash, files: seq<Entry>, excludePaths: bool) returns (r: Option<seq<Record>>)
    requires DistinctPaths(files)
    ensures r.None? <==>
            exists i :: 0 <= i < |files| && WorkerDigest(hash, files[i].path, files[i].content, excludePaths).None?
    ensures r.Some? ==>
              && Distinct(Keys(PathOf, r.value))
              && (forall p :: p in Keys(PathOf, r.value) <==> p in FileMap(files))
              && forall k :: 0 <= k < |r.value| ==>
                   r.value[k].path in FileMap(files)
                   && WorkerDigest(hash, r.value[k].path, FileMap(files)[r.value[k].path], excludePaths) ==
                       Some(r.value[k].digest)
  {
    var todo := Indices(|files|);
    var results: seq<Record> := [];
    ghost var order: seq<nat> := [];
    while todo != {}
      invariant forall i :: i in todo ==> i < |files|
      invariant |order| == |results| && Distinct(order)
      invariant forall i: nat :: i < |files| ==> i in order || i in todo
      invariant forall i :: i in order ==> i !in todo
      invariant forall k :: 0 <= k < |order| ==>
                  order[k] < |files| && results[k].path == files[order[k]].path
                  && WorkerDigest(hash, files[order[k]].path, files[order[k]].content, excludePaths) ==
                      Some(results[k].digest)
    {
      var i :| i in todo;
      var file := new Reader(files[i].content);
      var digest := HashWorker(hash, files[i].path, file, excludePaths);
      if digest.None? {
        return None;
      }
      results := results + [Record(files[i].path, digest.value)];
      order := order + [i];
      todo := todo - {i};
    }
    Completed(hash, files, excludePaths, order, results);
    r := Some(results);
  }

  lemma Completed(hash: Hash, files: seq<Entry>, excludePaths: bool, order: seq<nat>, results: seq<Record>)
    requires DistinctPaths(files) && |order| == |results| && Distinct(order)
    requires forall i: nat :: i < |files| ==> i in order
    requires forall k :: 0 <= k < |order| ==>
               order[k] < |files| && results[k].path == files[order[k]].path
               && WorkerDigest(hash, files[order[k]].path, files[order[k]].content, excludePaths) ==
                   Some(results[k].digest)
    ensures forall i :: 0 <= i < |files| ==> WorkerDigest(hash, files[i].path, files[i].content, excludePaths).Some?
    ensures Distinct(Keys(PathOf, results))
    ensures forall p :: p in Keys(PathOf, results) <==> p in FileMap(files)
    ensures forall k :: 0 <= k < |results| ==>
              results[k].path in FileMap(files)
              && WorkerDigest(hash, results[k].path, FileMap(files)[results[k].path], excludePaths) ==
                  Some(results[k].digest)
  {
    hide WorkerDigest, FileMap, Distinct, DistinctPaths, Keys;
    PathsStayDistinct(files, order, results);
    EveryFileIsDone(hash, files, excludePaths, order, results);
    ResultsAreOfFiles(hash, files, excludePaths, order, results);
    FileMapHolds(files);
    var keys := Keys(PathOf, results);
    forall p | p in keys ensures p in FileMap(files) {
      var k :| 0 <= k < |keys| && keys[k] == p;
      assert results[k].path == p;
    }
  }

  lemma EveryFileIsDone(hash: Hash, files: seq<Entry>, excludePaths: bool, order: seq<nat>, results: seq<Record>)
    requires |order| == |results| && forall i: nat :: i < |files| ==> i in order
    requires forall k :: 0 <= k < |order| ==>
               order[k] < |files| && results[k].path == files[order[k]].path
               && WorkerDigest(hash, files[order[k]].path, files[order[k]].content, excludePaths) ==
                   Some(results[k].digest)
    ensures forall i :: 0 <= i < |files| ==>
              files[i].path in Keys(PathOf, results)
                  && WorkerDigest(hash, files[i].path, files[i].content, excludePaths).Some?
  {
    hide WorkerDigest;
    forall i: nat | i < |files|
      ensures files[i].path in Keys(PathOf, results)
          && WorkerDigest(hash, files[i].path, files[i].content, excludePaths).Some?
    {
      assert i in order;
      var k :| 0 <= k < |order| && order[k] == i;
      assert Keys(PathOf, results)[k] == files[i].path;
    }
  }

  lemma ResultsAreOfFiles(hash: Hash, files: seq<Entry>, excludePaths: bool, order: seq<nat>, results: seq<Record>)
    requires DistinctPaths(files) && |order| == |results|
    requires forall k :: 0 <= k < |order| ==>
               order[k] < |files| && results[k].path == files[order[k]].path
               && WorkerDigest(hash, files[order[k]].path, files[order[k]].content, excludePaths) ==
                   Some(results[k].digest)
    ensures forall k :: 0 <= k < |results| ==>
              results[k].path in FileMap(files)
              && WorkerDigest(hash, results[k].path, FileMap(files)[results[k].path], excludePaths) ==
                  Some(results[k].digest)
  {
    hide WorkerDigest, FileMap, DistinctPaths;
    FileMapHolds(files);
  }

  lemma PathsStayDistinct(files: seq<Entry>, order: seq<nat>, results: seq<Record>)
    requires DistinctPaths(files) && |order| == |results| && Distinct(order)
    requires forall k :: 0 <= k < |order| ==> order[k] < |files| && results[k].path == files[order[k]].path
    ensures Distinct(Keys(PathOf, results))
  {
  }

  /** Records which cover the snapshot and sit in path order are the canonical ones. */
  lemma SortedRecordsAreCanonical(hash: Hash, s: Snapshot, records: seq<Record>)
    requires s.Fits() && Distinct(Keys(PathOf, records))
    requires forall p :: p in Keys(PathOf, records) <==> p in s.Paths()
    requires forall r :: r in records ==> r.path in s.Paths() && r.digest == hash.run(RecordInput(hash, s, r.path))
    ensures DigestsOf(SortBy(PathOf, records)) == Records(hash, s)
  {
    hide RecordInput;
    var sorted := SortBy(PathOf, records);
    var paths := Ordered(s.Paths());
    SortedPaths(records, s.Paths());
    forall i | 0 <= i < |sorted| ensures DigestsOf(sorted)[i] == Records(hash, s)[i] {
      assert sorted[i] in sorted;
      assert sorted[i].path == Keys(PathOf, sorted)[i] == paths[i];
    }
  }

  /** Sorting distinct paths gives the one increasing listing of them. */
  lemma SortedPaths(records: seq<Record>, paths: set<Bytes>)
    requires Distinct(Keys(PathOf, records))
    requires forall p :: p in Keys(PathOf, records) <==> p in paths
    ensures Keys(PathOf, SortBy(PathOf, records)) == Ordered(paths)
    ensures forall r :: r in SortBy(PathOf, records) <==> r in records
  {
    var sorted := SortBy(PathOf, records);
    SortedByKey(PathOf, records);
    var keys, sortedKeys := Keys(PathOf, records), Keys(PathOf, sorted);
    forall p ensures p in sortedKeys <==> p in Ordered(paths) {
      if p in sortedKeys {
        var i :| 0 <= i < |sorted| && sortedKeys[i] == p;
        assert sorted[i] in records;
        var j :| 0 <= j < |records| && records[j] == sorted[i];
        assert keys[j] == p;
      }
      if p in keys {
        var j :| 0 <= j < |records| && keys[j] == p;
        assert records[j] in sorted;
        var i :| 0 <= i < |sorted| && sorted[i] == records[j];
        assert sortedKeys[i] == p;
      }
    }
    IncreasingUnique(sortedKeys, Ordered(paths));
  }

  function DigestsOf(records: seq<Record>): (digests: seq<Bytes>)
    ensures |digests| == |records| && forall i :: 0 <= i < |records| ==> digests[i] == records[i].digest
  {
    seq(|records|, i requires 0 <= i < |records| => records[i].digest)
  }

  /** The whole command.  Whatever order the workers finish in, whatever order the walk lists entries in,
      however reads and blocks fall, the result is the digest of the snapshot and nothing else. */
  method CommandHash(hash: Hash, scope: Scope, files: seq<Entry>, directories: seq<Bytes>, excludePaths: bool,
      blockSize: nat := HASH_BLOCK_SIZE)
    returns (r: Option<Bytes>)
    requires blockSize > 0
    requires DistinctPaths(files) && Distinct(directories)
    requires forall d :: d in directories ==> d !in FileMap(files)
    ensures excludePaths ==> r == Some(RawDigest(hash, FileMap(files)))
    ensures !excludePaths ==>
              var s := SnapshotOf(scope, files, directories);
              r == if s.Fits() then Some(RootDigest(hash, s)) else None
  {
    hide RootDigest, RawDigest, SortBy;
    var outcome := RunWorkers(hash, files, excludePaths);
    if outcome.None? {
      MisfitFile(hash, scope, files, directories, excludePaths);
      return None;
    }
    var results := SortBy(PathOf, outcome.value);
    if excludePaths {
      forall r | r in outcome.value ensures r.path in FileMap(files) && r.digest == hash.run(FileMap(files)[r.path]) {
        var k :| 0 <= k < |outcome.value| && outcome.value[k] == r;
      }
      SortedContents(hash, FileMap(files), outcome.value);
      var hashList := DigestsOf(results);
      assert RawDigest(hash, FileMap(files)) == if |hashList| == 1 then hashList[0] else hash.run(Concat(hashList)) by {
        RawDigestOf(hash, FileMap(files));
      }
      if |hashList| == 0 {
        return Some(hash.run([]));
      }
      var combined := CombineHashes(hash, hashList, blockSize);
      return Some(combined);
    }
    var directoryRecords := HashDirectories(hash, directories);
    if directoryRecords.None? {
      return None;
    }
    var records := results + directoryRecords.value;
    MergedRecords(hash, scope, files, directories, outcome.value, directoryRecords.value);
    r := ComputeRootDigest(hash, DigestsOf(SortBy(PathOf, records)), scope, blockSize);
    CanonicalRoot(hash, SnapshotOf(scope, files, directories), records);
  }

  /** The directory half of the merge. */
  method HashDirectories(hash: Hash, directories: seq<Bytes>) returns (r: Option<seq<Record>>)
    ensures r.None? <==> exists d :: d in directories && |d| >= LENGTH_LIMIT
    ensures r.Some? ==>
              && |r.value| == |directories|
              && forall i :: 0 <= i < |directories| ==>
                   |directories[i]| < LENGTH_LIMIT
                       && r.value[i] == Record(directories[i], hash.run(DirRecordInput(directories[i])))
  {
    var records: seq<Record> := [];
    for i := 0 to |directories|
      invariant |records| == i
      invariant forall k :: 0 <= k < i ==>
                  |directories[k]| < LENGTH_LIMIT
                      && records[k] == Record(directories[k], hash.run(DirRecordInput(directories[k])))
    {
      var digest := HashDirRecord(hash, directories[i]);
      if digest.None? {
        return None;
      }
      records := records + [Record(directories[i], digest.value)];
    }
    r := Some(records);
  }

  lemma RawDigestOf(hash: Hash, files: map<Bytes, Bytes>)
    ensures var digests := ContentDigests(hash, files, Ordered(files.Keys));
            RawDigest(hash, files) == if |digests| == 1 then digests[0] else hash.run(Concat(digests))
  {
  }

  /** The raw mode: the hash of the content digests in increasing order of the paths, or the one digest itself. */
  lemma RawDigestMeans(hash: Hash, files: map<Bytes, Bytes>, paths: seq<Bytes>)
    requires Orders(paths, files.Keys)
    ensures forall p :: p in paths ==> p in files
    ensures |paths| == 1 ==> RawDigest(hash, files) == hash.run(files[paths[0]])
    ensures |paths| != 1 ==>
              RawDigest(hash, files) ==
              hash.run(Concat(seq(|paths|, i requires 0 <= i < |paths| =>
                assert paths[i] in paths; hash.run(files[paths[i]]))))
  {
    hide Less, Concat;
    var other := OrderExists(files.Keys);
    assert paths == Ordered(files.Keys);
    var digests := seq(|paths|, i requires 0 <= i < |paths| => assert paths[i] in paths; hash.run(files[paths[i]]));
    assert digests == ContentDigests(hash, files, paths);
  }

  /** A file whose lengths do not fit keeps the snapshot from having a digest. */
  lemma MisfitFile(hash: Hash, scope: Scope, files: seq<Entry>, directories: seq<Bytes>, excludePaths: bool)
    requires DistinctPaths(files)
    requires exists i :: 0 <= i < |files| && WorkerDigest(hash, files[i].path, files[i].content, excludePaths).None?
    ensures !excludePaths && !SnapshotOf(scope, files, directories).Fits()
  {
    var s := SnapshotOf(scope, files, directories);
    var i :| 0 <= i < |files| && WorkerDigest(hash, files[i].path, files[i].content, excludePaths).None?;
    FileMapHolds(files);
    assert files[i].path in s.files && s.files[files[i].path] == files[i].content;
    assert files[i].path in s.Paths();
  }

  lemma SortedContents(hash: Hash, files: map<Bytes, Bytes>, results: seq<Record>)
    requires Distinct(Keys(PathOf, results))
    requires forall p :: p in Keys(PathOf, results) <==> p in files
    requires forall r :: r in results ==> r.path in files && r.digest == hash.run(files[r.path])
    ensures DigestsOf(SortBy(PathOf, results)) == ContentDigests(hash, files, Ordered(files.Keys))
  {
    hide SortBy, Less;
    var sorted := SortBy(PathOf, results);
    SortedPaths(results, files.Keys);
    SortedContentsAt(hash, files, sorted, Ordered(files.Keys));
  }

  lemma SortedContentsAt(hash: Hash, files: map<Bytes, Bytes>, sorted: seq<Record>, paths: seq<Bytes>)
    requires Keys(PathOf, sorted) == paths
    requires forall p :: p in paths ==> p in files
    requires forall r :: r in sorted ==> r.path in files && r.digest == hash.run(files[r.path])
    ensures DigestsOf(sorted) == ContentDigests(hash, files, paths)
  {
    forall i | 0 <= i < |sorted| ensures DigestsOf(sorted)[i] == ContentDigests(hash, files, paths)[i] {
      assert sorted[i] in sorted;
      assert sorted[i].path == Keys(PathOf, sorted)[i];
    }
  }

  /** File records in path order and directory records together cover the snapshot once. */
  lemma MergedRecords(hash: Hash, scope: Scope, files: seq<Entry>, directories: seq<Bytes>,
      results: seq<Record>, directoryRecords: seq<Record>)
    requires DistinctPaths(files) && Distinct(directories)
    requires forall d :: d in directories ==> d !in FileMap(files)
    requires Distinct(Keys(PathOf, results))
    requires forall p :: p in Keys(PathOf, results) <==> p in FileMap(files)
    requires forall k :: 0 <= k < |results| ==>
               results[k].path in FileMap(files)
               && WorkerDigest(hash, results[k].path, FileMap(files)[results[k].path], false) == Some(results[k].digest)
    requires |directoryRecords| == |directories|
    requires forall i :: 0 <= i < |directories| ==>
               |directories[i]| < LENGTH_LIMIT
               && directoryRecords[i] == Record(directories[i], hash.run(DirRecordInput(directories[i])))
    ensures var s := SnapshotOf(scope, files, directories);
            var records := SortBy(PathOf, results) + directoryRecords;
            && Distinct(Keys(PathOf, records))
            && (forall p :: p in Keys(PathOf, records) <==> p in s.Paths())
            && (s.Fits() <==> |s.Paths()| < LENGTH_LIMIT)
            && (s.Fits() ==> forall r :: r in records ==>
                r.path in s.Paths() && r.digest == hash.run(RecordInput(hash, s, r.path)))
  {
    hide FileRecordInput, DirRecordInput, SortBy, FileMap, RecordInput, WorkerDigest, Distinct, Keys;
    var s := SnapshotOf(scope, files, directories);
    var sorted := SortBy(PathOf, results);
    var records := sorted + directoryRecords;
    SortedPaths(results, FileMap(files).Keys);
    MergedKeys(sorted, directoryRecords, FileMap(files).Keys, directories);
    AllFit(hash, s, results, directories);
    if s.Fits() {
      FileRecordsFit(hash, s, results);
      DirectoryRecordsFit(hash, s, directories, directoryRecords);
    }
  }

  lemma FileRecordsFit(hash: Hash, s: Snapshot, results: seq<Record>)
    requires s.Fits()
    requires forall k :: 0 <= k < |results| ==>
               results[k].path in s.files
               && WorkerDigest(hash, results[k].path, s.files[results[k].path], false) == Some(results[k].digest)
    ensures forall r :: r in results ==> r.path in s.Paths() && r.digest == hash.run(RecordInput(hash, s, r.path))
  {
    hide FileRecordInput;
  }

  lemma DirectoryRecordsFit(hash: Hash, s: Snapshot, directories: seq<Bytes>, directoryRecords: seq<Record>)
    requires s.Fits() && s.directories == (set d | d in directories) && s.files.Keys !! s.directories
    requires |directoryRecords| == |directories|
    requires forall i :: 0 <= i < |directories| ==>
               |directories[i]| < LENGTH_LIMIT
               && directoryRecords[i] == Record(directories[i], hash.run(DirRecordInput(directories[i])))
    ensures forall r :: r in directoryRecords ==>
        r.path in s.Paths() && r.digest == hash.run(RecordInput(hash, s, r.path))
  {
    hide FileRecordInput, DirRecordInput;
    forall r | r in directoryRecords ensures r.path in s.Paths() && r.digest == hash.run(RecordInput(hash, s, r.path)) {
      var k :| 0 <= k < |directoryRecords| && directoryRecords[k] == r;
      assert directories[k] in directories;
    }
  }

  lemma MergedKeys(sorted: seq<Record>, directoryRecords: seq<Record>, files: set<Bytes>, directories: seq<Bytes>)
    requires Keys(PathOf, sorted) == Ordered(files) && Distinct(directories)
    requires Keys(PathOf, directoryRecords) == directories
    requires forall d :: d in directories ==> d !in files
    ensures Distinct(Keys(PathOf, sorted + directoryRecords))
    ensures forall p :: p in Keys(PathOf, sorted + directoryRecords) <==> p in files || p in directories
  {
    var first := Ordered(files);
    assert Keys(PathOf, sorted + directoryRecords) == first + directories;
    forall i, j | 0 <= i < j < |first| ensures first[i] != first[j] {
      LessTotal(first[i], first[j]);
    }
    forall i, j | 0 <= i < |first| && 0 <= j < |directories| ensures first[i] != directories[j] {
      assert first[i] in first && directories[j] in directories;
    }
  }

  lemma AllFit(hash: Hash, s: Snapshot, results: seq<Record>, directories: seq<Bytes>)
    requires s.directories == set d | d in directories
    requires forall p :: p in s.files ==> p in Keys(PathOf, results)
    requires forall k :: 0 <= k < |results| ==>
               results[k].path in s.files
               && WorkerDigest(hash, results[k].path, s.files[results[k].path], false) == Some(results[k].digest)
    requires forall d :: d in directories ==> |d| < LENGTH_LIMIT
    ensures s.Fits() <==> |s.Paths()| < LENGTH_LIMIT
  {
    forall p | p in s.files ensures |p| < LENGTH_LIMIT && |s.files[p]| < LENGTH_LIMIT {
      assert p in Keys(PathOf, results);
      var k :| 0 <= k < |results| && Keys(PathOf, results)[k] == p;
    }
  }

  lemma CanonicalRoot(hash: Hash, s: Snapshot, records: seq<Record>)
    requires Distinct(Keys(PathOf, records))
    requires forall p :: p in Keys(PathOf, records) <==> p in s.Paths()
    requires s.Fits() <==> |s.Paths()| < LENGTH_LIMIT
    requires s.Fits() ==> forall r :: r in records ==>
        r.path in s.Paths() && r.digest == hash.run(RecordInput(hash, s, r.path))
    ensures var digests := DigestsOf(SortBy(PathOf, records));
            && (|digests| < LENGTH_LIMIT <==> s.Fits())
            && (s.Fits() ==> hash.run(RootInput(hash, s.scope, digests)) == RootDigest(hash, s))
  {
    hide RecordInput, RootInput;
    SortedPaths(records, s.Paths());
    assert |SortBy(PathOf, records)| == |Ordered(s.Paths())| == |s.Paths()|;
    if s.Fits() {
      SortedRecordsAreCanonical(hash, s, records);
    }
  }
}
