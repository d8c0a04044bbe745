/** Judging a local file against an S3 object's metadata (scripts/s3_manage.py). */
module DownloadVerification {
  import opened Wrappers
  import opened Sequences
  import opened Digests
  import opened MultipartEtag

  datatype Category = Verified | Different | Error

  /** The two hash functions, and how the interpreter reads a part count. */
  datatype Checks = Checks(md5: Hash, sha256: Hash, parseInt: string -> Option<int>)

  /** What the tool learns about an object: ETag without quotes, length, and the recorded SHA-256 where
      it is well formed (already in lower case). */
  datatype Meta = Meta(etag: string, size: nat, sha256: Option<string>)

  const FILE_READ_BLOCK: nat := 8192

  method DigestOfFile(hash: Hash, file: Reader) returns (digest: string)
    requires file.Valid() && file.pos == 0
    modifies file
    ensures digest == Hex(hash.run(file.content))
  {
    hide Hex;
    var hasher := new Hasher(hash);
    while true
      invariant file.Valid() && hasher.fed == file.content[..file.pos]
      decreases |file.content| - file.pos
    {
      var chunk := file.Read(FILE_READ_BLOCK);
      if chunk == [] {
        break;
      }
      hasher.Update(chunk);
    }
    assert hasher.fed == file.content;
    digest := Hex(hasher.Digest());
  }

  /** The verdict on `content`. */
  ghost function Judge(checks: Checks, content: Bytes, meta: Meta): Category {
    if |content| != meta.size then Different
    else if meta.sha256.Some? then
      if Hex(checks.sha256.run(content)) == meta.sha256.value then Verified else Different
    else JudgeEtag(checks, content, meta.etag)
  }

  ghost function JudgeEtag(checks: Checks, content: Bytes, etag: string): Category {
    if '-' in etag then JudgeParts(checks, content, Split(etag, '-'))
    else if Lower(Hex(checks.md5.run(content))) == Lower(etag) then Verified
    else Different
  }

  ghost function JudgeParts(checks: Checks, content: Bytes, parts: seq<string>): Category {
    if |parts| != 2 then Error
    else JudgeMultipart(checks.md5, content, parts[0], checks.parseInt(parts[1]))
  }

  ghost function JudgeMultipart(md5: Hash, content: Bytes, etagHash: string, count: Option<int>): Category {
    match count
    case None => Error
    case Some(n) => if Matches(md5, content, etagHash, n) then Verified else Different
  }

  /** The three categories, each by its own condition. */
  lemma JudgeMeans(checks: Checks, content: Bytes, meta: Meta)
    ensures var etag, parts := meta.etag, Split(meta.etag, '-');
            var count := if |parts| == 2 then checks.parseInt(parts[1]) else None;
            var same := |content| == meta.size;
            && (Judge(checks, content, meta) == Verified <==>
                  && same
                  && (meta.sha256.Some? ==> Hex(checks.sha256.run(content)) == meta.sha256.value)
                  && (meta.sha256.None? && '-' !in etag ==> Lower(Hex(checks.md5.run(content))) == Lower(etag))
                  && (meta.sha256.None? && '-' in etag ==>
                        count.Some? && Matches(checks.md5, content, parts[0], count.value)))
            && (Judge(checks, content, meta) == Error <==>
                  same && meta.sha256.None? && '-' in etag && count.None?)
  {
    hide Hex, Lower, Matches, Split;
  }

  method VerifyDownloadFile(checks: Checks, content: Bytes, meta: Meta) returns (category: Category)
    ensures category == Judge(checks, content, meta)
  {
    hide Hex, Lower, Matches, Split;
    if |content| != meta.size {
      return Different;
    }
    var file := new Reader(content);
    if meta.sha256.Some? {
      var local := DigestOfFile(checks.sha256, file);
      return if local == meta.sha256.value then Verified else Different;
    }
    if '-' in meta.etag {
      var parts := Split(meta.etag, '-');
      if |parts| != 2 {
        return Error;
      }
      var partCount := checks.parseInt(parts[1]);
      if partCount.None? {
        return Error;
      }
      var matched := MultipartEtagMatches(checks.md5, content, parts[0], partCount.value);
      return if matched then Verified else Different;
    }
    var localEtag := DigestOfFile(checks.md5, file);
    category := if Lower(localEtag) == Lower(meta.etag) then Verified else Different;
  }

  /** How an ETag came about. */
  datatype Origin = Simple | Multipart(hash: string, count: string, chunk: nat)

  /** The ETag was built from `original` in the way `origin` says. */
  predicate BuiltFrom(checks: Checks, etag: string, original: Bytes, origin: Origin) {
    match origin
    case Simple => '-' !in etag && Lower(etag) == Hex(checks.md5.run(original))
    case Multipart(hash, count, chunk) =>
      && chunk > 0 && '-' !in hash && '-' !in count && etag == hash + ['-'] + count
      && Lower(hash) == Hex(EtagDigest(checks.md5, original, chunk))
      && checks.parseInt(count) == Some(|Parts(original, chunk)|)
  }

  /** Metadata which was recorded from `original`.  A recorded SHA-256 makes the ETag irrelevant. */
  predicate Honest(checks: Checks, meta: Meta, original: Bytes, origin: Origin) {
    && meta.size == |original|
    && if meta.sha256.Some? then meta.sha256.value == Hex(checks.sha256.run(original))
       else BuiltFrom(checks, meta.etag, original, origin)
  }

  /** A byte string which verifying `content` may feed to a hash function. */
  ghost predicate HashedFor(md5: Hash, content: Bytes, x: Bytes) {
    x == content || exists chunk: nat :: chunk > 0 && x in EtagInputs(md5, content, chunk)
  }

  lemma MultipartParts(hash: string, count: string)
    requires '-' !in hash && '-' !in count
    ensures '-' in hash + ['-'] + count && Split(hash + ['-'] + count, '-') == [hash, count]
  {
    assert (hash + ['-'] + count)[|hash|] == '-';
    SplitFirst(hash, count, '-');
    SplitWhole(count, '-');
  }

  /** A file verified against metadata of other content exhibits a collision: of SHA-256 where one is
      recorded, of MD5 otherwise. */
  lemma VerifiedIsOriginal(checks: Checks, content: Bytes, original: Bytes, meta: Meta, origin: Origin)
    returns (x: Bytes, y: Bytes)
    requires FixedWidth(checks.md5) && Honest(checks, meta, original, origin)
    requires Judge(checks, content, meta) == Verified && content != original
    ensures Collision(if meta.sha256.Some? then checks.sha256 else checks.md5, x, y)
    ensures HashedFor(checks.md5, content, x) && HashedFor(checks.md5, original, y)
  {
    hide Hex, Lower, Split, Matches;
    x, y := content, original;
    if meta.sha256.Some? {
      HexInjective(checks.sha256.run(content), checks.sha256.run(original));
    } else {
      match origin
      case Simple =>
        HexIsLower(checks.md5.run(content));
        HexInjective(checks.md5.run(content), checks.md5.run(original));
      case Multipart(hash, count, chunk) =>
        MultipartParts(hash, count);
        var localChunk;
        localChunk, x, y := MatchingIsCommitting(checks.md5, content, original, chunk, hash);
    }
  }

  /** The original itself is verified, provided a multipart upload used a standard chunk size. */
  lemma OriginalIsVerified(checks: Checks, original: Bytes, meta: Meta, origin: Origin)
    requires Honest(checks, meta, original, origin)
    requires origin.Multipart? ==> origin.chunk in STANDARD_CHUNK_SIZES
    ensures Judge(checks, original, meta) == Verified
  {
    hide Hex, Lower, Split, Matches;
    if meta.sha256.None? {
      match origin
      case Simple =>
        HexIsLower(checks.md5.run(original));
      case Multipart(hash, count, chunk) =>
        MultipartParts(hash, count);
        MatchingIsComplete(checks.md5, original, chunk, hash);
    }
  }
}
