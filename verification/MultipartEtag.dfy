/** Recomputing S3 multipart ETags without knowing the chunk size, and verifying a downloaded file
against its object's metadata (scripts/s3_manage.py). */
module MultipartEtag {
  import opened Sequences
  import opened Digests

  const MIB: nat := 1024 * 1024
  const ETAG_READ_BLOCK: nat := MIB
  const STANDARD_CHUNK_SIZES: seq<nat> :=
    [8 * MIB, 5 * MIB, 16 * MIB, 32 * MIB, 64 * MIB, 128 * MIB, 256 * MIB, 512 * MIB]

  // ---------------------------------------------------------------- chunk sizes

  /** The chunk size splits `size` bytes into exactly `count` parts. */
  predicate Splits(size: nat, count: int, chunk: nat) {
    (count - 1) * chunk < size <= count * chunk
  }

  function Consistent(sizes: seq<nat>, size: nat, count: int): (r: seq<nat>)
    ensures forall c :: c in r <==> c in sizes && Splits(size, count, c)
    ensures |r| <= |sizes|
  {
    if sizes == [] then []
    else (if Splits(size, count, sizes[0]) then [sizes[0]] else []) + Consistent(sizes[1..], size, count)
  }

  /** The elements of `r` follow one another as in `sizes`. */
  ghost predicate InOrderOf(r: seq<nat>, sizes: seq<nat>) {
    forall i, j :: 0 <= i < j < |r| ==> Follows(r[i], r[j], sizes)
  }

  ghost predicate Follows(x: nat, y: nat, sizes: seq<nat>) {
    exists p, q :: 0 <= p < q < |sizes| && sizes[p] == x && sizes[q] == y
  }

  lemma {:induction false} ConsistentInOrder(sizes: seq<nat>, size: nat, count: int)
    ensures InOrderOf(Consistent(sizes, size, count), sizes)
  {
    hide Splits;
    if sizes == [] {
    } else {
      var r, rest := Consistent(sizes, size, count), Consistent(sizes[1..], size, count);
      ConsistentInOrder(sizes[1..], size, count);
      forall i, j | 0 <= i < j < |r| ensures Follows(r[i], r[j], sizes) {
        var skip := |r| - |rest|;
        assert r[j] == rest[j - skip] && rest[j - skip] in sizes[1..];
        if i < skip {
          var q :| 0 <= q < |sizes[1..]| && sizes[1..][q] == r[j];
          assert sizes[0] == r[i] && sizes[q + 1] == r[j];
        } else {
          assert Follows(rest[i - skip], rest[j - skip], sizes[1..]);
          var p, q :| 0 <= p < q < |sizes[1..]| && sizes[1..][p] == r[i] && sizes[1..][q] == r[j];
          assert sizes[p + 1] == r[i] && sizes[q + 1] == r[j];
        }
      }
    }
  }

  function CandidateChunkSizes(size: nat, count: int): (r: seq<nat>)
    ensures forall c :: c in r ==> c > 0
    ensures count > 1 ==> forall c :: c in r <==> c in STANDARD_CHUNK_SIZES && Splits(size, count, c)
    ensures count > 1 ==> InOrderOf(r, STANDARD_CHUNK_SIZES)
    ensures count == 1 ==> r == [if size > 1 then size else 1]
    ensures count <= 0 ==> r == []
  {
    if count <= 0 then []
    else if count == 1 then [if size > 1 then size else 1]
    else
      ConsistentInOrder(STANDARD_CHUNK_SIZES, size, count);
      Consistent(STANDARD_CHUNK_SIZES, size, count)
  }

  lemma ScaleMonotone(a: int, b: int, d: nat)
    requires a <= b
    ensures a * d <= b * d
  {
  }

  /** From three parts on the part count identifies the chunk size; two parts leave one tie. */
  lemma CandidatesAreFew(size: nat, count: int)
    ensures count >= 3 ==> |CandidateChunkSizes(size, count)| <= 1
    ensures count == 2 ==> |CandidateChunkSizes(size, count)| <= 2
    ensures count == 2 && |CandidateChunkSizes(size, count)| == 2 <==> count == 2 && 8 * MIB < size <= 10 * MIB
    ensures count == 2 && 8 * MIB < size <= 10 * MIB ==> CandidateChunkSizes(size, count) == [8 * MIB, 5 * MIB]
  {
    if count >= 2 {
      hide Splits;
      var tail := Doubling(16 * MIB, 6);
      StandardSizes();
      ConsistentCons(8 * MIB, [5 * MIB] + tail, size, count);
      ConsistentCons(5 * MIB, tail, size, count);
      assert [8 * MIB] + ([5 * MIB] + tail) == [8 * MIB, 5 * MIB] + tail;
      assert CandidateChunkSizes(size, count) ==
             (if Splits(size, count, 8 * MIB) then [8 * MIB] else [])
             + ((if Splits(size, count, 5 * MIB) then [5 * MIB] else []) + Consistent(tail, size, count));
      DoublingTail(16 * MIB, 6, size, count);
      SmallSizes(size, count);
    }
  }

  lemma ConsistentCons(c: nat, rest: seq<nat>, size: nat, count: int)
    ensures Consistent([c] + rest, size, count) ==
        (if Splits(size, count, c) then [c] else []) + Consistent(rest, size, count)
  {
    assert ([c] + rest)[1..] == rest;
  }

  lemma SmallSizes(size: nat, count: int)
    requires count >= 2
    ensures Splits(size, count, 8 * MIB) || Splits(size, count, 5 * MIB) ==> size <= (count - 1) * (16 * MIB)
    ensures Splits(size, count, 8 * MIB) && Splits(size, count, 5 * MIB) <==> count == 2 && 8 * MIB < size <= 10 * MIB
  {
  }

  lemma StandardSizes()
    ensures STANDARD_CHUNK_SIZES == [8 * MIB, 5 * MIB] + Doubling(16 * MIB, 6)
  {
    var c: nat := 16 * MIB;
    DoublingUnfolds(c);
    assert [c, 2 * c, 4 * c, 8 * c, 16 * c, 32 * c]
        == [16 * MIB, 32 * MIB, 64 * MIB, 128 * MIB, 256 * MIB, 512 * MIB];
  }

  function Doubling(first: nat, n: nat): seq<nat>
    decreases n
  {
    if n == 0 then [] else [first] + Doubling(2 * first, n - 1)
  }

  lemma DoublingUnfolds(c: nat)
    ensures Doubling(c, 6) == [c, 2 * c, 4 * c, 8 * c, 16 * c, 32 * c]
  {
    assert Doubling(8 * c, 3) == [8 * c, 16 * c, 32 * c] by {
      assert Doubling(32 * c, 1) == [32 * c] + Doubling(64 * c, 0);
      assert Doubling(16 * c, 2) == [16 * c] + Doubling(32 * c, 1);
      assert Doubling(8 * c, 3) == [8 * c] + Doubling(16 * c, 2);
    }
    assert Doubling(4 * c, 4) == [4 * c] + Doubling(8 * c, 3);
    assert Doubling(2 * c, 5) == [2 * c] + Doubling(4 * c, 4);
  }

  /** Among doubling sizes at most one matches, and none does below the range of the first. */
  lemma {:induction false} DoublingTail(first: nat, n: nat, size: nat, count: int)
    requires count >= 2 && first > 0
    ensures |Consistent(Doubling(first, n), size, count)| <= 1
    ensures size <= (count - 1) * first ==> Consistent(Doubling(first, n), size, count) == []
    decreases n
  {
    if n == 0 {
    } else {
      var all := Doubling(first, n);
      assert all[0] == first && all[1..] == Doubling(2 * first, n - 1);
      DoublingTail(2 * first, n - 1, size, count);
      assert (count - 1) * (2 * first) == (count - 1) * first + (count - 1) * first;
      ScaleMonotone(1, count - 1, first);
      assert count * first == (count - 1) * first + first;
    }
  }

  // ---------------------------------------------------------------- parts

  function Chunks(content: Bytes, chunk: nat): seq<Bytes>
    requires chunk > 0
    decreases |content|
  {
    if content == [] then []
    else if |content| <= chunk then [content]
    else [content[..chunk]] + Chunks(content[chunk..], chunk)
  }

  /** The parts of a multipart upload; an empty file is one empty part. */
  function Parts(content: Bytes, chunk: nat): seq<Bytes>
    requires chunk > 0
  {
    if content == [] then [[]] else Chunks(content, chunk)
  }

  lemma {:induction false} ChunksConcat(content: Bytes, chunk: nat)
    requires chunk > 0
    ensures Concat(Chunks(content, chunk)) == content
    decreases |content|
  {
    if |content| <= chunk {
    } else {
      ChunksConcat(content[chunk..], chunk);
      var all := [content[..chunk]] + Chunks(content[chunk..], chunk);
      assert all[1..] == Chunks(content[chunk..], chunk);
    }
  }

  lemma {:induction false} ChunksCount(content: Bytes, chunk: nat)
    requires chunk > 0 && content != []
    ensures Splits(|content|, |Chunks(content, chunk)|, chunk)
    ensures forall i :: 0 <= i < |Chunks(content, chunk)| - 1 ==> |Chunks(content, chunk)[i]| == chunk
    decreases |content|
  {
    hide Splits;
    if |content| <= chunk {
      SplitsOnce(|content|, chunk);
    } else {
      ChunksCount(content[chunk..], chunk);
      SplitsOnceMore(|content| - chunk, |Chunks(content[chunk..], chunk)|, chunk);
    }
  }

  lemma Distributes(a: int, c: int)
    ensures (a + 1) * c == a * c + c
  {
  }

  lemma SplitsOnce(size: nat, chunk: nat)
    requires 0 < size <= chunk
    ensures Splits(size, 1, chunk)
  {
    assert 0 * chunk == 0 && 1 * chunk == chunk;
  }

  lemma SplitsOnceMore(size: nat, n: int, chunk: nat)
    requires Splits(size, n, chunk)
    ensures Splits(size + chunk, n + 1, chunk)
  {
    Distributes(n - 1, chunk);
    Distributes(n, chunk);
  }

  lemma CeilingSplits(size: nat, chunk: nat)
    requires chunk > 0
    ensures Splits(size, (size + chunk - 1) / chunk, chunk)
  {
    var total := size + chunk - 1;
    var n := total / chunk;
    Divides(total, chunk);
    Distributes(n - 1, chunk);
  }

  lemma Divides(total: nat, chunk: nat)
    requires chunk > 0
    ensures total / chunk * chunk <= total < total / chunk * chunk + chunk
  {
    assert total == total / chunk * chunk + total % chunk;
  }

  lemma SplitsUnique(size: nat, m: int, n: int, chunk: nat)
    requires Splits(size, m, chunk) && Splits(size, n, chunk)
    ensures m == n
  {
    if m < n {
      ScaleMonotone(m, n - 1, chunk);
    } else if n < m {
      ScaleMonotone(n, m - 1, chunk);
    }
  }

  /** The parts are the file, there are max(1, ceil(size / chunk)) of them, and all but the last are full. */
  lemma PartsAreTheFile(content: Bytes, chunk: nat)
    requires chunk > 0
    ensures Concat(Parts(content, chunk)) == content
    ensures |Parts(content, chunk)| == if content == [] then 1 else (|content| + chunk - 1) / chunk
    ensures forall i :: 0 <= i < |Parts(content, chunk)| - 1 ==> |Parts(content, chunk)[i]| == chunk
  {
    ChunksConcat(content, chunk);
    hide Splits, Chunks;
    if content == [] {
      NoChunks(content, chunk);
    } else {
      ChunksCount(content, chunk);
      CeilingSplits(|content|, chunk);
      SplitsUnique(|content|, |Chunks(content, chunk)|, (|content| + chunk - 1) / chunk, chunk);
    }
  }

  /** Every candidate really gives the part count it was selected for. */
  lemma CandidateGivesCount(content: Bytes, count: int, chunk: nat)
    requires chunk in CandidateChunkSizes(|content|, count)
    ensures chunk > 0 && |Parts(content, chunk)| == count
  {
    hide CandidateChunkSizes, Chunks, Splits;
    if count == 1 {
      WholeIsOneChunk(content, chunk);
    } else {
      assert Splits(|content|, count, chunk);
      if content != [] {
        ChunksCount(content, chunk);
        SplitsUnique(|content|, |Chunks(content, chunk)|, count, chunk);
      } else {
        EmptySplitsNever(count, chunk);
      }
    }
  }

  lemma WholeIsOneChunk(content: Bytes, chunk: nat)
    requires chunk > 0 && |content| <= chunk
    ensures Parts(content, chunk) == [content]
  {
  }

  lemma EmptySplitsNever(count: int, chunk: nat)
    requires count > 1 && chunk > 0
    ensures !Splits(0, count, chunk)
  {
    ScaleMonotone(1, count - 1, chunk);
  }

  // ---------------------------------------------------------------- ETags

  function PartDigests(md5: Hash, parts: seq<Bytes>): (digests: seq<Bytes>)
    ensures |digests| == |parts|
    ensures forall i :: 0 <= i < |parts| ==> digests[i] == md5.run(parts[i])
    ensures FixedWidth(md5) ==> forall d :: d in digests ==> |d| == md5.width
  {
    seq(|parts|, i requires 0 <= i < |parts| => md5.run(parts[i]))
  }

  function EtagDigest(md5: Hash, content: Bytes, chunk: nat): Bytes
    requires chunk > 0
  {
    md5.run(Concat(PartDigests(md5, Parts(content, chunk))))
  }

  /** Every byte string hashed on the way to a multipart ETag. */
  ghost function EtagInputs(md5: Hash, content: Bytes, chunk: nat): set<Bytes>
    requires chunk > 0
  {
    var parts := Parts(content, chunk);
    {Concat(PartDigests(md5, parts))} + set part | part in parts
  }

  function HexDigit(n: nat): char
    requires n < 16
  {
    "0123456789abcdef"[n]
  }

  /** `digest.hex()`. */
  function Hex(bytes: Bytes): string {
    if bytes == [] then "" else [HexDigit(bytes[0] / 16), HexDigit(bytes[0] % 16)] + Hex(bytes[1..])
  }

  function LowerChar(c: char): char {
    if 'A' <= c <= 'Z' then (c as int - 'A' as int + 'a' as int) as char else c
  }

  function Lower(s: string): string {
    seq(|s|, i requires 0 <= i < |s| => LowerChar(s[i]))
  }

  lemma {:induction false} HexInjective(x: Bytes, y: Bytes)
    requires Hex(x) == Hex(y)
    ensures x == y
  {
    if x == [] || y == [] {
    } else {
      assert Hex(x)[2..] == Hex(x[1..]) && Hex(y)[2..] == Hex(y[1..]);
      HexInjective(x[1..], y[1..]);
      HexDigitInjective(x[0] / 16, y[0] / 16, Hex(x)[0]);
      HexDigitInjective(x[0] % 16, y[0] % 16, Hex(x)[1]);
      assert x[0] == y[0];
      assert x == [x[0]] + x[1..] && y == [y[0]] + y[1..];
    }
  }

  lemma HexDigitInjective(m: nat, n: nat, c: char)
    requires m < 16 && n < 16 && HexDigit(m) == c && HexDigit(n) == c
    ensures m == n
  {
  }

  lemma HexIsLower(x: Bytes)
    ensures Lower(Hex(x)) == Hex(x) && '-' !in Hex(x)
  {
    HexIsLowerAt(x);
    assert forall i :: 0 <= i < |Hex(x)| ==> Hex(x)[i] in Hex(x);
  }

  lemma {:induction false} HexIsLowerAt(x: Bytes)
    ensures forall c :: c in Hex(x) ==> LowerChar(c) == c && c != '-'
  {
    hide LowerChar, HexDigit;
    if x == [] {
    } else {
      HexIsLowerAt(x[1..]);
      DigitIsLower(x[0] / 16);
      DigitIsLower(x[0] % 16);
    }
  }

  lemma DigitIsLower(n: nat)
    requires n < 16
    ensures LowerChar(HexDigit(n)) == HexDigit(n) != '-'
  {
  }

  /** The value of a hexadecimal digit, -1 where the character is none. */
  function HexValue(c: char): int {
    if '0' <= c <= '9' then c as int - '0' as int
    else if 'a' <= c <= 'f' then c as int - 'a' as int + 10
    else -1
  }

  lemma DigitMeans(n: nat)
    requires n < 16
    ensures HexValue(HexDigit(n)) == n
  {
  }

  /** Two lower-case digits a byte, the higher first. */
  lemma {:induction false} HexMeans(x: Bytes)
    ensures |Hex(x)| == 2 * |x|
    ensures forall i :: 0 <= i < |x| ==>
              && 0 <= HexValue(Hex(x)[2 * i]) < 16 && 0 <= HexValue(Hex(x)[2 * i + 1]) < 16
              && 16 * HexValue(Hex(x)[2 * i]) + HexValue(Hex(x)[2 * i + 1]) == x[i]
  {
    hide HexDigit, HexValue, Hex;
    if x == [] {
      HexOfNothing();
    } else {
      HexMeans(x[1..]);
      DigitMeans(x[0] / 16);
      DigitMeans(x[0] % 16);
      HexFirst(x);
      forall i | 0 < i < |x|
        ensures && 0 <= HexValue(Hex(x)[2 * i]) < 16 && 0 <= HexValue(Hex(x)[2 * i + 1]) < 16
                && 16 * HexValue(Hex(x)[2 * i]) + HexValue(Hex(x)[2 * i + 1]) == x[i]
      {
        var j := i - 1;
        assert x[i] == x[1..][j];
        assert Hex(x)[2 * i] == Hex(x)[2..][2 * j] && Hex(x)[2 * i + 1] == Hex(x)[2..][2 * j + 1];
      }
    }
  }

  lemma HexOfNothing()
    ensures Hex([]) == ""
  {
  }

  lemma HexFirst(x: Bytes)
    requires x != []
    ensures |Hex(x)| == 2 + |Hex(x[1..])| && Hex(x)[2..] == Hex(x[1..])
    ensures Hex(x)[0] == HexDigit(x[0] / 16) && Hex(x)[1] == HexDigit(x[0] % 16)
  {
    hide HexDigit;
  }

  const UPPER: string := "ABCDEFGHIJKLMNOPQRSTUVWXYZ"
  const LOWER: string := "abcdefghijklmnopqrstuvwxyz"

  /** Upper-case letters become lower-case ones, and nothing else changes. */
  lemma LowerMeans(s: string)
    ensures |Lower(s)| == |s|
    ensures forall i, k :: 0 <= i < |s| && 0 <= k < 26 && s[i] == UPPER[k] ==> Lower(s)[i] == LOWER[k]
    ensures forall i :: 0 <= i < |s| && s[i] !in UPPER ==> Lower(s)[i] == s[i]
  {
    forall c: char | c !in UPPER ensures LowerChar(c) == c {
      UpperLetters(c);
    }
    forall k | 0 <= k < 26 ensures LowerChar(UPPER[k]) == LOWER[k] {
      LetterAt(k);
    }
  }

  lemma UpperLetters(c: char)
    ensures 'A' <= c <= 'Z' ==> c in UPPER
  {
    if 'A' <= c <= 'Z' {
      var k := c as int - 'A' as int;
      LetterAt(k);
      assert UPPER[k] == c;
    }
  }

  lemma LetterAt(k: int)
    requires 0 <= k < 26
    ensures UPPER[k] as int == 'A' as int + k && LOWER[k] as int == 'a' as int + k
  {
  }

  /** The content in pieces of `chunk` bytes, the last one shorter or not; no content is one empty piece. */
  ghost predicate IsPartition(content: Bytes, chunk: nat, parts: seq<Bytes>) {
    && parts != [] && Concat(parts) == content
    && (forall i :: 0 <= i < |parts| - 1 ==> |parts[i]| == chunk)
    && |parts[|parts| - 1]| <= chunk && (content != [] ==> parts[|parts| - 1] != [])
  }

  lemma {:induction false} PartitionIsUnique(content: Bytes, chunk: nat, parts: seq<Bytes>)
    requires chunk > 0 && content != [] && IsPartition(content, chunk, parts)
    ensures parts == Chunks(content, chunk)
    decreases |parts|
  {
    assert parts == [parts[0]] + parts[1..];
    if |parts| == 1 {
      assert Concat(parts) == parts[0] + Concat(parts[1..]) && parts[1..] == [];
      assert content == parts[0];
      assert parts == [content];
    } else {
      var rest := parts[1..];
      assert content[..chunk] == parts[0] && content[chunk..] == Concat(rest);
      assert rest[|rest| - 1] == parts[|parts| - 1];
      LastInConcat(rest);
      PartitionIsUnique(content[chunk..], chunk, rest);
    }
  }

  lemma {:induction false} LastInConcat(parts: seq<Bytes>)
    requires parts != []
    ensures |Concat(parts)| >= |parts[|parts| - 1]|
  {
    if |parts| == 1 {
    } else {
      LastInConcat(parts[1..]);
    }
  }

  /** A multipart digest is the MD5 of the MD5 digests of the parts, one after the other. */
  lemma EtagMeans(md5: Hash, content: Bytes, chunk: nat, parts: seq<Bytes>)
    requires chunk > 0 && IsPartition(content, chunk, parts) && (content == [] ==> |parts| == 1)
    ensures EtagDigest(md5, content, chunk) ==
            md5.run(Concat(seq(|parts|, i requires 0 <= i < |parts| => md5.run(parts[i]))))
  {
    hide Chunks;
    if content == [] {
      assert parts[0] == [] by { assert Concat(parts) == parts[0] + Concat(parts[1..]); }
      assert parts == [[]];
    } else {
      PartitionIsUnique(content, chunk, parts);
    }
    assert parts == Parts(content, chunk);
    assert PartDigests(md5, parts) == seq(|parts|, i requires 0 <= i < |parts| => md5.run(parts[i]));
  }

  lemma StandardSizesMean()
    ensures STANDARD_CHUNK_SIZES ==
            [8388608, 5242880, 16777216, 33554432, 67108864, 134217728, 268435456, 536870912]
  {
  }

  /** The inner loop: feeds up to `chunk` bytes to the hasher of one part. */
  method ReadPart(file: Reader, part: Hasher, chunk: nat) returns (remaining: nat)
    requires chunk > 0 && file.Valid() && part.fed == []
    modifies file, part
    ensures file.Valid() && old(file.pos) <= file.pos
    ensures part.fed == file.content[old(file.pos)..file.pos]
    ensures remaining == chunk - (file.pos - old(file.pos))
    ensures remaining > 0 ==> file.pos == |file.content|
  {
    remaining := chunk;
    while remaining > 0
      invariant file.Valid() && old(file.pos) <= file.pos
      invariant remaining == chunk - (file.pos - old(file.pos))
      invariant part.fed == file.content[old(file.pos)..file.pos]
      decreases remaining
    {
      var block := file.Read(if ETAG_READ_BLOCK <= remaining then ETAG_READ_BLOCK else remaining);
      if block == [] {
        break;
      }
      part.Update(block);
      remaining := remaining - |block|;
    }
  }

  /** Reads the parts of an open file, whatever lengths the individual reads return. */
  method MultipartEtagForChunkSize(md5: Hash, file: Reader, chunk: nat) returns (hash: string, count: nat)
    requires chunk > 0 && file.Valid() && file.pos == 0
    modifies file
    ensures hash == Hex(EtagDigest(md5, file.content, chunk))
    ensures count == |Parts(file.content, chunk)|
  {
    hide Chunks, Hex, Concat, PartDigests;
    var md5Digests: seq<Bytes> := [];
    ghost var done: seq<Bytes> := [];
    while true
      invariant file.Valid()
      invariant Chunks(file.content, chunk) == done + Chunks(file.content[file.pos..], chunk)
      invariant md5Digests == PartDigests(md5, done)
      decreases |file.content| - file.pos
    {
      ghost var start := file.pos;
      var part := new Hasher(md5);
      var remaining := ReadPart(file, part, chunk);
      if remaining == chunk {
        break;
      }
      NextChunk(file.content, start, file.pos, chunk);
      AppendDigest(md5, done, file.content[start..file.pos], Chunks(file.content[file.pos..], chunk));
      md5Digests := md5Digests + [part.Digest()];
      done := done + [file.content[start..file.pos]];
    }
    AllParts(md5, file.content, file.pos, chunk, done);
    if md5Digests == [] {
      md5Digests := [md5.run([])];
    }
    return Hex(md5.run(Concat(md5Digests))), |md5Digests|;
  }

  lemma AppendDigest(md5: Hash, done: seq<Bytes>, part: Bytes, rest: seq<Bytes>)
    ensures PartDigests(md5, done + [part]) == PartDigests(md5, done) + [md5.run(part)]
    ensures done + ([part] + rest) == done + [part] + rest
  {
  }

  lemma AllParts(md5: Hash, content: Bytes, pos: nat, chunk: nat, done: seq<Bytes>)
    requires chunk > 0 && pos == |content| && Chunks(content, chunk) == done + Chunks(content[pos..], chunk)
    ensures PartDigests(md5, Parts(content, chunk)) == if PartDigests(md5, done) == [] then [md5.run([])]
        else PartDigests(md5, done)
  {
    assert content[pos..] == [];
    NoChunks(content, chunk);
    assert Chunks(content, chunk) == done;
    assert PartDigests(md5, [[]]) == [md5.run([])];
  }

  lemma NoChunks(content: Bytes, chunk: nat)
    requires chunk > 0
    ensures Chunks(content, chunk) == [] <==> content == []
  {
  }

  lemma NextChunk(content: Bytes, start: nat, stop: nat, chunk: nat)
    requires 0 < chunk && start < stop <= |content| && stop - start <= chunk
    requires stop - start == chunk || stop == |content|
    ensures Chunks(content[start..], chunk) == [content[start..stop]] + Chunks(content[stop..], chunk)
  {
    var rest := content[start..];
    if |rest| > chunk {
      assert rest[..chunk] == content[start..stop] && rest[chunk..] == content[stop..];
    } else {
      assert content[start..stop] == rest && content[stop..] == [];
    }
  }

  ghost predicate Reproduces(md5: Hash, content: Bytes, chunk: nat, etagHash: string) {
    chunk > 0 && Lower(Hex(EtagDigest(md5, content, chunk))) == Lower(etagHash)
  }

  ghost predicate Matches(md5: Hash, content: Bytes, etagHash: string, count: int) {
    exists chunk :: chunk in CandidateChunkSizes(|content|, count) && Reproduces(md5, content, chunk, etagHash)
  }

  method MultipartEtagMatches(md5: Hash, content: Bytes, etagHash: string, count: int) returns (b: bool)
    ensures b == Matches(md5, content, etagHash, count)
  {
    hide Lower, Hex, EtagDigest, Parts, CandidateChunkSizes;
    var candidates := CandidateChunkSizes(|content|, count);
    for i := 0 to |candidates|
      invariant forall k :: 0 <= k < i ==> !Reproduces(md5, content, candidates[k], etagHash)
    {
      CandidateGivesCount(content, count, candidates[i]);
      var file := new Reader(content);
      var localHash, localParts := MultipartEtagForChunkSize(md5, file, candidates[i]);
      if localParts == count && Lower(localHash) == Lower(etagHash) {
        return true;
      }
    }
    b := false;
  }

  /** Soundness as a reduction.  A file which matches an ETag built from other content, with whatever
      chunk size, exhibits two different byte strings with one MD5, one of them hashed on each side. */
  lemma MatchingIsCommitting(md5: Hash, content: Bytes, original: Bytes, chunk: nat, etagHash: string)
    returns (localChunk: nat, x: Bytes, y: Bytes)
    requires FixedWidth(md5) && chunk > 0 && content != original
    requires Lower(etagHash) == Hex(EtagDigest(md5, original, chunk))
    requires Matches(md5, content, etagHash, |Parts(original, chunk)|)
    ensures localChunk > 0 && Collision(md5, x, y)
    ensures x in EtagInputs(md5, content, localChunk) && y in EtagInputs(md5, original, chunk)
  {
    hide Lower, Hex, Chunks, CandidateChunkSizes, Concat;
    var count := |Parts(original, chunk)|;
    localChunk :| localChunk in CandidateChunkSizes(|content|, count) && Reproduces(md5, content, localChunk, etagHash);
    HexIsLower(EtagDigest(md5, content, localChunk));
    HexInjective(EtagDigest(md5, content, localChunk), EtagDigest(md5, original, chunk));
    CandidateGivesCount(content, count, localChunk);
    PartsAreTheFile(content, localChunk);
    PartsAreTheFile(original, chunk);
    x, y := DifferentParts(md5, Parts(content, localChunk), Parts(original, chunk));
  }

  /** Equally many parts with one combined digest differ only by a collision. */
  lemma DifferentParts(md5: Hash, xs: seq<Bytes>, ys: seq<Bytes>) returns (x: Bytes, y: Bytes)
    requires FixedWidth(md5) && |xs| == |ys| && xs != ys
    requires md5.run(Concat(PartDigests(md5, xs))) == md5.run(Concat(PartDigests(md5, ys)))
    ensures Collision(md5, x, y)
    ensures x == Concat(PartDigests(md5, xs)) || x in xs
    ensures y == Concat(PartDigests(md5, ys)) || y in ys
  {
    var dx, dy := PartDigests(md5, xs), PartDigests(md5, ys);
    if Concat(dx) != Concat(dy) {
      return Concat(dx), Concat(dy);
    }
    FixedWidthPieces(dx, dy, md5.width);
    var i :| 0 <= i < |xs| && xs[i] != ys[i];
    assert dx[i] == dy[i];
    return xs[i], ys[i];
  }

  /** Completeness: an ETag built with any standard chunk size is accepted for its own content. */
  lemma MatchingIsComplete(md5: Hash, content: Bytes, chunk: nat, etagHash: string)
    requires chunk in STANDARD_CHUNK_SIZES
    requires chunk > 0 && Lower(etagHash) == Hex(EtagDigest(md5, content, chunk))
    ensures Matches(md5, content, etagHash, |Parts(content, chunk)|)
  {
    HexIsLower(EtagDigest(md5, content, chunk));
    hide Lower, Hex, Splits, Concat;
    var count := |Parts(content, chunk)|;
    if content != [] {
      ChunksCount(content, chunk);
    }
    if count == 1 {
      var whole := if |content| > 1 then |content| else 1;
      assert whole in CandidateChunkSizes(|content|, count);
      assert Parts(content, whole) == [content] == Parts(content, chunk);
      assert EtagDigest(md5, content, whole) == EtagDigest(md5, content, chunk);
    } else {
      assert chunk in CandidateChunkSizes(|content|, count);
    }
  }
}
