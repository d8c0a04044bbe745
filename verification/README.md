# The Python tooling of swblocks-baselib, modelled and proved

Four programs of the repository decide things that other work relies on. This project models what they decide and
proves what their documentation promises.

**Stream comparison** (`scripts/utests/utf_ppstream.py`): two preprocessed token streams are compared while identical
lines are skipped untokenized, the sides are refilled unevenly, and one line-number shift is discovered greedily and
threaded through every translation unit. `TokenStream` flattens a side into items (tokens with their file, raw-literal
lines, the end) and proves the stateful loops equal to a pairwise specification, in both directions.

**Tree digest** (`scripts/bl_tool.py`): `TreeHash` is the record format and what it commits to, `ByteOrder` sorting by
path bytes, `HashCommand` the hashing loops and the merge, `TreeWalk` the directory walk. The hash is a parameter, a
function with outputs of one width; nothing assumes it injective. A commitment is a reduction: from two different inputs
with one digest a lemma computes two different byte strings with one hash, one of them hashed for each input.

**Downloads** (`scripts/s3_manage.py`): `DownloadKeys` parses keys and resolves destinations, `Preflight` is the trie as
heap nodes with its invariant, `DownloadProtocol` a machine of workers whose steps are single system calls which a
scheduler interleaves and may make fail, `Isolation` says exactly when workers cannot tell that the others exist,
`Outcomes` what the outcome of a worker says about the tree and the bytes when any call may fail, `DownloadRun` ties the
preflight to the workers, `MultipartEtag` and `DownloadVerification` say what a verified file is.

**Test inventory** (`scripts/utests/utf_inventory.py`): `Members` splits helper blocks, `Scanner` specifies the one-pass
scanner and `HeaderScan` is its loops, `LineLaws` and `ScanLaws` say of the lines alone what a scan reports, `Concatenation` scans pieces in their place, `Capture` builds the manifest of a tree,
`Gate` compares two manifests and `Intrinsic` checks one, `Agreement` says what a pass means, `Commitment` leads from equal
hashes back to equal text, and `Relocation` is the purpose of the tool: which ways of moving self-contained pieces between
headers and modules get a pass. The regular expressions are abstract functions on lines, collected in `Grammar`. A piece is
self-contained when, scanned alone, it reports no problem and leaves both stacks empty, never closes a conditional it did
not open, starts the doc comments of its own cases, and ends neither in a comment nor in a bare `namespace` line.
Concatenating two parts needs less: the second part may leave its stacks open, and the first may close what it did not open.

A loop or an object which the programs update step by step is a method or a class here, proved against a function; the
results are lemmas about these functions.

Where the code and its own comments disagree, the code is followed. The header of `utf_ppstream.py` (lines 51-52) says
that a raw string literal can never lead to a PASS. It can: an identical line is skipped before it is tokenized
(lines 257-258 against 155-156). `TokenStream.RawLiteralCanPass` is an input, and `TokenStream.RawLiteralVerdict` says when
exactly it happens. Likewise a one-sided tail of lines without any token fails the comparison (lines 250-255):
`TokenStream.TrailingBlankLineFails` is an input, and `TokenStream.TokensDecide` the exact condition. `utf_inventory.py` (lines
120-125) says that the style of helper members, no bracket left open across a blank line, is asserted on every run by the
diagnostic for uncovered lines. That diagnostic can never fire, and nothing else in the scan checks helper blocks:
`Concatenation.NothingIsUncovered` and `Concatenation.OnlyCasesDrawProblems` show it for all inputs, and
`Concatenation.OpenBracketGoesUnnoticed` is an input which breaks the style and draws no problem.

Two more promises hold only on a condition. The comparison of two manifests promises that no test is lost, but only the later
manifest is checked for duplicate names (line 786 of `utf_inventory.py`; a baseline which fails C5 is written all the same,
lines 780-783). From a baseline which holds a name twice a test can get lost and the verdict is a pass:
`Agreement.DuplicateHidesLoss` is such an input, and `Agreement.PassIsRightWhenBaselineIsUnique` shows that a pass is right if
and only if the baseline holds no name twice.

And a clean preflight alone does not isolate the workers: `mkstemp` makes its names (`.s3dl-` and eight characters) in the
folder of a destination, and key validation accepts such names. `Isolation.IsolatedExactlyWhenApart` gives the exact
condition on the destinations, and `DownloadRun.CleanPreflightIsNotEnough` two accepted keys, such as `.s3dl-abcdefgh/b` and
`a`, which pass the preflight and interfere.

## Model

| member | source | states |
|---|---|---|
| TokenStream.Stream.constructor | scripts/utests/utf_ppstream.py:169-175 | the fields of a new side, which offers the items of the whole stream |
| TokenStream.Stream.NextLine | scripts/utests/utf_ppstream.py:177-196 | the next line which is no line marker, the file it is attributed to, and exactly one more line counted |
| TokenStream.MarkerMeans | scripts/utests/utf_ppstream.py:182-190 | a line names a file iff it starts with `#` and the expression for line markers matches |
| TokenStream.NextContentItems | scripts/utests/utf_ppstream.py:177-196 | line markers carry no item: what is still to be compared is the items of the next content line, or the end |
| TokenStream.Stream.PushLine | scripts/utests/utf_ppstream.py:198-201 | the tokens of the line are queued with the current file; nothing is queued where it carries a raw literal |
| TokenStream.Stream.Refill | scripts/utests/utf_ppstream.py:203-219 | refilling one side only, however unevenly, leaves the final verdict, the shift and the count of differences as they were; where it cannot refill, no pairing can pass |
| TokenStream.GapIsDelay | scripts/utests/utf_ppstream.py:203-219 | token-free lines only delay the next raw literal or the end, never a token |
| TokenStream.PushedAgainstToken | scripts/utests/utf_ppstream.py:203-219 | queueing one line against a waiting token preserves the verdict; a raw literal met there cannot pass |
| TokenStream.CommonLineDrops | scripts/utests/utf_ppstream.py:257-258 | skipping an identical line without tokenizing it is sound, whichever files the sides attribute it to |
| TokenStream.PushedPair | scripts/utests/utf_ppstream.py:260-275 | tokenizing two different lines at a common boundary preserves the verdict |
| TokenStream.NextLines | scripts/utests/utf_ppstream.py:236-275 | the step at a common line boundary keeps verdict, shift and count, shortens the input, and where it ends the comparison the verdict is already decided |
| TokenStream.LockstepIsAgreement | scripts/utests/utf_ppstream.py:277-318 | greedy discovery is exact: it passes iff some one amount explains every pair, and the shift it leaves admits exactly the amounts which do |
| TokenStream.CompareStreams | scripts/utests/utf_ppstream.py:222-318 | no failure is reported iff the flattened sides pass, then with their shift and number of shifted pairs; otherwise one failure which names the offending pair; a known shift is never changed |
| TokenStream.CompareUnit | scripts/utests/utf_ppstream.py:438-511 | a unit is clean for exactly the amounts which explain it and both preprocessors exited with 0; on a failure no admissible amount would |
| TokenStream.CompareRun | scripts/utests/utf_ppstream.py:575-618 | exit 0 iff there is a unit and one integer explains every difference of every unit; the shift it reports is exactly that integer, the count exact; 3 iff nothing was selected |
| TokenStream.DecimalMeans | scripts/utests/utf_ppstream.py:109 | a token stands for the integer `n` iff it is the decimal spelling of `n`, found by repeated division, with any number of zeros in front |
| TokenStream.EveryDecimalIsSpelled | scripts/utests/utf_ppstream.py:109 | the tokens of digits only are exactly these spellings |
| TokenStream.AgreeMeans | scripts/utests/utf_ppstream.py:285-311 | a pair is explained by an amount iff both items are alike, or both are tokens of the shift file and spell integers which are that amount apart |
| TokenStream.DifferingCounts | scripts/utests/utf_ppstream.py:285-303 | the count of differences is the number of positions at which the sides differ in text |
| TokenStream.TokensMean | scripts/utests/utf_ppstream.py:177-201 | the tokens of a side are those of its lines in order, each attributed to the file which the last line marker above it names |
| TokenStream.SwapNegates | scripts/utests/utf_ppstream.py:222-318 | swapping the sides keeps the verdict and negates the shift |
| TokenStream.PlainItems | scripts/utests/utf_ppstream.py:222-318 | without raw literals a side is its token sequence followed by the length of its token-free tail |
| TokenStream.TokensDecide | scripts/utests/utf_ppstream.py:236-318 | without raw literals: passes iff one amount explains the token sequences and both sides end in equally many token-free lines |
| TokenStream.RegroupingIsInvisible | scripts/utests/utf_ppstream.py:222-318 | regrouping the same tokens into other lines never changes the verdict |
| TokenStream.IdenticalSidesPass | scripts/utests/utf_ppstream.py:257-258 | identical sides pass, raw literals included |
| TokenStream.RawLiteralVerdict | scripts/utests/utf_ppstream.py:51-52 | for all inputs: passes iff every raw-literal line and the end is answered by the same line at the same item position after equally many token-free lines, and the tokens agree |
| TokenStream.RawLiteralCanPass | scripts/utests/utf_ppstream.py:51-52 | an input on which a raw literal leads to a pass, against the file's header |
| TokenStream.TrailingBlankLineFails | scripts/utests/utf_ppstream.py:250-255 | an input with equal token sequences which fails |
| TreeHash.EncodeLengthInjective | scripts/bl_tool.py:129-131 | a length field determines the length |
| TreeHash.EncodeLengthValue | scripts/bl_tool.py:129-131 | read with the most significant byte first, the eight bytes are the length |
| TreeHash.TagBytes | scripts/bl_tool.py:46-49 | the bytes of the four tags, written out |
| TreeHash.Layouts | scripts/bl_tool.py:387-470 | the three record layouts field by field, with lengths as values of eight-byte fields |
| TreeHash.DomainSeparation | scripts/bl_tool.py:46-52 | a file record, a directory record and a root are never the same byte string, whatever they hold |
| TreeHash.FileRecordInjective | scripts/bl_tool.py:387-400 | a file record determines path, size and content digest |
| TreeHash.DirRecordInjective | scripts/bl_tool.py:430-437 | a directory record determines the path |
| TreeHash.RootInputInjective | scripts/bl_tool.py:457-470 | the root preimage determines scope, count and every record |
| TreeHash.EqualInputs | scripts/bl_tool.py:387-437 | equal records are of one path and one kind, and of equal content digests |
| TreeHash.RecordCollision | scripts/bl_tool.py:457-470 | different snapshots with equal record lists exhibit a collision |
| TreeHash.RootDigestMeans | scripts/bl_tool.py:440-470 | the digest of a snapshot hashes the scope, the count, and one record per path in the increasing order of the paths, each the hash of its file or directory record |
| TreeHash.TreeCommitment | scripts/bl_tool.py:440-470 | two different (scope, directories, path to content) inputs with one root digest yield two different byte strings with one hash, one hashed for each |
| ByteOrder.SortedByKey | scripts/bl_tool.py:284-286 | sorting by path bytes keeps the elements and increases strictly where the paths are distinct |
| ByteOrder.SortIgnoresOrder | scripts/bl_tool.py:631-640 | listings of the same paths sort alike |
| ByteOrder.LessMeans | scripts/bl_tool.py:284-286 | the order is lexicographic: a proper prefix, or smaller at the first byte which differs |
| HashCommand.HashWorker | scripts/bl_tool.py:352-413 | the record digest of the file whatever lengths the reads return; no digest where a length does not fit its field |
| HashCommand.HashDirRecord | scripts/bl_tool.py:416-437 | the directory record digest, or none where the path length does not fit |
| HashCommand.FeedBlocks | scripts/bl_tool.py:466-468 | the hasher has been fed the concatenation; the block size leaves no trace |
| HashCommand.ComputeRootDigest | scripts/bl_tool.py:440-470 | the hash of the one root preimage, for every block size |
| HashCommand.CombineHashes | scripts/bl_tool.py:473-509 | one digest passes through, several are hashed together in order |
| HashCommand.RawDigestMeans | scripts/bl_tool.py:473-509 | the raw content digest: the digest of the one file, or the hash of all digests in the order of the paths |
| HashCommand.RunWorkers | scripts/bl_tool.py:592-605 | in any completion order: a record for every file and no other, each with its digest; no result iff some worker has none |
| HashCommand.HashDirectories | scripts/bl_tool.py:632-635 | a record per directory, in order |
| HashCommand.SortedPaths | scripts/bl_tool.py:631-640 | sorting distinct paths gives the one increasing listing of them |
| HashCommand.SortedRecordsAreCanonical | scripts/bl_tool.py:631-640 | records which cover the snapshot sort into its canonical record list |
| HashCommand.MergedRecords | scripts/bl_tool.py:631-640 | file and directory records together cover every path of the snapshot once, with the right digest |
| HashCommand.CanonicalRoot | scripts/bl_tool.py:631-640 | the root over the sorted records is the root digest of the snapshot |
| HashCommand.CommandHash | scripts/bl_tool.py:587-640 | the digest is a function of the snapshot alone: any worker order, listing order and block size give it; in `--exclude-paths` mode it is a function of the path to content map |
| TreeWalk.RelativeInjective | scripts/bl_tool.py:195-213 | different entries have different canonical path bytes |
| TreeWalk.NamesMean | scripts/bl_tool.py:195-280 | a hidden name starts with a dot, and a relative path is its names with a slash between them |
| TreeWalk.CollectDirectories | scripts/bl_tool.py:252-260 | all directories of one listing, or a link among them |
| TreeWalk.CollectFiles | scripts/bl_tool.py:262-282 | all files of one listing which are not filtered as hidden, or an irregular one among them |
| TreeWalk.WalkStep | scripts/bl_tool.py:245-282 | listing one more directory keeps the account of what was seen |
| TreeWalk.WalkIsComplete | scripts/bl_tool.py:245-282 | a walk which has run out of directories has seen every entry without a hidden component |
| TreeWalk.AncestorsAreVisible | scripts/bl_tool.py:248-250 | pruning is consistent: every ancestor of a visible entry is a visible directory |
| TreeWalk.CollectTree | scripts/bl_tool.py:216-288 | succeeds iff nothing visible is a link, irregular or unreadable; then both lists increase strictly and hold exactly the visible files with their contents and the visible directories; otherwise it names an offender |
| TreeWalk.CollectedIsPresented | scripts/bl_tool.py:284-288 | no path is listed twice or as both kinds, and the lists present exactly the visible tree |
| TreeWalk.AncestorsAreListed | scripts/bl_tool.py:245-288 | every ancestor of a returned entry is itself returned, as a directory only |
| TreeWalk.HashDirectory | scripts/bl_tool.py:512-640 | from a file system to the digest of the tree it shows |
| TreeWalk.SnapshotShowsTree | scripts/bl_tool.py:245-288 | file systems which present one snapshot show one tree |
| TreeWalk.DirectoryCommitment | scripts/bl_tool.py:216-640 | two directories which show different trees and hash alike exhibit a collision |
| MultipartEtag.CandidateChunkSizes | scripts/s3_manage.py:258-288 | exactly the standard sizes which split the file into the given number of parts, following one another as in the table; the whole file for one part |
| MultipartEtag.CandidatesAreFew | scripts/s3_manage.py:242-288 | from three parts on at most one candidate; two for two parts exactly where 8 MiB < size <= 10 MiB, and then [8 MiB, 5 MiB] |
| MultipartEtag.PartsAreTheFile | scripts/s3_manage.py:358-378 | the parts concatenate to the file, all but the last are full, and there are max(1, ceil(size / chunk)) |
| MultipartEtag.CandidateGivesCount | scripts/s3_manage.py:401-408 | every candidate yields the part count asked for, so the count guard never rejects |
| MultipartEtag.ReadPart | scripts/s3_manage.py:362-372 | one part is fed exactly the next `chunk` bytes or up to the end of the file, for any pattern of short reads |
| MultipartEtag.MultipartEtagForChunkSize | scripts/s3_manage.py:340-378 | the hex digest over the part digests and the number of parts, for any pattern of short reads |
| MultipartEtag.MultipartEtagMatches | scripts/s3_manage.py:380-408 | true iff some candidate chunk size reproduces the ETag, ignoring case |
| MultipartEtag.HexInjective | scripts/s3_manage.py:378 | hex spelling loses nothing |
| MultipartEtag.HexMeans | scripts/s3_manage.py:378 | two lower-case digits per byte, the high one first, whose value is the byte |
| MultipartEtag.LowerMeans | scripts/s3_manage.py:401-408 | `A` to `Z` are replaced by `a` to `z` and nothing else is changed |
| MultipartEtag.PartitionIsUnique | scripts/s3_manage.py:358-372 | a file has one division into full parts and a last part which is not empty unless the file is |
| MultipartEtag.EtagMeans | scripts/s3_manage.py:340-378 | for that division: the hex spelling of the hash of the parts' hashes, a hyphen and the decimal count of parts |
| MultipartEtag.StandardSizesMean | scripts/s3_manage.py:242-251 | the standard chunk sizes in bytes, in order |
| MultipartEtag.DifferentParts | scripts/s3_manage.py:358-378 | equally many different parts with one combined digest contain a collision |
| MultipartEtag.MatchingIsCommitting | scripts/s3_manage.py:380-408 | if an ETag built from other content, with any chunk size, is matched, two different byte strings with one MD5 are computed, one hashed for each side |
| MultipartEtag.MatchingIsComplete | scripts/s3_manage.py:380-408 | an ETag built with any standard chunk size is accepted for its own content |
| DownloadVerification.DigestOfFile | scripts/s3_manage.py:290-332 | the hex digest of the whole file, for any pattern of short reads |
| DownloadVerification.VerifyDownloadFile | scripts/s3_manage.py:634-661 | the category as a function of content and metadata: size, then SHA-256 where recorded, then multipart or simple ETag, malformed ones being errors |
| DownloadVerification.JudgeMeans | scripts/s3_manage.py:634-661 | when a file is verified, when it is different and when it is an error, in terms of its size, its hashes and the metadata |
| DownloadVerification.VerifiedIsOriginal | scripts/s3_manage.py:634-661 | a file verified against the metadata of different content exhibits a SHA-256 collision where one is recorded and an MD5 collision otherwise |
| DownloadVerification.OriginalIsVerified | scripts/s3_manage.py:634-661 | the original is verified, if a multipart upload used a standard chunk size |
| DownloadKeys.KeyRoundTrip | scripts/s3_manage.py:500-532 | the accepted components are normal, and joined, with a slash for a marker, they spell the key |
| DownloadKeys.ValidateMeans | scripts/s3_manage.py:500-532 | a key is accepted with some components iff these spell it and each is an acceptable name |
| DownloadKeys.KeyErrorsMean | scripts/s3_manage.py:500-514 | the complaints about a key as a whole: empty, with a NUL, with a backslash; that it has no components is never the complaint |
| DownloadKeys.ComponentMeans | scripts/s3_manage.py:516-530 | a component is accepted iff it is neither empty nor a dot name, holds no forbidden character, ends in no dot or space, and is no reserved name |
| DownloadKeys.ComponentErrorsMean | scripts/s3_manage.py:516-530 | the condition of each complaint about a component |
| DownloadKeys.FirstComponentComplains | scripts/s3_manage.py:510-530 | a key which is rejected otherwise gets the complaint of its first bad component |
| DownloadKeys.ReservedMeans | scripts/s3_manage.py:492-527 | the reserved device names, character by character |
| DownloadKeys.BaseMeans | scripts/s3_manage.py:523-527 | the name compared with them: everything in front of the first dot, spaces at its end dropped |
| DownloadKeys.KeysAreInjective | scripts/s3_manage.py:500-532 | different accepted keys of one kind have different components |
| DownloadKeys.NormalIsFixed | scripts/s3_manage.py:556-566 | an absolute path of normal components is its own normal form |
| DownloadKeys.AcceptedKeyIsContained | scripts/s3_manage.py:556-566 | an accepted key is never refused; its destination is the root extended by exactly its components, and in normal form |
| DownloadKeys.ResolveMeans | scripts/s3_manage.py:556-566 | for any components, validated or not: resolved iff the root has not exactly two slashes in front and its names are in front of those of the joined path, and the result is not the root, except spelled with two slashes; then the normal form of the joined path |
| DownloadKeys.NormPathMeans | scripts/s3_manage.py:558-559 | a normal form is an absolute path of normal names, with one more slash where exactly two were in front |
| DownloadKeys.ReduceLast | scripts/s3_manage.py:558-559 | how the last part of a path acts on the names in front of it: nothing, one name more, or one name less |
| DownloadKeys.DestinationsAreDistinct | scripts/s3_manage.py:556-566 | distinct accepted file keys get distinct destinations |
| Preflight.KeysThroughMembers | scripts/s3_manage.py:1571-1572 | `keys` of a node names exactly the entries passing through it |
| Preflight.KeysAtMembers | scripts/s3_manage.py:1570 | `terminals` of a node names exactly the entries ending there |
| Preflight.Trie.Descend | scripts/s3_manage.py:1557-1563 | one step down creates the child where it is missing and keeps every node and the invariant |
| Preflight.Trie.Insert | scripts/s3_manage.py:1552-1572 | records the key along its path and returns exactly the recorded keys whose path equals, precedes or extends it |
| Preflight.Trie.Record | scripts/s3_manage.py:1570-1572 | every node of the path, and no other, gets the key; the node invariant holds for one more entry |
| Preflight.ConflictsAreClashes | scripts/s3_manage.py:1552-1568 | what the trie returns is the pairwise prefix test against every earlier object |
| Preflight.PreflightOne | scripts/s3_manage.py:1536-1573 | the loop body: its effect on queue, markers, error map and trie |
| Preflight.PreflightDownloadObjects | scripts/s3_manage.py:1529-1575 | queue and markers in listing order, and an error for exactly the keys which fail alone or clash with another listed object |
| Preflight.PreflightMeans | scripts/s3_manage.py:1536-1575 | a rejected key is in error for its own reason; a folder marker is in error iff an object of that key has content and is listed as a marker iff one has none; a file key can only be in conflict; every object is queued, a marker or in error |
| Preflight.QueueIsFilter | scripts/s3_manage.py:1536-1573 | the queue is the objects with an accepted key which is no marker, in listing order |
| Preflight.MarkersAreFilter | scripts/s3_manage.py:1544-1550 | the markers are the objects with an accepted marker key and no content, in listing order |
| Preflight.MarkedExactlyWhenRelated | scripts/s3_manage.py:1552-1573 | a queued key is marked "destination namespace conflict" iff the identity path of another queued entry equals it, is a prefix of it or extends it |
| Preflight.OrderIsIrrelevant | scripts/s3_manage.py:1536-1575 | permuting the listing permutes the queue and leaves the error map as it is |
| Preflight.ErrorsAreMonotone | scripts/s3_manage.py:1536-1575 | adding objects never clears an error or changes its reason |
| Preflight.NoConflictExactlyWhenUnrelated | scripts/s3_manage.py:1529-1575 | no key is in conflict iff the identity paths of the queue are pairwise unrelated |
| DownloadProtocol.StepIsSafe | scripts/s3_manage.py:585-763 | every system call of every worker, failing or not, keeps the safety invariant |
| DownloadProtocol.RunIsSafe | scripts/s3_manage.py:664-763 | so does every run of any interleaving |
| DownloadProtocol.PublishSafety | scripts/s3_manage.py:701-763 | after any run: what was there is there unchanged, a new file at a destination holds bytes which verification accepted, and once all are done nothing else is new but parent folders and temporary files whose removal failed; no destination may be, or lie below, a path at which a worker may make its temporary file |
| DownloadProtocol.OwnPathIsPrivate | scripts/s3_manage.py:585-631 | with unrelated destinations only folders, and a worker's own published file, can appear on its path |
| DownloadProtocol.OwnStepOnTrack | scripts/s3_manage.py:585-755 | a worker's step, in a tree others change, does what it would do alone |
| DownloadProtocol.OthersKeepTrack | scripts/s3_manage.py:585-755 | nothing another worker does, or fails to do, disturbs it |
| DownloadProtocol.WorkersAreIsolated | scripts/s3_manage.py:585-763 | with unrelated destinations, in any interleaving a worker none of whose own calls fails ends with the outcome it would have alone; no destination may be, or lie below, a path at which a worker may make its temporary file |
| DownloadProtocol.RunsAgreeOnTheTree | scripts/s3_manage.py:701-763 | every interleaving without failing calls ends in the one final tree; no destination may be, or lie below, a path at which a worker may make its temporary file |
| DownloadProtocol.FinalTreeIsUnique | scripts/s3_manage.py:701-763 | there is only one such tree |
| DownloadProtocol.StepsMakeProgress | scripts/s3_manage.py:585-763 | every step of a worker which is not done brings it closer, unless the offered temporary name was taken |
| Outcomes.OutcomesAreTrue | scripts/s3_manage.py:664-763 | after any run with any failing calls: `Downloaded` means that the destination is a file which was not there at the start and holds bytes verification accepted; a category other than an error is the judgement on the bytes found at the destination or delivered |
| Outcomes.OutcomeIsExpectedOrFailed | scripts/s3_manage.py:664-763 | with unrelated destinations a finished worker has the outcome it would have alone, or an error |
| Outcomes.AloneMeans | scripts/s3_manage.py:664-763 | the outcome of a worker alone: an existing file is judged; where the path comes to nothing the object is downloaded, and reported so iff it arrives whole and verifies; all else is an error |
| DownloadRun.CleanPreflightUnrelates | scripts/s3_manage.py:1523-1575 | a clean preflight makes the destinations on disk unrelated, if names the file system folds together have one identity |
| DownloadRun.CleanPreflightIsolatesWorkers | scripts/s3_manage.py:1594-1694 | after a clean preflight every interleaving gives each worker its own outcome and leaves the same tree, where no destination is, or lies below, a path at which a worker may make its temporary file |
| DownloadRun.PublishedIsTheObject | scripts/s3_manage.py:634-755 | published bytes other than the object's own exhibit a collision |
| DownloadRun.PreflightIsExact | scripts/s3_manage.py:1523-1575 | where the file system folds exactly the names of one identity: the workers for the queue are isolated in all runs iff no key is in conflict and no destination is, or lies below, a path of a temporary file |
| Isolation.IsolatedExactlyWhenApart | scripts/s3_manage.py:585-763 | where `mkstemp` has any name to return: workers are isolated, for all objects, trees and runs, iff no destination equals another or lies below it and none is, or lies below, a path at which a worker may make its temporary file |
| Isolation.UnrelatedIsIsolated | scripts/s3_manage.py:585-763 | the sufficient half |
| Isolation.RelatedWorkersInterfere | scripts/s3_manage.py:585-631 | for any two related destinations there are objects, a tree and a run without failing calls in which a worker ends otherwise than alone |
| Isolation.TemporaryNamesInterfere | scripts/s3_manage.py:701-755 | the same for any destination at or below a path at which a worker, itself or another, may make its temporary file |
| DownloadRun.CleanPreflightIsNotEnough | scripts/s3_manage.py:500-532 | for every name `mkstemp` may make: two keys which validation accepts and the preflight passes, and a run in which the temporary file of one is in the way of the other |
| Members.SplitMembers | scripts/utests/utf_inventory.py:137-164 | the loops compute the split which the next two rows characterize |
| Members.SplitFromSplits | scripts/utests/utf_inventory.py:143-164 | ordered, disjoint, non-empty ranges which start at non-blank lines, cover every non-blank line, and end at the first place where the depth is at most zero before a blank line or the end |
| Members.BracketDeltaMeans | scripts/utests/utf_inventory.py:126-134 | opening less closing brackets of all three kinds outside literals, counted by weight |
| Members.DepthMeans | scripts/utests/utf_inventory.py:154-159 | the depth in a member is the sum over its lines so far |
| Members.StripMeans | scripts/utests/utf_inventory.py:143-162 | stripping leaves the part between the first and the last character which is no white space |
| Members.SplitIsUnique | scripts/utests/utf_inventory.py:143-164 | there is no other such split |
| Members.SplitMoves | scripts/utests/utf_inventory.py:137-164 | the same lines elsewhere split alike |
| Scanner.DocCommentIsNearest | scripts/utests/utf_inventory.py:188-212 | the span found is the comment which ends on the last non-blank line above the case and starts on the last line up to there which starts a comment; none is found iff there is none |
| HeaderScan.DocComment | scripts/utests/utf_inventory.py:188-212 | the two backward loops find the comment which the specification says |
| HeaderScan.IncludeGuard | scripts/utests/utf_inventory.py:218-246 | the forward loop decides whether the next line of code defines the symbol |
| LineLaws.LinesMean | scripts/utests/utf_inventory.py:188-246 | what the tests on single lines look for: a brace at column 0, the start and the end of a comment, and a line which is blank or looks like a comment |
| LineLaws.IncludeGuardMeans | scripts/utests/utf_inventory.py:218-246 | an include guard is an `#ifndef` of a symbol which the next line of code defines |
| LineLaws.FindCloseMeans | scripts/utests/utf_inventory.py:327-333 | the search for an end stops at the first brace at column 0 |
| LineLaws.QualifiedMeans | scripts/utests/utf_inventory.py:394-412 | the namespace path of a member: the names with two colons between them |
| LineLaws.TitleMeans | scripts/utests/utf_inventory.py:402-412 | a member is named after its first line, stripped and cut to sixty characters |
| HeaderScan.ScanCase | scripts/utests/utf_inventory.py:321-362 | the case branch: end, body, doc comment, data files, problems and next line |
| HeaderScan.ScanNamespace | scripts/utests/utf_inventory.py:364-425 | the namespace branch: block, members, uncovered lines, stack and next line |
| HeaderScan.ScanFile | scripts/utests/utf_inventory.py:249-434 | the whole loop with its two stacks computes the specified scan and ends with the specified stacks |
| ScanLaws.StackMeans | scripts/utests/utf_inventory.py:283-319 | a stack holds exactly the levels which are opened and not yet shut, outermost first, each with its amendments |
| ScanLaws.GuardsAndNamespaces | scripts/utests/utf_inventory.py:283-362 | the guards of a reported case are the conditionals opened above it and not yet shut by their own `#endif`, outermost first, include guards left out, each with its `#elif` and `#else` additions; its namespaces likewise |
| ScanLaws.CasesMean | scripts/utests/utf_inventory.py:321-362 | exactly the test case lines outside other cases with a closing brace below them are reported, once each and in order |
| ScanLaws.DataAndProblemsMean | scripts/utests/utf_inventory.py:271-362 | the data files are those named on lines of cases and on all others but directives and includes; the problems are exactly the missing braces |
| ScanLaws.IncludesAndBlocksMean | scripts/utests/utf_inventory.py:310-425 | the includes and namespace blocks are those of the lines outside the cases, in order, each block reaching to its closing brace |
| ScanLaws.MembersMean | scripts/utests/utf_inventory.py:364-412 | the helper members are those of the blocks which open on the lines outside the cases, in order, each under the path of the namespaces open there and its own name |
| ScanLaws.PathMeans | scripts/utests/utf_inventory.py:394 | that path: the namespaces opened above the line and not yet shut, outermost first |
| Concatenation.NothingIsUncovered | scripts/utests/utf_inventory.py:416-421 | the diagnostic for an uncovered line can never be reported |
| Concatenation.OnlyCasesDrawProblems | scripts/utests/utf_inventory.py:249-434 | lines without a test case draw no problem, whatever their helper blocks look like |
| Concatenation.OpenBracketGoesUnnoticed | scripts/utests/utf_inventory.py:120-125 | an input which leaves a bracket open across a blank line and draws no problem, against the source's comment |
| Concatenation.StepInside | scripts/utests/utf_inventory.py:271-432 | one step in a piece is the same between any lines before and after it, the look-ahead and look-back included |
| Concatenation.ScanInside | scripts/utests/utf_inventory.py:249-434 | a self-contained piece is scanned alike wherever it stands, include guards around it not seen |
| Concatenation.ScanOfConcatenation | scripts/utests/utf_inventory.py:249-434 | the scan of two pieces is the two scans: all hashes, guards and namespaces as before, the second part's line numbers moved |
| Concatenation.LeadingCaseKeepsItsDoc | scripts/utests/utf_inventory.py:188-212 | the doc comment proviso is exact: a leading case is hashed alike after other lines iff these do not end in a doc comment |
| Gate.IndexCases | scripts/utests/utf_inventory.py:529-530 | a map from name to case, a later case of a name replacing an earlier one |
| Gate.IndexedIsLast | scripts/utests/utf_inventory.py:529-530 | what is indexed under a name is the last case with it |
| Gate.LastIsIndexed | scripts/utests/utf_inventory.py:529-530 | the last case of a name is the one indexed |
| Intrinsic.RepeatedNames | scripts/utests/utf_inventory.py:540-548 | C5: exactly the pairs of consecutive cases with one name |
| Intrinsic.RepeatedBlocks | scripts/utests/utf_inventory.py:550-561 | C6: exactly the texts more than one block of a module has, with all those blocks in order |
| Intrinsic.RepeatedMembers | scripts/utests/utf_inventory.py:569-583 | C6: exactly the (text, namespace) pairs more than one member of a module has, with all those members in order |
| Intrinsic.SharingIsFilter | scripts/utests/utf_inventory.py:550-583 | what shares a key is all of that key, in order |
| Intrinsic.MissingFiles | scripts/utests/utf_inventory.py:585-590 | C7: exactly the data files a module loads and does not carry |
| Intrinsic.MissingCopies | scripts/utests/utf_inventory.py:598-609 | C7: exactly the data files of the tree a module names and does not carry |
| Intrinsic.StaleNotes | scripts/utests/utf_inventory.py:619-642 | C8: exactly the cases the notes of a module name and the module does not hold, with the module which holds them now |
| Intrinsic.DifferingFiles | scripts/utests/utf_inventory.py:644-654 | C7: exactly the data file names with more than one content, each with the modules which carry it |
| Intrinsic.CheckModules | scripts/utests/utf_inventory.py:585-654 | C7 and C8 for all modules |
| Intrinsic.CheckIntrinsic | scripts/utests/utf_inventory.py:533-656 | reports exactly the failures of C5, C6 within a manifest, C7 and C8 |
| Intrinsic.CleanIsUnique | scripts/utests/utf_inventory.py:533-656 | nothing is reported iff names are unique, block and member keys are, every module carries the data files it loads or names, one name has one content, and notes name own cases |
| Gate.CompareMembers | scripts/utests/utf_inventory.py:704-729 | C6 between manifests: exactly the lost texts, each with the first member which had it; one failure where a side has no members |
| Gate.FirstOfTextMeans | scripts/utests/utf_inventory.py:716-720 | the member named for a lost text is the first with that text |
| Gate.CheckAgainst | scripts/utests/utf_inventory.py:659-731 | reports exactly the lost, added and changed cases and the lost members |
| Agreement.PassIsAgreement | scripts/utests/utf_inventory.py:659-731 | nothing is reported iff name sets and per-name body, doc comment, guards and namespaces are equal, both sides have members, and no member text is lost |
| Agreement.PassingStepsCompose | scripts/utests/utf_inventory.py:659-731 | along any chain of passing steps the last manifest passes against the first |
| Agreement.PassIsBijection | scripts/utests/utf_inventory.py:659-731 | with no duplicate name on either side: passes iff the cases pair off one to one with equal content, whatever their order, file, line and module, and no member text is lost |
| Agreement.PassIsRightWhenBaselineIsUnique | scripts/utests/utf_inventory.py:780-791 | after a pass the cases of both sides pair off one to one with equal content iff the baseline holds no name twice |
| Agreement.DuplicateHidesLoss | scripts/utests/utf_inventory.py:786-791 | a family of inputs: the baseline holds a name twice, one of the two cases is lost, and the whole verdict is a pass |
| Agreement.Compare | scripts/utests/utf_inventory.py:786-801 | the verdict: pass iff nothing is reported about the step and nothing about the later manifest |
| Capture.NamesIn | scripts/utests/utf_inventory.py:497-508 | the case names in one `--run_test` argument, wildcards skipped |
| Capture.ModuleNames | scripts/utests/utf_inventory.py:465-470 | a module is a directory whose name starts with `utf` |
| Capture.SourceNames | scripts/utests/utf_inventory.py:480-483 | the scanned files end in `.h` or `.cpp` |
| Capture.PlainNames | scripts/utests/utf_inventory.py:502-506 | a name is plain iff it is not empty and holds neither `*` nor `?` |
| Capture.SourcesAreFilter | scripts/utests/utf_inventory.py:480-483 | the files scanned are the headers and sources, in the order of the walk |
| Capture.ModulesAreFilter | scripts/utests/utf_inventory.py:465-470 | the modules captured are the `utf` directories, in the order of the listing |
| Capture.SourceLists | scripts/utests/utf_inventory.py:478-492 | the cases, blocks, members and problems of a module are those of its files, in order |
| Capture.CapturedLists | scripts/utests/utf_inventory.py:463-519 | those of the tree are those of its modules, in the order of the listing, and exactly the modules have an entry |
| Capture.ModuleMeans | scripts/utests/utf_inventory.py:472-519 | what is recorded for a module: the data files its lines load and name, those it carries, the plain names in its notes, and what each of its files includes |
| Capture.StringLessMeans | scripts/utests/utf_inventory.py:522-524 | strings are ordered lexicographically |
| Capture.SortingKeepsIndex | scripts/utests/utf_inventory.py:522-530 | sorting by name leaves the indexed case of every name alone, duplicates or not |
| Capture.SortedIsManifest | scripts/utests/utf_inventory.py:522-524 | sorting loses and adds nothing, no name stands in front of a smaller one, and no (module, file, line) in front of a smaller one |
| Capture.CaptureTree | scripts/utests/utf_inventory.py:456-526 | the manifest of a listing: the scans of the `.h` and `.cpp` files of the `utf` directories in sorted lists; what each module names, includes, carries and notes; and the problems |
| Commitment.NormalizedInjective | scripts/utests/utf_inventory.py:171-180 | the hashed text of some lines determines them up to trailing white space |
| Commitment.LineEndingsAreIgnored | scripts/utests/utf_inventory.py:171-180 | texts are the same up to trailing white space iff each line is, and then they hash alike, so no hash sees how lines end |
| Commitment.ScanIsExtracted | scripts/utests/utf_inventory.py:321-412 | every case and member a scan reports was extracted from the scanned lines, and its hashes are those of its body, its doc comment and its lines |
| Commitment.CaseCommitment | scripts/utests/utf_inventory.py:167-180 | cases with equal hashes have the same body and doc comment, or a string hashed for each is computed, different, with one hash |
| Commitment.PassKeepsCases | scripts/utests/utf_inventory.py:28-45 | after a passing step from a baseline without duplicate names, every test has the same lines, guards and namespaces as before, or two different strings with one hash are computed |
| Commitment.PassKeepsMembers | scripts/utests/utf_inventory.py:694-729 | after a passing step the lines of every helper member are somewhere in the tree, or two different strings with one hash are computed |
| Relocation.HeaderIsItsPieces | scripts/utests/utf_inventory.py:276-281 | a header reports the cases, blocks, members and data files of its pieces as each is scanned alone; its include guard changes nothing |
| Relocation.TreeHelpers | scripts/utests/utf_inventory.py:550-585 | helper blocks and members of the tree are free of duplicates iff the pieces of every module are |
| Relocation.RelocationPasses | scripts/utests/utf_inventory.py:20-44 | regrouping self-contained pieces over any headers and modules, in any order, is captured without a problem, duplicates no name which was not duplicated before, and where the baseline has no name twice and some helper member, `check_against` has nothing to report |
| Relocation.RelocationVerdict | scripts/utests/utf_inventory.py:20-44 | such a regrouping gets the whole verdict iff the baseline has no name twice and some helper member, no module receives a helper block twice or a helper member twice in one namespace, each module carries the data files its pieces load or name, data files of one name agree, and notes name cases among the module's pieces |

## Left out

Assumptions which are explicit in the model:

- Hash functions are parameters: any function with outputs of one width. Unicode normalization and case folding, the
  regular expressions and `withoutLiterals` are parameters too. Of the file system's name folding it is assumed that names
  it takes for one another have one collision identity; of the scanner's expressions that an `#endif` line is not blank and not
  a comment. `ScanLaws` also assumes that the kinds of lines the scanner tells apart exclude one another, and where data
  files are concerned that a lone brace, an `#elif` and an `#else` name none; `LineLaws` that `/` and `*` are no white space.
- Paths are POSIX: `normpath` and `commonpath` are modelled for absolute paths. Windows drives and reparse rules are not
  modelled; links, junctions and devices are one kind of node which is never a file or a folder.
- Part counts in ETags are parsed by an abstract integer parser; comparing ETags lower-cases ASCII letters only.

Not modelled:

- DownloadProtocol.StepOf: a worker is a state machine on values and not a method, because the point is the interleaving; a
  metadata request and a verification are one step each, other processes do not touch the tree, and the root exists
  before the workers start (`command_download` makes it).
- DownloadRun.CleanPreflightIsolatesWorkers: destinations at or below a path of a possible temporary file are shut out,
  because the promise is false of them (`Isolation.TemporaryNamesInterfere`).
- Gate.CheckAgainst: the order in which failures of one kind are listed (the program sorts them) and their wording; the same
  for Intrinsic.CheckIntrinsic.
- Capture.CaptureTree: reading directories; a listing holds the directories with their files in the order of the walk, and
  data files as digests.
- A manifest without a `members` entry is modelled as one whose list is empty, which the gate treats alike.
- `read_lines` and decoding; a file is its sequence of lines.
- The bounds checks on `relative_path` while walking and the I/O errors of hashing a file.
- `--only`, `make -n`, worktree export and the comparison of the two translation unit sets in the stream comparison; a run is
  a list of units with exit codes and lines.
- Upload, listing, HTML and Markdown indexes, URL checks, size and speed formatting, thread pools, printing and argument
  parsing.
- The C++ headers and their tests.
