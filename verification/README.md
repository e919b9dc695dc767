# Verified model of the dsh runtime cores

The dsh runtime installs signed packages through a small filesystem gateway, resolves them from a
signed catalog, streams model output, and drives JavaScript from a C host over a call bridge and
loopback sockets. This project models the parts of it where a wrong branch, a crash or an
interleaving would break a promise, and proves those promises in Dafny. `dafny verify dfyconfig.toml`
checks everything.

Pure code of the system is modelled as functions. Code that changes state is modelled as a class or a
method with the same loops and branches, and every such method is proved against a specification
function; the lemmas then prove what the system promises of that function, over all inputs and runs.

| area | modules | what is proved |
|---|---|---|
| install transaction, receipts journal, startup replay | `InstallDisk`, `ReceiptJournal`, `ReplayConvergence`, `ReplayFaults`, `InstallTransaction`, `InstallRuns`, `InstallHost` | every fs call is one atomic step, may throw, and a crash is allowed between any two, also inside the replay: replays converge, no transaction stays pending, a committed line always finds its tree complete |
| signed catalog resolver | `SemverRange`, `Marketplace`, `MarketplaceRuns`, `MarketplaceOverlap`, `MarketplaceResolver` | trust provenance, freshness and what a lookup really answers, over all sequences of refreshes and restarts, and what is left of it when refreshes overlap |
| durable publish | `FsPublish` | crash atomicity on a file system with volatile and durable state |
| canonical JSON and UTF-8 | `JsText`, `JsonString`, `CanonicalJson`, `Utf8` | the signed form is unique; text and bytes round-trip |
| streamed completions | `SseFraming`, `SseStream`, `SseTail` | the result does not depend on how bytes are chunked, and exactly when it does |
| ustar archives | `Tar`, `TarArchive`, `TarMini` | exact round trip; every single-byte header change is detected |
| SPDX expressions | `Spdx`, `SpdxVerdict`, `SpdxMeaning`, `SpdxDocumented`, `SpdxLicense` | the parser is the inverse of printing; verdicts mean what their reasons say; the code's grammar against the documented one; the license policy on whole texts |
| Ed25519 (sections 5.1.2 to 5.1.7 of RFC 8032) | `Modular`, `Edwards`, `Ed25519`, `EdPoint`, `EdComplete` | point arithmetic, codec and the verification equation; every curve point has an accepted encoding |
| loopback sockets | `SocketConn`, `SocketTable` | conservation, order and backpressure of a connection; id tables |
| fetch body stream | `BodyStream` | no lost wake-up, in-order delivery |
| gateway bridge and run loop | `BridgeTables`, `BridgeRuns`, `TimerRuns` | call accounting, swap-remove tables, timers over whole runs |
| base64 (section 4 of RFC 4648) | `Base64`, `Base64Lenient`, `Base64Loops` | five decoders against one encoding: what each accepts, exactly, and at machine width |
| spreadsheet addresses and XML text | `CellAddress`, `XmlText` | mutual inverses |

`Wrappers` holds the shared option and result types. JavaScript strings are sequences of 16-bit code
units. A digest is symbolic: it is the content it was taken of, hence free of collisions.

## Where the code does less than its documentation says

The model follows the code. Each difference is stated as a lemma, with the exact condition where there
is one.

- A final journal append that throws leaves a receipt saying committed under a rolled-back line: `InstallRuns.ReceiptContradictsJournalExactly`.
- A rejected catalog can move the freshness floor: `Marketplace.RejectedRefreshMovesFloorExactly`. A second trusted signature is never read: `Marketplace.SecondTrustedSignatureIsUnread`. Overlapping refreshes can lower the floor (`MarketplaceOverlap.LowersExactly`, `MarketplaceOverlap.LoweringIsARace`) and check a rotation signature over each other's document (`MarketplaceOverlap.TeachesAsAloneExactly`).
- `versionLess` compares only major numbers, so upgrades within a major can be missed: `SemverRange.VersionLessIsSemverExactly`, `MarketplaceResolver.LookupIsDocumentedExactly`, `MarketplaceResolver.UpgradeListedLaterIsMissed`.
- A member named `integrity.json` can never be installed: `InstallTransaction.StagedTreeVerifiesExactly`.
- Both UTF-8 decoders throw on code points above U+10FFFF: `Utf8.DecodedThrowsExactly`, `SseFraming.FeedThrowsExactly`. A trailing partial SSE line is dropped, exactly when it matters: `SseTail.OutcomeIsDocumentedExactly`.
- Socket writes overtake parked bytes: `SocketConn.WriteKeepsOrderExactly`, `SocketConn.LaterWriteOvertakes`. A half-close performed without a connection sends no FIN: `SocketConn.FinMissesExactly`.
- A failing directory sync is reported after the target was replaced: the last clauses of `FsPublish.Os.PublishAtomic`.
- Timers can fire early: `TimerRuns.FiresEarlyExactly`. An unparsable reply loses its call: `BridgeRuns.ServedCallSettlesExactly`.
- Concurrent `next` calls on one body lose a wake-up: `BodyStream.ReturnsExactly`, `BodyStream.SecondCallStealsTheWakeUp`.
- AND binds tighter than OR, contrary to the docstring: `SpdxDocumented.ReadingsAgreeExactly`, `SpdxDocumented.DocumentedGrammarDiffersExactly`. A GPL version spelt like GPLv3 is left to review instead of denied: `SpdxLicense.FamilyIsDeniedExactly`.
- The lenient base64 decoders accept more than canonical texts, non-zero pad bits among it: `Base64Lenient.LenientDecodersDropPadBits` and the `IsCanonicalExactly` lemma of each.

## Model

| member | source | states |
|---|---|---|
| ReplayConvergence.ReplayConverges | runtime/dsh/receipt-journal.js:151-185 | a replay that crashes after any number of its writes, run again, leaves the same disk, file by file and journal line by journal line, as an uninterrupted replay |
| ReplayConvergence.ReplayConvergesAfterCrashes | runtime/dsh/receipt-journal.js:151-185 | the same for any finite series of replays each crashing anywhere |
| ReplayConvergence.ReplayResolvesAll | runtime/dsh/receipt-journal.js:151-185 | a finished replay leaves no transaction pending; on a journal with nothing pending it writes nothing |
| ReplayConvergence.ReplayHistory | runtime/dsh/receipt-journal.js:151-185 | every pending transaction gains exactly one terminal line, of the status its staged tree decides; every other history is untouched |
| ReplayConvergence.PendingAfterTerminals | runtime/dsh/receipt-journal.js:89-100 | once the first i pending transactions have their terminal lines, the work list is the remaining ones in the same order |
| ReplayConvergence.PromotionInstalls | runtime/dsh/receipt-journal.js:118-127 | copying a verified staging tree installs the ledger and every listed file at its listed digest, whatever was on disk before |
| ReplayConvergence.ReplayCommitsOnlyInstalledTrees | runtime/dsh/receipt-journal.js:114-143 | at the moment any replay, crashing or not, appends a committed line, the tree of its receipt is completely in place |
| ReplayConvergence.ReplayPutsOnlyVerifiedFiles | runtime/dsh/receipt-journal.js:114-127 | every file a replay writes is a listed file of a pending transaction whose staged tree verifies, copied to its own plugin directory; a tree that fails verification causes no write outside the journal |
| InstallDisk.RedoPuts | runtime/dsh/receipt-journal.js:114-127 | a write sequence cut among its leading file writes and then run from its start leaves what running it once leaves |
| ReceiptJournal.PendingExactly | runtime/dsh/receipt-journal.js:89-100 | the work list is exactly the latest entries that are pending |
| ReceiptJournal.PendingDistinct | runtime/dsh/receipt-journal.js:89-100 | no transaction is on the work list twice |
| ReceiptJournal.PendingTransactions | runtime/dsh/receipt-journal.js:89-100 | the Map-and-order-array loops compute that work list, in first-seen order |
| InstallRuns.RunThenReplayResolvesAll | runtime/dsh/receipt-journal.js:145-185 | after any run of installs, failing installs, replays, replays with throwing fs calls and file tampering, crashing anywhere, a finished replay leaves each transaction with no line, or pending followed by exactly one terminal line |
| InstallRuns.RunKeepsJournalTidy | runtime/dsh/install-pipeline.js:345-381 | over every such run with unique ids each transaction has at most one terminal line, after its single pending line; an id nobody installs has no line |
| InstallRuns.RunCommitsOnlyInstalledTrees | runtime/dsh/install-pipeline.js:360-367 | in every run, when a committed line reaches the journal its tree is completely in place, whatever crashed or was tampered with before |
| InstallRuns.CommittedTreeSurvives | runtime/dsh/install-pipeline.js:285-293 | an installed tree stays whole through every install, replay and crash about another id or version |
| InstallRuns.ReceiptContradictsJournalExactly | runtime/dsh/install-pipeline.js:360-380 | a throwing install leaves a receipt file saying committed under a rolled-back journal line exactly when the throwing write is the final journal append |
| InstallRuns.FailureJournalsRolledBack | runtime/dsh/install-pipeline.js:377-380 | any write that throws after the pending line leaves rolled-back as the latest status |
| ReplayFaults.FaultyAllShape | runtime/dsh/receipt-journal.js:157-181 | with fs calls of the recoveries throwing anywhere, a replay still appends one terminal line per transaction on its work list, in order, and leaves every staging tree alone |
| ReplayFaults.FaultyReplayCommitsOnlyInstalledTrees | runtime/dsh/receipt-journal.js:157-181 | in a replay with throwing fs calls too, a committed line is appended only when the tree is completely in place |
| ReplayFaults.FaultyReplayPutsArePlainPuts | runtime/dsh/receipt-journal.js:157-181 | a replay with throwing fs calls writes no file an undisturbed one would not write |
| InstallTransaction.RejectedWritesOnlyItsBlob | runtime/dsh/install-pipeline.js:198-211 | an install rejected for trust, package, manifest or capability writes only its content-addressed blob |
| InstallTransaction.StagedTreeVerifiesExactly | runtime/dsh/install-pipeline.js:272-283 | with distinct member names, the read-back of the freshly staged tree succeeds if and only if no member is called integrity.json |
| InstallTransaction.InstallHistory | runtime/dsh/install-pipeline.js:345-381 | a journaled install that ends takes its transaction from nothing to pending and then one terminal status, decided by the read-back |
| InstallTransaction.CommitComesLast | runtime/dsh/install-pipeline.js:360-367 | a receipt file or journal line saying committed is written only after the whole promotion, the file before the line, and nothing follows |
| InstallTransaction.InstallCommitsOnlyInstalledTrees | runtime/dsh/install-pipeline.js:360-367 | at a crash point where the committed receipt or line is about to be written, the tree it vouches for is complete |
| InstallTransaction.AdmittedInstallCommits | runtime/dsh/install-pipeline.js:345-376 | an admitted install that is not interrupted ends with its tree installed and its receipt saying committed |
| InstallHost.Gateway.InstallPackage | runtime/dsh/install-pipeline.js:345-381 | the imperative pipeline, each fs call completing, throwing or crashing: its log is the specified write sequence; after a crash, a prefix of it; after a throw, a prefix and then the rolled-back line exactly when the pending line was already written; a catch whose own append throws is told apart |
| InstallHost.Gateway.Transaction | runtime/dsh/install-pipeline.js:360-380 | the try block: done exactly with all writes, drifted exactly when the read-back fails |
| InstallHost.Gateway.StageTree | runtime/dsh/install-pipeline.js:272-277 | staging writes every member and then the ledger, or a prefix when interrupted |
| InstallHost.Gateway.VerifyTree | runtime/dsh/install-pipeline.js:278-281 | done means every listed file and the ledger read back at their digests; drifted means one does not |
| InstallHost.Gateway.Promote | runtime/dsh/install-pipeline.js:287-293 | promotion copies the staged files of the starting disk, in order, or a prefix when interrupted |
| InstallHost.Gateway.Commit | runtime/dsh/install-pipeline.js:296-313 | promotion, receipt file, committed line, in this order, or a prefix when interrupted |
| InstallHost.Gateway.RecoverOne | runtime/dsh/receipt-journal.js:114-143 | one recovery performs its specified writes, a proper prefix of them when an fs call throws, and none when the tree does not verify |
| InstallHost.Gateway.ReadJournal | runtime/dsh/receipt-journal.js:61-85 | a read that works yields the journal; a failing read is taken for an empty one |
| InstallHost.Gateway.ReplayPendingReceipts | runtime/dsh/receipt-journal.js:151-185 | the replay loop performs exactly the writes specified for the fs calls that threw, those of an undisturbed replay when none did, a prefix after a crash, and nothing when the journal cannot be read; its two counters add up to the work list |
| MarketplaceRuns.TrustProvenance | runtime/dsh/marketplace.js:217-283 | after any run of refreshes and restarts, every trusted key ends a chain of verified rotations that starts at a key pinned in the current session, with the public key that chain gives it |
| MarketplaceRuns.BindingsNeverChange | runtime/dsh/marketplace.js:240-251 | within a session no trusted key is ever lost or rebound, and each refresh adds at most one |
| MarketplaceRuns.FloorNeverDecreases | runtime/dsh/marketplace.js:288-306 | across restarts and refreshes that do not overlap the floor never goes down and the cached index is never newer than it |
| MarketplaceRuns.AcceptedIndexesNeverGoBack | runtime/dsh/marketplace.js:288-306 | accepted indexes of such a run have non-decreasing timestamps: no replayed older catalog is accepted |
| MarketplaceRuns.CachedIndexWasAccepted | runtime/dsh/marketplace.js:360-365 | whatever is cached was accepted by a refresh of the current session |
| MarketplaceOverlap.SerialRunsAreAtomic | runtime/dsh/marketplace.js:217-306 | await by await, every run of refreshes that do not overlap, with restarts between them, leaves the session that atomic refreshes leave |
| MarketplaceOverlap.BindingsSurvive | runtime/dsh/marketplace.js:240-251 | however refreshes overlap and fail, within a session no trusted key is lost or rebound, and each rotation loop adds at most one |
| MarketplaceOverlap.OverlapProvenance | runtime/dsh/marketplace.js:217-283 | after any run of overlapping refreshes every trusted key ends a chain of rotations from a pinned key: each link is published by an index of the session signed by the previous key, and its own signature verified over a document checked no earlier than that index |
| MarketplaceOverlap.TeachesAsAloneExactly | runtime/dsh/marketplace.js:217-251 | the rotation loop of a refresh does what it would do alone, for every signature scheme, if and only if the shared buffer holds its own document or it has no new key to learn |
| MarketplaceOverlap.LowersExactly | runtime/dsh/marketplace.js:288-306 | a step of overlapping refreshes lowers the floor if and only if it saves a timestamp the floor has passed |
| MarketplaceOverlap.LoweringIsARace | runtime/dsh/marketplace.js:288-306 | over every run, such a save is raced: between its refresh's load and the save another refresh has saved a newer timestamp |
| MarketplaceOverlap.RaceLowersTheFloor | runtime/dsh/marketplace.js:288-306 | the failing family: any two vetted indexes newer than the floor, whose saves come out of order, leave the older timestamp |
| MarketplaceOverlap.UnracedFloorNeverDecreases | runtime/dsh/marketplace.js:288-306 | when every save finds the floor it was decided on, the floor never goes down and the cache is never newer than it, however refreshes overlap otherwise |
| MarketplaceOverlap.AcceptedWasNotStale | runtime/dsh/marketplace.js:288-306 | in any run, raced or not, an accepted index was not behind the floor its own load found |
| Marketplace.RefreshTrust | runtime/dsh/marketplace.js:217-283 | one refresh keeps every binding, adds at most one key, published and signed as the rotation rule asks, and learns nothing and keeps the cache when it fails |
| Marketplace.RefreshAcceptsExactly | runtime/dsh/marketplace.js:217-283 | an index is accepted if and only if it is well shaped, its first trusted signature verifies, it is not behind the floor, and every not-yet-trusted signer verifies under the key the index publishes |
| Marketplace.RefreshFreshness | runtime/dsh/marketplace.js:288-306 | a refresh never lowers the floor, only a vetted index moves it, to its own timestamp, and acceptance puts the floor at that timestamp |
| Marketplace.RejectedRefreshMovesFloorExactly | runtime/dsh/marketplace.js:279-281 | a rejected refresh moves the floor if and only if the index is vetted, newer than the floor, and a rotation signature is bad |
| Marketplace.SecondTrustedSignatureIsUnread | runtime/dsh/marketplace.js:222-229 | with two trusted signers the second signature value has no influence on verdict, trust set or floor |
| Marketplace.LearnAtMostOne | runtime/dsh/marketplace.js:240-251 | with at most two signatures, one of them trusted, the learning loop adds at most one key and adds none when it throws |
| Marketplace.ThreeSignaturesWouldLearnAndFail | runtime/dsh/marketplace.js:146-160 | the bound of two signatures is needed: with three the loop can learn a key and then throw |
| MarketplaceResolver.Resolver.VerifyPrimarySignature | runtime/dsh/marketplace.js:217-234 | unknown-key without a trusted signer, otherwise the first trusted signature decides |
| MarketplaceResolver.Resolver.EnforceFreshness | runtime/dsh/marketplace.js:288-306 | accepts exactly what is not behind the floor and moves the anchor only then |
| MarketplaceResolver.Resolver.LearnRotationKeys | runtime/dsh/marketplace.js:240-251 | the loop over the signatures changes the trust set as specified, also when it throws half way |
| MarketplaceResolver.Resolver.ByIdMap | runtime/dsh/marketplace.js:178-186 | the Map built by the loop holds, for every id, the entry the specification keeps |
| MarketplaceResolver.Resolver.RefreshFrom | runtime/dsh/marketplace.js:360-365 | refresh moves the whole session, including trust set and anchor on failure paths, as specified |
| MarketplaceResolver.Resolver.LookupEntry | runtime/dsh/marketplace.js:318-331 | lookup answers from the cached verified index |
| MarketplaceResolver.KeptIsFirstOfHighestMajor | runtime/dsh/marketplace.js:177-186 | the entry kept per id is the first listed one of the highest major number |
| MarketplaceResolver.LookupIsDocumentedExactly | runtime/dsh/marketplace.js:317-331 | lookup returns the highest matching release, as documented, if and only if every match is topped by the kept entry, itself a match |
| MarketplaceResolver.LookupOfUniqueIdsIsDocumented | runtime/dsh/marketplace.js:317-331 | a catalog listing each id once is always looked up as documented |
| MarketplaceResolver.UpgradeListedLaterIsMissed | runtime/dsh/marketplace.js:178-186 | the failing family: an upgrade within one major listed after its predecessor is never found |
| MarketplaceResolver.ParseSpecInvertsPrinting | runtime/dsh/marketplace.js:308-315 | id@range and bare id specs are read back as written |
| SemverRange.VersionLessComparesMajors | runtime/dsh/semver-range.js:24-32 | versionLess is the order of the major numbers alone |
| SemverRange.VersionLessIsSemverExactly | runtime/dsh/semver-range.js:24-32 | the exact pairs on which that is the semver release order |
| SemverRange.RangesAreIntervals | runtime/dsh/semver-range.js:13-22 | a caret range is the releases from its base up to the next major, a tilde range up to the next minor |
| SemverRange.HeadSplit | runtime/dsh/semver-range.js:26-27 | splitting the head segment on dots again yields that one segment |
| FsPublish.Os.PublishAtomic | src/dsh_fs_port.c:111-149 | wherever the power goes, the target reads as before or as the complete new content; success makes the new content durable; a failure before the rename leaves every name as it was and no temp file unless unlinking failed too; a failed directory sync comes after the target was replaced; other names are untouched |
| FsPublish.Os.PublishInTurn | src/dsh_fs_port.c:111-149 | over any run of publishes to one target, failing or crashing, it reads as before the run or as one of the complete contents offered so far |
| FsPublish.Os.WriteAll | src/dsh_fs_port.c:84-96 | through short writes and EINTR, success means exactly the bytes were appended and failure that a prefix was |
| FsPublish.Os.FillTemp | src/dsh_fs_port.c:124-130 | success means the complete content of the temp file is on the disk |
| FsPublish.TempSharesDirectory | src/dsh_fs_port.c:98-107 | the temp file is a sibling of the target, and the directory synced afterwards is the target's |
| FsPublish.StagingIsInvisible | src/dsh_fs_port.c:119-130 | filling the temp file changes what no other name reads, now or after a power loss |
| FsPublish.RenamedTarget | src/dsh_fs_port.c:131-136 | after the rename the target is the new file, or on disk still what it could be before |
| FsPublish.SyncSettles | src/dsh_fs_port.c:137-147 | a directory sync fixes its names at their current binding and allows nothing new |
| CanonicalJson.CanonicalIsUnique | runtime/dsh/canonical-json.js:36-49 | two representable values serialize to the same text if and only if they are structurally equal, whatever the member order |
| CanonicalJson.CanonicalPrintsNormalForm | runtime/dsh/canonical-json.js:36-49 | canonicalJson throws exactly on values with an unrepresentable part and otherwise prints the value with its members sorted |
| CanonicalJson.MemberOrderIsIrrelevant | runtime/dsh/canonical-json.js:39-41 | reordering members does not change the signed text |
| CanonicalJson.PrintIsPrefixFree | runtime/dsh/canonical-json.js:36-49 | equal texts that begin with two printed values begin with the same value |
| CanonicalJson.SameIffNormalEqual | runtime/dsh/canonical-json.js:38-42 | structural equality is equality of sorted forms, at every depth |
| CanonicalJson.NormalKeeps | runtime/dsh/canonical-json.js:38-42 | sorting members keeps a value well formed and representable |
| JsText.SortsEqualIffSameHoldings | runtime/dsh/canonical-json.js:39-41 | sorting by UTF-16 code units forgets exactly the order of distinct keys |
| JsText.SortAscends | runtime/dsh/canonical-json.js:39 | the sorted keys ascend |
| JsText.AscendingIsUnique | runtime/dsh/canonical-json.js:39 | an ascending list is determined by what it holds |
| JsonString.ReadBodyInvertsEscape | runtime/dsh/canonical-json.js:41-46 | the escaped form of any string, lone surrogates included, reads back, whatever follows its quote |
| JsonString.QuotedIsPrefixFree | runtime/dsh/canonical-json.js:41-46 | quoted strings at the head of equal texts are equal |
| Utf8.DecodedInvertsEncoded | runtime/dsh/canonical-json.js:53-91 | utf8Text(utf8Bytes(s)) is s for every UTF-16 string, lone surrogates included |
| Utf8.EncodedIsInjective | runtime/dsh/canonical-json.js:53-68 | no two strings share their bytes |
| Utf8.DecodedThrowsExactly | runtime/dsh/canonical-json.js:70-91 | utf8Text throws exactly when a sequence it reads is F4, then a byte whose low six bits are 16 or more, then two more |
| Utf8.AboveTheLastPlaneThrows | runtime/dsh/canonical-json.js:70-91 | a malformed document that is not decoded to U+FFFD, contrary to the comment |
| Utf8.Utf8Bytes | runtime/dsh/canonical-json.js:53-68 | the encoder loop produces the UTF-8 form of the text |
| Utf8.ReadSequence | runtime/dsh/canonical-json.js:76-86 | the inner loop accumulates the number of one sequence, cut off at the end of the input |
| Utf8.Utf8Text | runtime/dsh/canonical-json.js:72-91 | the decoder loop produces the decoded text, or throws where the specification does |
| SseStream.ChunksDoNotMatter | runtime/dsh/llm.js:71-215 | for streams with no code point above U+10FFFF the events, their indices, the texts, the [DONE] cut-off and a failing line depend on the concatenated bytes alone |
| SseStream.ChunksDoNotMatterExactly | runtime/dsh/llm.js:71-215 | chunking is irrelevant if and only if the decoder does not throw or nothing before the byte it throws on has an effect |
| SseStream.CutAtTheThrow | runtime/dsh/llm.js:200-205 | otherwise some chunking shows a different fold than the whole |
| SseStream.TurnsStayConsistent | runtime/dsh/llm.js:145-166 | delta and reasoning indices count from 0 without a gap, the aggregated texts are the concatenations of the pieces, and a model is reported only on change |
| SseStream.PartialLineIsDropped | runtime/dsh/llm.js:203-212 | a trailing line without newline is never folded, contrary to the comment |
| SseTail.OutcomeIsDocumentedExactly | runtime/dsh/llm.js:185-215 | however the body was cut and however it ended, the outcome is the documented one, the trailing line folded, if and only if folding had stopped, the drain failed, or that line changes nothing |
| SseTail.DocumentedIsTerminated | runtime/dsh/llm.js:203-215 | the documented outcome of a body is what the loop makes of the same body with its last line terminated |
| SseTail.PartialDeltaIsLost | runtime/dsh/llm.js:203-215 | the failing family: the text of a last data line without newline is lost |
| SseTail.LineIsIdleExactly | runtime/dsh/llm.js:145-183 | a line changes nothing if and only if it is no data line, the terminator, or a chunk that repeats what is known and brings no text |
| SseStream.NothingToFlush | runtime/dsh/llm.js:212-214 | the end-of-stream flush yields no line |
| SseStream.FoldLinesConcat | runtime/dsh/llm.js:170-183 | folding lines in two batches is folding them at once, [DONE] and failures included |
| SseStream.Stream.FoldChunkInto | runtime/dsh/llm.js:145-166 | the st record after one chunk |
| SseStream.Stream.FoldLineInto | runtime/dsh/llm.js:170-183 | data lines fold, the terminator stops, bad JSON throws, other lines do nothing |
| SseStream.Stream.DrainSse | runtime/dsh/llm.js:194-215 | the drain loop refines the chunk-by-chunk fold, with the abort case |
| SseFraming.FeedConcat | runtime/dsh/llm.js:71-96 | feeding two pieces is feeding their concatenation |
| SseFraming.FeedInvertsEncoded | runtime/dsh/llm.js:50-111 | the streaming decoder reads back every encoded string and holds nothing at the end |
| SseFraming.FeedThrowsExactly | runtime/dsh/llm.js:67-96 | the decoder throws exactly on inputs holding F4, a byte in 90..BF and two continuation bytes (or completing such a sequence), although documented never to throw |
| SseFraming.SplitConcat | runtime/dsh/llm.js:118-140 | splitting text in two pushes is splitting the whole |
| SseFraming.Utf8Decoder.Push | runtime/dsh/llm.js:74-96 | the byte loop with its index rewind refines the specified decoder |
| SseFraming.Utf8Decoder.End | runtime/dsh/llm.js:97-102 | a dangling sequence becomes one U+FFFD |
| SseFraming.LineSplitter.Push | runtime/dsh/llm.js:121-132 | complete lines come out carriage-return trimmed, the partial one stays |
| SseFraming.LineSplitter.Flush | runtime/dsh/llm.js:133-138 | the partial line comes out once |
| TarArchive.RoundTripExactly | runtime/dsh/tar-mini.js:53-113 | reading back what was written gives the same members if and only if there is one and every path fits the header: at most 100 one-byte NUL-free characters |
| TarArchive.ReadBack | runtime/dsh/tar-mini.js:53-113 | whatever can be written reads back under its stored names, or is refused as empty or unsafe |
| TarArchive.WrittenExactly | runtime/dsh/tar-mini.js:44-64 | tarWrite succeeds if and only if every path is safe and every size is below 8^11 |
| TarArchive.StoredExactly | runtime/dsh/tar-mini.js:60-104 | a name survives the header field if and only if it fits |
| TarArchive.DamageIsDetected | runtime/dsh/tar-mini.js:92-95 | in any accepted archive, changing any one header byte outside the checksum field makes it rejected as checksum drift |
| TarArchive.WrittenArchiveIsGuarded | runtime/dsh/tar-mini.js:58-95 | the same for every header of every written archive |
| TarArchive.SumBound | runtime/dsh/tar-mini.js:69-72 | the header sum is at most 255 times its length, so six octal digits hold it |
| TarArchive.HeaderReads | runtime/dsh/tar-mini.js:90-106 | a written header parses back to its stored name and size |
| TarArchive.ReadEntries | runtime/dsh/tar-mini.js:84-113 | any sequence of written entries and the terminator parses back member by member |
| Tar.OctalExactly | runtime/dsh/tar-mini.js:20-25 | octal gives the fixed-width digits and a NUL, or throws exactly on overflow |
| Tar.PaddedDigits | runtime/dsh/tar-mini.js:20-25 | padding the printed number gives its fixed-width octal digits whenever it fits |
| Tar.ParseFixed | runtime/dsh/tar-mini.js:94-105 | parseInt reads a fixed-width octal field back, whatever ends it |
| Tar.ParseIntCut | runtime/dsh/tar-mini.js:105 | cutting the field at a NUL does not change what parseInt reads |
| TarMini.TarWrite | runtime/dsh/tar-mini.js:53-81 | the writer loop produces the specified archive or the first error |
| TarMini.TarRead | runtime/dsh/tar-mini.js:84-113 | the reader loop accepts and rejects as specified |
| TarMini.WriteHeader | runtime/dsh/tar-mini.js:58-72 | the block filled in place is the specified header |
| TarMini.ParseHeader | runtime/dsh/tar-mini.js:90-106 | checksum, magic, type, name and size checks in the source order |
| TarMini.Sum | runtime/dsh/tar-mini.js:69-70 | the checksum loop counts the checksum field as spaces |
| TarMini.AsciiBytes | runtime/dsh/tar-mini.js:27-32 | text cut to the field, each unit cut to a byte, NUL filled |
| TarMini.Pad2 | runtime/dsh/tar-mini.js:34-41 | content padded to the next block boundary |
| Spdx.ParseExactly | tools/supply-audit/licenses.py:151-195 | a token list is accepted if and only if it writes an expression, which is the one parsed: everything is consumed or the text is rejected |
| Spdx.ParseShown | tools/supply-audit/licenses.py:151-181 | the parser gives any printed expression back and stops where it ends |
| Spdx.ShowParsed | tools/supply-audit/licenses.py:151-181 | what was consumed prints as the consumed tokens |
| Spdx.TokensOfSpaced | tools/supply-audit/licenses.py:96-113 | any list of tokens written with spaces tokenizes back |
| Spdx.TokensAreTokens | tools/supply-audit/licenses.py:96-113 | only parentheses and non-empty words come out |
| Spdx.Tokenize | tools/supply-audit/licenses.py:96-113 | the buffer loop refines the recursive tokenizer |
| SpdxVerdict.Evaluate | tools/supply-audit/licenses.py:116-130 | for every verdict on single identifiers, the verdict on a text is the meaning of its unique parse, and a ValueError exactly when there is none |
| SpdxVerdict.Parser.ParseOr | tools/supply-audit/licenses.py:151-156 | the position-advancing method computes the best of the branches, or fails as specified |
| SpdxVerdict.Parser.ParseAnd | tools/supply-audit/licenses.py:158-163 | the worst of the conjuncts |
| SpdxVerdict.Parser.ParseAtom | tools/supply-audit/licenses.py:165-181 | identifiers, WITH exceptions, parentheses and misplaced operators |
| SpdxVerdict.Maximum | tools/supply-audit/licenses.py:91-156 | max by rank: a listed verdict none of the list exceeds |
| SpdxVerdict.Minimum | tools/supply-audit/licenses.py:91-163 | min by rank: a listed verdict none of the list is below |
| SpdxMeaning.WrittenTreesKeepTheirMeaning | tools/supply-audit/licenses.py:151-181 | AND binds tighter than OR: a tree written with parentheses only around ORs below ANDs parses whole and keeps its meaning |
| SpdxMeaning.VerdictsMeanWhatTheySay | tools/supply-audit/licenses.py:62-66 | allow if and only if some disjunctive clause is all allow; deny if and only if every clause holds a denied license |
| SpdxMeaning.MeaningIsClauses | tools/supply-audit/licenses.py:151-163 | the min/max fold reaches a verdict if and only if some clause holds nothing worse |
| SpdxDocumented.DocumentedReadingExactly | tools/supply-audit/licenses.py:116-128 | the grammar of the docstring generates the token lists the code accepts, and its reading of one is unique: the rereading, OR before AND, of what the code parses |
| SpdxDocumented.UnmixedReadingsAgree | tools/supply-audit/licenses.py:116-163 | an expression none of whose parenthesis levels has both operators means the same in both grammars, to every judge of identifiers |
| SpdxDocumented.MixedLevelSeparates | tools/supply-audit/licenses.py:116-163 | a level of different identifiers that has both operators is allowed by the code and denied by the docstring, for a judge that is constructed |
| SpdxDocumented.ReadingsAgreeExactly | tools/supply-audit/licenses.py:116-163 | when no identifier occurs twice, the two readings agree for every judge if and only if no parenthesis level has both operators |
| SpdxDocumented.DocumentedGrammarDiffersExactly | tools/supply-audit/licenses.py:116-163 | the same of token lists: what the docstring says of an accepted text is what the code evaluates exactly when no level mixes the operators |
| SpdxLicense.AllowedExactly | tools/supply-audit/licenses.py:81-88 | an identifier is allowed if and only if it is on the closed list, or is a + spelling whose base, the trailing version cut off, is |
| SpdxLicense.FamilyIsDeniedExactly | tools/supply-audit/licenses.py:81-88 | of the GPL family, in any case and version, exactly those whose name stands by itself are denied; a version run together with it, as in GPLv3, is left to review |
| SpdxLicense.TextAllowedExactly | tools/supply-audit/licenses.py:116-190 | an accepted text is allowed if and only if one of its alternatives is on the closed list throughout |
| SpdxLicense.TextDeniedExactly | tools/supply-audit/licenses.py:116-190 | and denied if and only if every alternative needs a license the code denies |
| SpdxLicense.NothingGplIsAllowed | tools/supply-audit/licenses.py:3-16 | a text each of whose alternatives needs a GPL-family license, however spelt, is never allowed |
| SpdxLicense.Audit | tools/supply-audit/licenses.py:116-130 | eval_spdx_expression with the policy: its verdict from the text, or a ValueError exactly when there is no parse |
| EdPoint.VerifiesExactly | runtime/dsh/ed25519.js:262-280 | a signature is accepted if and only if both encodings decode, s is below L, and [s]B = R + [k]A on the curve |
| EdPoint.DecodedIsOnCurve | runtime/dsh/ed25519.js:223-243 | every accepted encoding decodes to a point of the curve with Z = 1, T = xy, the y of its 255 bits and x of the parity of its sign bit |
| EdPoint.EncodeInvertsDecode | runtime/dsh/ed25519.js:223-260 | encodePt gives every accepted 32-byte encoding back: only canonical encodings are accepted |
| EdPoint.DecodeIsInjective | runtime/dsh/ed25519.js:223-243 | two accepted encodings of one point are the same bytes |
| EdPoint.EncodesTheAffinePoint | runtime/dsh/ed25519.js:248-260 | encodePt depends on the affine point alone |
| EdComplete.DecodeInvertsEncoding | runtime/dsh/ed25519.js:223-260 | with p prime in the sense of Fermat and no zero divisors: every point of the curve has an encoding that decodePt accepts and decodes to that point |
| EdComplete.DecodeInvertsEncode | runtime/dsh/ed25519.js:223-260 | and so does what encodePt makes of any projective representative of it |
| EdComplete.RootFound | runtime/dsh/ed25519.js:229-241 | the candidate root, corrected by SQRT_M1 or not, is a square root of u/v, up to sign, whenever there is one |
| EdComplete.UnitsInvert | runtime/dsh/ed25519.js:248-250 | z^(p-2) inverts every invertible z |
| EdPoint.TopBitFree | runtime/dsh/ed25519.js:252-258 | the last byte of y leaves the sign bit free |
| EdPoint.ReadLe | runtime/dsh/ed25519.js:206-218 | le256 and le512 read the little-endian number |
| EdPoint.DecodePoint | runtime/dsh/ed25519.js:223-243 | the imperative decoder, truncating remainders included, refines the specified one |
| EdPoint.EncodePoint | runtime/dsh/ed25519.js:248-260 | the imperative encoder refines the specified one |
| EdPoint.Verify | runtime/dsh/ed25519.js:268-276 | the verification steps after base64, in the source order |
| EdPoint.Ed25519IsValid | runtime/dsh/ed25519.js:146-154 | the constants meet the assumptions: an odd p, d the residue of -121665/121666, and SQRT_M1 squared congruent to -1 |
| EdComplete.BaseIsElement | runtime/dsh/ed25519.js:146-154 | the base point constants lie on the curve |
| EdComplete.Ed25519Suits | runtime/dsh/ed25519.js:146-154 | p is 5 mod 8 and d is not -1, as the completeness results ask |
| Ed25519.MulRepresents | runtime/dsh/ed25519.js:191-201 | mulPt represents the (n mod L)-fold sum |
| Ed25519.LadderRepresents | runtime/dsh/ed25519.js:195-199 | the double-and-add invariant: the result plus k times the addend |
| Ed25519.MulPt | runtime/dsh/ed25519.js:191-201 | the loop, including the doubled remainder for negative n, computes that ladder |
| Ed25519.TimesAdd | runtime/dsh/ed25519.js:188-201 | multiples add |
| Ed25519.TimesDouble | runtime/dsh/ed25519.js:188-201 | multiples of the double are even multiples |
| Edwards.SumRepresents | runtime/dsh/ed25519.js:173-186 | addPts represents the affine twisted-Edwards sum whenever W+Q and W-Q are invertible |
| Edwards.SumKeepsProductLaw | runtime/dsh/ed25519.js:173-186 | every sum satisfies XY = ZT mod p, whatever is added |
| Edwards.EqualPtsExactly | runtime/dsh/ed25519.js:203-204 | equalPts holds if and only if the affine points are equal |
| Modular.ModPow | runtime/dsh/ed25519.js:156-166 | square-and-multiply with truncated remainders computes base^exp mod p, also for a negative base |
| SocketConn.EveryRun | src/dsh_socket.c:329-582 | in every run on a dialed or accepted connection the park stays within 256 KiB, ended implies write-closed and an empty park, the FIN follows every byte, and no accepted byte is lost or doubled |
| SocketConn.RunsStaySound | src/dsh_socket.c:329-582 | every call keeps those bounds |
| SocketConn.RunsConserve | src/dsh_socket.c:329-582 | wire and park together hold exactly the bytes taken so far |
| SocketConn.WireOrder | src/dsh_socket.c:439-482 | when no write reaches the kernel while bytes are parked, wire order is acceptance order |
| SocketConn.WriteKeepsOrderExactly | src/dsh_socket.c:455-478 | an accepted write keeps the order if and only if the bytes the kernel took commute with the park |
| SocketConn.LaterWriteOvertakes | src/dsh_socket.c:455-478 | two writes of which the second reaches the peer first |
| SocketConn.WriteSplits | src/dsh_socket.c:439-482 | a successful write splits its bytes exactly into written and parked; a failing one leaves the park alone |
| SocketConn.NothingAfterTheEnd | src/dsh_socket.c:542-560 | once ended, no call puts a byte or a FIN on the wire |
| SocketConn.FinMissesExactly | src/dsh_socket.c:361-372 | over every run the half-close counts as performed without a FIN if and only if the end or poll that performed it was answered that there is no connection |
| SocketConn.EndBeforeConnectedSendsNoFin | src/dsh_socket.c:548-558 | a half-close during a dial is such a call: it counts as done and the FIN never follows |
| SocketConn.Connection.Offer | src/dsh_socket.c:455-463 | the write loop hands the kernel a prefix, through partial writes and EINTR |
| SocketConn.Connection.Drain | src/dsh_socket.c:357-368 | the drain loop moves a prefix of the park to the wire |
| SocketConn.Connection.WriteBytes | src/dsh_socket.c:439-482 | the whole write call, every error path included |
| SocketConn.Connection.PollOnce | src/dsh_socket.c:329-372 | finish the dial, drain, and the deferred shutdown |
| SocketConn.Connection.EndWrites | src/dsh_socket.c:542-560 | the half-close |
| SocketConn.Connection.CloseNow | src/dsh_socket.c:562-582 | the close drops the park |
| SocketTable.SocketTable.Claim | src/dsh_socket.c:293-312 | the first free slot gets the next id; refused exactly when the table is full; live ids stay unique |
| SocketTable.SocketTable.Listen | src/dsh_socket.c:143-207 | a new listener id exactly when bind succeeds and a slot is free |
| SocketTable.SocketTable.Connect | src/dsh_socket.c:209-269 | a new connection id exactly when the dial starts and a slot is free |
| SocketTable.SocketTable.AcceptAll | src/dsh_socket.c:283-327 | as many queued connections as there are free slots, under consecutive ids; the others are refused |
| SocketTable.SocketTable.Find | src/dsh_socket.c:82-96 | the slot of a live id, or none |
| SocketTable.SocketTable.Close | src/dsh_socket.c:562-582 | exactly the named id leaves; a listener leaves its connections |
| BodyStream.NoLostWakeUp | runtime/dsh/gateway.js:142-199 | for every interleaving of events, aborts and one consumer, the consumer never sleeps while a chunk or the end is available |
| BodyStream.ChunksAreDeliveredInOrder | runtime/dsh/gateway.js:142-174 | chunks returned and chunks buffered are the chunks pushed, each once and in order, whatever the interleaving |
| BodyStream.EndComesLast | runtime/dsh/gateway.js:165-174 | the end or the error is returned only after every pushed chunk |
| BodyStream.EventsWake | runtime/dsh/gateway.js:142-174 | every event wakes the sleeping consumer, which then returns |
| BodyStream.NoLostWakeUpFromTheStart | runtime/dsh/gateway.js:142-199 | the same for every run of a fresh stream |
| BodyStream.ReturnsExactly | runtime/dsh/gateway.js:165-174 | with any number of calls at once, a call that waits can still return if and only if it holds the resolver or has been woken |
| BodyStream.SecondCallStealsTheWakeUp | runtime/dsh/gateway.js:165-174 | whenever one call sleeps, a second takes the only resolver, and the first never returns, whatever happens later |
| BodyStream.ForgottenForever | runtime/dsh/gateway.js:165-174 | a call whose resolver was overwritten sleeps forever |
| BodyStream.StreamRecord.Wake | runtime/dsh/gateway.js:142-147 | the resolver is taken once |
| BodyStream.StreamRecord.StreamEvent | runtime/dsh/gateway.js:150-163 | body, end and error events change the record and wake |
| BodyStream.StreamRecord.NextChunk | runtime/dsh/gateway.js:165-174 | one pass of the wait loop: return, throw or sleep |
| BodyStream.StreamRecord.AbortByCaller | runtime/dsh/gateway.js:190-199 | abort ends an open stream with cancelled and wakes |
| BridgeRuns.EveryRun | example/main_cli.c:1573-1605 | over every run a promise is settled at most once and is never in flight again, requests are served in dispatch order, and each leaves exactly its audit record |
| BridgeRuns.EveryRunFromTheStart | example/main_cli.c:1573-1605 | the same, with strictly increasing call ids, for every run from an empty bridge |
| BridgeRuns.CallIdsAscend | src/dsh_runtime_host.c:399-407 | over every run the ids of dispatched calls strictly increase |
| BridgeRuns.GoneForever | src/dsh_runtime_host.c:359-370 | an id that left the table never comes back and is not settled later |
| BridgeRuns.UnparsableReplyLosesTheCall | src/dsh_runtime_host.c:4011-4025 | a reply that is not JSON drops the call: no continuation settles its promise |
| BridgeRuns.ServedCallSettlesExactly | src/dsh_runtime_host.c:4011-4038 | over every continuation a served call in flight is settled if and only if its reply parses, and in both cases is no longer in flight |
| BridgeRuns.ArmedIsConsumed | example/main_cli.c:795-813 | the audit entry armed for a request is the one its settle removes |
| BridgeRuns.Backend.OnCall | example/main_cli.c:1573-1590 | a request joins the queue at its tail |
| BridgeRuns.Backend.GatewayCall | src/dsh_runtime_host.c:375-411 | a fresh id is parked and dispatched |
| BridgeRuns.Backend.GatewayAbort | src/dsh_runtime_host.c:415-430 | an abort is dispatched under id 0 and parks nothing |
| BridgeRuns.Backend.ConsumeAudit | example/main_cli.c:802-813 | the scan and memmove remove the first entry of the call |
| BridgeRuns.Backend.SettlePromise | src/dsh_runtime_host.c:4011-4038 | take, parse, settle, run jobs, each failing as the source does |
| BridgeRuns.Backend.SmokeSettle | example/main_cli.c:795-818 | audit record first, then the settle; a failed settle fails the backend |
| BridgeRuns.Backend.ServeNext | example/main_cli.c:1592-1605 | one turn of the drain loop |
| BridgeTables.SwapRemovedIsRemoved | src/dsh_runtime_host.c:359-370 | swap-remove takes one key out of the map the array stands for and changes nothing else |
| BridgeTables.PendingCalls.Add | src/dsh_runtime_host.c:342-355 | the entry joins the map, growing the array when full |
| BridgeTables.PendingCalls.Take | src/dsh_runtime_host.c:359-370 | the entry leaves the map, once, with its capability |
| TimerRuns.EveryTimerLeavesOnce | example/main_cli.c:1406-1449 | over every run timers are armed under the ids 1, 2, 3 and so on, and each is either still in the table or has left it exactly once, by a fire or by a cancel |
| TimerRuns.RunsStayAccounted | example/main_cli.c:1406-1449 | every run keeps that account and at most 256 live timers |
| TimerRuns.LeftForever | example/main_cli.c:1434-1449 | a timer that fired or was cancelled never comes back, fires again or is cancelled again |
| TimerRuns.CancelSucceedsExactly | example/main_cli.c:1434-1449 | a cancel takes a timer out if and only if it is armed |
| TimerRuns.FiresEarlyExactly | example/main_cli.c:1781-1812 | a pass that sleeps at least as long as it asked for fires its timer before it is due if and only if a process or socket is alive, the timer is more than 10 ms away and the sleep does not reach it |
| TimerRuns.QuietRunsFireOnTime | example/main_cli.c:1781-1812 | over every run without processes or sockets no timer fires early |
| TimerRuns.Driver.ScheduleTimer | example/main_cli.c:1406-1432 | a new timer under a fresh id, refused exactly for a negative delay or when 256 are live |
| TimerRuns.Driver.CancelTimer | example/main_cli.c:1434-1449 | true if and only if the timer was armed, and it no longer is |
| TimerRuns.Driver.FindEarliest | example/main_cli.c:1781-1784 | the scan finds the first timer no other precedes |
| TimerRuns.Driver.QuiescentPass | example/main_cli.c:1768-1812 | one pass of the loop: it ends, or sleeps by the specified time, and fires the earliest timer |
| TimerRuns.Driver.FireTimer | example/main_cli.c:1805-1812 | the fired timer leaves the table by a swap-remove and its event is logged |
| Base64.StrictDecodesExactly | runtime/dsh/ed25519.js:33-62 | b64ToBytes gives b if and only if the text is the canonical encoding of b and b is not empty: it is injective and refuses non-zero pad bits |
| Base64.DecodersAgree | src/dsh_runtime_host.c:638-662 | the five decoders give the same bytes on every canonical text |
| Base64.CliDecodesEncoded | example/main_cli.c:166-216 | the command-line decoder inverts the encoder |
| Base64.GatewayDecodesEncoded | runtime/dsh/gateway.js:20-33 | the gateway decoder inverts it |
| Base64.SocketDecodesEncoded | src/dsh_socket.c:484-536 | the socket decoder inverts it |
| Base64.HostDecodesEncoded | src/dsh_runtime_host.c:619-662 | the host decoder inverts it |
| Base64Lenient.ShownIsEncodedExactly | example/main_cli.c:166-183 | symbols followed by padding are the encoding of b if and only if no single symbol and only zero bits are left over, b is what they give, and the padding is the one its length asks for |
| Base64Lenient.CliDecodesExactly | example/main_cli.c:194-216 | the command-line decoder gives b if and only if the text is symbols followed by any amount of padding and b their bytes, a symbol left over counting as one more byte |
| Base64Lenient.HostDecodesExactly | src/dsh_runtime_host.c:638-662 | the host decoder gives b if and only if the text is symbols, not 1 mod 4 of them, followed by any amount of padding, and b their bytes |
| Base64Lenient.SocketDecodesExactly | src/dsh_socket.c:484-536 | the socket decoder gives b if and only if the text is of whole groups, padding stands in the last two places of groups only and at most twice, and b is the bytes of the groups less those the padding takes |
| Base64Lenient.GatewayDecodesExactly | runtime/dsh/gateway.js:20-33 | the gateway decoder accepts every text; a foreign character sets its bits and all above it in its group |
| Base64Lenient.CliIsCanonicalExactly | example/main_cli.c:194-216 | what the command-line decoder accepts is canonical exactly when nothing is left over and the padding is the one needed |
| Base64Lenient.HostIsCanonicalExactly | src/dsh_runtime_host.c:638-662 | the same for the host decoder |
| Base64Lenient.SocketIsCanonicalExactly | src/dsh_socket.c:484-536 | what the socket decoder accepts is canonical exactly when it is symbols followed by padding with only zero bits left over |
| Base64Lenient.GatewayIsCanonicalExactly | runtime/dsh/gateway.js:20-33 | a text is the encoding of what the gateway makes of it exactly when it is canonical |
| Base64Lenient.LenientDecodersDropPadBits | src/dsh_runtime_host.c:638-662 | for every run of symbols padded as its length asks, the four lenient decoders drop the bits left over, and the strict one accepts exactly when these are zero |
| Base64.EncodeIsSymbols | example/main_cli.c:166-183 | an encoding is the symbols of the 6-bit groups and the padding its length asks for |
| Base64.FedReadsSextets | runtime/dsh/ed25519.js:45-57 | the bit accumulator gives the bytes back and is left with zero bits |
| Base64.SextetsOfFed | runtime/dsh/ed25519.js:45-60 | conversely, groups that leave only zero bits are those of the bytes they give |
| Base64Loops.StrictDecoder | runtime/dsh/ed25519.js:36-62 | the loop with its signed 32-bit accumulator refines the strict decoder |
| Base64Loops.ShiftIn | runtime/dsh/ed25519.js:51-56 | wrapping at 32 bits loses no bit that is still needed |
| Base64Loops.CliEncode | example/main_cli.c:166-183 | the in-place loop fills exactly the computed length with the encoding |
| Base64Loops.SocketEncode | src/dsh_socket.c:123-139 | the encoder that shifts four symbols out of a 24-bit word fills exactly the computed length with the encoding |
| Base64Loops.CliDecoder | example/main_cli.c:194-216 | the loop refines the specified decoder inside a buffer of max + 1 bytes, and passes max exactly when a single character is left over |
| Base64Loops.GatewayDecoder | runtime/dsh/gateway.js:20-33 | the same, computing the or-ed word, with -1 for unknown characters, and its three bytes |
| Base64Loops.OredIsSmeared | runtime/dsh/gateway.js:24-29 | in the or-ed word a -1 fills its field and everything above it, and the rest are the values |
| Base64Loops.OrAddsOrFills | runtime/dsh/gateway.js:26 | on 32-bit words or-ing a shifted value into clear bits adds it, or-ing a shifted -1 leaves just that |
| Base64Loops.SocketDecoder | src/dsh_socket.c:490-536 | the same, never writing past max |
| Base64Loops.HostDecoder | src/dsh_runtime_host.c:639-662 | the same, with an unsigned accumulator and padding only at the end, never writing past its buffer |
| CellAddress.ColumnsAreBijective | system-plugins/dsh-office/excel-core.js:45-63 | columnName and columnIndexOf are mutually inverse between naturals and non-empty A-Z strings |
| CellAddress.ParseInvertsAddress | system-plugins/dsh-office/excel-core.js:65-71 | parseCellAddress gives every cell back |
| CellAddress.AddressInvertsParse | system-plugins/dsh-office/excel-core.js:65-71 | every accepted address is, in upper case, the address of the cell it names |
| CellAddress.ColumnNameLoop | system-plugins/dsh-office/excel-core.js:45-53 | the do-while loop refines the specified name |
| CellAddress.ColumnIndexOfLoop | system-plugins/dsh-office/excel-core.js:55-63 | the loop refines the specified index, -1 for other characters |
| XmlText.DecodeInvertsEncode | system-plugins/dsh-office/shared.js:53-98 | decoding an encoded text or attribute gives it back with only the dropped control characters removed |
| XmlText.EncodedIsInert | system-plugins/dsh-office/shared.js:53-82 | nothing written opens or closes a tag or ends an attribute, and all of it is ASCII |
| XmlText.EncodeXmlLoop | system-plugins/dsh-office/shared.js:59-82 | the character loops refine the specified encoding |

## Left out

Stated weaker than a full account:

- InstallHost.Gateway.ReadJournal: the journal is a list of entries, so malformed lines and the JournalError they raise are not modelled.
- InstallRuns.RunKeepsJournalTidy: assumes unique transaction ids and one host at a time; concurrent installs are not modelled.
- InstallTransaction.StagedTreeVerifiesExactly: paths are compared as whole strings, so two member names that alias through `.` segments count as different; member names are distinct because the source builds an object keyed by path.
- FsPublish.Os.PublishAtomic: the crash guarantee leaves out a target that does not exist yet and is itself named like a temp file; interrupted or zero-byte writes are bounded by a count, since an endless stream of them makes the source loop forever.
- FsPublish.Os.PublishInTurn: for the same reason the target is not named like a temp file.
- EdComplete.DecodeInvertsEncoding: the primality of p is the hypothesis `Field`: Fermat's little theorem and no zero divisors modulo p.
- EdComplete.DecodeInvertsEncode: under the same hypothesis.
- EdPoint.EncodesTheAffinePoint: that Z^(p-2) inverts Z is an assumption here; `EdComplete.UnitsInvert` derives it from `Field`.
- EdPoint.VerifiesExactly: associativity, closure and completeness of the affine law (d is not a square) are the assumption `GroupLaw`, and SHA-512 is a parameter.
- Ed25519.MulRepresents: rests on the same assumption `GroupLaw`.
- EdPoint.Verify: starts after the base64 decoding, which is `Base64.StrictDecodesExactly`.
- Marketplace.RefreshAcceptsExactly: the Ed25519 check over the canonical bytes is a parameter and the remaining field patterns are one flag; an anchor store that fails appears only as the step `Throw` of `MarketplaceOverlap`.
- MarketplaceRuns.FloorNeverDecreases: a refresh is one atomic step, so refreshes of one resolver that overlap between their awaits (marketplace.js:217-224, 240-251, 288-306) are excluded; with them the floor can go down, exactly as `MarketplaceOverlap.LowersExactly` says.
- MarketplaceRuns.AcceptedIndexesNeverGoBack: for the same reason; what remains with overlaps is `MarketplaceOverlap.AcceptedWasNotStale`.
- SemverRange.VersionLessComparesMajors: version segments are unbounded here, while numbers above 2^53 lose digits in the source.
- SpdxLicense.Audit: which characters outside ASCII are alphanumeric is a parameter.
- SpdxDocumented.ReadingsAgreeExactly: exact for expressions in which no identifier occurs twice; with repeated ones unmixed levels remain sufficient (`SpdxDocumented.UnmixedReadingsAgree`) but not necessary, since a repetition can absorb the difference.
- SseStream.ChunksDoNotMatter: JSON.parse is a parameter and the event callback does not throw.
- XmlText.DecodeInvertsEncode: numeric references too long for a finite number are not modelled; the encoder writes none.
- CellAddress.ParseInvertsAddress: rows and columns are unbounded here, while numbers beyond 2^53 lose digits in the source.
- TimerRuns.FiresEarlyExactly: how long a sleep lasts is a parameter; one shorter than asked for, as after an interrupted nanosleep, is left out here but allowed in every other result about timers. The deadline check between passes is the step `Stop`.

Not modelled:

- Install: torn journal lines and the JSON line codec with its JournalError, timestamps and `previousVersion`, progress callbacks, the argument type check, the manifest field checks.
- Catalog: Date.parse, HTTP, the pass-through install of a resolved entry.
- Canonical JSON: toJSON methods, sparse arrays, BigInt; the text of a finite number is taken from JSON.stringify.
- Streams: the state of a decoder after it threw, the map of streams and the moment a stream is registered.
- Tar: sizes too large to allocate, files written by other tools beyond what the reader checks.
- Ed25519: the SHA-512 rounds and the built-in self-test.
- Sockets: received chunks and their base64, audit lines, the text of ids and their truncation, overflow of the id counter, reuse of a table slot by the connection record.
- Bridge: what each primitive does (its outcome and the calls it triggers are parameters), the deadline, out-of-memory branches.
- The two lexical path resolvers of `src/dsh_runtime_host.c`, `gridAddresses` and the sheet writer: short walks that would only add easy members.
- The JavaScript `atob` and `btoa` entry points.
- `toUpperCase` of non-ASCII letters in column names.
- SHA-256, zstd, sqlite, the QuickJS and wasm engines, processes, terminals, HTTP plumbing, UI, device and governance code.
