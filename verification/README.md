# nzbdav streaming layer: a verified model

A Dafny model of the parts of `crates/nzbdav-stream` and `crates/nzbdav-rar` whose guarantees
rest on state and arithmetic spread over several functions, with proofs of those guarantees.
`dafny verify dfyconfig.toml` checks all of it.

Each stateful component has two layers. A *model* module gives the state as a value and each
locked section, poll or task step as a function on it; a *runs* module proves what every
sequence of steps keeps, in every order. A class with the source's fields then performs the same
steps in place, and each of its methods is proved to have exactly the effect of the model's
function, so what is proved of the runs holds of the objects; the read streams carry what they
delivered as ghost fields, and their validity says what it is. Lists and dictionaries are fields of
type `seq` and `map` that methods reassign. A section run under a lock is one step; tasks are steps
taken in any order; time is a number of milliseconds handed in by the caller.

- **Permits** (`PrioritizedSemaphore`, `SemaphoreRuns`, `SemaphoreOrder`). Three tiers, a demand reserve read-ahead
  may borrow, a repair floor. Read-ahead and ingest are held under one tier; the runs carry the
  split between them. A cancelled wait closes its entry, which goes at the next dispatch.
- **Patches** (`PatchSpans`, `PatchModel`, `PatchRuns`, `PatchAnswers`, `PatchIndex`, `PatchStore`). Repaired
  spans of a release's files under a byte budget, with cached counters, a message-id index,
  whole-release eviction, and an insert whose checked half and locked half may be apart. The
  store refines a map from (release, file, offset) to the byte last written there.
- **Census** (`RecoverySet`, `Census`, `CensusVerdict`, `CensusSettle`, `CensusLedger`,
  `CensusRun`, `RecoveryCensus`). Settling articles pool by pool, charging lost articles to PAR2 slices, and
  a verdict that is right however the open questions turn out.
- **Holes** (`HoleModel`, `HoleRuns`, `HoleAnswers`, `HoleLedger`, `Fingerprints`). When a refused article
  (NNTP 430, sections 6.2.1 and 6.2.4 of RFC 3977) becomes a confirmed hole, and who may probe
  it again.
- **Reads** (`MultipartModel`, `MultipartRuns`, `MultipartFileStream`; `PrefetchModel`,
  `PrefetchRuns`, `MultiSegmentStream`; `SegmentSearch`; `Cbc`, `AesModel`, `AesRuns`,
  `AesDecoderStream`). Each read path delivers the plain slice of the whole file it stands for,
  in whatever pieces the layer below answers. CBC is that of section 6.2 of NIST SP 800-38A over
  any block cipher.
- **RAR5** (`Vint`, `Rar5Reader`, `Rar5Format`, `Rar5Archives`, `Rar5Parser`). Variable-length
  integers and the header walk.

## Where the code does less, or other, than it seems to

- Permits: with every permit reserved for demand an ingest ask waits forever on an idle pool;
  progress holds exactly when `total > demand_reserved` (`ProgressNeedsAShare`). In reachable
  states with a free permit both repair guards ask the same thing, so the comment that read-ahead
  borrowing does not hold repair back from its floor has no effect (`RepairGuards`,
  `RepairBelowFloorIsNext`).
- Prefetch: twice the lookahead bounds what is started beyond what was delivered exactly when no
  segment fails or the release ends within twice the lookahead of the first that does; otherwise
  a run starts one more (`TwiceTheLookaheadExactlyWhen`).
- Multipart stream: after an error of the segment stream, a further read without a seek starts the
  part's segments over without skipping what had been read; it is right exactly when nothing had
  been read of the part's content yet, and after `a` bytes it delivers the content from `a` bytes
  too early (`RetryLosesItsPlace`, `RetryDeliversTooEarly`, `RetryCanRepeatBytes`). A comment says
  that a segment stream that ends while bytes are skipped moves on to the next part; the code only
  drops the segment stream, and the model follows the code.
- Decrypting stream: a seek continues with the right plaintext exactly when its target is on a
  block boundary and, at the first block, the stored vector is still the original one
  (`SeekIsExactExactlyWhen`). A seek into the first block delivers the block from its start
  (`SeekInsideTheFirstBlock`); a stream taken back to its start gives a wrong first block unless
  the last block read equals the original vector (`SeekBackToTheStart`). A chunk that ends inside a
  block loses the rest of the block (`PartOfABlockIsLost`).
- Census: an article is charged to exactly the slices that hold its bytes unless it starts in the
  padding after the end of its file (`ChargeIsRightExactlyWhen`); the spans made from recorded part
  sizes never do (`RecordedSpansAreInFile`). One census can write an article off by itself only
  when its own refusals take the confirm delay, and does when the delay is zero
  (`CertainLossHadARecord`, `CertainExactlyWhen`, `ZeroDelayNeedsNoRecord`).
- Holes: two lists of servers have one fingerprint exactly when their sorted names agree once cut at
  the commas (`FingerprintsAgreeExactlyWhen`); for names that are not empty and have no comma, that
  is when they are the same set (`FingerprintIsTheServerSet`), and with commas two sets can look
  alike (`CommasCollide`).
- RAR5: what follows a file header's name may be anything, but for an encryption record that is cut,
  which fails the parse (`FileBodyReadsBack`).

## Model

| member | source | states |
|---|---|---|
| PrioritizedSemaphores.PrioritizedSemaphore.WithRepairFloor | crates/nzbdav-stream/src/prioritized_semaphore.rs:274-299 | an idle pool with reserve and floor inside the total |
| PrioritizedSemaphores.PrioritizedSemaphore.Dispatch | crates/nzbdav-stream/src/prioritized_semaphore.rs:178-197 | prune, then grant until every ask still queued has a reason to wait, whichever waiters leave between prune and send; terminates |
| PrioritizedSemaphores.PrioritizedSemaphore.Acquire | crates/nzbdav-stream/src/prioritized_semaphore.rs:309-327 | an ask is queued at its tier's end and dispatched; afterwards every queued ask has a reason to wait |
| PrioritizedSemaphores.PrioritizedSemaphore.Release | crates/nzbdav-stream/src/prioritized_semaphore.rs:200-204 | a release gives its tier's permit back and dispatches; afterwards every queued ask has a reason to wait |
| PrioritizedSemaphores.PrioritizedSemaphore.Cancel | crates/nzbdav-stream/src/prioritized_semaphore.rs:101-105 | a cancelled wait is only closed; nothing is granted by it |
| PrioritizedSemaphores.DefaultFloorFits | crates/nzbdav-stream/src/prioritized_semaphore.rs:253-263 | the default floor fits the share, leaves read-ahead one permit of it when there is a share, and is a quarter of the pool rounded up unless the share is too small |
| PrioritizedSemaphores.StopsExactlyWhen | crates/nzbdav-stream/src/prioritized_semaphore.rs:132-176 | nothing is granted if and only if all permits are out, or no demand ask waits, repair waits only with the share full, borrowing read-ahead only for the repair floor, and read-ahead and ingest only for want of room besides what demand and the repair floor claim |
| SemaphoreOrder.NobodyWaitsForNothing | crates/nzbdav-stream/src/prioritized_semaphore.rs:132-204 | in every reachable state each queued ask has such a reason to wait |
| SemaphoreOrder.TheReserveIsLent | crates/nzbdav-stream/src/prioritized_semaphore.rs:148-166 | in every reachable state with a borrowing read-ahead ask queued and repair at its floor or idle, every permit is out, the unused reserve included |
| SemaphoreOrder.NextIs | crates/nzbdav-stream/src/prioritized_semaphore.rs:132-176 | who is next, each exactly in its case: demand, then repair below its floor, then the first read-ahead or ingest ask that has room, then repair at its floor only when no such ask is queued |
| SemaphoreOrder.PermitsGoInTurn | crates/nzbdav-stream/src/prioritized_semaphore.rs:101-204 | over any run, permits of one kind within a tier go out in the order of the asks, and none is sent to an asker that had gone away |
| SemaphoreOrder.PermitsAreConserved | crates/nzbdav-stream/src/prioritized_semaphore.rs:180-204 | over any run of a new pool the permits sent and not returned are exactly those counted as held, at each tier, and at most the total |
| SemaphoreRuns.RepairGuards | crates/nzbdav-stream/src/prioritized_semaphore.rs:141-170 | with a permit free both repair guards ask for room in the non-reserve share, no more and no less |
| SemaphoreRuns.ReadAheadRespectsRepairFloor | crates/nzbdav-stream/src/prioritized_semaphore.rs:144-166 | no read-ahead grant while repair waits below its floor; a grant made with repair holding part of its floor leaves the unmet part free in the share, besides demand's |
| SemaphoreRuns.DrainSendsThePicks | crates/nzbdav-stream/src/prioritized_semaphore.rs:180-197 | the permits a dispatch sends are those picked at its grant points, but for waiters that left, in order |
| SemaphoreRuns.EveryGrantRespectsRepairFloor | crates/nzbdav-stream/src/prioritized_semaphore.rs:180-204 | for every ask or return in every reachable state: each permit its dispatch sends is picked in a state with no closed entry queued; no pick at the read-ahead tier is made over repair below its floor, each leaves the unmet floor free, and only borrowing read-ahead takes from the demand reserve |
| SemaphoreRuns.OnlyReadAheadBorrows | crates/nzbdav-stream/src/prioritized_semaphore.rs:115-118 | a grant that ends up in the demand reserve goes to a borrowing read-ahead ask, with no demand queued and repair idle or at its floor |
| SemaphoreRuns.RepairBelowFloorIsNext | crates/nzbdav-stream/src/prioritized_semaphore.rs:140-147 | repair below its floor is next if and only if the share has room |
| SemaphoreRuns.NextKeepsInv | crates/nzbdav-stream/src/prioritized_semaphore.rs:180-204 | every ask, return and cancel, with any waiters leaving mid-dispatch, keeps the invariant and bounds held plus queued |
| SemaphoreRuns.ReserveIsOnlyBorrowedByReadAhead | crates/nzbdav-stream/src/prioritized_semaphore.rs:11-22 | in every reachable state at most `total` is held, repair plus ingest stay within `total - demand_reserved`, and what is borrowed is borrowed by read-ahead |
| SemaphoreRuns.NobodyWaitsOnAnIdlePool | crates/nzbdav-stream/src/prioritized_semaphore.rs:132-204 | with a share, no reachable state has waiters while nothing is held |
| SemaphoreRuns.ProgressNeedsAShare | crates/nzbdav-stream/src/prioritized_semaphore.rs:132-204 | no run ever gets stuck if and only if `total > demand_reserved` |
| SemaphoreRuns.ReleasesEmptyQueues | crates/nzbdav-stream/src/prioritized_semaphore.rs:200-204 | with no new asks, at most held plus queued releases empty every queue |
| PatchSpans.CheckOverlap | crates/nzbdav-stream/src/patches.rs:926-947 | the check gives the length exactly when a span of the same range is there, zero exactly when no span overlaps, and refuses otherwise |
| PatchSpans.InsertFits | crates/nzbdav-stream/src/patches.rs:569-598 | a span that passes the check keeps the spans ordered and apart, and their bytes and number change by what the check said |
| PatchSpans.InsertOverlays | crates/nzbdav-stream/src/patches.rs:569-598 | afterwards the file's bytes are the new span's where it lies and the old ones elsewhere |
| PatchSpans.Pieces | crates/nzbdav-stream/src/patches.rs:899-924 | pieces are found exactly when spans cover the whole range, and together are its bytes |
| PatchModel.EvictTakesShortestPrefix | crates/nzbdav-stream/src/patches.rs:709-731 | eviction removes whole releases, never the kept one: the shortest prefix in order of last use that makes the growth fit, or every candidate |
| PatchModel.EvictMakesRoom | crates/nzbdav-stream/src/patches.rs:709-731 | growth that fits with the kept release alone fits after the eviction |
| PatchRuns.CommitKeepsWf | crates/nzbdav-stream/src/patches.rs:533-598 | a commit keeps counters, spans and budget right, whatever happened since its check |
| PatchRuns.RecordKeepsWf | crates/nzbdav-stream/src/patches.rs:639-705 | so does a change of hole records or verdict |
| PatchRuns.NextRefines | crates/nzbdav-stream/src/patches.rs:533-705 | one locked section changes the byte map by its write and the releases it takes out, and by nothing else |
| PatchRuns.RunsRefineTheByteMap | crates/nzbdav-stream/src/patches.rs:458-731 | in every interleaving the store is well-formed, within budget, and holds for each offset the byte last written since its release was last taken out |
| PatchAnswers.CommitAnswers | crates/nzbdav-stream/src/patches.rs:503-544 | the locked half is stale exactly when another blob is there, and else accepted exactly when the span clashes with none there and the release's bytes, plus the length less what it replaces, plus the cost of a new file, are within the budget; each refusal exactly in its own case |
| PatchAnswers.CommitLeaves | crates/nzbdav-stream/src/patches.rs:545-598 | an accepted insert leaves the release with the stamp, newer than every other, with the new bytes over its old ones |
| PatchAnswers.CommitMakesRoom | crates/nzbdav-stream/src/patches.rs:545-598 | it evicts the shortest prefix in last-use order for what the release grows by, leaves the other releases and its own records as they were, and charges it what was needed |
| PatchAnswers.RecordAnswers | crates/nzbdav-stream/src/patches.rs:656-674 | a record change is stale exactly when another blob is there, and else taken if and only if the release fits the budget with it |
| PatchAnswers.RecordLeaves | crates/nzbdav-stream/src/patches.rs:675-702 | a taken change leaves the stamp, the old bytes, and of the records exactly the ones changed |
| PatchAnswers.RecordMakesRoom | crates/nzbdav-stream/src/patches.rs:675-702 | it evicts the shortest prefix in last-use order for the growth of the records, and does not count as a use |
| PatchAnswers.AddedLast | crates/nzbdav-stream/src/patches.rs:615-622 | each message-id is on record at most once, as added last, and records of other message-ids stay |
| PatchAnswers.ReadIsNewest | crates/nzbdav-stream/src/patches.rs:789-799 | a read makes its release newer than every other and changes nothing else |
| PatchAnswers.IndexCost | crates/nzbdav-stream/src/patches.rs:957-966 | what an indexed file is charged, in closed form |
| PatchAnswers.RecordCosts | crates/nzbdav-stream/src/patches.rs:968-979 | what records and a verdict are charged |
| PatchIndex.IndexFileExact | crates/nzbdav-stream/src/patches.rs:260-273 | indexing a new file keeps the index exactly the references of the live files |
| PatchIndex.WithoutExact | crates/nzbdav-stream/src/patches.rs:286-302 | taking a release out leaves exactly the references of the others |
| PatchStores.PatchStore.ValidMeans | crates/nzbdav-stream/src/patches.rs:236-302 | in any valid state the cached bytes stay within the budget, no reference dangles and every article of a patched file is indexed |
| PatchStores.PatchStore.RemoveRelease | crates/nzbdav-stream/src/patches.rs:286-302 | a release goes with its references and its share of every counter |
| PatchStores.PatchStore.EvictToFitInPlace | crates/nzbdav-stream/src/patches.rs:709-731 | the eviction loop is the eviction function |
| PatchStores.PatchStore.CheckInsert | crates/nzbdav-stream/src/patches.rs:458-531 | accepted if and only if the span is non-empty and in the file, no span there overlaps it but one of its very range, and the release with it fits the budget; each refusal exactly in its own case; and whether the release is stale |
| PatchStores.PatchStore.Commit | crates/nzbdav-stream/src/patches.rs:533-598 | stale exactly when another NZB blob has come in; else answered as the check is, from what is there now; accepted, the span is stored and its release is the newest; refused, nothing changes; what it wrote and what went is logged |
| PatchStores.PatchStore.InsertPatch | crates/nzbdav-stream/src/patches.rs:458-501 | with nothing in between, accepted exactly when the span is in the file, clashes with none and fits the budget, a stale release not counting; each refusal exactly in its own case, changing nothing |
| PatchStores.PatchStore.UpdateRecords | crates/nzbdav-stream/src/patches.rs:639-705 | a release of an older NZB blob goes first; then the change is taken if and only if the release fits the budget with it, and else refused for its size, never as stale |
| PatchStores.PatchStore.CommitRecords | crates/nzbdav-stream/src/patches.rs:656-702 | the locked half, which a release that has become stale meanwhile is refused by |
| PatchStores.PatchStore.DropRelease | crates/nzbdav-stream/src/patches.rs:803-812 | the release and all it holds are gone |
| PatchStores.PatchStore.FindPieces | crates/nzbdav-stream/src/patches.rs:789-801 | the first indexed file that covers the whole article serves it, and none exactly when none does |
| PatchStores.PatchStore.ReadArticle | crates/nzbdav-stream/src/patches.rs:757-799 | an article is served exactly when some file indexed for it was written throughout since its release was last taken out, whole, with the bytes written last; and the read makes its release the newest |
| PatchStores.ReadersGetTheLastWrites | crates/nzbdav-stream/src/patches.rs:757-801 | after any run an article of a stored file is served exactly when all of it was written, with the bytes written last |
| RecoverySets.SpansTileTheFile | crates/nzbdav-stream/src/recovery_set.rs:60-98 | the spans of a carried file follow one another from its first byte to its last, whatever part size is recorded |
| RecoverySets.TilesCover | crates/nzbdav-stream/src/recovery_set.rs:60-98 | tiles lie in the file and every byte of it lies in one |
| RecoverySets.PartsStart | crates/nzbdav-stream/src/recovery_set.rs:69-84 | with a positive learned part size article i starts at i times it, or at the end of the file, the file's own size before the release's; without one, at i times an even share |
| Census.SurveyedIds | crates/nzbdav-stream/src/census.rs:631-645 | every message-id of data and recovery articles, once |
| Census.CollectFile | crates/nzbdav-stream/src/census.rs:765-779 | the walk over a file's articles collects the slices charged to certain and to possible losses |
| Census.CollectSlices | crates/nzbdav-stream/src/census.rs:756-780 | so over a set; all slices of a file the release does not carry are uncertain |
| Census.CountRecovery | crates/nzbdav-stream/src/census.rs:791-802 | blocks of whole volumes are available, those of neither whole nor broken ones uncertain |
| Census.Assess | crates/nzbdav-stream/src/census.rs:713-815 | the report's figures count those sets, and its verdict is the settled rule's |
| Census.UnprotectedAreCounted | crates/nzbdav-stream/src/census.rs:783-789 | the unprotected count is the number of articles known lost in files of no protected name |
| CensusVerdicts.ChargedSlicesHoldItsBytes | crates/nzbdav-stream/src/census.rs:770-777 | an article that starts in its file is charged to exactly the slices that hold a byte of it |
| CensusVerdicts.ChargeIsRightExactlyWhen | crates/nzbdav-stream/src/census.rs:770-777 | the charge is right if and only if the article is empty, starts in the file, or starts past its last slice |
| CensusVerdicts.CarriedIsLast | crates/nzbdav-stream/src/census.rs:752-753 | a file of a name is found exactly when the release carries one, and it is the last one |
| CensusVerdicts.ReportBounds | crates/nzbdav-stream/src/census.rs:749-802 | however things are, lost slices number between damaged and damaged plus uncertain, surviving blocks between available and available plus uncertain, and each bound is met |
| CensusVerdicts.VerdictIsExact | crates/nzbdav-stream/src/census.rs:813-835 | repairable or intact exactly when recovery covers the loss in all resolutions, beyond repair exactly when in none, no verdict exactly when they disagree |
| CensusVerdicts.VerdictWithoutRecoverySet | crates/nzbdav-stream/src/census.rs:731-748 | without a set: intact exactly when no resolution loses an article, beyond repair exactly when all do |
| RecoveryCensus.RecordedSpansAreInFile | crates/nzbdav-stream/src/recovery_set.rs:51-98 | spans from recorded part sizes meet the condition of the exact charge |
| RecoveryCensus.RecordedSetVerdictIsExact | crates/nzbdav-stream/src/recovery_set.rs:10-98 | so the verdict over a recorded set is sound and complete, where a carried file is no larger than any other entry of its name |
| CensusSettling.StillAskedStep | crates/nzbdav-stream/src/census.rs:475-513 | dropping whom a pool has leaves exactly the ids no pool so far has |
| CensusSettling.AskPool | crates/nzbdav-stream/src/census.rs:479-497 | one pass notes every answer, counts the failures, and keeps whom the pool does not have |
| CensusSettling.AskPools | crates/nzbdav-stream/src/census.rs:475-513 | pool k is asked about exactly the ids no earlier pool had, and the walk stops early only when none is left |
| CensusSettling.EvidenceFollowsTheRule | crates/nzbdav-stream/src/census.rs:518-526 | the evidence gathered settles an id by the per-article rule |
| CensusSettling.EnforceCapacity | crates/nzbdav-stream/src/census.rs:599-628 | the cache is cut to capacity: what ran out first, then what is closest to running out, to nine tenths |
| CensusSettling.DamageCensus.Settle | crates/nzbdav-stream/src/census.rs:434-538 | cached states are kept while fresh, every other id is settled by the rule, and only established states enter the cache, each to be replayed exactly until its own time to live is over |
| CensusSettling.CacheReplays | crates/nzbdav-stream/src/census.rs:448-533 | after a settling a present and a missing article stand in the cache exactly until their own times to live are over, what was replayed runs out when it would have, and nothing else comes in |
| CensusLedger.Classify | crates/nzbdav-stream/src/census.rs:670-729 | an article is unharmed if and only if it is there, open if not established, certainly lost only if missing, then by the ledger at its turn, whenever its calls are made; only fresh misses are told to the ledger; and the listing of the report |
| CensusLedger.ListingSorts | crates/nzbdav-stream/src/census.rs:674-709 | missing, unestablished and present articles are told apart, none left out, and the provisional ones are the missing ones that are only possible losses |
| CensusLedger.CertainLossHadARecord | crates/nzbdav-stream/src/census.rs:684-706 | a certain loss was missing and had a record before, confirmed or by then as old as the confirm delay, or else the pass's own refusals took the delay; for a replayed miss a confirmed record |
| CensusLedger.CertainExactlyWhen | crates/nzbdav-stream/src/census.rs:684-706 | a miss probed at one instant is certain if and only if there is a server and its current record was confirmed or old enough, or it had none and the delay is zero; a replayed one if and only if a confirmed record has not lapsed |
| CensusLedger.ZeroDelayNeedsNoRecord | crates/nzbdav-stream/src/census.rs:684-706 | with a delay of zero a new ledger does confirm a hole in one census |
| CensusLedger.OnlyMissingGetRecords | crates/nzbdav-stream/src/census.rs:670-709 | a census makes records only of articles its own pass found missing |
| CensusRuns.GivenVerdictsStand | crates/nzbdav-stream/src/census.rs:713-835 | for every resolution in which nothing the pools had is lost: intact means that no slice is lost, and that every article with bytes of the set's files was there; repairable that recovery covers the loss; beyond repair that it does not, for every resolution in which all the pools lacked is lost |
| CensusRuns.GivenVerdictsWithoutSet | crates/nzbdav-stream/src/census.rs:731-748 | without a set: intact if and only if the pools had every article, beyond repair only if all lacked one |
| CensusRuns.RunCensus | crates/nzbdav-stream/src/census.rs:386-420 | survey, settle, ledger, classes and assessment together: the verdict and the lists hold of what the pools answered, or had answered when a cached answer was got, and the ledger has no record of what was there |
| HoleModel.SurvivorsAreNewer | crates/nzbdav-stream/src/holes.rs:345-369 | whoever is evicted for room was used longer ago than every record that stays |
| HoleModel.RoomIsMade | crates/nzbdav-stream/src/holes.rs:336-369 | after making room there is room for one more record; unlapsed records go only when the ledger is full, the longest unused, down to nine tenths |
| HoleModel.SweptWhenDue | crates/nzbdav-stream/src/holes.rs:336-356 | a lapsed record outlasts the making of room only when the ledger is not full and was swept within the sweep interval |
| HoleModel.ConsultAnswers | crates/nzbdav-stream/src/holes.rs:461-491 | each of the four answers exactly in its case: fetch without a current record of these servers, held for a provisional one, skip for a confirmed one that is unexpired or being probed, probe again otherwise; and nothing but recency, and the claim given out, changes |
| HoleRuns.ConfirmedHolesHaveEvidence | crates/nzbdav-stream/src/holes.rs:373-459 | over any run without restores, a confirmed hole has, since its first refusal, refusals from every server of one non-empty unchanged set, no present answer in between, and the confirm delay |
| HoleRuns.RunsStayBounded | crates/nzbdav-stream/src/holes.rs:345-391 | over any run, restores included, the ledger holds at most `capacity` records |
| HoleRuns.ReprobesAreApart | crates/nzbdav-stream/src/holes.rs:461-491 | between two answers to probe the same article the claim timed out, a transport outcome released it, or the record was lost |
| HoleRuns.RefusalConfirmsExactlyWhen | crates/nzbdav-stream/src/holes.rs:382-459 | a refusal leaves a confirmed hole if and only if an unexpired record of these servers was confirmed, or every server has refused and the delay is over; anything else is provisional and asks for a confirming fetch |
| HoleRuns.TransportIsNoEvidence | crates/nzbdav-stream/src/holes.rs:401-414 | a transport failure makes no record and moves none forward; it marks the server and releases the claim to probe |
| HoleAnswers.AnswersHaveGrounds | crates/nzbdav-stream/src/holes.rs:373-491 | over any run without restores, a caller is told to skip only after every one of its servers refused across the confirm delay with none having had the article since, within the time to live or a probe's timeout; to probe again only after that time; to hold off only on a refusal that has not lapsed |
| HoleAnswers.RestoreTakesBack | crates/nzbdav-stream/src/holes.rs:524-558 | a stored hole that has not expired and has no record comes back and answers as a confirmed hole of its servers until it expires, then to be probed; any other changes nothing |
| HoleAnswers.RestoreKeepsOthers | crates/nzbdav-stream/src/holes.rs:524-558 | other records stay as they were, but for those evicted for room |
| HoleLedgers.ProvisionalOutlivesTheDelay | crates/nzbdav-stream/src/holes.rs:292-307 | a provisional hole of a default ledger outlives the confirm delay and the confirming fetch |
| HoleLedgers.InMemoryHoleLedger.MakeRoom | crates/nzbdav-stream/src/holes.rs:345-369 | sweep when due or full, then evict down to nine tenths |
| HoleLedgers.InMemoryHoleLedger.Note | crates/nzbdav-stream/src/holes.rs:373-459 | present closes the hole, transport releases the claim, a refusal makes or confirms the record |
| HoleLedgers.InMemoryHoleLedger.ConsultFor | crates/nzbdav-stream/src/holes.rs:461-491 | the answer is the one its case has, and a claim to probe is on record for one caller |
| HoleLedgers.InMemoryHoleLedger.Restore | crates/nzbdav-stream/src/holes.rs:524-558 | a stored hole comes back unless it ran out or is recorded, within the capacity |
| Fingerprints.FingerprintsAgreeExactlyWhen | crates/nzbdav-stream/src/holes.rs:206-210 | for any names, two lists of servers have one fingerprint exactly when their sorted names agree once cut at the commas |
| Fingerprints.FingerprintIsTheServerSet | crates/nzbdav-stream/src/holes.rs:206-210 | for names not empty and without commas, exactly when they are the same set of servers |
| Fingerprints.JoinTellsApart | crates/nzbdav-stream/src/holes.rs:206-210 | for names without commas joined names are equal exactly for equal lists, but for the empty list and the empty name |
| Fingerprints.CommasCollide | crates/nzbdav-stream/src/holes.rs:206-210 | any name and a later one look like the one name the two make with a comma |
| MultipartRuns.PollDeliversTheFile | crates/nzbdav-stream/src/multipart_file_stream.rs:125-228 | a poll gives the file's next bytes and nothing else; none only at the end or without room; on ready segments it delivers or comes closer |
| MultipartRuns.RunsDeliverTheFile | crates/nzbdav-stream/src/multipart_file_stream.rs:69-280 | over any reads and seeks, under any chunking, the reader has the file from where it last sought, until the segments fail |
| MultipartModel.SeekNotesItsPlace | crates/nzbdav-stream/src/multipart_file_stream.rs:232-280 | a seek goes to the place it names, counted from the start, the position or the end, at most to the end; one before the start changes nothing |
| MultipartRuns.SeeksDeliverFromTheirPlace | crates/nzbdav-stream/src/multipart_file_stream.rs:125-280 | after any run, what is delivered following a seek to a place and its completion is the file from that place on |
| MultipartRuns.PollsEnd | crates/nzbdav-stream/src/multipart_file_stream.rs:148-228 | with ready segments and room, bytes come within as many polls as there are bytes to skip, plus one for the search of the part |
| MultipartRuns.RetryLosesItsPlace | crates/nzbdav-stream/src/multipart_file_stream.rs:148-227 | after a failed poll, reading on is in step if and only if nothing had been read of the part's content |
| MultipartRuns.RetryDeliversTooEarly | crates/nzbdav-stream/src/multipart_file_stream.rs:148-227 | when the segments fail after any number of bytes of a part were read, a retry next delivers the content from that many bytes too early |
| MultipartRuns.RetryCanRepeatBytes | crates/nzbdav-stream/src/multipart_file_stream.rs:183-227 | a run in which a retried read delivers a byte twice |
| MultipartFileStreams.MultipartFileStream.PollRead | crates/nzbdav-stream/src/multipart_file_stream.rs:125-228 | a poll of the object delivers the next bytes of the file or comes closer, and all delivered since the last seek stays the file from there |
| MultipartFileStreams.MultipartFileStream.StartSeek | crates/nzbdav-stream/src/multipart_file_stream.rs:232-259 | the place asked for is noted, and refused exactly before the start; the stream does not move |
| MultipartFileStreams.MultipartFileStream.PollComplete | crates/nzbdav-stream/src/multipart_file_stream.rs:261-280 | the stream moves to the place noted, at most to the end, and what it delivers from then on is the file from there |
| PrefetchModel.TaskKeepsInv | crates/nzbdav-stream/src/multi_segment_stream.rs:106-122 | fetch completions, promotions and task steps keep window, channel and reader in one order |
| PrefetchRuns.RunsDeliverInOrder | crates/nzbdav-stream/src/multi_segment_stream.rs:51-206 | in every interleaving the output is the segments in index order up to the first that fails, and then at most one error |
| PrefetchRuns.FaithfulMeans | crates/nzbdav-stream/src/multi_segment_stream.rs:160-206 | an error is that of the first failing segment and the last thing but end of stream; an end without error means every segment was given, if none is empty |
| PrefetchRuns.StartedIsBounded | crates/nzbdav-stream/src/multi_segment_stream.rs:106-122 | at most twice the lookahead is started beyond what was delivered, one more after an error |
| PrefetchRuns.TwiceTheLookaheadExactlyWhen | crates/nzbdav-stream/src/multi_segment_stream.rs:106-122 | no run starts more than twice the lookahead beyond what it delivered if and only if no segment fails or the release ends within twice the lookahead of the first that does |
| PrefetchRuns.AnErrorLeavesOneMore | crates/nzbdav-stream/src/multi_segment_stream.rs:106-195 | for every other release and lookahead, a run that starts one more |
| PrefetchRuns.PromotedIsNext | crates/nzbdav-stream/src/multi_segment_stream.rs:87-96 | until an error, only the segment the reader waits for is ever promoted |
| PrefetchRuns.PromotableExactlyWhen | crates/nzbdav-stream/src/multi_segment_stream.rs:87-96 | a fetch can be promoted if and only if it has not completed and the reader has come to its segment; and promotion changes nothing else |
| PrefetchRuns.PromotedStayDelivered | crates/nzbdav-stream/src/multi_segment_stream.rs:87-96 | whatever was promoted is at most the segment the reader waits for, all before it being delivered |
| PrefetchRuns.WaitingReaderIsServed | crates/nzbdav-stream/src/multi_segment_stream.rs:106-122 | whenever the reader waits, a fetch or the prefetching side can move |
| MultiSegmentStreams.MultiSegmentStream.constructor | crates/nzbdav-stream/src/multi_segment_stream.rs:51-135 | the first `lookahead` segments are started, in order |
| MultiSegmentStreams.MultiSegmentStream.SendResult | crates/nzbdav-stream/src/multi_segment_stream.rs:112-120 | a result is sent and one more segment started |
| MultiSegmentStreams.MultiSegmentStream.PollRead | crates/nzbdav-stream/src/multi_segment_stream.rs:160-206 | buffer first, then the next segment, keeping what does not fit; the object keeps that all output is the segments in order up to the first failing one, and that the read counter is its length |
| SegmentSearch.FileFrom | crates/nzbdav-stream/src/seekable_segment_stream.rs:82-84 | the file from a segment's start on is the segments from there on |
| SegmentSearch.FindSegment | crates/nzbdav-stream/src/seekable_segment_stream.rs:113-200 | wherever it guesses: no probe is repeated, a hit is exact, and it is missed only outside the file, on an unreadable header or after twenty probes; never in a file of at most twenty readable segments |
| SegmentSearch.EstimateIsTheOneBefore | crates/nzbdav-stream/src/seekable_segment_stream.rs:193-200 | with segments of one size the estimate is the segment before the one that holds the target, or the first, and its start |
| SegmentSearch.Align | crates/nzbdav-stream/src/seekable_segment_stream.rs:60-107 | after an exact hit the stream gives the file from the target on, under any chunking; an early end is an error, and never after an exact hit |
| Cbc.DecryptUndoesEncrypt | crates/nzbdav-stream/src/aes_decoder_stream.rs:404-412 | decryption undoes encryption |
| Cbc.PlainPiece | crates/nzbdav-stream/src/aes_decoder_stream.rs:155-171 | a chunk decrypted with the ciphertext block before it is the same piece of the plaintext |
| AesRuns.PollDeliversPlain | crates/nzbdav-stream/src/aes_decoder_stream.rs:104-193 | a poll gives the plaintext's next bytes, none past the decoded size |
| AesRuns.PartOfABlockIsLost | crates/nzbdav-stream/src/aes_decoder_stream.rs:137-147 | the stream stays in place if and only if it is given whole blocks |
| AesRuns.SeekIsExactExactlyWhen | crates/nzbdav-stream/src/aes_decoder_stream.rs:348-383 | a completed seek continues with the plaintext if and only if its target is on a block boundary and, in the first block, the vector is the original one |
| AesRuns.DeliveredAfterSeek | crates/nzbdav-stream/src/aes_decoder_stream.rs:245-385 | what the first read after any seek delivers: the blocks from the target's block on, the plaintext from that block's start unless the target is in the first block |
| AesRuns.SeekInsideTheFirstBlock | crates/nzbdav-stream/src/aes_decoder_stream.rs:358-377 | a new stream that seeks into its first block delivers the block from its start |
| AesRuns.SeekBackToTheStart | crates/nzbdav-stream/src/aes_decoder_stream.rs:168-171 | after reading, a seek back to the start gives the right first block if and only if the last block read is the original vector |
| AesModel.SeekHeadsThere | crates/nzbdav-stream/src/aes_decoder_stream.rs:197-243 | a seek heads for the place it names, counted from the start, the position or the decoded end, at most to that end |
| AesModel.HeadsThere | crates/nzbdav-stream/src/aes_decoder_stream.rs:245-390 | however often it waits, a seek that is done stands at its target, one that fails leaves the position, and with a ready stream below it is one or the other |
| AesRuns.RunsDeliverPlain | crates/nzbdav-stream/src/aes_decoder_stream.rs:103-390 | over any reads and seeks the reader has the plaintext, cut at the decoded size, from the start or the last exact seek on |
| AesRuns.RunsGiveBackWhatWasEncrypted | crates/nzbdav-stream/src/aes_decoder_stream.rs:103-390 | of encrypted bytes that is what was encrypted |
| AesDecoderStreams.AesDecoderStream.DecryptBlocks | crates/nzbdav-stream/src/aes_decoder_stream.rs:155-171 | the block loop decrypts the chunk and leaves the vector for the next |
| AesDecoderStreams.AesDecoderStream.PollRead | crates/nzbdav-stream/src/aes_decoder_stream.rs:104-193 | a poll of the object keeps that all delivered since the last exact seek is the plaintext from there |
| AesDecoderStreams.AesDecoderStream.StartSeek | crates/nzbdav-stream/src/aes_decoder_stream.rs:197-243 | the seek heads for the place asked for, at most the decoded end; refused exactly before the start |
| AesDecoderStreams.AesDecoderStream.PollComplete | crates/nzbdav-stream/src/aes_decoder_stream.rs:245-390 | the seek loop ends; when the seek is done the stream stands at its target, with nothing delivered yet |
| Vint.ReadInvertsEncode | crates/nzbdav-rar/src/rar5.rs:15-32 | every 64-bit value reads back, whatever follows, from exactly its own bytes |
| Vint.ReadFailsExactlyWhen | crates/nzbdav-rar/src/rar5.rs:17-31 | reading fails exactly on ten continued bytes or when the bytes end first |
| Rar5Readers.Reader.ReadVint | crates/nzbdav-rar/src/rar5.rs:15-32 | the byte loop reads that value and stops after it, or fails as it does |
| Rar5Archives.HeadReadsBack | crates/nzbdav-rar/src/rar5.rs:74-102 | a block's header reads back: type, sizes, own length and body, whatever follows it |
| Rar5Archives.FileBodyReadsBack | crates/nzbdav-rar/src/rar5.rs:457-556 | a file header's fields read back with any extra area, and fail exactly when an encryption record of that area is cut |
| Rar5Archives.ExtraReadsBack | crates/nzbdav-rar/src/rar5.rs:492-537 | an extra area of well-formed records gives the last encryption record among them |
| Rar5Archives.FileWithRecordsReadsBack | crates/nzbdav-rar/src/rar5.rs:450-556 | so a file header with such records reads back whole |
| Rar5Archives.ArchiveBodyReadsBack | crates/nzbdav-rar/src/rar5.rs:181-195 | an archive header reads back its volume number and whether it is the first volume |
| Rar5Archives.BadChecksumIsRefused | crates/nzbdav-rar/src/rar5.rs:105-117 | a wrong header checksum ends the walk with an error naming the header, whatever follows |
| Rar5Archives.WalkVisitsEachBlock | crates/nzbdav-rar/src/rar5.rs:61-250 | walking a well-formed archive visits each block once, in order, up to the end block |
| Rar5Archives.ParseVisitsEachBlock | crates/nzbdav-rar/src/rar5.rs:48-253 | so does a parse of the whole archive, after the magic |
| Rar5Archives.ParseGivesBackTheEntries | crates/nzbdav-rar/src/rar5.rs:48-253 | the round trip of archives: whatever entries are written, with whatever flags, extra records and data, a parse gives back what they mean, in order, up to the end entry |
| Rar5Archives.FilesDelimitTheirData | crates/nzbdav-rar/src/rar5.rs:539-556 | the n-th file header found is that of the n-th file block, and its data start and size delimit that block's own data |
| Rar5Archives.OnlyArchivesParse | crates/nzbdav-rar/src/rar5.rs:48-57 | what does not begin with the magic is refused, as short or as having no signature |
| Rar5Archives.EncryptionHeaderEnds | crates/nzbdav-rar/src/rar5.rs:257-300 | the error an encryption header gives without a password, each exactly in its case |
| Rar5Archives.EncryptedNeverParses | crates/nzbdav-rar/src/rar5.rs:120-135 | no archive with an encryption header before its end block parses without a password |
| Rar5Archives.EncryptionIsTold | crates/nzbdav-rar/src/rar5.rs:120-135 | when what is before it can be read, the parse ends with that header's own error |
| Rar5Archives.VolumeNumberComesBack | crates/nzbdav-rar/src/rar5.rs:183-190 | a volume number below 2^31 comes back as itself, any other as the 32-bit signed integer equal to it modulo 2^32 |
| Rar5Parsers.ReadFileBody | crates/nzbdav-rar/src/rar5.rs:450-556 | the cursor reads a file header's fields and extra area, or fails where they do |
| Rar5Parsers.ReadExtra | crates/nzbdav-rar/src/rar5.rs:494-537 | the loop through an extra area, record by record, finds its last encryption record |
| Rar5Parsers.ReadBlock | crates/nzbdav-rar/src/rar5.rs:62-248 | one turn of the loop: the header, its checksum, its body, and past its data |
| Rar5Parsers.ParseRar5 | crates/nzbdav-rar/src/rar5.rs:48-253 | the loop finds exactly the walk's headers, and fails exactly as it does |

## Left out

- Files on disk in the patch store: staging, renames, trash, JSON and reload order. The store is the in-memory one; its check and commit halves are kept apart.
- Widths of counters and sizes: `u64`, `i64` and `usize` are unbounded, so overflow of sums and products is not modelled. The saturating product of part index and part size is bounded by the file size either way. Variable-length integers are 64 bits wide, with bits past them dropped; their bit operations are written as arithmetic on disjoint digits.
- Lengths of strings stand for their lengths in bytes; file names of RAR headers are bytes, not decoded text.
- Iteration order of hash maps: no statement depends on it, and loops over maps take keys in any order. Sorting and selecting by recency or expiry is done by repeated minimum.
- NNTP, yEnc, provider fetching, timeouts, the pool trip counter, single-connection pools: an arbitrary answer for each pool and article. Wakers, channels and tasks: steps in any order.
- HoleRuns.ConfirmedHolesHaveEvidence: restored holes are not covered, since their evidence lies in an earlier process; the ledger's list of holes is modelled as the sweep it begins with.
- The filter of `record_holes` for confirmed, unexpired holes: a change of records takes the holes it is given.
- Census cooldowns, the running set and pool widths; the texts of a report.
- HoleAnswers.AnswersHaveGrounds: restored holes are not covered here either; how they answer is RestoreTakesBack.
- CensusRuns.RunCensus: its claims on slices are for sets whose articles start inside their files, as RecoveryCensus proves of recorded ones.
- CensusRuns.GivenVerdictsStand: likewise.
- RecoveryCensus.RecordedSetVerdictIsExact: a set that names a file twice with different sizes is not covered, as files are looked up by name alone.
- RecoveryCensus.RecordedSpansAreInFile: likewise.
- PrefetchRuns.FaithfulMeans: an empty segment reads as an end of stream, in the source as here.
- The receiver of a prefetched stream is never dropped; a lookahead of zero, for which no channel can be made, is not modelled.
- Shared ownership in the streams below: a part's segments answer in pieces from one fixed content, and an encrypted stream from fixed bytes, with any delays and failures.
- Errors of starting a seek in the encrypted stream; reading while a seek is in progress, which the caller may not do.
- SegmentSearch.Align: the estimates a search falls back on carry no claim when segments differ in size. The guess of the interpolation is any value, clamped to the interval, in place of its floating-point arithmetic.
- Seeks of the segment stream that only estimate (`start_resolve`), and those of `NzbFileStream`.
- AES, CRC32, key derivation and PAR2 arithmetic: any block cipher, any checksum of 32 bits.
- Rar5Parsers.ParseRar5: parses without a password. A type 4 header then ends the parse with the error the source gives; decrypting the headers after it is not modelled.
- Rar5Parsers.ReadBlock: likewise.
- Sizes that do not fit memory or 64 bits: a header that declares more bytes than there are ends the parse with an error, as in the source.
- SQLite layers, WebDAV and REST handlers, queue, configuration, NZB parsing and RAR4.
