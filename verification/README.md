# A model of the Nexus mailing-list archive

Nexus ingests mailing lists from git, threads the messages, groups patches into series and
follows the patches into the mainline kernel. This project models the algorithms underneath
in Dafny and proves what the rest of the system relies on. SQL statements are updates of maps
and sets, hashes and foreign parsers are values or function parameters, strings are sequences
of characters, `HashMap` iteration is an arbitrary choice, and a COPY into a table demands
that no key collides. `dafny verify dfyconfig.toml` checks everything.

Code that works step by step is a class or a method with loops, proved against a function or
predicate of the state; what the system promises is then proved about these. What such a
function computes is told a second time from the fields of inputs and results alone, without
the function: `ThreadParents`, `ThreadReplies`, `ThreadSummaries`, `IngestFacts`,
`MainlineFacts`, `JobLeases`, `LogicalFacts`, `LogicalTables` and the predicates named `…Mean`
or `…Means` of the other modules.

| Part | Modules |
|---|---|
| Thread forest | `ThreadForest`, `ThreadWalk`, `SortKeys`, `MessageIds`, `ThreadRegister`, `ThreadLink`, `ThreadParents`, `SubjectFallback`, `ThreadOutcome`, `ThreadGuarantees`, `ThreadSummaries`, `ThreadCollisions`, `ThreadReplies`, `ThreadBuilder` |
| Ingest, row by row and in batches | `IngestTables`, `IngestRefinement`, `IngestOutcome`, `IngestFacts`, `IngestPasses`, `IngestStore` |
| COPY payloads and sanitised text | `CopyFormat`, `CopyRoundTrip`, `CopyColumns`, `CopyRows`, `Sanitize` |
| Mainline merge detection | `KernelTags`, `ReleaseTags`, `MainlineMatch`, `MainlineWindows`, `MainlineFacts`, `MainlineScan`, `Rollup` |
| Ancestor closure | `AncestorClosure` |
| Job queue | `Jobs`, `JobProtocol`, `JobLimits`, `JobLeases`, `JobStore` |
| Patch-series lineage | `LineageItems`, `AssembledView`, `LogicalSlots`, `LogicalRuns`, `LogicalOrder`, `LogicalFacts`, `LogicalTables`, `LogicalStore` |
| Parallel parsing, diff blocks | `ParseLanes`, `DiffBlocks`, `DiffLines`, `DiffFiles` |
| Shared | `Wrappers`, `Sorting`, `Text` |

Where a property fails

- A message is lost from the threads exactly when another stored Message-ID is the key that
  the builder makes up for it: two equal ids that begin with `synthetic:msgpk:`, or an id that
  spells out the duplicate key of a repeated one (`ThreadCollisions.AllReturnedExactly`, shown
  by `SameImitationIsLost`).
- Sort keys follow the walk exactly if no group of siblings reaches 2^32 nodes, because
  positions are cast to 32 bits (`ThreadWalk.SortKeyOrderExactly`).
- If all roots of a subject are replies, the fallback does not leave the earliest one: every
  reply hangs under the next one and the latest stays
  (`SubjectFallback.RepliesUnderNextReply`).
- A COPY payload gives its rows back exactly if no text holds the quoted NULL sentinel; texts
  that pass the parser's check never do (`CopyRoundTrip.PayloadRoundTrip`,
  `CopyRows.CheckedBatchSurvives`).
- The size of the scan windows shows in the tables exactly if some message is known by an
  alias but not by its primary id (`MainlineWindows.WindowSizeIrrelevantExactly`).
- Without retries by an administrator, `max_attempts` limits the claims of a job exactly if it
  is 1, and a finished job stays finished exactly if it is at most 1: finalising statements
  match on the job id alone, so a worker that lost its lease can put the job back
  (`JobLimits.LimitHoldsExactly`, `JobLimits.FinishedStaysExactly`).
- The slots of a series are distinct within every version, and every item keeps its mapping
  row, exactly if the versions arrive in the order of their numbers. If a version with fewer
  patches arrives before the one it rerolls, the mapping after the second can give two patches
  of the reroll one slot, and one loses its row (`LogicalOrder.ArrivalOrderExactly`,
  `LogicalStore.ArrivalOrderMaps`).
- The key of a kernel tag orders it correctly among tags exactly if minor and patch are at most
  999 and a candidate's number at most 998 (`KernelTags.OrderedExactlyIfFitting`).

## Model

| member | source | states |
|---|---|---|
| ThreadForest.AttachKeepsForest | crates/nexus-jobs/src/threading.rs:386-414 | linking a root under a node that is not below it keeps `children` and parents exact inverses and the parent chains free of cycles |
| ThreadForest.AttachGrows | crates/nexus-jobs/src/threading.rs:386-414 | an attach removes no node and never exchanges a parent that is set |
| ThreadForest.ChainElsewhere | crates/nexus-jobs/src/threading.rs:401-413 | an attach changes no ancestor chain outside the subtree of the child |
| ThreadForest.ChainBelowChild | crates/nexus-jobs/src/threading.rs:401-413 | below the child every chain is continued by the whole chain of the new parent |
| ThreadForest.AncestorsLinear | crates/nexus-jobs/src/threading.rs:416-441 | two ancestors of a node are ancestors of one another |
| ThreadBuilder.Builder.IntroducesCycle | crates/nexus-jobs/src/threading.rs:416-427 | the upward loop ends and answers whether the child is the parent or one of its ancestors |
| ThreadBuilder.Builder.TryAttachParent | crates/nexus-jobs/src/threading.rs:386-414 | links exactly when both nodes exist, differ, the child is a root and no cycle arises, and changes nothing else |
| ThreadBuilder.Builder.RegisterMessages | crates/nexus-jobs/src/threading.rs:112-157 | the node map, canonical keys and node keys by row id after the first pass |
| ThreadBuilder.Builder.LinkMessages | crates/nexus-jobs/src/threading.rs:159-203 | every reference chain is resolved, missing ancestors become placeholders, and the chain is linked from its oldest message to the message at hand, in the order that `ThreadParents.MessageTurn` tells from the maps before and after |
| ThreadBuilder.Builder.ApplyFallback | crates/nexus-jobs/src/threading.rs:336-384 | the in-place loop over sorted roots computes the fallback function whose results are characterised below |
| ThreadBuilder.Builder.NearestReal | crates/nexus-jobs/src/threading.rs:429-441 | the upward loop ends and finds the nearest ancestor that stands for a message |
| ThreadBuilder.Builder.WalkPreorder | crates/nexus-jobs/src/threading.rs:304-334 | the recursion ends and emits the preorder of the subtree, whatever order the hash collections yield |
| ThreadBuilder.CollectSorted | crates/nexus-jobs/src/threading.rs:207-218 | collecting keys from a hash map in any order and sorting them by tuple gives one and the same sequence |
| ThreadBuilder.BuildThreads | crates/nexus-jobs/src/threading.rs:82-295 | the whole builder returns the components of the specification, for the empty input none; who is returned under whom is told by `ThreadReplies`, the rest of the fields by `ThreadSummaries` |
| ThreadRegister.CanonicalTaken | crates/nexus-jobs/src/threading.rs:122-137 | a canonical key is taken exactly by the messages seen so far that carry it and are not synthetic |
| ThreadRegister.HonestIdsAreDistinct | crates/nexus-jobs/src/threading.rs:122-137 | without Message-IDs that imitate made-up keys, no two messages get the same node key |
| ThreadLink.ForestExtends | crates/nexus-jobs/src/threading.rs:112-205 | no pass loses a node, a node's content or a parent; added nodes are placeholders |
| ThreadParents.PathIsLinked | crates/nexus-jobs/src/threading.rs:178-202 | of every two neighbours of a chain, the newer one has the older one as its parent afterwards, unless they are the same, the newer one had a parent already, or it is the older one or above it; no other parent is set |
| ThreadParents.MessageTurn | crates/nexus-jobs/src/threading.rs:159-203 | so in the turn of every message, for its references, oldest first, followed by itself |
| ThreadParents.ReferenceChainRefers | crates/nexus-jobs/src/threading.rs:443-469 | the references are all normalised ones that are not empty, oldest first, and of a message that has no references at all, its first in-reply-to id |
| ThreadReplies.LeafIsReturnedUnder | crates/nexus-jobs/src/threading.rs:82-295 | among messages with ordinary ids, one that nobody refers to is returned under the message that its last reference names |
| ThreadReplies.ReplyIsReturnedUnder | crates/nexus-jobs/src/threading.rs:82-295 | of a message and its reply, in any order and under any dates and subjects, the reply is returned under the message, and the message under none |
| SubjectFallback.FallbackResult | crates/nexus-jobs/src/threading.rs:336-384 | where the fallback leaves every real root, and that it moves nothing else |
| SubjectFallback.ReplySubjectMeans | crates/nexus-jobs/src/threading.rs:490-495 | a subject is a reply's exactly if it begins, behind white space, with one of four marks in small or capital letters |
| SubjectFallback.RepliesUnderPlainRoot | crates/nexus-jobs/src/threading.rs:352-383 | if the subject has a root that is no reply, each reply root hangs directly under the earliest such root, which stays a root |
| SubjectFallback.RepliesUnderNextReply | crates/nexus-jobs/src/threading.rs:352-383 | if all roots of the subject are replies, each hangs under the next one in order |
| SubjectFallback.ReplyRootLeftIsAlone | crates/nexus-jobs/src/threading.rs:336-384 | a reply root with a subject remains only if it is the sole real root of its subject |
| SubjectFallback.OthersStay | crates/nexus-jobs/src/threading.rs:344-350 | roots that are no replies, or have no subject, and nodes that are no real roots keep their parents |
| MessageIds.Normalize | crates/nexus-jobs/src/threading.rs:471-488 | the stripping loop ends and computes the normal form of a Message-ID |
| MessageIds.NormalizeIdempotent | crates/nexus-jobs/src/threading.rs:471-488 | normalising twice is normalising once |
| MessageIds.NormalizeMeans | crates/nexus-jobs/src/threading.rs:471-488 | the normal form is the text in lower case without the markup at its ends |
| ThreadWalk.EveryNodeOnce | crates/nexus-jobs/src/threading.rs:205-241 | the walk of all roots emits every node of the forest exactly once, under its path |
| ThreadWalk.SortKeyOrderExactly | crates/nexus-jobs/src/threading.rs:205-241 | the sort keys of the emitted nodes strictly increase exactly if every group of siblings has fewer than 2^32 nodes |
| ThreadWalk.SortKeyPrefix | crates/nexus-jobs/src/threading.rs:304-334 | one sort key is a prefix of another exactly when its node is an ancestor or the node itself |
| SortKeys.EncodeKeepsOrder | crates/nexus-jobs/src/threading.rs:497-503 | bytewise order of encoded paths is the order of the paths |
| SortKeys.EncodeKeepsPrefix | crates/nexus-jobs/src/threading.rs:497-503 | an encoded path is a prefix of another exactly when the path is |
| ThreadOutcome.NearestRealParentIsNearest | crates/nexus-jobs/src/threading.rs:429-441 | the parent message is that of the first ancestor with one; none means that no ancestor has one |
| ThreadOutcome.InputOrderIrrelevant | crates/nexus-jobs/src/threading.rs:82-295 | for distinct row ids all orders of the same messages build the same components |
| ThreadGuarantees.AllMessagesAreEmitted | crates/nexus-jobs/src/threading.rs:221-295 | the messages of all components, in order, are those of the walk of the whole forest |
| ThreadGuarantees.MessageSortKeysIncrease | crates/nexus-jobs/src/threading.rs:205-295 | the sort keys of the returned messages strictly increase across components |
| ThreadSummaries.MessagesInOrder | crates/nexus-jobs/src/threading.rs:95-110 | messages are processed by date, then subject, then row id; one without a date counts as of the epoch |
| ThreadSummaries.SiblingsInOrder | crates/nexus-jobs/src/threading.rs:205-334 | siblings and roots are numbered by date, then subject, then key |
| ThreadSummaries.SummariesMean | crates/nexus-jobs/src/threading.rs:243-295 | count, first message and its subject, earliest and latest date and the member tokens of every thread, told from its messages |
| ThreadSummaries.ThreadsAreTrees | crates/nexus-jobs/src/threading.rs:219-262 | every thread lists a root and exactly the nodes below it, once each, with their parents, depths and keys, and the messages of these nodes in the same order |
| ThreadGuarantees.EveryMessageExactlyOnce | crates/nexus-jobs/src/threading.rs:82-295 | nothing is returned twice or made up, and all messages are returned exactly if their node keys are distinct |
| ThreadGuarantees.OvertakenIsLost | crates/nexus-jobs/src/threading.rs:122-155 | a message whose node key a later one takes is not returned |
| ThreadGuarantees.HonestMessagesAllReturned | crates/nexus-jobs/src/threading.rs:82-295 | every message is returned if no stored id imitates a made-up key |
| ThreadCollisions.AllReturnedExactly | crates/nexus-jobs/src/threading.rs:122-155 | every message is returned exactly if no stored Message-ID is the key made up for another message |
| ThreadCollisions.EarlierImitatorIsLost | crates/nexus-jobs/src/threading.rs:122-155 | of two messages with one id of the synthetic form, the one processed first is not returned |
| ThreadCollisions.SameImitationIsLost | crates/nexus-jobs/src/threading.rs:122-155 | which happens to any two messages stored as `synthetic:msgpk:` and the same plain text |
| IngestStore.Store.IngestMessage | crates/nexus-db/src/ingest/message.rs:4-146 | the tables and the outcome after one row, known commit or not; a new message row holds the header, the ids and the primary of the row and leads to the body that was inserted for it |
| IngestTables.IngestKeepsConsistent | crates/nexus-db/src/ingest/message.rs:46-139 | ingesting keeps ids unique, every message led to its own body, all foreign keys valid, and an id flagged exactly if it is the stored primary one |
| IngestTables.OnePrimaryPerMessage | crates/nexus-db/migrations/0015_message_id_primary_repair_and_guard.sql:30-33 | consistent tables never violate the partial unique index of one primary id per message |
| IngestRefinement.OnlyPendingMatter | crates/nexus-db/src/ingest/batch_copy.rs:15-68 | one after the other, only the first row of each commit that the list does not have changes the tables |
| IngestRefinement.TablesComeApart | crates/nexus-db/src/ingest/batch_copy.rs:119-253 | what the rows add to messages, id map and instances can be computed table by table |
| IngestRefinement.CopyIsEnsure | crates/nexus-db/src/ingest/batch_copy.rs:119-178 | inserting the first row of every new hash under reserved ids gives the messages and bodies of the single inserts |
| IngestRefinement.MergeDeduplicated | crates/nexus-db/src/ingest/batch_copy.rs:234-291 | deduplicating id rows, inserting the new and promoting the known ones equals upserting them one by one |
| IngestRefinement.BatchRefinesSequential | crates/nexus-db/src/ingest/batch_copy.rs:4-303 | the tables of the batch are those of ingesting its rows in order |
| IngestFacts.RowsAreIngested | crates/nexus-db/src/ingest/message.rs:46-139 | after ingesting rows in order: which messages, bodies, ids and instances were added, each with the fields of the rows that brought it, and that all others stay |
| IngestOutcome.OutcomeIsFinal | crates/nexus-db/src/ingest/message.rs:12-44 | the message reported for a row is the one its commit stays mapped to |
| IngestPasses.SplitKnown | crates/nexus-db/src/ingest/batch_copy.rs:50-68 | which commits are skipped, once each, with the message they have, and which rows are pending |
| IngestPasses.ChooseInserts | crates/nexus-db/src/ingest/batch_copy.rs:119-131 | the rows to insert are the first of every new content hash; stored messages are mapped at once |
| IngestPasses.BuildCopies | crates/nexus-db/src/ingest/batch_copy.rs:133-178 | the body and message rows and what is known of them by hash; every message row names the body row of the same commit |
| IngestPasses.MapRemaining | crates/nexus-db/src/ingest/batch_copy.rs:180-199 | every pending commit ends up with its message, so no commit is skipped for want of one |
| IngestPasses.ListRows | crates/nexus-db/src/ingest/batch_copy.rs:201-232 | the id rows with the canonical primary flag and the instance rows |
| IngestPasses.DedupeIdRows | crates/nexus-db/src/ingest/helpers.rs:352-367 | the deduplicated rows carry the disjunction of their flags |
| IngestPasses.SplitIds | crates/nexus-db/src/ingest/batch_copy.rs:238-254 | exactly the unknown ids are inserted, and exactly the known ones that become primary are promoted |
| IngestPasses.SortedPks | crates/nexus-db/src/ingest/batch_copy.rs:311-313 | the reported row ids are the values of the map, strictly increasing |
| IngestStore.Store.IngestMessagesCopyBatch | crates/nexus-db/src/ingest/batch_copy.rs:4-325 | for any starting tables and rows the batch leaves the tables, inserted counts, skips and reported row ids of ingesting the rows in order; for every new hash the message row is that of the first row with the hash and leads to the body of that row |
| CopyRoundTrip.FinishRecords | crates/nexus-db/src/ingest/helpers.rs:150-158 | replacing the sentinel in the payload works field by field |
| CopyRoundTrip.PayloadRoundTrip | crates/nexus-db/src/ingest/helpers.rs:128-158 | reading the payload as quoted CSV with unquoted `\N` gives the rows back exactly if no text holds the quoted sentinel |
| CopyRoundTrip.UnmarkedIsHonest | crates/nexus-db/src/ingest/mod.rs:10 | a text without the sentinel's control character is never read as NULL |
| CopyRoundTrip.SentinelTextIsLost | crates/nexus-db/src/ingest/helpers.rs:150-158 | a text that is the sentinel comes back as NULL |
| CopyColumns.WriteHex | crates/nexus-db/src/ingest/helpers.rs:172-180 | the loop writes the hex text that the lemma below reads back |
| CopyColumns.HexRoundTrip | crates/nexus-db/src/ingest/helpers.rs:172-180 | reading the hex text of bytes gives the bytes |
| CopyColumns.WriteArray | crates/nexus-db/src/ingest/helpers.rs:182-203 | the loop writes the array literal that the lemma below reads back |
| CopyColumns.ArrayRoundTrip | crates/nexus-db/src/ingest/helpers.rs:182-203 | reading the array literal of texts gives the texts, with quotes and backslashes |
| CopyRows.CopyWriter.WriteRecord | crates/nexus-db/src/ingest/helpers.rs:136-148 | a record is its quoted fields, commas and a line feed, with the sentinel for NULL |
| CopyRows.BodiesRoundTrip | crates/nexus-db/src/ingest/helpers.rs:40-57 | the payload of bodies gives the bodies back |
| CopyRows.MessagesRoundTrip | crates/nexus-db/src/ingest/helpers.rs:59-91 | the payload of messages gives all fifteen columns back |
| CopyRows.IdsRoundTrip | crates/nexus-db/src/ingest/helpers.rs:93-107 | the payload of id rows gives the rows back |
| CopyRows.InstancesRoundTrip | crates/nexus-db/src/ingest/helpers.rs:109-126 | the payload of instances gives the rows back |
| CopyRows.CheckedSurvives | crates/nexus-jobs/src/mail/helpers.rs:155-212 | a parsed message that passes the check has only texts without the sentinel's control character |
| CopyRows.CheckedBatchSurvives | crates/nexus-db/src/ingest/batch_copy.rs:256-303 | the bodies, messages, new id rows and instances copied for a batch of checked messages are the rows the four tables receive |
| Sanitize.SanitizeText | crates/nexus-jobs/src/mail/helpers.rs:133-145 | the filtering loop computes the sanitised text |
| Sanitize.SanitizedMeans | crates/nexus-jobs/src/mail/helpers.rs:133-145 | character by character: line breaks of every kind become line feeds, other control characters but tabs go, the rest stays, and the whole is trimmed |
| Sanitize.SanitizedIsClean | crates/nexus-jobs/src/mail/helpers.rs:133-145 | sanitised text holds no disallowed character |
| Sanitize.SanitizeIdempotent | crates/nexus-jobs/src/mail/helpers.rs:133-145 | sanitising twice is sanitising once |
| Sanitize.CheckInvariants | crates/nexus-jobs/src/mail/helpers.rs:155-208 | succeeds exactly if all texts are clean, and names the first field that is not |
| KernelTags.KeyOrder | crates/nexus-jobs/src/pipeline/mainline.rs:1422-1430 | for minor and patch up to 999 and candidates up to 998 the key order is the version order, and equal keys mean equal versions |
| KernelTags.KeyStaysInI64 | crates/nexus-jobs/src/pipeline/mainline.rs:1422-1430 | the keys of all fitting tags of a major version stay in 64 bits exactly up to major 9 223 372 035 |
| KernelTags.OrderedExactlyIfFitting | crates/nexus-jobs/src/pipeline/mainline.rs:1422-1430 | against all fitting tags, a tag's key order is its version order exactly if its components fit the key |
| KernelTags.LargeCandidateBreaksOrder | crates/nexus-jobs/src/pipeline/mainline.rs:1427-1429 | every candidate numbered 999 ties with its final release and every later one follows it |
| ReleaseTags.CollectReleaseTags | crates/nexus-jobs/src/pipeline/mainline.rs:939-972 | exactly the kernel tags that point to commits, sorted by key and name; fails exactly if a tag's object is missing |
| ReleaseTags.CoverTag | crates/nexus-jobs/src/pipeline/mainline.rs:995-1023 | the walk of one tag ends and covers exactly what earlier tags covered and what the tag reaches |
| ReleaseTags.ReachesByParents | crates/nexus-jobs/src/pipeline/mainline.rs:995-1023 | a commit reaches itself and what its parents reach, and nothing else |
| ReleaseTags.AssignReleaseTags | crates/nexus-jobs/src/pipeline/mainline.rs:974-1031 | exactly the targets that a tag reaches are tagged, each with the first tag in order; fails exactly if a reachable object is missing |
| ReleaseTags.TagCommits | crates/nexus-jobs/src/pipeline/mainline.rs:894-910 | fails exactly if an object is missing that a release leads to; else gives each target the least release that contains it, with keys that are written out as weighted sums, ties by name |
| ReleaseTags.LeastVersion | crates/nexus-jobs/src/pipeline/mainline.rs:939-1031 | for tags that fit the key, that release is the least kernel version containing the commit |
| ReleaseTags.AncestorsAreNotLater | crates/nexus-jobs/src/pipeline/mainline.rs:974-1031 | a target that is an ancestor of a tagged target is tagged, and not later |
| MainlineMatch.WindowIrrelevantExactly | crates/nexus-db/src/mainline.rs:377-408 | the matches of a commit are independent of the rest of its window exactly if every message known by some id is known by its primary id |
| MainlineMatch.AliasMakesDifference | crates/nexus-db/src/mainline.rs:377-408 | a commit that links a patch known by an alias alone misses it on its own and finds it in every window that asks for the alias |
| MainlineWindows.WindowSizeIrrelevant | crates/nexus-jobs/src/pipeline/mainline.rs:335-433 | then every window size leaves the tables of a scan commit by commit |
| MainlineWindows.WindowSizeIrrelevantExactly | crates/nexus-jobs/src/pipeline/mainline.rs:335-433 | for all tables, commits and window sizes this holds exactly if every message known by some id is known by its primary id |
| MainlineWindows.FirstMatchWins | crates/nexus-jobs/src/pipeline/mainline.rs:731-808 | a patch without canonical match gets the first matching commit; rows of other patches, and of patches that have one, stay |
| MainlineWindows.OneCanonicalKept | crates/nexus-db/src/mainline.rs:495-533 | no patch ever has two canonical matches |
| MainlineWindows.RescanChangesNothing | crates/nexus-jobs/src/pipeline/mainline.rs:716-781 | scanning commits again that have been scanned changes nothing |
| MainlineFacts.MatchesMean | crates/nexus-jobs/src/pipeline/mainline.rs:731-771 | exactly these patches match a commit: those that a link names, else those of the same patch id, each as told from subjects and ids, and by which of the two |
| MainlineFacts.ChunksAreOneScan | crates/nexus-jobs/src/pipeline/mainline.rs:335-433 | scanning in windows is one scan in which every commit has the matches of its window |
| MainlineFacts.ScanMeans | crates/nexus-jobs/src/pipeline/mainline.rs:649-817 | after a scan, every commit with a new canonical match has its row with its own subject and time and the tag of its id, every such match its row, and all others stay |
| MainlineScan.FindByMessageIds | crates/nexus-db/src/mainline.rs:377-408 | returns, with repetitions, exactly the patches whose message has a requested id |
| MainlineScan.CollectLinkMatches | crates/nexus-jobs/src/pipeline/mainline.rs:1333-1375 | exactly the linked patches, and only those of the commit's subject if the link is ambiguous |
| MainlineScan.CollectPatchIdMatches | crates/nexus-jobs/src/pipeline/mainline.rs:1377-1398 | exactly the patches of the same patch id, and only those of the commit's subject if there are several |
| MainlineScan.MatchCommit | crates/nexus-jobs/src/pipeline/mainline.rs:731-771 | all matches of a commit, a link before a patch id |
| MainlineScan.FilterIsFresh | crates/nexus-jobs/src/pipeline/mainline.rs:1400-1413 | filtering by the stored and the claimed ids keeps exactly the matches that a commit-by-commit scan would add |
| MainlineScan.Store.ResolveBatch | crates/nexus-jobs/src/pipeline/mainline.rs:649-817 | the collected rows of a window have the effect of its commits one after the other |
| MainlineScan.Store.ScanCommits | crates/nexus-jobs/src/pipeline/mainline.rs:335-433 | the loop over windows computes the scan in windows of the given size, and its commit and match rows are those that the fields of the commits call for |
| Rollup.Accumulate | crates/nexus-db/src/mainline.rs:588-623 | after one pass every version's accumulator holds its counts and the names that go with its greatest keys |
| Rollup.VersionState | crates/nexus-db/src/mainline.rs:625-634 | a version is merged exactly if it has a patch and all are matched, unmerged exactly if none is |
| Rollup.VersionTag | crates/nexus-db/src/mainline.rs:605-657 | a merged version takes tag and release from the matches with the greatest keys, others take none |
| Rollup.SingleCommit | crates/nexus-db/src/mainline.rs:636-662 | the commit is recorded exactly for merged versions of one patch |
| Rollup.SummarizeSeries | crates/nexus-db/src/mainline.rs:688-757 | the series takes its latest merged version, by number, then time, then id; else the partial one that is furthest by matched, total and then that order; else it is unmerged |
| Rollup.RecomputeRollups | crates/nexus-db/src/mainline.rs:549-761 | one summary for every version and series of the rows: matched and total are the sizes of the sets of matched and of all patches, series and version those of the rows, and the series goes with the version that decides |
| Rollup.RollupMeans | crates/nexus-db/src/mainline.rs:588-757 | which is what the summaries of the specification say, written out with counts and comparisons |
| AncestorClosure.Context.LoadSourceMessagesCached | crates/nexus-db/src/threading.rs:144-191 | returns what the database holds and keeps both caches true |
| AncestorClosure.Context.ResolveMessageIdsCached | crates/nexus-db/src/threading.rs:224-274 | resolves as the database does and keeps both caches true |
| AncestorClosure.ResolveMessageIds | crates/nexus-db/src/threading.rs:193-222 | picks for each id the least row id among the primary rows, else the least of all |
| AncestorClosure.ResolvesExactly | crates/nexus-db/src/threading.rs:193-222 | an id resolves to a row exactly if this is the least primary row, or the least of all where none is primary |
| AncestorClosure.ExpandBatch | crates/nexus-db/src/threading.rs:299-338 | exactly the messages that the trimmed non-empty references of the batch resolve to; of a message without references, that of its first in-reply-to id and of no other |
| AncestorClosure.ExpandsExactly | crates/nexus-db/src/threading.rs:299-338 | one message leads to another exactly if a reference of it resolves to that one, or, where it has no references, its first in-reply-to id |
| AncestorClosure.ClosureUnique | crates/nexus-db/src/threading.rs:286-341 | there is one least closed set, so the caches cannot show in the result |
| AncestorClosure.ClosureIsLeast | crates/nexus-db/src/threading.rs:286-341 | the closure is the least set with the seeds that these references do not leave |
| AncestorClosure.ExpandAncestorClosure | crates/nexus-db/src/threading.rs:286-341 | the worklist ends with the least set that contains the positive seeds and with every known message the messages that its references, or else its first in-reply-to id, resolve to |
| Jobs.BackoffIsExact | crates/nexus-db/src/jobs.rs:690-699 | saturating arithmetic gives the exact backoff, cut off at the limits |
| Jobs.BackoffGrows | crates/nexus-db/src/jobs.rs:690-699 | later attempts never wait less, and no wait exceeds the limit |
| Jobs.BackoffDoubles | crates/nexus-db/src/jobs.rs:690-699 | the first attempt waits for the base and every later one twice as long as the one before, up to the limit |
| JobProtocol.StepKeepsInvariant | crates/nexus-db/src/jobs.rs:265-688 | every step keeps: running exactly with claimant and lease, attempts counted as claims and bounded, one attempt number per outstanding claim |
| JobProtocol.RunKeepsInvariant | crates/nexus-db/src/jobs.rs:105-688 | so it holds in every state of every run of workers, sweeps, cancels and retries |
| JobProtocol.ClaimsAreBounded | crates/nexus-jobs/src/engine/helpers.rs:188-312 | claims are at most `max_attempts`, and at least one, plus admin retries plus stale retryable reports |
| JobProtocol.OneCurrentTask | crates/nexus-db/src/jobs.rs:372-398 | of all claims on a job that are worked on, at most one is current |
| JobProtocol.LeaseProtects | crates/nexus-db/src/jobs.rs:336-415 | while its lease lasts, nothing but a report on it takes a running job from its claimant |
| JobLeases.ClaimLasts | crates/nexus-db/src/jobs.rs:372-415 | in every run, a worker that claims a job has it from the claim to that time plus the lease, unless a report or a shorter heartbeat on the job comes before |
| JobProtocol.FinalStateLeft | crates/nexus-db/src/jobs.rs:279-321 | a final state is left only by an admin retry or a report that is not current |
| JobProtocol.DedupeStaysUnique | crates/nexus-db/src/jobs.rs:105-150 | no step gives two jobs the same dedupe key |
| JobProtocol.DedupeUniqueInRuns | crates/nexus-db/src/jobs.rs:105-150 | so no two jobs of a run ever share one |
| JobLimits.StaleReportRevives | crates/nexus-jobs/src/engine/helpers.rs:233-264 | in every reachable state, a retryable report on a claim that was not the last allowed one makes its job due again, whatever became of the job |
| JobLimits.CompletedIsRevived | crates/nexus-db/src/jobs.rs:336-398 | for every `max_attempts` above 1 a run completes the job and then puts it back |
| JobLimits.LimitHoldsExactly | crates/nexus-jobs/src/engine/helpers.rs:188-312 | over all runs without admin retries, no job exceeds its `max_attempts` exactly if that is 1 |
| JobLimits.FinishedStaysExactly | crates/nexus-db/src/jobs.rs:279-688 | over all such runs, finished jobs stay finished exactly if `max_attempts` is at most 1 |
| JobStore.Store.Enqueue | crates/nexus-db/src/jobs.rs:105-158 | is the protocol's step: inserts a queued or scheduled job unless the dedupe key is taken |
| JobStore.Store.RequestCancel | crates/nexus-db/src/jobs.rs:265-277 | is the protocol's step: a waiting job is cancelled and no longer claimed, a running one keeps claimant and lease and is only flagged, a final one and all other rows stay |
| JobStore.Store.RetryJob | crates/nexus-db/src/jobs.rs:279-321 | is the protocol's step: never touches a running job; any other waits again with its attempts, and can be claimed at once exactly if the given time has come |
| JobStore.Store.PromoteReadyJobs | crates/nexus-db/src/jobs.rs:323-334 | is the protocol's step: queues and counts exactly the waiting jobs that are due |
| JobStore.Store.RequeueStuckJobs | crates/nexus-db/src/jobs.rs:336-370 | is the protocol's step: the two statements together treat every expired lease once |
| JobStore.Store.ClaimJobs | crates/nexus-db/src/jobs.rs:372-398 | is the protocol's step: claims the first `limit` due and unlocked jobs by priority, time and id; a claimed row is running, held by the worker until now plus the lease, with one attempt more and otherwise unchanged, and all other rows stay |
| JobStore.Store.Heartbeat | crates/nexus-db/src/jobs.rs:400-415 | is the protocol's step: extends the lease exactly for the claimant of a running job |
| JobStore.Store.FinalizeJob | crates/nexus-jobs/src/engine/helpers.rs:188-268 | is the protocol's step: writes the final state that the worker's own copy of the claim leads to, whoever holds the job |
| LineageItems.DedupeItems | crates/nexus-jobs/src/lineage/core.rs:536-568 | one item per ordinal, in order: a patch before other items, then one with a diff, then the earlier in the thread, then the lower row |
| LineageItems.NormalizeItemOrdinals | crates/nexus-jobs/src/lineage/core.rs:570-614 | in place, every missing or zero patch ordinal becomes the least unused one in turn, others stay, and totals are raised to the greatest ordinal |
| LineageItems.NormalizedTotalsCover | crates/nexus-jobs/src/lineage/core.rs:602-613 | every patch total is at least every patch ordinal |
| LineageItems.NormalizedKeepsDistinct | crates/nexus-jobs/src/lineage/core.rs:570-600 | patch ordinals stay distinct and become positive |
| AssembledView.FindInherited | crates/nexus-db/src/lineage/logical.rs:4-29 | the patch of the ordinal in the highest lower version, if any version has one |
| AssembledView.KeptExactly | crates/nexus-jobs/src/lineage/similarity.rs:77-103 | a patch of the version keeps its place exactly if its ordinal lies between one and the greatest total |
| AssembledView.InheritedExactly | crates/nexus-jobs/src/lineage/similarity.rs:86-103 | an ordinal is inherited exactly if it is in range, the version has no patch there and a lower version has; then from the highest such version |
| AssembledView.NothingIsLost | crates/nexus-jobs/src/lineage/similarity.rs:48-111 | after normalisation no patch written for the version is lost from its view |
| AssembledView.Store.ApplyAssembledView | crates/nexus-jobs/src/lineage/similarity.rs:48-111 | the stored rows are the view: at each ordinal up to the greatest total the version's own patch, else that of the last lower version that has one; other versions stay, and the partial-reroll flag is set exactly if something was inherited |
| AssembledView.Store.ReplaceAssembledItems | crates/nexus-db/src/lineage/logical.rs:31-61 | deletes and inserts the rows of one version without a key collision |
| LogicalSlots.DistinctExactly | crates/nexus-jobs/src/lineage/similarity.rs:130-188 | one mapping gives distinct slots within every version, for all series with ordinals up to a bound, exactly if the first new slot lies above the bound |
| LogicalSlots.AboveOrdinalsDistinct | crates/nexus-jobs/src/lineage/similarity.rs:130-188 | above all ordinals the fallback never returns a slot already used |
| LogicalSlots.RepeatedPatchesKeepSlots | crates/nexus-jobs/src/lineage/similarity.rs:147-188 | a version that repeats the patches of the one before gives each its old slot, whatever the order and titles |
| LogicalFacts.SlotsAreRight | crates/nexus-jobs/src/lineage/similarity.rs:130-188 | every item has the slot of the last item before it with its patch id, else with its title, else its ordinal, each unless its version uses that slot already; else the least slot not yet given out as new |
| LogicalRuns.LoneVersionDistinct | crates/nexus-jobs/src/lineage/similarity.rs:130-188 | the first version of a series gets distinct slots, whatever its ordinals |
| LogicalRuns.OneMoreSettled | crates/nexus-jobs/src/lineage/similarity.rs:121-208 | once all slots of a version are stored, no later mapping gives its items a slot by an ordinal at or above the first new slot |
| LogicalRuns.InOrderNeverClashes | crates/nexus-jobs/src/lineage/core.rs:87-181 | over every history of versions written and mapped in the order of their numbers, slots stay distinct within every version |
| LogicalOrder.OutOfOrderClashes | crates/nexus-jobs/src/lineage/similarity.rs:121-208 | every other arrival order has a history in which two patches of one version get one slot |
| LogicalOrder.ArrivalOrderExactly | crates/nexus-jobs/src/lineage/core.rs:87-181 | so all histories of an arrival order keep slots distinct exactly if the order is increasing |
| LogicalStore.EveryItemMapped | crates/nexus-db/src/lineage/logical.rs:138-190 | every item of every version has its mapping row exactly if slots are distinct within every version |
| LogicalStore.ArrivalOrderMaps | crates/nexus-db/src/lineage/logical.rs:138-190 | all histories of an arrival order keep every item mapped exactly if the order is increasing |
| LogicalStore.Store.WriteVersions | crates/nexus-jobs/src/lineage/core.rs:87-181 | the loop over the versions of a new series stores the slots of the history, and every item is mapped if they arrive in order |
| LogicalStore.Store.RecomputeLogicalMapping | crates/nexus-jobs/src/lineage/similarity.rs:121-208 | rewrites titles and rows of the series from the slots of its items, with new slots from above the greatest stored one; a row is that of the last item with its slot and version, a title stays unless it is empty, and other series stay |
| LogicalStore.MapVersion | crates/nexus-jobs/src/lineage/similarity.rs:139-188 | the loop gives the slots of the specification and the first title of each |
| LogicalTables.TitlesAreRight | crates/nexus-jobs/src/lineage/similarity.rs:139-188 | a slot has the first title that is not empty among its items |
| LogicalStore.Store.UpsertPatchLogical | crates/nexus-db/src/lineage/logical.rs:115-136 | slots keep their id, and their title unless it is empty |
| ParseLanes.PartitionOids | crates/nexus-jobs/src/pipeline/helpers.rs:539-554 | every lane gets the commits whose index leaves its number as remainder, in order |
| ParseLanes.ParsePartition | crates/nexus-jobs/src/pipeline/helpers.rs:245-299 | the rows and counts of a lane; fails exactly if a blob cannot be read |
| ParseLanes.SortedRowsAreSequential | crates/nexus-jobs/src/pipeline/helpers.rs:228-232 | rows collected in any order of lanes, sorted by index, are the rows in commit order |
| ParseLanes.ParseCommitRows | crates/nexus-jobs/src/pipeline/helpers.rs:175-243 | for every worker count and completion order, rows and counts are those of parsing one commit after the other: exactly the parsed mails by index, every skip counted once by its reason, and the sizes of all mails |
| DiffBlocks.FindBlockStarts | crates/nexus-jobs/src/diff_metadata.rs:34-55 | exactly the places where a line begins with `diff --git `, strictly increasing; the look at an unterminated last line adds nothing |
| DiffBlocks.BlocksCoverText | crates/nexus-jobs/src/diff_metadata.rs:24-31 | the blocks are the text from the first header on |
| DiffBlocks.OneHeaderEach | crates/nexus-jobs/src/diff_metadata.rs:24-31 | a block begins with a header and holds no second one, and no header lies before the first block |
| DiffLines.ScanMeans | crates/nexus-jobs/src/diff_metadata.rs:73-125 | of the lines of a block, the last that says something of the change, of the old and of the new path decides |
| DiffLines.CountsMean | crates/nexus-jobs/src/diff_metadata.rs:114-124 | additions, deletions and hunks are the numbers of lines that begin with a plus or minus but not with three, and with two at signs |
| DiffFiles.ParseBlock | crates/nexus-jobs/src/diff_metadata.rs:57-158 | additions, deletions, hunks and the binary flag are those of the block's lines, told by how these begin; paths and change are those of the last lines that say so; a block is dropped exactly if it leaves no path |
| DiffFiles.ParseBlocks | crates/nexus-jobs/src/diff_metadata.rs:14-32 | the files of exactly those blocks that leave a path, in order, each counting its own lines; `complete` says whether all do |
| DiffFiles.AllLinesCounted | crates/nexus-jobs/src/diff_metadata.rs:14-158 | when no block is dropped, additions and deletions add up to the addition and deletion lines from the first header on |

## Left out

- Patch facts and file facts in the ingest tables: the two write paths differ there by design.
- The text probe after a batch only reads; it and the rollback of a failed transaction have no counterpart.
- Sequences allocate ids in order, as nothing else draws from them during a transaction.
- Column widths: ordinals, totals, counts and row ids are unbounded; sort-key segments, tag keys and the backoff have their width.
- CSV, `str::replace`, `trim` and sorting stand for their libraries and are defined, not imported; PostgreSQL's readers are a strict form of section 2 of RFC 4180 and of its array, `bytea`, boolean and integer syntax.
- Timestamps in COPY rows are their RFC 3339 texts, and texts are sequences of characters, so offsets in diffs count characters.
- The membership hash is a function of the tokens that stand for it.
- Regular expressions: whether a tag name is a kernel tag, a commit's `Link:` trailers and parsed subjects are inputs.
- Git objects, MIME parsing, patch ids and similarity search are foreign calls whose results are inputs.
- Cancellation of the tag walk, of the scan and of its progress reports, and resuming a scan from a cursor.
- Which series a match affects, and the writing of rollup columns to their tables.
- LogicalOrder.ArrivalOrderExactly: each version number is written once, with the patch ids it keeps; a second fingerprint under a number, and patch ids filled in between two mappings, are not modelled.
- Attempt rows of jobs, triggers, notifications, error texts and result payloads; a worker's clock is a parameter.
- `AssembledView` and `LogicalStore` work on one series at a time; `build_candidates`, series resolution and version fingerprints are not modelled.
- Applying thread components to their tables, which skips on equal membership hashes.
- DiffFiles.ParseBlock: paths are read by function parameters, so quoting and prefixes of paths are not modelled.
- DiffFiles.ParseBlocks: texts without any header line go to a fallback parser that is not modelled; here they give no file.
- Rollup.RecomputeRollups: takes the joined rows as input, with at most one canonical match per item as `MainlineWindows.OneCanonicalKept` states it.
- HTTP handlers, configuration, search, embeddings and read-only queries.
