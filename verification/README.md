# Verification of the GizClaw core algorithms

A Dafny model of the parts of the repository whose correctness does not show in any one body:
clustering and identifier assignment, the wildcard trie, the firmware depot, the time-bucket
memory, the circular buffers and the mixer, and the listener's connection table.  `dafny verify
dfyconfig.toml` checks all of it.

Code that changes objects in place is modelled by classes and methods with the same fields, loops
and branches.  Each such method is proved against a specification that says what the code is for,
or against a function whose meaning is then proved in lemmas of its own.  Concurrent code is
modelled as a state machine over what one call does in one atomic turn; theorems about it quantify over
every sequence of steps.

What stays a parameter: cosine similarities, distances and the outlier threshold (arbitrary
functions of the reals, the distance symmetric), hashes and JSON (uninterpreted), the wall clock,
store faults (nondeterministic, and absent from a depot or an index that is `reliable`, for which the
contracts say exactly when an operation succeeds), the compressor (an arbitrary function of what it is
asked), and whether a peer can be reached.

## Modules

- `Dbscan`, `InsertionSorts`, `VecidRepresentatives`, `VecidCompact`, `VecidRegistry`: `pkg/vecid`
- `TriePatterns`, `TrieModel`, `Trie`: `pkg/trie`
- `SemVer`, `SemVerLaws`, `FirmwareMeta`, `FirmwareDepot`: `pkg/gizclaw/firmware`
- `RecallKeys`, `RecallIndex`: `pkg/agent/recall`; `MonotonicClock`, `Memory`, `Conversation`: `pkg/agent/memory`
- `Rings`, `RingBuffer`, `BlockProtocol`, `BlockProgress`, `BlockBuffer`: `pkg/buffer`
- `TrackRing`, `Mixer`: `pkg/audio/pcm`
- `ListenerProtocol`, `ListenerProgress`, `Listener`: `pkg/giznet`
- `Basics`, `Strings`, `Decimal`: shared vocabulary

## Results that are not what a reader would expect

- DBSCAN here leaves no freedom at all: a border point between two clusters always gets the lower
  number, so the labels are a function of the neighbour relation (`Dbscan.ClusteringUnique`).
- `compareSemVer` falls back to string order for numeric identifiers beyond 64 bits, where section
  11.4 of Semantic Versioning 2.0.0 compares numerically.  `SemVer.PrecedenceIsSection11` says for
  which versions the two agree, and `SemVer.OverflowDisagrees` gives the disagreement.
- A setter that overwrites a bound slot and then reports an error does change what paths find; this
  is the only way in which a failed `Set` shows (`TrieModel.FailedSet`).
- Rolling back can be refused although a previous release exists: exactly when its version is newer
  than beta (`FirmwareMeta.RollbackIsValid`).  Directly after a release it is never refused.
- If one of the backup renames itself fails, the switch returns without undoing the earlier ones.
  The depot is then valid exactly when no channel that was moved is listed in the metadata
  (`FirmwareDepot.Depot.Release`); `FirmwareDepot.StrandingBreaks` gives such a state.
- An upload into an area that could not be cleared installs what was left there too
  (`FirmwareDepot.Depot.Upload`); the listed files have the archive's data in any case.
- The lifetime bucket is documented as terminal (pkg/agent/recall/types.go:35), but `CompactBucket`
  takes it as well.  Over a threshold it is compacted into itself, and lifetime segments leave exactly
  then (`Memory.LifetimeLeaves`).  `Compact` never does that (`Memory.Memory.Compact`).
- A segment that moves leaves its old copy behind if the removal of the old slot fails, unnoticed.
  Lookups by ID stay right, listings show both (`RecallIndex.LeftoverShows`).
- The mixer's silence counter is set back by every round that read anything, also by one of zeros only
  (`Mixer.Mixer.ReadFull`); a comment (pkg/audio/pcm/mixer.go:35) says that only a peak does.
- `StoreSegment` breaks the agreement of data and reverse index exactly when it writes into a slot
  that another segment holds (`RecallIndex.StoreAgrees`), and then looking up the other ID gives the
  wrong segment (`RecallIndex.ReuseMisleads`).  The memory layer never does that.
- `BucketSegments` is documented as oldest first.  It lists keys, whose times are unpadded numerals;
  `RecallIndex.OldestFirst` says exactly when that is the order of the times.
- `Bytes` of an empty ring is the whole storage, not nothing (`RingBuffer.RingBuffer.Bytes`).
- Appending a message keeps the revert key right exactly if its time is new and, for a user message,
  after the latest user message (`Conversation.AppendKeeps`).

## Model

| member | source | states |
|---|---|---|
| `Dbscan.RangeQuery` | pkg/vecid/dbscan.go:74-84 | the result is exactly the neighbours, ascending; it has minPts elements exactly for core points |
| `Dbscan.Grow` | pkg/vecid/dbscan.go:50-68 | the seed loop ends although its queue grows, and then the open cluster has reached every neighbour of its core points |
| `Dbscan.Dbscan` | pkg/vecid/dbscan.go:13-71 | for every symmetric neighbour relation: core points share a label iff a chain of core points joins them; noise is exactly what has no core point near; border points carry the least label of a core neighbour; labels are 1..k by ascending least core index |
| `Dbscan.ScanResult` | pkg/vecid/dbscan.go:24-70 | once every point is labelled, the scan's invariant is the density clustering |
| `Dbscan.SameLabel` | pkg/vecid/dbscan.go:50-68 | for core points, equal labels and density-connectedness are the same |
| `Dbscan.ClusteringUnique` | pkg/vecid/dbscan.go:13-71 | there is only one labelling with these properties, so the result is determined for every point |
| `InsertionSorts.InsertionSort` | pkg/vecid/compact.go:219-264 | sorted by the given order and a permutation, in place; the three sorts of the file are instances |
| `InsertionSorts.MoveDown` | pkg/vecid/compact.go:237-253 | the inner loop moves one element in front of exactly those that do not stop it |
| `VecidCompact.Group` | pkg/vecid/compact.go:21-124 | for every label a cluster with exactly its samples in index order, whose most recent one is the last; the noise in index order too |
| `VecidCompact.SortedClusters` | pkg/vecid/compact.go:219-235 | all clusters once, the larger first and among equals the more recent |
| `VecidCompact.SortedClustersUnique` | pkg/vecid/compact.go:219-235 | there is one such order, so it does not depend on the order in which a map yields the clusters |
| `VecidCompact.BestKeepsFair` | pkg/vecid/compact.go:21-124 | giving the next seat to the highest average keeps the quotas highest-averages fair |
| `VecidCompact.Allocate` | pkg/vecid/compact.go:21-124 | seats add up to maxSamples, fit the clusters, go to the first clusters first and are fair; seats remain only if every cluster is full |
| `VecidRepresentatives.PickFrom` | pkg/vecid/compact.go:126-217 | exactly quota distinct candidates: the most central one, the newest, and then each time the one that scores best by its least distance to what is picked, the more central one among equals |
| `VecidRepresentatives.SelectRepresentatives` | pkg/vecid/compact.go:126-217 | everybody, or as many members as there are seats, picked in that way from the members that are not outliers, or from all if too few are left |
| `VecidRepresentatives.RepresentsUnique` | pkg/vecid/compact.go:126-217 | members and seats determine who is kept |
| `VecidRepresentatives.MostCentralKept` | pkg/vecid/compact.go:126-217 | whoever is kept, one that is most similar to the centroid among all members is |
| `VecidRepresentatives.NewestKept` | pkg/vecid/compact.go:126-217 | from two seats on the newest candidate is kept |
| `VecidRepresentatives.MinDistIsLeast` | pkg/vecid/compact.go:126-217 | the distance that counts is that to the nearest of what is picked |
| `VecidCompact.SaturatedKeepsAll` | pkg/vecid/compact.go:21-124 | full quotas keep every clustered sample, which is what allows noise |
| `VecidCompact.NewestNoise` | pkg/vecid/compact.go:21-124 | noise is kept newest first, and only once all clustered samples are kept |
| `VecidCompact.QuotasAreFair` | pkg/vecid/compact.go:21-124 | weight(a)/(kept(a)+1) <= weight(b)/kept(b) for a seated unsaturated a and any b with two or more, read off the result alone |
| `VecidCompact.SeatsGoToTheLargest` | pkg/vecid/compact.go:21-124 | a cluster without a seat is smaller than one with a seat, or as large and less recent |
| `VecidCompact.EveryClusterSeated` | pkg/vecid/compact.go:21-124 | if the clusters fit, each keeps at least one sample |
| `VecidCompact.CompactEmbeddings` | pkg/vecid/compact.go:21-124 | everything if it fits; otherwise exactly maxSamples distinct ascending in-range indices with all of the properties above, the picked representatives of every seated cluster included |
| `VecidCompact.AnchorsSurvive` | pkg/vecid/compact.go:21-217 | of every cluster with a seat a most central member survives, and with two seats the newest candidate |
| `VecidCompact.SeatsDecide` | pkg/vecid/compact.go:21-124 | two compactions that keep equally many samples of a cluster keep the same ones |
| `VecidRegistry.BuildBuckets` | pkg/vecid/vecid.go:231-266 | one bucket per occurring label, in ascending order, whose centroid is the mean of exactly the samples with that label, in order, and which counts them |
| `VecidRegistry.GathersUnique` | pkg/vecid/vecid.go:231-266 | which samples a bucket is made from is determined |
| `VecidRegistry.ClusteringGivesBuckets` | pkg/vecid/vecid.go:231-266 | for dbscan's labels: k buckets, none empty, each made from exactly its cluster's samples, whose counts add up to the samples that are not noise |
| `VecidRegistry.RenderInjective` | pkg/vecid/vecid.go:317-323 | different counters give different identifiers |
| `VecidRegistry.AssignIds` | pkg/vecid/vecid.go:186-217 | a bucket takes the identifier of the most similar old bucket whose identifier is free, if that is similar enough, the first among equals; only otherwise a new one; identifiers are pairwise distinct and nothing else about a bucket changes |
| `VecidRegistry.Registry.Identify` | pkg/vecid/vecid.go:119-144 | stores the sample; matches iff some bucket is similar enough, and then answers with a most similar one |
| `VecidRegistry.Registry.Recluster` | pkg/vecid/vecid.go:149-218 | what is stored afterwards is everything or a compaction of a density clustering, each bucket has the mean and the number of exactly one cluster's samples, a similar enough free old identifier is inherited, and one that has disappeared is never issued again; failures of the store change nothing |
| `VecidRegistry.Registry.Reset` | pkg/vecid/vecid.go:308-314 | everything is forgotten, the retired identifiers with it |
| `TriePatterns.JoinSegments` | pkg/trie/trie.go:42-82 | splitting a path loses nothing but a trailing slash |
| `TriePatterns.SegmentsJoin` | pkg/trie/trie.go:42-82 | every list of plain segments that does not end in an empty one is the split of a path |
| `TriePatterns.MatchingComparable` | pkg/trie/trie.go:113-143 | two different patterns that match one path are comparable, so the most specific one is unique |
| `TriePatterns.SpecificityOrders` | pkg/trie/trie.go:113-143 | among the patterns that match a path, being more specific is a strict total order |
| `TriePatterns.RouteReadsBack` | pkg/trie/trie.go:109-143 | a route reads back as the pattern it belongs to, unless its last name is empty |
| `TrieModel.SetRefinesMap` | pkg/trie/trie.go:33-82 | Set is an update of a flat map from patterns to values: it changes one slot, fails exactly for a misplaced `#` or a failing setter, and keeps wildcards out of the literal children |
| `TrieModel.MatchSelects` | pkg/trie/trie.go:113-143 | match succeeds iff a bound pattern matches, and then finds the most specific: literal before `+` before `#` at the first difference |
| `TrieModel.MatchDependsOnBindings` | pkg/trie/trie.go:113-143 | nodes that bind nothing never influence what a path finds |
| `TrieModel.FailedSet` | pkg/trie/trie.go:33-82 | a failed Set leaves all bindings alone iff the setter did not overwrite a bound slot, and then every match too |
| `TrieModel.SetThenGet` | pkg/trie/trie.go:42-106 | a value stored at a path without wildcards is what that path finds, whatever else is stored |
| `TrieModel.BoundSetIsBound` | pkg/trie/trie.go:180-188 | the set of bound patterns is exactly the patterns whose node is bound |
| `Trie.Trie.Set` | pkg/trie/trie.go:42-82 | the linked nodes change as the value-level Set does, and stay a tree |
| `Trie.Trie.SetValue` | pkg/trie/trie.go:85-90 | binds exactly this pattern; refuses a `#` that is not last and then changes no binding |
| `Trie.Trie.Match` | pkg/trie/trie.go:109-143 | the route and value of the most specific bound pattern; nothing iff none matches |
| `Trie.Trie.Walk` | pkg/trie/trie.go:146-165 | every bound pattern is reported exactly once, for every order of the children, and each report has its node's value |
| `Trie.Trie.Len` | pkg/trie/trie.go:180-188 | the number of bound patterns |
| `SemVer.ComparePrerelease` | pkg/gizclaw/firmware/semver.go:135-177 | the loop compares identifier lists by their first difference, then by length, a pre-release before its release |
| `SemVer.ParseReads` | pkg/gizclaw/firmware/semver.go:52-85 | writing out what was parsed gives the version back, without its build metadata |
| `SemVer.RenderParses` | pkg/gizclaw/firmware/semver.go:52-133 | every version with fields in range and allowed identifiers parses to itself |
| `SemVer.CompareSemVerPreorder` | pkg/gizclaw/firmware/semver.go:23-50 | on valid versions: antisymmetric, transitive, and 0 iff they agree apart from build metadata |
| `SemVerLaws.NumbersDecide` | pkg/gizclaw/firmware/semver.go:32-49 | major decides before minor, minor before patch, and patch before everything else |
| `SemVerLaws.PreReleaseFirst` | pkg/gizclaw/firmware/semver.go:135-144 | a pre-release comes before its release |
| `SemVerLaws.PrefixFirst` | pkg/gizclaw/firmware/semver.go:135-177 | of two pre-releases one of which continues the other, the shorter comes first |
| `SemVerLaws.FirstDifferenceDecides` | pkg/gizclaw/firmware/semver.go:135-193 | with equal numbers, the first different identifiers decide: numbers by value and before all others, the others by their characters |
| `SemVerLaws.OthersAsStrings` | pkg/gizclaw/firmware/semver.go:23-31 | if one of the two is not a version, they compare as strings |
| `SemVerLaws.ParsesExactly` | pkg/gizclaw/firmware/semver.go:52-133 | the strings that parse are exactly the written versions, build metadata included, and each gives back what was written |
| `SemVer.PrecedenceIsSection11` | pkg/gizclaw/firmware/semver.go:135-193 | identifiers compare as section 11 of Semantic Versioning 2.0.0 says, against all versions that fit into 64 bits, iff they fit themselves |
| `SemVer.OverflowDisagrees` | pkg/gizclaw/firmware/semver.go:179-193 | for every identifier list that overflows, a version that the code orders the other way |
| `FirmwareMeta.ReleaseIsValid` | pkg/gizclaw/firmware/switch.go:13-80 | the metadata of a release always passes validation, the version order included |
| `FirmwareMeta.RollbackIsValid` | pkg/gizclaw/firmware/switch.go:82-140 | the metadata of a rollback passes iff beta is absent or at least the rolled-back version |
| `FirmwareMeta.ReleaseThenRollback` | pkg/gizclaw/firmware/switch.go:13-140 | after a release a rollback is never refused and brings the old stable release back |
| `FirmwareMeta.RollbackTwice` | pkg/gizclaw/firmware/switch.go:131-133 | rolling back twice gives the old metadata back |
| `FirmwareDepot.Depot.BackUp` | pkg/gizclaw/firmware/switch.go:142-157 | exactly the existing channels sit in their backups, for every order of the map; after a failure exactly the ones reached so far |
| `FirmwareDepot.Depot.Restore` | pkg/gizclaw/firmware/switch.go:142-184 | every backed-up directory is back in its channel, for every order of both maps |
| `FirmwareDepot.Depot.PrepareSwitch` | pkg/gizclaw/firmware/switch.go:142-184 | every target holds what its source held, or all channels are as before, or a failed backup has left exactly the moved channels in their backups |
| `FirmwareDepot.Depot.WriteMeta` | pkg/gizclaw/firmware/metadata.go:100-117 | only valid metadata is ever written, without store faults always, and a failed write changes nothing |
| `FirmwareDepot.Depot.ScanRelease` | pkg/gizclaw/firmware/scan.go:38-51 | a release is returned only if it is listed and its directory holds the files it lists with their hashes, and without store faults exactly then; not found only if it is not listed |
| `FirmwareDepot.Depot.Release` | pkg/gizclaw/firmware/switch.go:13-80 | on success testing has become beta, beta stable and stable rollback, in payloads, manifests and metadata, and the depot is valid; on failure after the backups nothing has moved; without store faults it succeeds iff beta and testing are present and the manifests can be retagged |
| `FirmwareDepot.Depot.RollBack` | pkg/gizclaw/firmware/switch.go:82-140 | the same for exchanging stable and rollback, with beta, testing and the file list as before; without store faults it succeeds iff there is a rollback release, no newer than beta, and the manifests can be retagged |
| `FirmwareDepot.StrandingBreaks` | pkg/gizclaw/firmware/switch.go:142-157 | a listed channel that is stranded makes the depot invalid |
| `FirmwareDepot.Depot.ExtractTar` | pkg/gizclaw/firmware/upload.go:76-141 | an accepted archive holds exactly the files its manifest lists, each once, for the wanted channel; they are written to the directory, where the listed hashes are right; without store faults every such archive is accepted, as long as no two of its files go to one place |
| `FirmwareDepot.ExtractedIsArchive` | pkg/gizclaw/firmware/upload.go:76-141 | every file with a place of its own lands there with the archive's data, whose hashes are the listed ones; any other file was there before |
| `FirmwareDepot.WrongHashRefused` | pkg/gizclaw/firmware/upload.go:76-141 | an archive with a file that misses one of its listed hashes is not accepted |
| `FirmwareDepot.Depot.Install` | pkg/gizclaw/firmware/upload.go:15-74 | the swap and the metadata write happen both or not at all; without store faults, iff the metadata is valid |
| `FirmwareDepot.Depot.Upload` | pkg/gizclaw/firmware/upload.go:15-74 | keeps the depot valid; on success the channel is the archive over what clearing the upload area has left, which is nothing if it could be cleared, its version and paths are valid, the file list agrees, and the other channels are as before; on failure metadata and all channels are; without store faults every fitting archive that goes with the file list and the version order gets in |
| `RecallKeys.BucketForSpan` | pkg/agent/recall/types.go:80-88 | the finest bucket that covers the span |
| `RecallKeys.KeysAreApart` | pkg/agent/recall/keys.go:20-60 | different slots have different keys, and no segment shares a key with a reverse-index entry |
| `RecallKeys.SidValueReadsBack` | pkg/agent/recall/keys.go:62-86 | what the reverse index stores reads back as the same bucket and time, for every 64-bit time |
| `RecallKeys.OldSidValueReads` | pkg/agent/recall/keys.go:70-86 | values without a bucket read as the hour bucket |
| `RecallIndex.StoreAgrees` | pkg/agent/recall/segment.go:30-75 | storing keeps segments and reverse index inverse to each other iff the slot is free for the segment, also when the segment moves |
| `RecallIndex.StoreUpdatesShelf` | pkg/agent/recall/segment.go:30-75 | into a free slot, storing is one update of the flat map from IDs to segments |
| `RecallIndex.ReuseMisleads` | pkg/agent/recall/segment.go:49-61 | into a slot that another segment holds, it makes that segment's ID give the new one |
| `RecallIndex.LeftoverShows` | pkg/agent/recall/segment.go:58-61 | an old slot that was not freed leaves the lookups right and breaks the agreement, exactly if the segment has moved |
| `RecallIndex.DeleteAgrees` | pkg/agent/recall/segment.go:80-101 | deleting removes one ID from the flat map and keeps the agreement |
| `RecallIndex.OldestFirst` | pkg/agent/recall/segment.go:163-180 | a bucket is listed oldest first iff every two of its times sort as their numerals do; equal digit counts suffice |
| `RecallIndex.Index.StoreSegment` | pkg/agent/recall/segment.go:30-75 | both entries are written, or nothing has changed; the old slot of a moved segment is freed unless its removal fails; a failing vector step comes too late to undo; without faults it always succeeds |
| `RecallIndex.Index.DeleteSegment` | pkg/agent/recall/segment.go:80-101 | both entries go or none; a missing ID is no error |
| `RecallIndex.Index.GetSegment` | pkg/agent/recall/segment.go:107-129 | the segment that the reverse index leads to; nothing for a missing ID or an orphan |
| `RecallIndex.LookupsAreFlat` | pkg/agent/recall/segment.go:30-129 | all along every run of stores and deletions, with leftovers, a lookup gives what was stored last under the ID iff no segment is stored with the bucket and time of another ID's segment |
| `RecallIndex.Index.BucketSegments` | pkg/agent/recall/segment.go:165-180 | every segment of the bucket once, in key order |
| `RecallIndex.ListingUnique` | pkg/agent/recall/segment.go:165-180 | a bucket has one listing |
| `RecallIndex.Index.BucketStats` | pkg/agent/recall/segment.go:184-199 | the number of segments in the bucket and the characters of their summaries |
| `RecallIndex.CharsAddUp` | pkg/agent/recall/segment.go:184-199 | the characters of a listing are the sum of the lengths of its summaries |
| `MonotonicClock.Clock.Now` | pkg/agent/memory/types.go:249-261 | undisturbed: the wall clock's time if that is later than the last answer, else one more |
| `MonotonicClock.UndisturbedAnswers` | pkg/agent/memory/types.go:249-261 | a call that nobody disturbs answers as the clock does |
| `MonotonicClock.AsIfInTurn` | pkg/agent/memory/types.go:249-261 | in every run of concurrent callers the answers are those of calls one after the other, strictly increasing, none given twice |
| `MonotonicClock.RetryMeansProgress` | pkg/agent/memory/types.go:252-259 | a swap fails iff another call has answered since the load, and otherwise answers |
| `MonotonicClock.LaterCallsLater` | pkg/agent/memory/types.go:249-261 | a call that starts when others have answered gets a later time than they, whatever the wall clock shows |
| `Memory.IdsDiffer` | pkg/agent/memory/compact.go:136-145 | segment IDs of different times, and plain and compacted ones, never coincide |
| `Memory.EnsureCoarser` | pkg/agent/memory/compact.go:164-186 | the target if it is coarser than the source, else the next bucket; from the lifetime bucket always the lifetime bucket |
| `Memory.TargetBucket` | pkg/agent/memory/compact.go:99-109 | the finest bucket that is strictly coarser than the source and covers the span; the lifetime bucket goes to itself |
| `Memory.FreeTime` | pkg/agent/memory/compact.go:127-134 | the search ends, at the first unused time from its start on |
| `Memory.Memory.StoreSegment` | pkg/agent/memory/memory.go:137-148 | a new ID and a slot that nothing holds, so the index stays in agreement |
| `Memory.Memory.StoreCompacted` | pkg/agent/memory/compact.go:111-149 | each new segment takes a free slot from lastTS + i on; nothing stored is newer than the clock |
| `Memory.Memory.DeleteSources` | pkg/agent/memory/compact.go:151-156 | deleting by ID removes exactly the chosen slots, also if it stops midway |
| `Memory.Memory.CompactBucket` | pkg/agent/memory/compact.go:43-159 | for every bucket: if it is full, the compressor is asked about the least prefix of the listing that is half the bucket and brings it under the threshold, its answer is stored in the target bucket, and only then that prefix is deleted; it fails for want of an answer iff the compressor gives none; without store faults it does not fail otherwise |
| `Memory.AnswerLands` | pkg/agent/memory/compact.go:123-156 | after that every piece of the answer lies in the target bucket |
| `Memory.CompactionKeeps` | pkg/agent/memory/compact.go:43-159 | only that prefix disappears, only the target gains |
| `Memory.CompactionCounts` | pkg/agent/memory/compact.go:66-83 | a bucket other than the lifetime one shrinks by what was deleted, finer buckets stay as they are |
| `Memory.LifetimeLeaves` | pkg/agent/memory/compact.go:43-186 | lifetime segments leave iff it is the lifetime bucket that is compacted and a deletion succeeds |
| `Memory.Memory.Compact` | pkg/agent/memory/compact.go:20-31 | a chain of such compactions, finest bucket first, each bucket at most once; after success every bucket but the lifetime one has been compacted or is not full, with MaxMessages > 0 all of them hold fewer; lifetime segments are never removed; without store faults it succeeds iff the compressor answers |
| `Memory.NothingForgotten` | pkg/agent/memory/compact.go:20-159 | in every chain of compactions: what was there is still there, or has been in a question whose answer was stored completely |
| `Conversation.KeysSortAsTimes` | pkg/agent/memory/keys.go:64-71 | padded message keys sort as the times do, for all 64-bit times from 0 on |
| `Conversation.AppendKeeps` | pkg/agent/memory/conversation.go:65-94 | revert key and counters stay right iff the message's time is positive and new and, for a user message, after the latest user message |
| `Conversation.RevertUndoesTurn` | pkg/agent/memory/conversation.go:159-240 | a revert takes back a user message with all its replies, and nothing else: the log is as it was before the turn, counters and revert key included |
| `Conversation.Conversation.Append` | pkg/agent/memory/conversation.go:65-116 | without a time the message gets a new one from the clock; compression is due iff the counters with this message reach a threshold; the message is stored, or the compressor was asked about all messages in order, all of its answer has become hour segments, and the log is empty; the invariant holds after every message that fits |
| `Conversation.LaterFits` | pkg/agent/memory/conversation.go:65-94 | a message later than everything stored fits |
| `Conversation.Conversation.Replay` | pkg/agent/memory/conversation.go:65-295 | every sequence of messages, reverts and clears keeps revert key and counters right: without any condition if the clock stamps the messages, and with the caller's stamps as long as they rise |
| `Conversation.Conversation.Revert` | pkg/agent/memory/conversation.go:165-240 | leaves exactly the messages before the latest user message, with the revert key and the counters of what is left |
| `Conversation.Conversation.RecomputePending` | pkg/agent/memory/conversation.go:299-319 | the counters are the number and the characters of the stored messages |
| `Conversation.Conversation.Recent` | pkg/agent/memory/conversation.go:120-144 | the n latest messages, oldest first |
| `Conversation.Conversation.Clear` | pkg/agent/memory/conversation.go:271-295 | messages, revert key and counters are gone |
| `Conversation.Conversation.Compress` | pkg/agent/memory/memory.go:198-242 | on success the conversation is empty and each piece of the compressor's answer to all messages in order is a new hour segment, in order; on failure it is as before; earlier segments always stay; without store faults it succeeds iff the compressor answers |
| `RingBuffer.RingBuffer.Write` | pkg/buffer/ring_buffer.go:121-174 | leaves the last min(N, len) elements of the old contents followed by p, for every head position and every length of p |
| `RingBuffer.WritesJoin` | pkg/buffer/ring_buffer.go:121-174 | two writes leave what one write of both pieces leaves |
| `RingBuffer.RingBuffer.Overwrite` | pkg/buffer/ring_buffer.go:151-171 | the copies over a full ring keep exactly the newest elements in order |
| `RingBuffer.RingBuffer.Add` | pkg/buffer/ring_buffer.go:202-222 | appends one element and drops the oldest if there is no room |
| `RingBuffer.RingBuffer.Read` | pkg/buffer/ring_buffer.go:43-76 | delivers the oldest elements in order and keeps the rest; the end is reported only when empty |
| `RingBuffer.RingBuffer.Next` | pkg/buffer/ring_buffer.go:176-200 | delivers the oldest element |
| `RingBuffer.RingBuffer.Discard` | pkg/buffer/ring_buffer.go:29-41 | drops the oldest elements, at most all; for a negative count, exactly when the ring stays well-formed |
| `RingBuffer.RingBuffer.Bytes` | pkg/buffer/ring_buffer.go:237-246 | the contents iff there are any; otherwise the whole storage |
| `Rings.SlotAhead` | pkg/buffer/ring_buffer.go:131-144 | running counters taken modulo the capacity point where wrapping once points |
| `BlockProtocol.DeliveredThenStored` | pkg/buffer/block_buffer.go:49-122 | in every run: delivered elements followed by stored ones are the accepted ones in order, and never more than N are stored |
| `BlockProtocol.CutShort` | pkg/buffer/block_buffer.go:83-122 | in every run: a write that was cut short reports exactly the prefix it placed |
| `BlockProtocol.NothingAfterClose` | pkg/buffer/block_buffer.go:155-164 | once writing is closed nothing more is accepted, whatever parked writers do |
| `BlockProtocol.EndMeansDrained` | pkg/buffer/block_buffer.go:57-65 | a reader sees the end only when everything accepted has been delivered, and for good |
| `BlockProtocol.ReadersDrain` | pkg/buffer/block_buffer.go:166-189 | after CloseWrite, repeated Next delivers everything stored, in order, and then the end |
| `BlockProgress.CallsStart` | pkg/buffer/block_buffer.go:49-215 | a call begins with nothing placed and nothing taken |
| `BlockProgress.WriteTurnPlaces` | pkg/buffer/block_buffer.go:83-122 | a writing turn places as much as there is room for, and parks only in front of a full ring |
| `BlockProgress.ReadTurnTakes` | pkg/buffer/block_buffer.go:49-81 | a reading turn takes as much as is wanted and there, and parks only if the ring is empty and open |
| `BlockProgress.WriteGetsThrough` | pkg/buffer/block_buffer.go:83-122 | in every run of an open ring: a write has placed everything and returned once it has had as many turns with any room as it has elements |
| `BlockBuffer.BlockBuffer.Write` | pkg/buffer/block_buffer.go:83-122 | one turn under the lock is the protocol's writing turn |
| `BlockBuffer.BlockBuffer.Add` | pkg/buffer/block_buffer.go:191-215 | one turn is the writing turn of a single element |
| `BlockBuffer.BlockBuffer.Read` | pkg/buffer/block_buffer.go:49-81 | one turn is the protocol's reading turn; the rest of p is untouched |
| `BlockBuffer.BlockBuffer.Next` | pkg/buffer/block_buffer.go:166-189 | one turn is the reading turn for one element |
| `BlockBuffer.BlockBuffer.CloseWithError` | pkg/buffer/block_buffer.go:124-143 | closes both directions and keeps the contents |
| `TrackRing.TrackRing.CopyIn` | pkg/audio/pcm/track.go:262-276 | places what fits behind the contents, in at most two runs, keeping head < N and tail <= head + N |
| `TrackRing.TrackRing.CopyOut` | pkg/audio/pcm/track.go:309-324 | delivers the oldest bytes in order and normalises the head |
| `TrackRing.TrackRing.Write` | pkg/audio/pcm/track.go:279-305 | one turn is the blocking ring's writing turn; an empty write succeeds even when closed |
| `TrackRing.TrackRing.Read` | pkg/audio/pcm/track.go:327-353 | the blocking ring's reading turn, with zeros behind what was delivered |
| `TrackRing.ReadFull` | pkg/audio/pcm/track.go:400-428 | with writers in between: nothing at all or all of p; bytes in order, and zeros only after everything available |
| `TrackRing.Track.Read` | pkg/audio/pcm/track.go:48-79 | 0 or len(p) bytes from the first input that is not at its end; inputs passed over were closed and empty, later ones are untouched |
| `Mixer.LoneTrackPasses` | pkg/audio/pcm/mixer.go:343-358 | one track at unit gain comes out sample for sample |
| `Mixer.MixAddsUp` | pkg/audio/pcm/mixer.go:416-459 | the mix adds up over the tracks |
| `Mixer.GainScales` | pkg/audio/pcm/mixer.go:432-455 | one track counts in proportion to its gain, and not at all without data |
| `Mixer.PcmRange` | pkg/audio/pcm/mixer.go:343-358 | converted samples never leave 16 bits |
| `Mixer.PcmMonotone` | pkg/audio/pcm/mixer.go:343-358 | a louder mix never converts to a smaller sample |
| `Mixer.OrderDoesNotMatter` | pkg/audio/pcm/mixer.go:416-459 | the mix is the same for every order of the tracks |
| `Mixer.SilenceMixesToZero` | pkg/audio/pcm/mixer.go:335-341 | where the peak is 0 the conversion loop would write what the shortcut writes |
| `Mixer.Mixer.CreateTrack` | pkg/audio/pcm/mixer.go:147-185 | a new track goes to the front, unless the mixer is closed |
| `Mixer.Mixer.AddFrame` | pkg/audio/pcm/mixer.go:432-455 | adds one track's weighted samples and follows the peak |
| `Mixer.Mixer.Pass` | pkg/audio/pcm/mixer.go:396-468 | exactly the tracks whose read failed leave the list, in order and counted, and are closed; the buffer is the gain-weighted sum of those that delivered |
| `Mixer.SurvivorsAre` | pkg/audio/pcm/mixer.go:416-430 | the tracks that stay are those at the places whose read did not fail, in order |
| `Mixer.Mixer.ReadFull` | pkg/audio/pcm/mixer.go:274-393 | what plays is the clipped and converted sum, also where silence is written; when it ends, waits or fails, and how the silence counter moves |
| `ListenerProtocol.OneOpenConnPerPeer` | pkg/giznet/listener.go:18-22 | in every run: an open connection that was handed out is the table's entry, so a peer has at most one |
| `ListenerProtocol.EstablishedIsOpen` | pkg/giznet/listener.go:56-184 | in every run: what the table holds is open and belongs to its key |
| `ListenerProtocol.StepKeepsInv` | pkg/giznet/listener.go:56-184 | every step of Accept, Dial and Close keeps both, whatever interleaves |
| `ListenerProtocol.HandsOutOpen` | pkg/giznet/listener.go:56-184 | a call that returns a connection returns the open one in the table, for the peer it asked for |
| `ListenerProgress.DialGetsThrough` | pkg/giznet/listener.go:139-184 | in every run: a dial through an open listener whose own steps work out returns the peer's connection, open and in the table, after at most six turns |
| `ListenerProgress.AcceptGetsThrough` | pkg/giznet/listener.go:56-98 | in every run: an accept that has taken an event and whose own steps work out returns that peer's connection, open and in the table |
| `ListenerProgress.FailuresHaveReasons` | pkg/giznet/listener.go:56-184 | a dial fails only if a step of its own failed or the listener was closed, an accept only if it was closed |
| `ListenerProgress.ClosedRefusesDials` | pkg/giznet/listener.go:141-147 | once the listener is closed, a dial that starts is refused |
| `ListenerProgress.CloseFrees` | pkg/giznet/conn.go:63-78 | closing a handed-out connection closes it and frees its entry, and nothing else |
| `ListenerProtocol.ClosedStaysClosed` | pkg/giznet/conn.go:63-78 | in every run a closed connection stays closed, and out of the table |
| `ListenerProtocol.ClosedIsNeverHandedOut` | pkg/giznet/conn.go:63-78 | a call that was still running when a connection was closed never comes back with it |
| `Listener.Listener.Publish` | pkg/giznet/listener.go:87-95 | the recheck: an entry made meanwhile wins over the prepared connection |
| `Listener.Listener.NewConn` | pkg/giznet/listener.go:92-92 | a prepared connection is new, open and in no entry |
| `Listener.Listener.LookUp` | pkg/giznet/listener.go:101-112 | the open connection of the peer, or nothing iff there is no entry |
| `Listener.Listener.Close` | pkg/giznet/conn.go:67-78 | the first close releases the entry, later ones fail and change nothing |

## Left out

- FirmwareDepot.Depot.SwitchTo: after a failure only payloads and metadata are as before; rewritten manifest channel tags stay, because the code's restore does not undo them.
- FirmwareDepot.Depot.Restore: the renames of the undo path are taken to work; a backup directory is removed whole or not at all.
- FirmwareDepot.Depot.Upload: one depot at a time, since depot names such as `a` and `a/stable` would share directories; paths that clean to the manifest's name are refused as the code does, path cleaning itself is a parameter; on a reliable depot writing a file works even where another file has a directory's name.
- VecidRegistry.Registry.Recluster: reading and replacing the store are not atomic with a concurrent append in the code; the model is sequential.
- Memory.Memory.Compact: a compressor answers the same question the same way; whether entity updates can be applied is nondeterministic, and the graph itself is not modelled.
- RecallIndex.Index.StoreSegment: values of the reverse index always parse, and encoding a segment never fails.
- Memory.Memory.CompactBucket: times are unbounded integers, so the overflow of a 64-bit time after the year 2262 is not modelled; the index is used through the memory only.
- Conversation.Conversation.Append: messages have no negative times, the store's own errors are not modelled, and there is one handle per conversation; entity updates reduce to whether they can be extracted and applied.
- RingBuffer.RingBuffer.Read: one turn under the lock; parking and waking up are not modelled, nor that Write does not notify and that Discard and Reset of the blocking ring do not signal. That a parked call gets its next turn is not claimed; `BlockProgress.WriteGetsThrough` counts the turns it gets.
- BlockBuffer.BlockBuffer.Write: Discard, Reset, Len and Bytes of the blocking ring repeat those of the overwriting ring.
- TrackRing.Track.Read: inputs that need resampling are not modelled, and other writers are interleaved on the input being read, where alone they can matter.
- Mixer.Mixer.Pass: samples and gains are reals, so rounding is not modelled; the fade-out that delays a track's entire closing and the callbacks are not either.
- Listener.Listener.Publish: peer events, handshakes and service multiplexers are steps that succeed or fail arbitrarily.
- Cosine similarity, norms, embeddings, resampling filters, the vector index, keyword and label scoring, the entity graph.
- HTTP handlers, the command line, clients of language, speech and audio services.
- Small codecs and song tables, which would only add easy members.
