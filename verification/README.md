# Verified model of the Keryx miner's proof code

This project models five parts of the Keryx miner in Dafny and proves what they promise.

1. **Possession proof** (`Merkle`, `Canonical`, `Checkpoints`, `SparseTree`, `WeightIndex`, `Possession`, `Mining`, `Binding`,
   `Soundness`, with `Mix`, `ByteOrder` and `Bytes` below them). The miner commits to a weight file with a Merkle tree and keeps
   every sixth level. The loops that build the file, rebuild missing nodes, prove and verify are proved against one dense tree.
   Soundness is stated without any assumption on the hash: an accepted proof is for a true walk, or a computable function of it
   gives two inputs with one hash.
2. **GPU search** (`ModMagic`, `SelfTest`, `GpuMine`). The reciprocal remainder and its self-test, the ten-step tensor search,
   the kernel's walk and the `atomicMin` winner, with the exact conditions under which they agree with the host.
3. **Watch channel** (`Watch`, `WatchDelivery`, `WatchCalls`, `WatchShared`). Interleaved atomic steps of any number of sends and
   receivers, exactly when a delivery repeats, what a call returns, and a class that updates the shared fields in place and refines the transition system.
4. **Escrow watcher** (`EscrowState`, `EscrowRuns`, `EscrowPayments`, `EscrowRefusals`, `EscrowFate`, `EscrowProgress`,
   `EscrowWatcher`). A transition function that
   scans every entry, theorems over whole runs of it, and a class whose two lookup indexes are proved to do the same.
5. **Bignum and fixed-point arithmetic** (`Radix`, `Base58`, `Uint256`, `FixedMlp`, `LinearLayer`, over `Arith` and `Digits`).

BLAKE3 is a parameter `Hash`, any function from byte strings to 32 bytes. Words are bit vectors where the source mixes bits and
unbounded numbers with explicit wrapping where it does arithmetic.

## Findings

- The root written to the checkpoint file is the dense root for every model if and only if the model has at least 33 chunks;
  below that a hash is exhibited for which it differs (`WeightIndex.RootIsDenseIff33`). Inclusion paths agree for every size.
- A cached checkpoint file is accepted on its size alone. The inclusion paths rebuilt from it are the dense ones for every chunk
  if and only if it holds the dense levels below the root (`WeightIndex.FilePathsDenseIff`).
- The self-test of the remainder constant does not decide exactness; the closed form that does is `ModMagic.ExactEverywhereIff`.
  For d = 3,964,126,429, a chunk count that the launch accepts, the self-test passes with its own million samples, `mod_magic`
  returns the constant, and nine remainders are wrong (`SelfTest.SelfTestPassesWrongConstant`, `SelfTest.InexactConstant`). What
  the self-test decides is `SelfTest.SelfTestPassesIff`; up to d = 2^62 its structured cases never refuse a constant
  (`SelfTest.EdgeCasesNeverDecide`).
- The comment at src/pom_gpu.rs:74 says that the shift amount stays at most 127; late iterations pass it, and the model follows
  the code (`ModMagic.CandidateMagic` wraps the amount). No candidate of such an iteration is returned.
- The ten-step search covers a model if and only if it has at most 1024 nonempty tensors (`GpuMine.TenStepsSufficeIff`).
- The comment at src/watch.rs:44-45 says that a reader cannot observe a new value with an old id. It can, because the id is read
  before the lock is taken. So a version can be delivered twice: by two `get_changed` around a send
  (`WatchDelivery.ExactlyOnceFails`), and by the late notification of a send whose value the receiver already has
  (`WatchDelivery.LateNotificationRepeats`). Over every run, a delivery repeats the one before exactly when nothing was stored
  in between (`WatchDelivery.DeliveryRepeatsIff`). No update and no wake-up is lost.
- A receiver that was past its check of the sender when the sender went can still be given a value; every other call ends closed
  (`WatchCalls.ClosedDeliversNothing`, `WatchCalls.CallOutcome`).
- An escrow entry can end both claimed and slashed: exactly when a block turns it red while its claim is in flight and the claim
  is accepted (`EscrowFate.BothFlagsIff`, `EscrowFate.ClaimedEntryBothFlagsIff`; a run that does it is
  `EscrowFate.BothFlagsReached`).
- A settled outpoint can be tracked as unsettled again: exactly when a block has compacted it away and that event or a later one
  pays it (`EscrowFate.SettledIsTrackedAgainIff`; a run without any coinbase is `EscrowFate.SettledIsReopened`).
- An entry worth no more than the fee stops later claims of its kind (`EscrowProgress.StuckForever`, started by
  `EscrowProgress.DustBlocks`). Without such entries every ripe entry is claimed (`EscrowProgress.EveryRipeEntryIsClaimed`).
- Base58 loses the round trip exactly on strings of zeros (`Base58.DecodeEncodeIff`, `Base58.EncodeDecodeIff`).
- The comment at inference/src/model_fixed.rs:39 gives the weights an open range; `-he` is drawn from the state exhibited by
  `FixedMlp.LeastWeightIsDrawn`, and exactly from those of `FixedMlp.LeastWeightIff`.

## Model

| member | source | states |
|---|---|---|
| Merkle.MerkleRoot | src/pom.rs:187-201 | the loop's root is the lone node of the level at the tree's depth |
| Merkle.MerkleProof | src/pom.rs:203-222 | the path climbs back to the root from its leaf |
| Merkle.VerifyMerkle | src/pom.rs:224-232 | accepts exactly when climbing the path gives the root |
| Merkle.PathClimbs | src/pom.rs:203-232 | proof and verification are partners: every leaf's own path verifies, at every size and index |
| Merkle.PathNodes | src/pom.rs:203-222 | the path has one node for each level below the root: the sibling of the ancestor, or the ancestor itself at the right edge |
| Merkle.FoldLevels | src/pom.rs:794-808 | exactly `rounds` rounds, carrying a lone node |
| Merkle.FoldSpan | src/pom.rs:688-720 | folding a possibly truncated slice by `r` rounds gives exactly the dense node `r` levels up |
| Merkle.LevelAppend | src/pom.rs:583-627 | levels of an aligned prefix and of the rest are computed apart, so batches may be folded one by one |
| Merkle.RootIsLevel | src/pom.rs:187-201 | the root is the single node of the level at the depth |
| Merkle.DepthIsLevel | src/pom.rs:443-469 | a level has one node exactly from the depth on |
| Canonical.PartitionPoint | src/pom.rs:666 | the binary search splits the sorted table at the chunk index |
| Canonical.TableAscending | src/pom.rs:599-610 | the table is ascending, starts at chunk 0 and stays below the chunk count |
| Canonical.EntryLocatesChunk | src/pom.rs:666-668 | the entry before the split belongs to the tensor that holds the chunk, at the right distance |
| Canonical.ReadChunkBytes | src/pom.rs:657-672 | the bytes read are the chunk at that index of the concatenation of every tensor's whole chunks, inside its tensor |
| Checkpoints.ComputeCheckpointOffsets | src/pom.rs:446-469 | terminates with the layout: multiples of six below the depth, then the depth, contiguous from offset 0 |
| Checkpoints.LayoutAscends | src/pom.rs:446-469 | levels ascend and regions do not overlap |
| Checkpoints.FileIsSmall | src/pom.rs:418-421 | the file has at most (n - 1) / 63 nodes plus one for each stored level |
| Checkpoints.LayoutUnique | src/pom.rs:443-469 | the layout is determined by the number of chunks alone |
| Checkpoints.FindCheckpoint | src/pom.rs:675-677 | returns the stored level asked for |
| Checkpoints.CountAtLevel | src/pom.rs:680-686 | the halving loop counts the nodes of the level |
| SparseTree.FoldedGrows | src/pom.rs:611-620 | adding a leaf, and folding the batch when it is full, keeps the file equal to level six of the leaves so far |
| SparseTree.FoldedEnds | src/pom.rs:622-627 | folding the unpadded tail completes level six |
| SparseTree.BatchIsNextNode | src/pom.rs:839-850 | each batch read back, the last one short, is the span of the next node of the level above |
| SparseTree.AppendFoldedLevel | src/pom.rs:828-858 | one pass appends exactly the level `rounds` above the stored one |
| SparseTree.FinalizeCheckpointUpper | src/pom.rs:813-866 | every stored level is in its region, nothing follows the root, and the root is read from its place |
| WeightIndex.HashChunks | src/pom.rs:583-627 | phase 0 writes level six of the leaves, builds the table and counts the chunks |
| WeightIndex.BuildFresh | src/pom.rs:577-648 | succeeds exactly for a model with chunks, and the file then holds the dense levels |
| WeightIndex.OpenExistingTree | src/pom.rs:473-539 | accepts exactly the files of the layout's size, whatever they contain |
| WeightIndex.BuildFromGguf | src/pom.rs:547-649 | fails exactly for a model without chunks; a cached file of the right size is the one used, whatever it holds, and in every other case the index holds the dense levels |
| WeightIndex.Reopen | src/pom.rs:498-538 | a file just built reopens as the very same index, root and layout included |
| WeightIndex.RootInFile | src/pom.rs:860-863 | the stored root is the dense root from depth six on, and otherwise the node six rounds above the leaves |
| WeightIndex.RootIsDenseIff33 | src/pom.rs:583-636 | the written root is the dense root for every hash and model of n chunks if and only if n is at least 33 |
| WeightIndex.ShallowRootDiffers | src/pom.rs:583-586 | below depth six a concrete hash gives another root, for every model |
| WeightIndex.SubtreeHash | src/pom.rs:697-720 | the node rebuilt from a source level of the file is the fold of that level, or zeros exactly when it is out of range |
| WeightIndex.StoredSibling | src/pom.rs:738-744 | the sibling read from the file is that of the stored level, the node itself at the right edge |
| WeightIndex.RebuiltSibling | src/pom.rs:745-753 | the sibling is rebuilt from the nearest source at or below its level |
| WeightIndex.SeenIsDense | src/pom.rs:688-720 | through a file that holds the dense levels below the root, every level rebuilt is the dense one |
| WeightIndex.FilePathsDenseIff | src/pom.rs:515-521 | the rebuilt paths are the dense paths for every chunk if and only if the file holds the dense levels below the root |
| WeightIndex.MerklePath | src/pom.rs:725-759 | for any file accepted on its size the path is the one rebuilt from it; with the dense levels in the file it equals the dense path node for node, for every chunk count and chunk |
| Bytes.ChunkRoundTrip | src/pom.rs:108-123 | words to bytes undoes bytes to words |
| Bytes.WordsRoundTrip | src/pom.rs:108-123 | bytes to words undoes words to bytes |
| Bytes.NumberOfU64 | src/pom.rs:242-245 | a number cast to a word keeps its value modulo 2^64 |
| ByteOrder.LeLeq | src/pom.rs:137-147 | the byte scan decides the numeric order of the 256-bit numbers |
| ByteOrder.PomLeLeqIsNumeric | cuda/pom_mine.cu:52-59 | the kernel's word test decides the same order |
| Mix.MixIsPermutation | src/pom.rs:84-91 | mix64 has a two-sided inverse |
| Mix.KnownMixes | src/pom.rs:84-91 | two known values of mix64, one of them the first splitmix64 output |
| Mix.SeedUnfolds | src/pom.rs:160-169 | undoing the fold by header words, timestamp and salt, in this order, gives the nonce back |
| Mix.SeedBindsTimestamp | src/pom.rs:160-169 | the seed depends on the timestamp |
| Mix.SeedBindsHeader | src/pom.rs:160-169 | headers that differ in one word have different seeds |
| Mix.SeedInjective | src/pom.rs:160-169 | for a fixed header and timestamp distinct nonces have distinct seeds |
| Mix.PowInjective | src/pom.rs:173-185 | the pow value determines the final state |
| Mix.PowUnfolds | src/pom.rs:173-185 | each word of the pow value, unmixed, gives back the one before it combined with its header word and salt |
| Mix.MixChunk | src/pom.rs:99-105 | the loop over the words of a chunk computes the transition |
| Mix.TransitionMovesWord | src/pom.rs:99-105 | a word may be moved from the chunk into the state, and a chunk of zeros mixes the state alone |
| Mix.TransitionsMeetIff | src/pom.rs:99-105 | two transitions meet if and only if their states and chunks combine to the same word |
| Mix.OneWordDecides | src/pom.rs:99-105 | chunks that differ in exactly one word lead to different states |
| Possession.SameReadsSameState | src/pom.rs:256-264 | a walk depends on nothing but the chunks it reads |
| Possession.WalksPartIff | src/pom.rs:256-264 | two models that agree on the chunks read before step i part after it if and only if the words read then combine to different words |
| Possession.OneWordParts | src/pom.rs:256-264 | so a difference in one word of the chunk read at step i parts the walks |
| Possession.FiatShamirBinds | src/pom.rs:235-241 | two proofs with one challenge seed agree on block, nonce, trace root and pow value, or their 104-byte inputs collide |
| Possession.ChallengeInputsDiffer | src/pom.rs:243-246 | different challenge numbers or seeds hash different 40-byte inputs |
| Possession.ChallengeIsDigest | src/pom.rs:246-249 | a challenge is the little-endian number of its own digest's first eight bytes modulo k, and depends on no other hash value |
| Possession.EveryListIsAsked | src/pom.rs:235-252 | every list of step indices is the challenge list of the proof under some hash |
| Possession.VerifyProof | src/pom.rs:358-390 | accepts exactly when every listed check holds |
| Possession.VerifyOpening | src/pom.rs:375-388 | accepts an opening exactly when its three paths verify |
| Possession.OpeningOpensIff | src/pom.rs:328-342 | an opening of the walk passes exactly when its weight path climbs from its chunk to the root checked against |
| Possession.BuiltProofAccepted | src/pom.rs:298-390 | a built proof is accepted exactly when its pow value meets the target and each weight path reaches the root checked against |
| Possession.DensePathReaches | src/pom.rs:328-342 | the dense path of a chunk reaches exactly the dense root |
| Possession.HonestProofAccepted | src/pom.rs:298-390 | the honest proof is accepted exactly when its pow value meets the target and, if steps are opened, the root is the dense root |
| Mining.WalkFinal | src/pom.rs:256-264 | the hot loop ends in the state of the recursive walk over the canonical chunks |
| Mining.RecordTrace | src/pom.rs:313-321 | the recorded trace is the walk's k + 1 states |
| Mining.BuildProof | src/pom.rs:298-353 | the proof carries the walk and the paths rebuilt from the file; with the dense levels in the file it is the honest proof over the dense tree |
| Mining.MinePom | src/pom.rs:271-291 | the least winning nonce of the saturated range or none; its proof is accepted against the index's own root exactly when every path reaches it, so with the dense levels in the file always from 33 chunks on |
| Mining.SaturatedRange | src/pom.rs:282 | the range searched is the one asked for without the largest word |
| Mining.DenseFrom33 | src/pom.rs:424 | from 33 chunks the index's root is the dense root |
| Binding.PathBinds | src/pom.rs:224-232 | without a clash, a path of the tree's depth that reaches the root started at the honest leaf |
| Binding.ShortPathBinds | src/pom.rs:224-232 | a shorter accepted path started at a node of the inner level it reaches |
| Binding.LongPathBinds | src/pom.rs:224-232 | a longer accepted path passes the leaves at an honest leaf |
| Binding.AlignedClashIsReal | src/pom.rs:130-135 | the clash computed from a path is two different pairs with one hash |
| Soundness.LeafBinds | src/pom.rs:224-232 | an accepted path of any length is for the input at its index, or a collision is computed |
| Soundness.LeafCollisionIsReal | src/pom.rs:79-81 | that collision is two different byte strings with one hash |
| Soundness.StateBinds | src/pom.rs:368-373 | a verified state path fixes the state of the committed trace |
| Soundness.OpeningBinds | src/pom.rs:375-388 | a verified opening is a true walk step of the committed trace over the committed chunks |
| Soundness.ProofCollisionIsReal | src/pom.rs:358-390 | the collision computed from a whole proof is real |
| Soundness.AcceptedProofIsSound | src/pom.rs:358-390 | an accepted proof starts at the seed, ends at its final state, meets the target and steps truly at every challenge, or collides |
| Soundness.FullyChallengedIsHonest | src/pom.rs:358-390 | if the challenges reach every step, the trace is the honest walk |
| ModMagic.VerifyModMagic | src/pom_gpu.rs:91-115 | decides the sampled test, samples and edge cases |
| ModMagic.FindMagic | src/pom_gpu.rs:65-85 | a nonzero result is the ceiling reciprocal at shift floor(log2 d); zero exactly for d <= 1, powers of two and a failed test |
| ModMagic.FirstCandidate | src/pom_gpu.rs:72-78 | the first candidate fits 64 bits exactly when d is no power of two |
| ModMagic.LaterCandidate | src/pom_gpu.rs:72-78 | later candidates overflow, or their shift is past 63 |
| ModMagic.WrappedCandidate | src/pom_gpu.rs:72-75 | at shift 64 the amount has wrapped and the candidate is one |
| ModMagic.ReductionIsExactExcept | src/pom_gpu.rs:94-97 | the reduction is the remainder except exactly on large inputs one below a multiple of d, where it is 2^64 - 1 |
| ModMagic.ExactEverywhereIff | src/pom_gpu.rs:60-64 | it is exact on all 64-bit inputs if and only if the error times the last number below a multiple stays under 2^(64 + shift) |
| ModMagic.SmallExcessIsExact | src/pom_gpu.rs:60-64 | an error of at most 2^shift is exact, and then the self-test passes on every sample |
| SelfTest.SelfTestPassesIff | src/pom_gpu.rs:91-115 | a reciprocal passes the self-test if and only if no sample and no structured case is one of the inputs on which it is wrong |
| SelfTest.EdgeCasesNeverDecide | src/pom_gpu.rs:108-113 | for divisors up to 2^62 none of the structured cases is a wrong input of any reciprocal |
| SelfTest.SamplesDecide | src/pom_gpu.rs:98-107 | so there the samples alone decide |
| SelfTest.WrongExactlyOn | src/pom_gpu.rs:94-97 | for the divisor 3,964,126,429 the only candidate is wrong on nine words, the nine largest that are one below a multiple |
| SelfTest.PositionOfCounter | src/pom_gpu.rs:98-107 | the generator's counter determines the number of its sample |
| SelfTest.SamplesMissThem | src/pom_gpu.rs:98-107 | none of the million splitmix samples is one of the nine words |
| SelfTest.SelfTestPassesWrongConstant | src/pom_gpu.rs:86-115 | the self-test passes that constant, which is wrong on each of them |
| SelfTest.InexactConstant | src/pom_gpu.rs:65-85 | `mod_magic` returns it, so its result can be inexact |
| GpuMine.LoadGather | src/pom_gpu.rs:145-159 | the total is the chunk count in 32 bits; when it equals the count nothing was truncated and the gather is the canonical layout |
| GpuMine.Load | src/pom_gpu.rs:145-162 | refused exactly when the 32-bit total is zero |
| GpuMine.HalvingSteps | cuda/pom_mine.cu:72-87 | the predicated steps compute the recursive halving |
| GpuMine.HalvingFinds | cuda/pom_mine.cu:61-71 | enough halvings for the width find the tensor |
| GpuMine.HalvingMisses | cuda/pom_mine.cu:61-71 | too few halvings miss a chunk of some tensor, which is computed |
| GpuMine.TenStepsSufficeIff | cuda/pom_mine.cu:67-87 | ten steps find the tensor of every chunk if and only if there are at most 1024 tensors |
| GpuMine.LoadChunk | cuda/pom_mine.cu:140-165 | loads the words of the chunk the host reads, or reads outside the tensor found, exactly when the offset is out of range or ten steps do not find its tensor |
| GpuMine.ExactModuloIff | cuda/pom_mine.cu:103-109 | the kernel's remainder is exact if and only if the constant is zero or meets the closed form |
| GpuMine.KernelWalk | cuda/pom_mine.cu:137-168 | K kernel steps end in the host's walk state if and only if at every state of the host's walk the fast remainder is right and ten steps find the tensor; otherwise some read is outside its tensor |
| GpuMine.SoundEverywhere | cuda/pom_mine.cu:61-71 | an exact remainder and at most 1024 tensors make every walk sound |
| GpuMine.KernelThread | cuda/pom_mine.cu:133-174 | a thread offers its nonce exactly when it is in the batch and wins by the host's test, or strays exactly when its walk does |
| GpuMine.KernelTestIsHostTest | cuda/pom_mine.cu:169-171 | the kernel's words pass its test exactly when the host's bytes pass theirs |
| GpuMine.Launch | cuda/pom_mine.cu:133-174 | under every order of `atomicMin`: some thread strays, exactly when its walk does, or the cell ends with the least winning nonce wrapped to 64 bits, where a lone win of the largest word reads as none; without wrap-around this is the least winner of the range |
| GpuMine.BatchIsCoveredIff | src/pom_gpu.rs:262 | every nonce has a thread if and only if the block count fits 32 bits |
| GpuMine.ThreadsAreEnough | src/pom_gpu.rs:262 | when they fit, the threads are the least multiple of 128 that holds the batch |
| GpuMine.KernelAndHost | src/pom_gpu.rs:246-284 | if no thread strays, one launch over a covered batch that does not wrap and `mine_pom` over the same range find the same nonce, or both none; none strays when the remainder is exact and there are at most 1024 tensors |
| GpuMine.LeastWinnerUnique | src/pom_gpu.rs:246-248 | host and kernel searches of one range cannot disagree |
| Watch.StepKeepsInv | src/watch.rs:34-62 | every atomic step of any thread keeps lock ownership, the id against the version, the recorded ids and the pending notification |
| Watch.RunKeepsInv | src/watch.rs:34-165 | so does every run |
| Watch.NoLostWakeUp | src/watch.rs:133-150 | a sleeper with an unseen id or a dead sender has a sender step coming that still notifies all |
| Watch.SleeperIsUpToDate | src/watch.rs:133-150 | with no sender step under way, a sleeper holds the newest version and a live sender |
| Watch.WakeUpIsReachable | src/watch.rs:58-62 | from any such state, running only other threads reaches the wake-up: they cannot block one another for good |
| Watch.NoLostUpdate | src/watch.rs:121-131 | a recorded id never exceeds the version returned, and a receiver told "nothing new" holds the version of the id it read |
| Watch.VersionsNeverDecrease | src/watch.rs:121-150 | versions returned to one receiver never decrease over a run |
| Watch.HistoryGrows | src/watch.rs:41-47 | a version names its value for good |
| WatchCalls.CallEndsIff | src/watch.rs:116-150 | a step returns something exactly when the call is over, and a value exactly at a read |
| WatchCalls.CallOutcome | src/watch.rs:116-150 | over every run of a call: it is closed exactly when the sender was dead at one of its checks, has nothing new exactly when get_changed loaded the recorded id, and otherwise returns the value held at its read |
| WatchCalls.WaitHasNews | src/watch.rs:133-150 | wait_for_change never comes back with nothing new |
| WatchCalls.ClosedDeliversNothing | src/watch.rs:121-147 | once the sender is gone no run delivers to a receiver that is not past its check already |
| WatchCalls.DeadCallIsClosed | src/watch.rs:121-147 | and its call can only end closed |
| WatchCalls.WokenGetsValue | src/watch.rs:143-149 | while the sender lives a woken receiver that runs on is given a value |
| WatchCalls.DropWhileWaiting | src/watch.rs:99-107 | a receiver that waits when the sender is dropped is woken and told that the channel is closed |
| WatchCalls.SleeperIsTold | src/watch.rs:143-147 | from every state with a dead sender a sleeper's call can be brought to its end, closed |
| WatchCalls.GetAloneReturns | src/watch.rs:116-131 | on its own get_changed is closed, has nothing new, or returns the newest value, each under its exact condition |
| WatchCalls.FirstGetIsInitial | src/watch.rs:65-76 | a fresh channel gives its initial value first |
| WatchCalls.CloneIsToldTheSame | src/watch.rs:153-158 | a clone is told what the receiver it was made from would be told |
| WatchDelivery.DeliveryRepeatsIff | src/watch.rs:116-150 | over every run, a delivery repeats the version of the one before if and only if no send stored a value in between |
| WatchDelivery.LoadRepeatsIff | src/watch.rs:125-130 | at the load of a new id the read repeats the version held if and only if the record is older than it, it is still the newest, and nothing is stored before the read |
| WatchDelivery.WakeRepeatsIff | src/watch.rs:143-149 | the read after a wait repeats the version held if and only if that was the newest when the receiver went to sleep and nothing is stored before the read; with no store under way at that moment, if and only if nothing is stored |
| WatchDelivery.DeliveredIsPublished | src/watch.rs:41-56 | over every run a value is delivered only once its id is published: its version is that of the current id |
| WatchDelivery.VersionKeptIff | src/watch.rs:41-47 | the version counts the stores of a run |
| WatchDelivery.ExactlyOnceFails | src/watch.rs:125-130 | from every state with an unseen id and a send about to start, a run of two `get_changed` delivers one version twice |
| WatchDelivery.LateNotificationRepeats | src/watch.rs:133-149 | from every state with the locks free, one send and a receiver whose record matches throughout: the late notification delivers the version again |
| WatchDelivery.OldRecordCanDeliverNew | src/watch.rs:125-130 | a record older than the version held does not make a repeat by itself: a run in which the next read is new with nothing stored before it |
| WatchDelivery.MatchedRecordDeliversNew | src/watch.rs:125-130 | when the record matches the version held and a newer id is loaded, the version read is a new one |
| WatchShared.ReturnedIsTheVersion | src/watch.rs:53-55 | the value returned is the one its recorded version names, after any later steps too |
| WatchShared.Shared.constructor | src/watch.rs:65-76 | the fields start as the channel does |
| WatchShared.Shared.Send | src/watch.rs:83-87 | refused, with nothing changed, exactly when no receiver is left |
| WatchShared.Shared.Begin | src/watch.rs:117-133 | starts either call at its check of the sender |
| WatchShared.Shared.DropSender | src/watch.rs:99-107 | marks the sender dead and goes on to notify |
| WatchShared.Shared.CloneReceiver | src/watch.rs:153-158 | counts the clone, which inherits the recorded id |
| WatchShared.Shared.DropReceiver | src/watch.rs:160-164 | uncounts the receiver |
| WatchShared.Shared.SenderAdvance | src/watch.rs:41-62 | each in-place step of a send is the step of the transition system |
| WatchShared.Shared.ReceiverAdvance | src/watch.rs:121-150 | each in-place step of a receiver is the step of the transition system; it returns a value at the reads alone, closed exactly at a check that finds the sender dead, and something exactly when the call is over |
| EscrowState.DecimalIsRead | src/escrow.rs:168 | the index in a key is spelled in decimal digits that read as the index |
| EscrowState.KeyInjective | src/escrow.rs:168 | the key string identifies transaction id and output index |
| EscrowRuns.StepGrows | src/escrow.rs:175-416 | an event keeps every surviving entry in place with no flag cleared, appends only new ones and keeps keys distinct |
| EscrowRuns.StepKeepsInv | src/escrow.rs:209-512 | distinct keys, a whole pending outpoint, at most ten orphan retries and ten only when slashed |
| EscrowRuns.LoadedStateInvIff | src/escrow.rs:139-158 | a watcher starts in the invariant if and only if the entries it loads have distinct outpoints and bounded retries |
| EscrowRuns.RestartKeepsInv | src/escrow.rs:139-158 | so a restart from the entries of any state of a run, or from none, starts in it again |
| EscrowRuns.RunKeepsInv | src/escrow.rs:209-512 | the invariant holds after every run |
| EscrowRuns.PendingUntilResponse | src/escrow.rs:298-350 | a claim stays the pending one until a response arrives |
| EscrowRuns.OneClaimInFlight | src/escrow.rs:299-302 | between any two claims of a run there is a response |
| EscrowRuns.ResponseIsForTheClaim | src/escrow.rs:344-416 | the first response after a claim updates the claimed outpoint, wherever compaction moved it, and nothing else |
| EscrowRefusals.ContainsIff | src/escrow.rs:366-369 | a message contains a text exactly when the text stands somewhere in it |
| EscrowRefusals.LastScoreIsKept | src/escrow.rs:210-211 | the score a response is judged at is that of the last block with a header |
| EscrowRefusals.ResponseSettles | src/escrow.rs:351-412 | over every run: the first response claims the outpoint exactly when it has no error, slashes it exactly for an error with neither text or a tenth orphan, and counts a retry exactly for an orphan |
| EscrowRefusals.RefusedUntil | src/escrow.rs:369-402 | after a retriable refusal the open outpoint is eligible exactly from 100 (orphan) or 20 (sequence lock) blocks on, once mature |
| EscrowRefusals.RetriesAreCounted | src/escrow.rs:369-371 | over every run an open escrow has been refused as an orphan as often as its retry count says |
| EscrowRefusals.TenthOrphanSlashes | src/escrow.rs:370-374 | an orphan refusal slashes an open escrow if and only if it is the tenth |
| EscrowRuns.ClaimIff | src/escrow.rs:298-341 | a claim is built exactly when none is in flight and the first eligible entry, inference before coinbase, can be paid out |
| EscrowRuns.ClaimIsRipe | src/escrow.rs:298-423 | every claim of a run spends that entry: unsettled, mature, past its cooldown, with output plus fee equal to its amount |
| EscrowRuns.EligibleIsMature | src/escrow.rs:310-315 | unless the 64-bit sum wraps, eligible means past the window and its margin |
| EscrowRuns.EntryStaysTracked | src/escrow.rs:175-184 | over every run, an entry not yet settled is still tracked |
| EscrowFate.StepKeys | src/escrow.rs:175-290 | after any event the tracked outpoints are the survivors and those the event pays |
| EscrowFate.SettledIsTrackedAgainIff | src/escrow.rs:175-290 | over every run and every kind of event: a settled outpoint is tracked as unsettled again if and only if some block since compacted and that event or a later one, coinbase or inference payment, pays the outpoint |
| EscrowFate.SettledIsReopened | src/escrow.rs:482-512 | a run that does it without any coinbase: 2,000 blocks and an inference payment |
| EscrowFate.SlashedInFlight | src/escrow.rs:226-243 | while a claim is in flight its outpoint is slashed exactly by the red blocks since, as long as none compacts it away |
| EscrowFate.BothFlagsIff | src/escrow.rs:351-359 | a claim accepted at the first response leaves its outpoint claimed and slashed if and only if a block in between reddened the entry tracked for it then and no later block before the response compacted |
| EscrowFate.ClaimedEntryBothFlagsIff | src/escrow.rs:351-359 | with no compaction in between: if and only if some block between claim and acceptance has the hash of the claimed entry in its red set |
| EscrowFate.BothFlagsReached | src/escrow.rs:209-359 | a run from an empty watcher that ends with such an entry: paid, claimed, reddened, accepted |
| EscrowProgress.StuckForever | src/escrow.rs:316-340 | a ripe entry that cannot be paid out, wherever it stands behind entries of its kind that cannot be claimed either, stops every later claim of its kind of the run unless reddened; an inference entry stops coinbase claims too |
| EscrowProgress.DustBlocks | src/escrow.rs:418-424 | an inference payment worth no more than the fee starts it unless a payable one is waiting |
| EscrowProgress.RoundIsProgress | src/escrow.rs:298-359 | a usable block and the acceptance of its claim leave fewer entries due, unless nothing was ripe |
| EscrowProgress.EveryRipeEntryIsClaimed | src/escrow.rs:298-359 | with every due entry payable and every claim accepted before the next block, as many usable blocks as entries are due claim every ripe entry but those that a block reddens |
| EscrowRuns.TrackedKeys | src/escrow.rs:255-290 | after a coinbase exactly its paying outputs are tracked besides the old ones |
| EscrowPayments.NamesIff | src/escrow.rs:256-260 | an output pays the watcher exactly by version 0 and its script in any case of its letters |
| EscrowPayments.UsableIff | src/escrow.rs:246-250 | a block is used exactly when its first transaction without inputs has a nonempty id |
| EscrowPayments.BlockTracks | src/escrow.rs:255-290 | every entry a block adds has the id, index, amount, score and hash of an output of that coinbase that pays the watcher |
| EscrowPayments.InferenceTracks | src/escrow.rs:482-512 | an inference payment is tracked with its terms at output 1, once, unless it is of nothing |
| EscrowPayments.ClaimBuiltIff | src/escrow.rs:418-470 | a claim can be built exactly for an amount above 30,000,000 and an id of 64 hexadecimal digits, and pays out the rest after 36,000 blocks |
| EscrowPayments.WrappedIsEarly | src/escrow.rs:313 | the maturity sum wraps: an entry confirmed at the last score is eligible at score 36,009 |
| EscrowRuns.RespondFirstExact | src/escrow.rs:353-362 | with distinct keys the search for the first match updates every entry with the outpoint and no other |
| EscrowWatcher.IndicesExact | src/escrow.rs:103-105 | an index list holds exactly the positions of the entries of its block |
| EscrowWatcher.PushKeepsIndex | src/escrow.rs:284-286 | pushing the new position keeps the block index in step |
| EscrowWatcher.Watcher.constructor | src/escrow.rs:139-160 | a loaded watcher has agreeing indexes and nothing pending |
| EscrowWatcher.Watcher.RebuildIndexes | src/escrow.rs:164-173 | establishes the agreement of both indexes from any state and changes nothing else |
| EscrowWatcher.Watcher.Compact | src/escrow.rs:177-184 | drops exactly the settled entries; skipping the rebuild when nothing was dropped is safe |
| EscrowWatcher.Watcher.SlashBlock | src/escrow.rs:228-241 | slashing through the index changes the entries a full scan for the hash would |
| EscrowWatcher.Watcher.SlashReds | src/escrow.rs:226-243 | so for a whole list of red hashes, repeats and unknown hashes included |
| EscrowWatcher.Watcher.TrackCoinbase | src/escrow.rs:255-290 | appends and indexes what the scan would append |
| EscrowWatcher.Watcher.FindClaim | src/escrow.rs:298-341 | finds the claim of the scanning form |
| EscrowWatcher.Watcher.HandleBlock | src/escrow.rs:209-295 | does to the state what the scanning form does and keeps both indexes in agreement |
| EscrowWatcher.Watcher.OnSubmitResponse | src/escrow.rs:344-416 | likewise for responses |
| EscrowWatcher.Watcher.TrackInferenceEscrow | src/escrow.rs:482-512 | likewise for inference payments |
| Radix.CarryStays | inference/src/ai_payload.rs:205-209 | the carry stays below the multiplier: at most 255 when encoding, 57 when decoding |
| Radix.ShiftIn | inference/src/ai_payload.rs:204-214 | the inner loops turn the digits of a number into those of the number times the multiplier plus the input digit |
| Radix.TrimmedIsUnique | src/ipfs.rs:49-64 | a digit string without a superfluous zero is the only one of its number |
| Radix.RoundTripIff | inference/src/ai_payload.rs:199-219 | between any two bases, converting there and back is the identity exactly on strings with a nonzero digit |
| Base58.BuildTable | src/ipfs.rs:44-48 | the table inverts the alphabet and marks every other byte |
| Base58.Base58Encode | inference/src/ai_payload.rs:199-219 | the loops spell the number of the bytes, after one '1' for each leading zero |
| Base58.Base58Decode | src/ipfs.rs:43-69 | the loops read that number back, and refuse exactly the strings outside the alphabet |
| Base58.DecodeEncodeIff | src/ipfs.rs:43-69 | decoding an encoding gives the bytes back if and only if one is nonzero; otherwise two zeros are added |
| Base58.EncodeDecodeIff | inference/src/ai_payload.rs:199-219 | encoding a decoding gives the string back if and only if it has a character other than '1' |
| Base58.CidV0ToMultihash | src/ipfs.rs:32-41 | accepts exactly the strings that decode to a 34-byte sha2-256 multihash |
| Base58.CidNamesOneMultihash | inference/src/ai_payload.rs:130-132 | a CID is accepted for a multihash if and only if it is that multihash's encoding |
| Uint256.Cmp | src/target.rs:87-95 | the limb comparison decides the numeric order |
| Uint256.OneOrder | src/target.rs:87-95 | limb order, host byte test and kernel word test agree on every pair of targets |
| Uint256.LimbsRoundTrip | src/target.rs:46-61 | from_le_bytes undoes to_le_bytes |
| Uint256.BytesRoundTrip | src/target.rs:46-61 | to_le_bytes undoes from_le_bytes |
| Uint256.ToLeBytesValue | src/target.rs:56-61 | the bytes denote the same number as the limbs |
| Uint256.LoHi | src/target.rs:107-113 | the part kept of one limb and the part pushed out of another never overflow a limb together |
| Uint256.ShiftLimbs | src/target.rs:100-116 | the loop places both parts of every limb, with no overflow in either `+=` |
| Uint256.Shl | src/target.rs:97-117 | for every shift, the product with the power of two modulo 2^256 |
| Uint256.FromCompact | src/target.rs:4-24 | mantissa times power of two modulo 2^256, and zero for a mantissa with its sign bit set |
| Uint256.CompactParts | src/target.rs:4-17 | mantissa and exponent by inequalities on the size byte and the low 24 bits |
| Uint256.CompactIsExactIff | src/target.rs:18-23 | nothing is cut off if and only if the mantissa fits above its exponent |
| FixedMlp.WeightInRange | inference/src/model_fixed.rs:45-56 | for every state a weight lies in [-he, he), so the 32-bit cast keeps it |
| FixedMlp.LeastWeightIff | inference/src/model_fixed.rs:39-55 | the weight is -he exactly for raw values within 2^31 / he of the least |
| FixedMlp.LeastWeightIsDrawn | inference/src/model_fixed.rs:39-55 | the generator state 1843579416325869589 draws -he at every scale |
| FixedMlp.MakeWeights | inference/src/model_fixed.rs:59-62 | the loop draws the generator's weights in order, all in range |
| FixedMlp.DotBound | inference/src/model_fixed.rs:79-81 | an accumulator is bounded by its number of terms times the largest term |
| FixedMlp.PartialSumBound | inference/src/model_fixed.rs:79-81 | so is every partial sum |
| LinearLayer.LayerIsProduct | inference/src/model_fixed.rs:77-84 | accumulator i is the sum of x[j] * w[i * cols + j] |
| LinearLayer.LayerOfUnit | inference/src/model_fixed.rs:77-84 | on the unit vector at j a layer reads off w[i * cols + j] |
| LinearLayer.LayerAdds | inference/src/model_fixed.rs:77-84 | a layer is additive |
| LinearLayer.LayerScales | inference/src/model_fixed.rs:77-84 | a layer is homogeneous |
| LinearLayer.ReluBracket | inference/src/model_fixed.rs:82 | an activation is 0 for a negative accumulator and otherwise its floor by 1024 |
| LinearLayer.CentredIsByte | inference/src/model_fixed.rs:70 | the centred input is the byte less 128 |
| LinearLayer.NextIsCongruent | inference/src/model_fixed.rs:46-48 | the state steps as a linear congruence modulo 2^64 |
| LinearLayer.RawIsUpperHalf | inference/src/model_fixed.rs:50-51 | the raw value is the signed upper half of the state |
| LinearLayer.WeightBracket | inference/src/model_fixed.rs:53-55 | a weight is the scaled raw value rounded down |
| LinearLayer.LayerSeedIsCongruent | inference/src/model_fixed.rs:60 | a layer's seed is the model's plus its multiple of the salt modulo 2^64 |
| LinearLayer.TwosComplementIs | inference/src/model_fixed.rs:119 | the bytes folded are those of the accumulator modulo 2^64 |
| LinearLayer.FoldOfFour | inference/src/model_fixed.rs:120 | the fold of four bytes is their exclusive or |
| LinearLayer.OneByteDecides | inference/src/model_fixed.rs:118-121 | changing one of the four low bytes of accumulator i changes output i |
| FixedMlp.NetworkBounds | inference/src/model_fixed.rs:68-111 | for every input and seed: accumulators within 1,048,576, 23,592,960 and 377,487,360, activations in [0, 1024] and [0, 23040] |
| FixedMlp.FoldIsLowHalf | inference/src/model_fixed.rs:118-121 | for a value that fits 32 bits the upper four bytes cancel in the fold |
| FixedMlp.Forward | inference/src/model_fixed.rs:68-123 | each output byte is the fold of the low half of its accumulator, which fits 32 bits |

## Left out

- The insides of BLAKE3, BLAKE2b, Keccak, Schnorr signing and the sighash. BLAKE3 is a parameter; a claim is modelled without its signature, whose failure is not modelled either.
- GGUF parsing, tensor loading and sorting by name: a model is the list of its tensors' bytes and file offsets in canonical order. File and disk errors.
- The checkpoint file is a sequence of 32-byte nodes, so a file whose length is no multiple of 32 is not modelled; its size check would refuse it.
- `Ram` chunk sources and `merkle_root_mini`, which exist for tests only.
- Merkle.MerkleProof: an index past the leaves, which panics or returns a meaningless path depending on the sizes; no caller passes one.
- Merkle.MerkleRoot: requires a leaf, as the source asserts.
- WeightIndex.BuildFromGguf: the removal of old and of refused files. The content of an accepted file is arbitrary, as in the source.
- ModMagic.FindMagic: the samples are a parameter, so its statements hold for any; the source's own are `SelfTest.Samples`. The u128 shift amount is taken modulo 128, as a release build does.
- GpuMine.LoadGather: device pointers stand for the tensors' bytes; `load_shared` builds the same gather from other buffers and is not repeated.
- GpuMine.Launch: threads are run one after another in any order, since they share only the winner cell. Once a thread reads outside its tensor nothing is said about the result, which the device memory there decides.
- GpuMine.KernelWalk: requires a constant as `mod_magic` returns them, zero or a reciprocal, and fewer than 2^32 chunks, past which the source truncates its total.
- Watch: atomics are sequentially consistent, a read under the value's read lock is one step, and the counters do not overflow. A send that is refused has no state of its own.
- WatchShared.Shared.Send: `history` and the program points of threads are part of the model, not of the source's fields; a method cannot be suspended between its atomic steps, so the points are data.
- Escrow persistence: saving and its debouncing, loading and its parse errors. Log lines, and their panics on ids cut inside a character.
- A coinbase with more than 2^32 outputs, whose index would be truncated.
- Escrow script comparison lower-cases ASCII letters only.
- EscrowState.HandleBlock: 64-bit sums of DAA scores wrap, as in a release build.
- EscrowRuns.ResponseIsForTheClaim: a response is an input event; that a node's response belongs to the claim is not established by src/client/grpc.rs:652-655 and is not claimed.
- EscrowWatcher.Watcher.Compact: `retain` and `iter().find` are library calls and appear as functions.
- FixedMlp.Forward: the layers are expressions in the source and functions here; only the weight and output loops are loops.
- `src/slm.rs`, the quantized model splits and `inference/src/model.rs`: tensor libraries and floating point. `Matrix::compute_rank` and `set_difficulty`: floating point.
- `Xoshiro256StarStar::long_jump`, the network clients, tier tables, command line and fixed-layout payload serialisers, which would only add easy members or plumbing.
