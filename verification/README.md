# Keryx miner: a verified model

This project models the parts of the Keryx miner whose correctness cannot be read off one function, and proves them
for all inputs. It is checked by the Dafny verifier alone; nothing is executed.

**Proof-of-Model (`src/pom.rs`).** A model file is cut into 32-byte chunks. Every sixth level of a duplicate-last
Merkle tree over the chunk hashes is written to a checkpoint file, and every other node is recomputed when a path is
asked for. `DenseTree` is the plain tree, `SparseTree` the geometry of 64-leaf batches and of the stored levels,
`CheckpointFile` the file and its loops, `Chunks` the chunk table and its readers, and `WeightIndex` puts them
together: building, reopening, inclusion paths. `Pom` is the prover and the verifier for any hash, step and challenge
rule; `Folds` supplies the rules of a real block and `FoldLaws`, over `MixChains`, tells what they depend on. `Binding` and `Soundness` show what an accepted proof is worth by
computing a hash collision from every false opening or claim, and `PathLengths` what the lengths of its paths decide.
The hash is a parameter throughout: nothing is assumed of it.

**Division by multiplication.** `FastMod` (65-bit round-up reciprocal, `keryx-vulkan/src/bench.rs`) and `ProbedMod`
(64-bit reciprocal accepted on samples, `src/pom_gpu.rs`); `ModSamples` tells what those samples see, and `BlindDivisor`
evaluates them for one divisor.

**The watch channel (`src/watch.rs`).** `Watch` is a state machine in which every access to shared state is one step
and steps of the sender and any number of receivers interleave freely; `WatchHistory` tells what is delivered.

**The escrow claim watcher (`src/escrow.rs`).** `EscrowRules` is the watcher over its entry list alone;
`EscrowWatcher` is the class with its two indexes, each method refining one step of the rules; `EscrowLifecycle` proves
what whole runs keep, `EscrowProvenance` where entries come from, and `EscrowQueue` when a block yields a claim and which
entries stop all others.

**Smaller pieces.** `Base58` on `Radix`; `Xoshiro` on `JumpAlgebra`; `Target` and `TargetBytes`; `Opoi`; `Downgrade`;
and where a canonical chunk lies on each GPU path: `RawGather`, `Shards` and `SharedWalk`, over `TensorPrefix`.

## What turned out to differ from the comments

- Up to 32 chunks the stored root is not the root of the plain tree: the batched build always folds six levels, so the
  canonical root is paired with itself up to level six (`WeightIndex.SmallRootIsCarried`). From 33 chunks on the two
  agree for every hash, and for no smaller size (`WeightIndex.BuiltRootIsCanonicalIff`). Inclusion paths are right for
  every size.
- `src/pom_gpu.rs:71` calls the bit length of the divisor its floored logarithm, and the note at line 76 bounds a shift
  that the scan exceeds. The model follows the code, with the masked shift of a release build: past the first candidate
  nothing can be accepted, so the scan has no other outcome than the first candidate or none.
- `verify_proof` (`src/pom.rs:439-482`) compares no path lengths. Each opening is bound to the model file whatever its
  path length (`Soundness.OpeningsAreGenuine`), but claims about one trace position are bound to each other only by paths
  of one length. With a test that all trace paths have one length the claims of an accepted proof agree and a fully
  opened one is honest (`Soundness.ClaimsAgree`, `Soundness.FullyOpenedProofIsHonest`); without it the final state is
  bound exactly when there is no step to walk (`PathLengths.PassableIff`). With the program's 256 steps and 32 openings
  no proof is ever fully opened (`Soundness.CoverNeedsAll`).
- The self-test of `src/pom_gpu.rs:88-116` is called authoritative; it accepts a candidate that is not the remainder on
  all words (`BlindDivisor.AcceptedNotExact`). It accepts exactly when no word that is reduced wrongly is sampled or
  probed (`ModSamples.PassesIff`). The one caller (`src/pom_gpu.rs:285`) passes a chunk count, the last entry of a prefix
  of 32-bit words (`RawGather.GatherRaw`), so a divisor below 2^32, as the one exhibited; there the probes decide nothing
  (`ModSamples.SamplesDecide`). `ProbedMod` and `ModSamples` describe the function on all 64-bit divisors, larger ones
  included.
- The cooldowns in `src/escrow.rs:304-310` are meant to let other claims proceed. An entry worth no more than the fee, or
  under a transaction id that is not 64 hexadecimal digits, gets no cooldown, because its transaction is never built:
  once it is the first live entry of its kind it is picked by every later block, no entry of its kind is claimed again,
  and behind an inference entry none at all (`EscrowQueue.StuckForever`, `EscrowQueue.StarvedIff`). When there is no such
  entry, every block with an eligible one yields a claim (`EscrowQueue.ClaimIff`).
- A base58 round trip of zero bytes alone, the empty input included, comes back two bytes longer
  (`Base58.ZerosComeBackLonger`).

## Model

| member | source | states |
|---|---|---|
| DenseTree.MerkleRoot | src/pom.rs:263-277 | the level-by-level loop computes the root of the duplicate-last tree, for any pairing function |
| DenseTree.MerkleProof | src/pom.rs:279-298 | the loop returns the dense tree's path: the sibling at every level, the node itself where the sibling is missing |
| DenseTree.VerifyMerkle | src/pom.rs:300-308 | accepts exactly when climbing the path from the leaf ends in the root |
| DenseTree.ProofClimbs | src/pom.rs:263-308 | for every leaf of every tree, climbing the leaf's own path reaches the root |
| DenseTree.FoldLevels | src/pom.rs:926-943 | folding a batch for some rounds gives the first node that many levels up in the batch's own tree |
| SparseTree.BatchIsNode | src/pom.rs:815-828 | the top of a batch cut at `i * 2^r`, short at the right edge or not, is node `i` of level `r` of the whole tree |
| SparseTree.ComputeCheckpointOffsets | src/pom.rs:538-561 | the layout holds exactly the levels 6, 12, ... below the root and the root, each with the dense node count, back to back from zero; the level count is the depth plus one |
| SparseTree.LayoutUnique | src/pom.rs:538-561 | a chunk count admits only one layout, so a reopened file is read at the offsets it was written at |
| SparseTree.LayoutLength | src/pom.rs:538-561 | the number of stored levels is the least that reaches the root in steps of six |
| CheckpointFile.PushLeaf | src/pom.rs:714-728 | a full buffer of 64 leaves is folded and written, and written plus buffered leaves account for every leaf so far |
| CheckpointFile.FlushTail | src/pom.rs:720-728 | after the last partial batch the file is exactly level six of the dense tree |
| CheckpointFile.FinalizeCheckpointUpper | src/pom.rs:945-998 | every stored level from six up is the dense tree's level, at its computed offset; the file ends with the root; the root is the dense root from 33 leaves on and the carried one below |
| CheckpointFile.DeepEnough | src/pom.rs:538-561 | a tree reaches level six exactly from 33 leaves on |
| CheckpointFile.FindCheckpoint | src/pom.rs:807-810 | the stored level asked for is found, with the dense node count |
| CheckpointFile.CountAtLevel | src/pom.rs:812-820 | repeated halving gives the number of nodes of a level |
| CheckpointFile.NodeFromSource | src/pom.rs:829-856 | a node above a stored level is the fold of the in-range source nodes below it |
| CheckpointFile.SourceIsNearest | src/pom.rs:857-891 | a node is recomputed from the nearest level at or below its own that is a multiple of six |
| Chunks.TableCovers | src/pom.rs:691-713 | the chunk table built over the tensors locates every canonical chunk and nothing else |
| Chunks.ChunkCount | src/pom.rs:691-713 | a model has as many chunks as its tensors have whole 32-byte windows, and none exactly when every tensor is shorter |
| Chunks.ChunkAt | src/pom.rs:691-713 | window `c` of a tensor is the chunk that as many windows of earlier tensors precede, and holds the file's bytes there |
| Chunks.ChunkFrom | src/pom.rs:691-713 | every chunk is such a window |
| Chunks.ReadChunkBytesIsCanonical | src/pom.rs:749-768 | the chunk read through the table is the canonical chunk, whichever tensor it lies in |
| Chunks.ReadChunkRange | src/pom.rs:772-804 | a bulk read across tensor boundaries fills the buffer with exactly the canonical chunks from `first` on |
| Chunks.SpanUnique | src/pom.rs:749-768 | a chunk belongs to one table entry only |
| WeightIndex.BuildFromGguf | src/pom.rs:639-737 | the build is refused exactly when no tensor holds 32 bytes; otherwise chunk table, stored levels, offsets and root are those of the dense tree over the canonical chunks |
| WeightIndex.PairHashesHalves | src/pom.rs:131-136 | hashing any 64 bytes is pairing their halves, the first as the left child |
| WeightIndex.OpenExistingTree | src/pom.rs:565-632 | a cached file is accepted exactly when its size fits the chunk count; table, layout and root offset are those of a fresh build |
| WeightIndex.BuildThenReopen | src/pom.rs:565-737 | reopening the file of a build returns the very index that was built |
| WeightIndex.ComputeSubtreeHash | src/pom.rs:829-855 | the recomputed node is the batch top over leaves hashed on the spot or over a stored level; out of range it is the zero guard |
| WeightIndex.MerklePath | src/pom.rs:857-891 | for every chunk count and every offset, the path mixed from checkpoint reads and recomputed subtrees is the dense tree's path |
| WeightIndex.SmallRootIsCarried | src/pom.rs:945-998 | for at most 32 leaves the stored root is the canonical root paired with itself up to level six |
| WeightIndex.SmallRootsDiffer | src/pom.rs:945-998 | for every such size there is a hash under which the stored and the canonical root differ |
| WeightIndex.BuiltRootIsCanonicalIff | src/pom.rs:639-737 | the stored root is the canonical root for all hashes and leaves of a size if and only if the size exceeds 32 |
| LittleEndian.LeLeq | src/pom.rs:138-148 | the byte-wise comparison is the order of the little-endian numbers |
| Pom.WalkFinal | src/pom.rs:332-342 | the search walk ends in the state the walk over the canonical chunks ends in |
| Pom.WalkReads | src/pom.rs:332-342 | whatever the rules, each step reads the chunk that the state's number leaves as remainder by the chunk count |
| Pom.DrawnStep | src/pom.rs:311-328 | each challenge is the remainder of its own draw by the walk length |
| Pom.BuildProof | src/pom.rs:376-434 | the prover returns the honest proof: trace root, pow value, endpoint paths and, at each challenge, the canonical chunk with its three paths |
| Pom.VerifyProof | src/pom.rs:439-482 | accepts exactly when opening count, target, both endpoints and every opening check out |
| Pom.Completeness | src/pom.rs:376-482 | a walk that meets the target yields a proof that passes every check against the canonical root |
| Pom.MinePom | src/pom.rs:347-369 | returns the least winning nonce of the range, cut off at 2^64 - 1, with a proof that is accepted for that nonce's seed when the index root is canonical, or nothing when no nonce wins |
| Pom.BuildThenMine | src/pom.rs:347-737 | building the index of a model of more than 32 chunks and mining over it returns the least winner with a proof accepted against the index's own root |
| Folds.BytesOfWords | src/pom.rs:109-125 | a chunk survives the conversion to words and back |
| Folds.WordsOfBytes | src/pom.rs:109-125 | words survive the conversion to a chunk and back |
| Folds.LeafBytesInjective | src/pom.rs:127-129 | under the rules of a block different states have different trace leaf preimages, none as long as an inner node's |
| Folds.WordsAreNumbers | src/pom.rs:109-129 | words and the numbers below 2^64 correspond one to one through their little-endian bytes |
| FoldLaws.StatePoints | src/pom.rs:332-342 | under the rules of a block a state below the chunk count points to the chunk of that number, so every chunk is pointed to |
| FoldLaws.ChunksStepApart | src/pom.rs:99-106 | for a one-to-one mixer a state steps to different states over chunks that differ in one word |
| FoldLaws.StepSees | src/pom.rs:99-106 | likewise different states over one chunk, and different words in any place |
| FoldLaws.SeedSees | src/pom.rs:200-208 | for a one-to-one mixer seeds differ when the nonce, the time or one word of the header hash differs |
| FoldLaws.NoncesStartApart | src/pom.rs:200-234 | so no two nonces of a block start the same walk |
| FoldLaws.SeedRounds | src/pom.rs:200-234 | the seed is the six rounds in order: nonce, time and the four words, salted from the fork on |
| FoldLaws.PowSees | src/pom.rs:236-249 | for a one-to-one mixer pow values differ when the final state or one word of the header hash differs |
| FoldLaws.DrawSees | src/pom.rs:311-328 | no input of a challenge is ignored: where header hash, nonce, trace root, pow value or position differ, an explicit hash draws differently |
| FoldLaws.DrawReads | src/pom.rs:311-328 | a draw is the first eight bytes of the hash of the 40-byte buffer over the hash of the 104-byte buffer |
| Folds.SaltPphBytes | src/pom.rs:186-197 | salting in place xors the salt's bytes in from the activation on and changes nothing before |
| Folds.SaltedBytesAreSaltedWords | src/pom.rs:151-260 | salting the header bytes once and folding without salt gives the seed and the pow value of folding with salted words |
| Binding.DescendSound | src/pom.rs:300-308 | a path of the tree's depth that reaches the root either starts at the leaf it claims, or yields a computed collision |
| Binding.ChunkBound | src/pom.rs:466-480 | an accepted weight path of any length belongs to the canonical chunk, or a pair of different byte strings with equal hash is computed from it and the tree |
| Binding.CommitBound | src/pom.rs:455-480 | two states claimed at one trace position on paths of one length are equal, or a collision is computed |
| Binding.CommitBoundAtZero | src/pom.rs:455-480 | at position 0 that holds for paths of any lengths, when no leaf preimage is as long as an inner node's |
| Soundness.OpeningsAreGenuine | src/pom.rs:466-480 | in an accepted proof, with paths of any lengths, every opening shows the canonical chunk its state points to and the honest next state, or a collision is computed |
| Soundness.HonestPathsHaveLength | src/pom.rs:376-434 | all trace paths of an honest proof have the depth of the trace as their length, so a test for one length refuses none |
| Soundness.ClaimsAgree | src/pom.rs:439-482 | if besides being accepted all trace paths of a proof have one length, any two claims it makes about one position agree, or a collision is computed from the two |
| Soundness.StretchIsWalked | src/pom.rs:439-482 | with that length test, wherever consecutive steps are all opened the claimed states are those the walk over the canonical chunks goes through, or a collision is computed |
| Soundness.FullyOpenedProofIsHonest | src/pom.rs:439-482 | with that length test and every step opened, the final state is the honest one and the nonce really wins, or a collision is computed |
| Soundness.CoverNeedsAll | src/pom.rs:46-49 | opening every step takes at least as many openings as steps, so 32 openings never cover 256 steps |
| PathLengths.OtherFinalAccepted | src/pom.rs:439-482 | without the length test, for every walk of one step or more and every number of openings, every word whose pow value meets the target is the final state of an accepted proof, given explicitly |
| PathLengths.OtherFinalIsUneven | src/pom.rs:439-482 | no length makes that proof pass the length test |
| PathLengths.NoClash | src/pom.rs:439-482 | neither two claims of that proof nor one of its openings yields a collision, for any hash that tells the two final leaves apart |
| PathLengths.NoStepsNoTest | src/pom.rs:439-482 | for a walk of no steps acceptance alone binds the final state to the seed, or a collision is computed |
| PathLengths.PassableIff | src/pom.rs:439-482 | a final state that meets the target and whose leaf is not the honest one's can be accepted without a collision if and only if there is a step to walk |
| PathLengths.OneStepIsCovered | src/pom.rs:439-482 | a walk of one step is fully opened by any accepted proof with an opening, so opening every step does not replace the length test |
| FastMod.MagicQuotient | src/pom_gpu.rs:47-70 | the quotient by a rounded-up reciprocal is right, or one too large exactly below a multiple of the divisor where the scaled error reaches the power |
| FastMod.MagicGenIsReciprocal | keryx-vulkan/src/bench.rs:118-133 | the wrapped doubling, carry test and increments leave the 65-bit reciprocal without its top bit |
| FastMod.Averaging | keryx-vulkan/src/bench.rs:144-147 | the averaging step is the half sum although the sum may not fit a word |
| FastMod.HighPart | keryx-vulkan/src/bench.rs:135-147 | the high product never exceeds the dividend, and the averaged shift is the quotient by the 129-bit product |
| FastMod.ModMagicHostExact | keryx-vulkan/src/bench.rs:118-148 | for every divisor from 1 up and every word the reduction equals the remainder |
| ProbedMod.VerifyModMagic | src/pom_gpu.rs:92-116 | the self-test accepts exactly when magic and shift are in range and the million samples and ten probes all reduce correctly |
| ProbedMod.OnlyFirstFits | src/pom_gpu.rs:67-86 | of all shifts below 64 only the first gives a 64-bit numerator, and only when the divisor is not a power of two |
| ProbedMod.ModMagicFor | src/pom_gpu.rs:67-86 | the search returns the first candidate if it passes and the fallback otherwise; always the fallback for powers of two |
| ProbedMod.ReductionValue | src/pom_gpu.rs:47-70 | the reduction of every word: the remainder, or the largest word exactly for those below a multiple whose scaled error reaches the power |
| ProbedMod.ExactIff | src/pom_gpu.rs:67-86 | the candidate is the remainder on all words if and only if the largest word below a multiple of the divisor stays under the power |
| ProbedMod.ExactIsAccepted | src/pom_gpu.rs:88-116 | an exact candidate passes the self-test, so the search returns it |
| ProbedMod.AcceptedIsExactForLarge | src/pom_gpu.rs:88-116 | of the function alone, for divisors above a third of 2^64, which no caller passes: passing the self-test means being exact |
| ModSamples.SplitMixInjective | src/pom_gpu.rs:99-106 | the sample generator maps different counter values to different words |
| ModSamples.SampledIff | src/pom_gpu.rs:99-106 | a word is among the million samples if and only if undoing the mixing and multiplying by the inverse increment gives a number from one to a million |
| ModSamples.WrongIff | src/pom_gpu.rs:67-86 | for every divisor that is no power of two, the words the candidate reduces wrongly are exactly those one below a multiple of the divisor, from a computed first multiple on |
| ModSamples.PassesIff | src/pom_gpu.rs:88-116 | for every such divisor the self-test passes if and only if none of those words is sampled or probed; the candidate is exact if and only if there are none |
| ModSamples.ProbesAre | src/pom_gpu.rs:107-114 | the probes are three times the divisor and what lies within one of none, one and two times it, modulo 2^64 |
| ModSamples.SamplesDecide | src/pom_gpu.rs:88-116 | below 2^61, so for every chunk count, the ten probes decide nothing: the self-test passes if and only if no sample is reduced wrongly |
| BlindDivisor.AcceptedNotExact | src/pom_gpu.rs:67-116 | for the divisor 3964126429, a possible chunk count, the self-test passes although exactly nine words are reduced wrongly |
| ProbedMod.SevenIsNotExact | src/pom_gpu.rs:67-86 | for the divisor 7 the candidate is wrong on 2^64 - 3 |
| Watch.RunInv | src/watch.rs:20-164 | every interleaving from a new channel keeps the lock, counter, freshness and wake-up invariants |
| Watch.NoLostWakeup | src/watch.rs:61-107 | a sleeping receiver has seen the current version of a live channel unless the notification is still to come |
| Watch.Progress | src/watch.rs:41-150 | while a call is under way some thread can move: mutex and read-write lock never wait in a cycle |
| Watch.CallsEnd | src/watch.rs:87-150 | under every schedule the calls under way take a bounded number of steps, and when no thread can move nobody waits but receivers that are up to date |
| Watch.AnswersAreFresh | src/watch.rs:114-150 | an answered value is a stored one, under its version; "no change" means a value at least as new as the counter read is held; an idle receiver holds something no older than it last observed |
| WatchHistory.HistoryIsSent | src/watch.rs:41-97 | over every interleaving the stored values are the first one and those of the sends not refused, in order, less the one being written |
| WatchHistory.AnsweredWasSent | src/watch.rs:114-150 | an answered value is the one sent at the place its version names |
| WatchHistory.SeenWasReturned | src/watch.rs:114-164 | the version a receiver is taken to hold was returned to it or to one it was cloned from |
| WatchHistory.AliveIff | src/watch.rs:33-39 | the channel is alive exactly while the sender has not been dropped |
| WatchHistory.ClosedIsDropped | src/watch.rs:114-150 | a receiver is told that the channel is closed only after the sender was dropped |
| WatchHistory.CallAnswers | src/watch.rs:86-150 | a call between two sends answers with the value sent last, unless the sender was dropped or, when it does not wait, the receiver has observed that value |
| Watch.ReadMatchesId | src/watch.rs:41-59 | under the read lock value and counter belong together |
| Watch.SeenGrowsOverRuns | src/watch.rs:121-150 | the version a receiver returned last never goes backwards |
| Watch.CountIsLiving | src/watch.rs:21-31 | the count a send looks at is the number of receivers not dropped, and zero exactly when all are |
| EscrowRules.FirstEligible | src/escrow.rs:311-324 | the entry picked is eligible, of the kind asked for, and the first such |
| EscrowRules.Position | src/escrow.rs:354-365 | the entry an answer concerns is the first at the pending outpoint |
| EscrowWatcher.KeyInjective | src/escrow.rs:164-172 | text keys name outpoints one to one, whatever the transaction id holds |
| EscrowWatcher.PositionsExact | src/escrow.rs:164-172 | the positions listed for a block hash are exactly those of entries with that hash |
| EscrowWatcher.PositionsAscend | src/escrow.rs:164-172 | they are listed in ascending order |
| EscrowWatcher.Watcher.RebuildIndexes | src/escrow.rs:164-174 | after a rebuild the key set is the entries' keys and the index lists the exact positions of every nonempty hash |
| EscrowWatcher.Watcher.Compact | src/escrow.rs:177-184 | compaction keeps exactly the live entries, in order, with both indexes exact |
| EscrowWatcher.Watcher.SlashRedBlock | src/escrow.rs:230-247 | slashing through the index equals scanning every entry for the red hash |
| EscrowWatcher.Watcher.OnBlock | src/escrow.rs:209-296 | handling a block through the indexes is one step of the rules and returns the rules' claim; both indexes stay exact |
| EscrowWatcher.Watcher.OnResponse | src/escrow.rs:344-416 | an answer settles the pending outpoint's entry as the rules say and clears the pending claim |
| EscrowWatcher.Watcher.OnInference | src/escrow.rs:482-512 | tracking an inference escrow is one step of the rules; both indexes stay exact |
| EscrowWatcher.Watch | src/escrow.rs:209-512 | from any loaded entries and over any events, state and returned claims are those of the rules, both indexes stay exact, and outpoints loaded without duplicates never become duplicate |
| EscrowProvenance.Provenance | src/escrow.rs:209-512 | every entry of a run was loaded, paid by an inference event with that id, score and amount, or is an output to the miner's script, version 0, of a scanned coinbase, with its amount, index, block hash and score |
| EscrowProvenance.OutputsAreTracked | src/escrow.rs:249-291 | after a scanned block every such output is tracked, and a new one stands as it is in the block, not yet claimed or refused |
| EscrowProvenance.PaymentIsTracked | src/escrow.rs:482-512 | a paid inference escrow is tracked as paid, and a payment of nothing changes nothing |
| EscrowProvenance.BlockEffect | src/escrow.rs:209-247 | a scored block drops done entries every 2000th time, slashes exactly the live rewards of its red blocks, and leaves all else |
| EscrowProvenance.IsHashIff | src/escrow.rs:425-428 | a claim can be built for 64 hexadecimal characters of either case and nothing else |
| EscrowLifecycle.KeepLiveContents | src/escrow.rs:177-184 | an entry survives compaction if and only if it is neither claimed nor slashed |
| EscrowLifecycle.StepEvolves | src/escrow.rs:209-512 | in every step only compaction drops entries, only done ones; all others keep their identity, their done flags and their retry count grows |
| EscrowLifecycle.RunKeeps | src/escrow.rs:209-512 | over every run outpoints loaded without duplicates stay distinct and, whether or not they are, entries loaded with ten orphan retries only if slashed stay so |
| EscrowLifecycle.OneInFlight | src/escrow.rs:298-350 | between any two returned claims of a run lies an answer |
| EscrowLifecycle.ClaimIsSound | src/escrow.rs:298-440 | every returned claim spends a live entry, mature by 36 010 blocks and past its cooldown, pays its amount less the fee and more than zero, and spends a reward only when no inference entry is eligible |
| EscrowLifecycle.SubmissionsBounded | src/escrow.rs:209-512 | over every run an outpoint is submitted at most ten times per tracking plus once per sequence-lock rejection |
| EscrowQueue.ClaimIs | src/escrow.rs:209-341 | the claim a scanned block returns is fixed by the entries before it: the first eligible inference entry, else the first eligible reward outside its red blocks, if that one can be built and none is pending |
| EscrowQueue.ClaimIff | src/escrow.rs:209-341 | if all that is loaded, scanned and paid exceeds the fee under a 64-digit transaction id, then after every run a scanned block with none pending returns a claim if and only if some entry is eligible and not red |
| EscrowQueue.StuckForever | src/escrow.rs:209-512 | once the first live entry of its kind is ripe and cannot be built, it stays first over every run of blocks from then on that do not slash it, and no entry of its kind is claimed; behind an inference entry no entry at all |
| EscrowQueue.StarvedIff | src/escrow.rs:209-512 | over all such runs a kind is never claimed if and only if its first live entry is worth no more than the fee or has a malformed transaction id; for rewards, while no inference entry is eligible |
| EscrowQueue.UnbuildableLeads | src/escrow.rs:482-512 | tracking an inference escrow that cannot be built leads there if and only if no other inference entry is live |
| Radix.CanonicalUnique | src/ipfs.rs:43-69 | digits without a leading zero are determined by the number they stand for |
| Radix.FoldIs | inference/src/ai_payload.rs:199-213 | the digit vector after any input has canonical digits and the value of the input |
| Radix.RoundTripIff | src/ipfs.rs:43-69 | changing base and back gives the list back if and only if it has a nonzero digit, in any two bases |
| Base58.AbsorbByte | inference/src/ai_payload.rs:201-211 | the encoder's carry loops multiply the digit vector by 256 and add the byte; the carry stays below 256 |
| Base58.Encode | inference/src/ai_payload.rs:199-219 | the encoder computes the base change of the bytes, written in the alphabet |
| Base58.AbsorbDigit | src/ipfs.rs:51-61 | the decoder's carry loops multiply the byte vector by 58 and add the digit; the carry stays below 58 |
| Base58.BuildTable | src/ipfs.rs:44-48 | the filled table maps exactly the alphabet to its digits |
| Base58.Decode | src/ipfs.rs:43-69 | the decoder refuses exactly the texts with a foreign character and computes the base change of all others |
| Base58.DecodeAfterEncode | src/ipfs.rs:43-69 | decoding an encoding returns the bytes if and only if one of them is not zero |
| Base58.ZerosComeBackLonger | src/ipfs.rs:63-68 | zero bytes come back two bytes longer |
| Base58.EncodeAfterDecode | src/ipfs.rs:43-69 | every text with a character other than `1` is the encoding of what it decodes to |
| Base58.CidV0ToMultihash | src/ipfs.rs:32-41 | the parser returns the decoded bytes when they are a sha2-256 multihash and refuses all else |
| Base58.IsMultihashIff | src/ipfs.rs:34-40 | a sha2-256 multihash is the two header bytes and 32 bytes of digest |
| Base58.CidIffEncoding | src/ipfs.rs:32-69 | a text is accepted as a multihash if and only if it is that multihash's encoding |
| JumpAlgebra.JumpIsPoly | src/xoshiro256starstar.rs:39-60 | a jump over any words is one polynomial in the step, the product of the words' factors |
| JumpAlgebra.PolysCommute | src/xoshiro256starstar.rs:39-60 | polynomials in the step commute |
| Xoshiro.NextAdds | src/xoshiro256starstar.rs:23-37 | the transition distributes over exclusive or, for any words with the shift and rotation laws |
| Xoshiro.MachineLaws | src/xoshiro256starstar.rs:12-14 | 64-bit words have those laws |
| Xoshiro.NextIsBijective | src/xoshiro256starstar.rs:23-37 | the transition has a two-sided inverse |
| Xoshiro.Generator.NextU64 | src/xoshiro256starstar.rs:23-37 | drawing returns the scrambled second word and makes the transition in place |
| Xoshiro.ShiftsInNumbers | src/xoshiro256starstar.rs:12-14 | shifting multiplies the low part by the power and rotating brings the high part to the bottom |
| Xoshiro.OutputInNumbers | src/xoshiro256starstar.rs:23-24 | the number drawn is five times the word, rotated by seven places, times nine, modulo 2^64 |
| Xoshiro.Generator.LongJump | src/xoshiro256starstar.rs:39-60 | the nested loops, overwriting the state after each word, apply p0(T)(1+p1(T))(1+p2(T))(1+p3(T)) |
| Xoshiro.LongJumpIsLinear | src/xoshiro256starstar.rs:39-60 | the jump distributes over exclusive or and is one polynomial in the transition |
| Xoshiro.LongJumpCommutes | src/xoshiro256starstar.rs:39-76 | jumping commutes with drawing any number of values |
| Opoi.ReadPadHex | inference/src/lib.rs:74-80 | the sixteen printed digits of a nonce read back as the nonce |
| Opoi.HexDigitIs | inference/src/lib.rs:64-80 | sixteen characters of either case are digits, each for its place; lower case is printed |
| Opoi.EncodeHexSpells | inference/src/lib.rs:113-118 | the tag spells the output bytes in order, two lower-case digits a byte |
| Opoi.NothingEarlier | inference/src/lib.rs:43-54 | no marker begins before the printed one: not in the prefix, not across the join, not in the nonce |
| Opoi.ParseAfterPrint | inference/src/lib.rs:43-131 | a printed tag is parsed back with its nonce and the output bytes it spells, after any prefix of two bytes or more without a marker from offset 19 on, whatever follows |
| Opoi.TagsDecide | inference/src/lib.rs:43-131 | the tag parsed is the tag of a model exactly when that model outputs the same eight bytes for the nonce |
| Opoi.ParseIffRoom | inference/src/lib.rs:43-131 | with nothing after it the tag is found exactly when two bytes or more come before |
| Opoi.ParsedIsThere | inference/src/lib.rs:43-84 | whatever is parsed stands in the payload as a slash, the nonce's digits, the first marker and the tag |
| Target.Cmp | src/target.rs:87-95 | comparing words from the top is comparing the numbers |
| Target.Shl | src/target.rs:97-117 | the shift loop fills the shifted words and neither addition overflows |
| Target.ShlMultiplies | src/target.rs:97-117 | the shifted words are the number times the power of two, modulo 2^256, for every shift |
| Target.FromCompact | src/target.rs:4-25 | a compact target decodes to its mantissa times 256 to the size less three modulo 2^256, or to zero when its sign is set |
| TargetBytes.LeBytesSpell | src/target.rs:46-62 | the words read from 32 bytes are the number the bytes spell |
| TargetBytes.ToLeBytes | src/target.rs:56-62 | every target has the byte form the loop writes: it reads back as the target and spells its value |
| TargetBytes.LeBytesUnique | src/target.rs:46-62 | no other bytes read back as the same target |
| TargetBytes.OrdersAgree | src/target.rs:87-95 | for any two targets the order of their written bytes, of their words and of their numbers is the same |
| Downgrade.TiersAreDistinct | src/models.rs:185-216 | at one score no two models share a tier |
| Downgrade.TiersShiftUp | src/models.rs:185-216 | at the activation every model that keeps a tier moves up by one, and only the top one loses its tier |
| Downgrade.TiersFollowSize | src/models.rs:185-216 | at every score the tiers are numbered from zero without a gap, four or five of them, and larger models have higher ones |
| Downgrade.Pick | src/pom_gpu.rs:447-451 | the fallback is served, smaller and not banned, and no such model is larger; there is none only when none qualifies |
| Downgrade.Installer.DowngradeAfterOom | src/pom_gpu.rs:443-466 | the scan over served models reassigns the device to that fallback |
| Downgrade.Installer.EnsureInstalled | src/pom_gpu.rs:396-564 | one call is one step of the search: bans, reassignment and installation together |
| Downgrade.EndsAtRightTier | src/pom_gpu.rs:482-564 | after one call per tier the search is final, on the largest candidate that does not fail to load |
| Downgrade.MinesIffSomethingLoads | src/pom_gpu.rs:482-564 | with indexes and counts in order the device ends up mining if and only if some candidate loads |
| Downgrade.AttemptsDescend | src/pom_gpu.rs:443-564 | the tiers of a device's load attempts never rise, and a later one is lower if and only if the earlier load failed |
| Downgrade.NeverRetried | src/pom_gpu.rs:424-564 | over all calls of all devices, whatever scores, served lists and load outcomes change in between, a model that failed to load on a device is never loaded on it again |
| Downgrade.BanIff | src/pom_gpu.rs:443-564 | the bans after a call are those before it and the device and model the call tried and could not load |
| Downgrade.OthersUntouched | src/pom_gpu.rs:396-564 | no calls for other devices, however many, change a device's assignment, bans or miner |
| TensorPrefix.HitExactlyOnce | keryx-vulkan/src/pom_walk.rs:377-393 | every canonical chunk has exactly one prefix hit |
| RawGather.GatherRaw | src/pom_gpu.rs:174-191 | a load is refused exactly when the chunk count is a multiple of 2^32; otherwise the 32-bit prefix ends in the count modulo 2^32, and below 2^32 chunks is the canonical prefix over the tensors' own bytes |
| RawGather.GuardIffNoWrap | src/pom_gpu.rs:553-560 | the count guard passes exactly when no 32-bit sum wrapped |
| RawGather.GatherReadsCanonical | src/pom_gpu.rs:174-191 | behind the guard a prefix lookup reads the canonical chunk |
| Shards.UploadStreamed | keryx-vulkan/src/lib.rs:488-566 | an upload is refused exactly beyond the largest allocation; otherwise the staging loop leaves exactly the asked-for chunks in the buffer, for any size |
| Shards.SplitShards | keryx-vulkan/src/pom_walk.rs:164-222 | the split is refused exactly for no chunks, a size that is no power of two, a count outside 2 to 2^31 - 1 without 64-bit integers, or a first shard beyond the largest allocation; otherwise every shard holds its chunks |
| Shards.ShardReadsCanonical | keryx-vulkan/src/pom_walk.rs:205-222 | shard `i >> shift`, slot `i & mask` holds canonical chunk `i` |
| SharedWalk.BuildTable | src/llm_engine.rs:207-230 | every kept tensor keeps its device address or lies whole in the supplement at its recorded offset |
| SharedWalk.PrefixTable | keryx-vulkan/src/pom_walk.rs:377-397 | the table is refused exactly when it is empty, has more than 2^32 - 1 entries, or has a null address or an empty tensor; otherwise the prefix holds the running sums |
| SharedWalk.SharedReadsCanonical | src/llm_engine.rs:207-247 | a lookup through the shared table reads the canonical chunk from device memory, and the table counts the canonical chunks |

## Left out

- blake3 and the 64-bit mixer are parameters, so nothing is said about their values; Schnorr signatures, sighash bytes and the escrow script are absent, and a claim transaction is its outpoint, sequence and amount.
- Files are byte or node sequences and reads cannot fail; offsets in the checkpoint file count 32-byte nodes, and file offsets, chunk counts and block scores are unbounded naturals, except where a width matters (reciprocals, targets, the 32-bit gather prefix, saturating nonces).
- Sorting tensors by name: tensors are given in canonical order.
- WeightIndex.OpenExistingTree: the two refusals for a wrong file size, one of them for legacy full trees, are one outcome, and a file of the right size from another model is accepted, as in the program.
- Watch.RunInv: sequentially consistent steps, one sender thread, and no poisoning of locks.
- EscrowRules.FirstEligible: block scores near 2^64 would wrap the maturity sum in a release build; the model does not.
- EscrowWatcher.Watcher.OnBlock: a coinbase is taken to have fewer than 2^32 outputs, which no gRPC message can exceed, so the stored 32-bit index is the position; the debounced state file and logging are absent.
- Xoshiro.Generator.NextU64: words are lists of 64 bits, so shifts, rotations and exclusive or act on bits; the two products of the scrambler go through numbers.
- Downgrade.Installer.EnsureInstalled: the score and the served list stay fixed except in Downgrade.NeverRetried, whether an index can be built is one answer per model, and calls of different worker threads do not interleave.
- Shards.SplitShards: of the driver's refusals only the allocation limit is modelled; a failing allocation, mapping or copy is not.
- SharedWalk.SharedReadsCanonical: the engine's buffers are taken to hold the file's bytes of each tensor; device copies are modelled by their effect.
- GPU kernels and shaders, network clients, inference engines, prompts, command line, fee rotation and mobile bridges: nothing of them is modelled.
- The Metal and Vulkan copies of the tier search, and the Barrett reduction for devices without 64-bit integers: the same logic again, or a bound that reads off its body.
