# PoET: proofs of sequential work, rounds and workers

This project models the core of a PoET server and proves that it does what it is for.

A *round* collects challenges until its execution starts. The Merkle root of its members is the *statement* of the
work. The *prover* grows a Merkle tree one leaf at a time, where the label of every leaf hashes the nodes that the tree
has parked at that moment, so that leaves can only be made one after the other. When the round ends, the root picks a
few leaves at random, and the proof opens them. The *verifier* recomputes the choice, climbs from the opened leaves to
the root and checks every label against what must have been parked. The work survives crashes: lower layers of the tree
are append-only files, the leaf count is saved every now and then, and the tree is rebuilt from both. Around that, the
*registration* batches submissions into a database, and the *worker* executes one round at a time, publishes its proof
and starts again after restarts.

The main results, each for all inputs or all runs:

- **The prover realises the DAG.** The incremental tree carries exactly the labels of the recursive definition in
  section 4 of "Simple Proofs of Sequential Work" (IACR ePrint 2018/183), which exist and are unique
  (`Labels.WorkRefinesDag`, `Labels.DagExists`, `Labels.DagIsUnique`).
- **Completeness.** Every honest proof is accepted (`ProofOfWork.Completeness`), and the prover methods return the honest
  proof exactly if the work finishes and the challenge exists (`SequentialWork.Work`, `SequentialWork.GenerateProof`,
  `ProofGeneration.GenerateProofRecovery`).
- **Binding.** Two accepted proofs for one root show a hash collision or are equal exactly if they have equally many
  proof nodes (`Verifier.Binding`), so that a verifier who counts them accepts the honest proof only
  (`Verifier.OnlyTheHonestProof`). That their climbs end at the same height is *not* enough
  (`BindingLimit.EqualHeightsDoNotBind`).
- **Crash equivalence.** After any sequence of leaves, checkpoints, crashes and recoveries, the tree is the one of an
  uninterrupted run (`CrashRuns.CrashEquivalence`), and so is the proof (`CrashRuns.ProofSurvivesCrashes`). A checkpoint
  that covers the layers kept in files can always be recovered from (`CrashRuns.EnoughLeavesAreRecoverable`); an earlier
  one may not (`CrashRuns.UnrecoverableRun`).
- **Publish consistency.** Over any run with cancellations, crashes, restarts, removals that stop half-way and state
  files that are written late, all proofs published for an epoch are equal, honest and accepted (`Worker.PublishConsistency`,
  `Worker.PublishedProofsAreAccepted`).
- **No acknowledged submission is lost**, and the statement of a round is the root of the members saved with its proof
  (`Registration.NoAcknowledgedSubmissionIsLost`, `Registration.StatementMatchesMembers`,
  `EndToEnd.ProofCoversSavedMembers`). Two promises hold under an exact condition only. Success reported for a challenge
  that is still pending is kept exactly if a batch with it is written (`Registration.RepeatedSubmissions`,
  `Registration.RepeatedSubmissionIsLost`). And a proof is published for the root the worker was sent exactly if
  the work did not start with a blank state file, as a restart can leave it in a directory that had none
  (`EndToEnd.PublishedForRoot`, `EndToEnd.FedRunsUseRoots`, `EndToEnd.WrongStatementRun`).
- **Codecs and arithmetic.** Round trips of the SCALE codecs, which never decode anything beyond their limits and have
  room for every honest proof (`Verifier.HonestProofFits`), the schedule of rounds, the size of the layer caches, what
  exactly a challenge draws (`FiatShamir.IndicesAreDrawn`), the reused buffers and the leading-zero test.

Code that updates state step by step is modelled by classes and loops (`Tree`, `LabelMaker`, `Datadir`, `Round`,
`Encoder`, `Decoder`, `PowHasher`, and the methods of `SequentialWork`, `Recovery`, `Verifier`, `FiatShamir`). Protocols
over several threads or processes are step relations with atomic steps at the lock boundaries (`CrashRuns`, `Worker`,
`Registration`); their steps use the same functions that the classes are proved against.

Clocks, cancellation, write failures, what a crash leaves behind of a file and the order in which directories are
visited are parameters or free choices of a step. Hash functions are arbitrary functions. The file `README.md` of the
repository packs node identifiers as strings of bits; the code hashes the leaf number in eight big-endian bytes, and so
does the model.

| file | contents |
|---|---|
| `MerkleTree.dfy`, `IncrementalTree.dfy` | the incremental tree, its parked nodes, layers and root |
| `Labels.dfy` | leaf labels, the DAG, the label buffer |
| `FiatShamir.dfy` | the challenge |
| `PartialProof.dfy`, `ProofOfWork.dfy`, `Verifier.dfy`, `BindingLimit.dfy` | proofs: what they hold, completeness, binding |
| `SequentialWork.dfy`, `Recovery.dfy`, `ProofGeneration.dfy`, `CrashRuns.dfy`, `CacheSize.dfy` | the prover, recovery, crashes, memory |
| `RoundStore.dfy`, `RegistrationRound.dfy`, `Membership.dfy`, `Registration.dfy`, `Schedule.dfy` | registration |
| `Worker.dfy`, `EndToEnd.dfy` | the worker, and both services together |
| `Scale.dfy`, `ScaleCodec.dfy`, `Pow.dfy` | codecs, proof of work of a submission |

## Model

| member | source | states |
|---|---|---|
| `MerkleTree.ParkedAt` | prover/prover.go:225-235 | layer h parks its last node exactly if the width n >> h is odd, and the parked list reaches exactly the layers the tree has |
| `MerkleTree.ParkedSplit` | prover/prover.go:438-470 | above any layer k, the parked nodes of a tree are those of the small tree whose leaves are layer k |
| `MerkleTree.LayerOfLayer` | prover/prover.go:275-282 | layer j of the tree over layer k is layer k + j of the full tree |
| `MerkleTree.CarryIsAddLeaf` | prover/prover.go:324-328 | carrying a leaf through the parked nodes gives the parked nodes of the longer leaf sequence |
| `MerkleTree.CompleteNodesSurvive` | prover/prover.go:391-397 | every complete node of an earlier tree is, at the same place, a node of any later padded tree |
| `MerkleTree.RootFromParkedIsRoot` | prover/prover.go:391 | the root computed from parked nodes alone is the root of the padded tree over all leaves |
| `IncrementalTree.AddLeafKeeps` | prover/prover.go:144-157 | adding a leaf keeps parked nodes and every cached layer those of the tree over the leaves |
| `IncrementalTree.Tree.AddLeaf` | prover/prover.go:324-328 | the carry loop in place keeps the object the tree of its leaves, with one more |
| `IncrementalTree.Tree.GetRoot` | prover/prover.go:391 | the loop over the parked nodes returns the padded root, none for no leaves |
| `Labels.WorkRefinesDag` | prover/prover.go:322-330 | every leaf and inner node has its DAG label, and the nodes parked for leaf n are, bottom-up, the labels of the left siblings on its path |
| `Labels.DagExists` | README.md:156-163 | the label equations of the DAG have a solution |
| `Labels.DagIsUnique` | README.md:156-163 | they have only one |
| `Labels.ParkedAreLeftSiblings` | README.md:179-185 | the parked nodes over any layer of the DAG are the left siblings on the path of its next node |
| `Labels.LabelMaker.Make` | shared/shared.go:51-73 | whatever the buffer holds from earlier calls, the eight bytes whose big-endian value is the leaf number, and the siblings, are hashed, cut to the buffer, whose size is the largest any call needed |
| `Labels.LabelMaker.MakeLabel` | shared/shared.go:51-73 | empty slices among the parked nodes leave no trace in the label |
| `Labels.NodesAreNotCut` | shared/shared.go:54-70 | siblings of 32 bytes, or none, are never cut |
| `Labels.LeafNumber` | shared/shared.go:63 | the eight bytes of a 64-bit leaf number have its big-endian value, and no other eight bytes do |
| `Labels.LabelOfLeaf` | shared/shared.go:63-71 | a label hashes the eight bytes whose big-endian value is the leaf number, followed by the siblings |
| `FiatShamir.IndicesAreExact` | shared/shared.go:22-44 | a challenge has exactly min(k, n) distinct indices, all below n |
| `FiatShamir.IndicesAreDrawn` | shared/shared.go:31-43 | the indices are exactly those that the least number of turns draws which makes k: turn i draws, modulo the leaf count, the big-endian value of the first eight bytes of the hash of the root followed by i in four big-endian bytes |
| `FiatShamir.NoIndicesMeansDivergence` | shared/shared.go:34-42 | a challenge is missing only where no number of turns would ever be enough, as the 32-bit counter repeats |
| `FiatShamir.ComputeIndices` | shared/shared.go:22-44 | the loop computes the challenge just described for all arguments, without dividing by zero |
| `PartialProof.ClimbThrough` | verifier/verifier.go:30-36 | climbing through the revealed part of a subtree uses exactly its leaves and proof nodes and arrives at its value and snapshots |
| `PartialProof.ProofLeadsToRoot` | verifier/verifier.go:30-36 | a proof read off the padded tree leads to its root, and to the left siblings of every opened leaf |
| `PartialProof.ClimbCountsLeaves` | verifier/verifier.go:43-49 | every leaf is either reached, and has a snapshot, or left over; an unbounded climb uses all proof nodes |
| `PartialProof.NeededCountIsExact` | prover/prover.go:396-397 | the number of proof nodes is a function of the opened indices and the height alone |
| `PartialProof.NeededAtMost` | shared/shared.go:75-81 | a proof needs at most one node per opened leaf and layer |
| `PartialProof.ClimbBinds` | verifier/verifier.go:30-36 | climbs of one shape that arrive at one node used the same nodes, unless two pairs they hash collide |
| `ProofOfWork.ReadNodeIsPadNode` | prover/prover.go:392-397 | whichever layers are cached besides the leaves, the nodes of the padded tree are read |
| `ProofOfWork.SnapshotIsParked` | verifier/verifier.go:51-57 | the left siblings of leaf j in the final padded tree are what was parked when leaf j was added |
| `ProofOfWork.ProofOpensAscending` | verifier/verifier.go:27-28 | a proof opens its leaves in ascending order, as the verifier lists them |
| `ProofOfWork.Completeness` | prover/prover.go:388-407 | the verifier accepts the honest proof of any statement, n leaves and 1 <= k <= n |
| `Verifier.FindWrongLabel` | verifier/verifier.go:51-57 | the first opened leaf that is not the label of its index and snapshot is reported, none exactly if all are |
| `Verifier.Validate` | verifier/verifier.go:18-60 | for leaves and nodes of any length, the verdict names the first check that fails, and is acceptance exactly if all hold; verification never ends exactly if the number of leaves is right and the challenge does not exist |
| `Verifier.AcceptedMeans` | verifier/verifier.go:21-57 | a proof is accepted exactly if it opens, in ascending order, the k leaves its root challenges: the climb ends at the root, and every leaf is the hash of its index in eight big-endian bytes and of the left siblings met on its way |
| `Verifier.AcceptsNodes` | verifier/verifier.go:18-60 | for proofs made of 32-byte nodes, acceptance is that of the honest-proof theory |
| `Verifier.HonestProofFits` | shared/shared.go:75-81 | an honest proof of at most 150 leaves out of at most 2^36 is within the limits of its encoding |
| `Verifier.Binding` | verifier/verifier.go:27-57 | two accepted proofs for one root and leaf count show a collision of the Merkle hash, or are equal exactly if they have equally many proof nodes |
| `Verifier.OnlyTheHonestProof` | verifier/verifier.go:15-60 | unless a collision is shown, an accepted proof for an honest root is the honest one exactly if it has the number of nodes that its challenge calls for |
| `BindingLimit.EqualHeightsDoNotBind` | verifier/verifier.go:27-57 | two accepted proofs for one root, leaf count and height that open different leaves, without any collision |
| `SequentialWork.Work` | prover/prover.go:299-357 | the loop stops in the first turn that is canceled, or past the deadline with k leaves; it fails exactly if a due count on the way, or the last one, cannot be persisted; the counts persisted are those before that, and the tree holds the leaves of the DAG up to the count reached |
| `SequentialWork.OutcomeMeans` | prover/prover.go:332-355 | the work finishes in the first turn past the deadline with at least k leaves, is interrupted in the first canceled turn, whichever comes first, and fails exactly if a count due by then cannot be persisted |
| `SequentialWork.CheckpointSpacing` | prover/prover.go:351-355 | a checkpoint is due every 2^24 leaves, and at no other count |
| `SequentialWork.GenerateProof` | prover/prover.go:359-408 | the honest proof is returned, and accepted, exactly if the work finishes and its root has a challenge; otherwise the outcome of the work |
| `ProofGeneration.GenerateProof` | prover/prover.go:48-76 | a new tree is refused exactly if layer files exist; otherwise the result is that of work from the first leaf |
| `ProofGeneration.GenerateProofRecovery` | prover/prover.go:78-107 | from files that hold any part of the DAG, recovery fails exactly if layer 0 is missing, a file is too short or the topmost keeps no node; otherwise the result is that of work that was never interrupted |
| `Recovery.RebuiltIsTree` | prover/prover.go:238-282 | files of the lower layers give back the parked nodes and all layers of the tree they come from |
| `Recovery.Datadir.CutFiles` | prover/prover.go:180-236 | in whatever order files are visited, either a too short one is found, or all are cut and the parked nodes and top layer are those of the cut files |
| `Recovery.InLayerOrder` | prover/prover.go:238-246 | the parked nodes of the files in layer order, none where the layer has an even width |
| `Recovery.BuildSmallTree` | prover/prover.go:440-470 | the small tree has the nodes of the top file as leaves, and all its layers cached |
| `Recovery.LiftLayers` | prover/prover.go:275-282 | layer j of the small tree becomes layer top + j, its layer 0 is skipped |
| `Recovery.MakeRecoveryProofTree` | prover/prover.go:161-297 | recovery succeeds exactly if layer 0 exists, no file is too short and the top one keeps a node; then files are cut to n >> layer and the tree is rebuilt from them; a failure leaves every file as it was or cut |
| `CrashRuns.NextKeeps` | service/round.go:163-219 | every leaf, flush, save, crash and recovery keeps: files hold DAG labels, at least checkpoint >> h of them, and the tree at work is that of its leaf count; the checkpoint does not decrease |
| `CrashRuns.CrashLeavesAnyPart` | service/round.go:171-174 | a crash can leave any part of what was written since the last flush, in every layer independently |
| `CrashRuns.CrashEquivalence` | prover/prover.go:161-357 | however often a run crashed, its parked nodes and still cached layers are those of an uninterrupted run |
| `CrashRuns.SavedCountNeverDecreases` | service/round.go:163-178 | the saved leaf count never decreases in any run |
| `CrashRuns.RecoveryNeverFindsShortFile` | prover/prover.go:198-223 | in every reachable state the layer files are contiguous from 0, hold DAG labels, and none is too short for the checkpoint |
| `CrashRuns.RecoveryIsPossible` | prover/prover.go:161-297 | in every reachable state with layer files, recovery succeeds exactly if the checkpoint shifted by the topmost layer is positive |
| `CrashRuns.EnoughLeavesAreRecoverable` | prover/prover.go:144-150 | with d layers in files, a checkpoint of at least 2^(d - 1) leaves can be recovered from in every run |
| `CrashRuns.UnrecoverableRun` | prover/prover.go:198-223 | a run with a positive checkpoint that cannot be recovered, because a layer file appeared after it |
| `CrashRuns.ProofSurvivesCrashes` | service/round.go:180-209 | the proof at the end of any run with crashes is the honest one, and accepted |
| `CacheSize.AllLayersHold` | prover/prover.go:144-150 | all layers together hold 2n - popcount(n) nodes |
| `CacheSize.MemoryIsBounded` | service/service.go:79-83 | up to the estimated leaf count, the layers in memory hold at most 2^(MemoryLayers + 1) - 1 nodes |
| `CacheSize.LayersInMemory` | service/service.go:79-83 | of a tree of the estimated size, exactly MemoryLayers layers and the root above them are kept in memory, or all if it has fewer |
| `RoundStore.FlushKeeps` | registration/round.go:211-235 | a flush, failed or not, keeps the invariant and all entries, leaves nothing pending and gives every waiter exactly one result |
| `RoundStore.ApplyKeeps` | registration/round.go:146-235 | every submission, timer, flush and close keeps the invariant, all entries and the capacity |
| `RoundStore.RoundStaysWithinCapacity` | registration/round.go:146-235 | over every run, database and pending submissions stay within maxMembers, the batch is exactly what is pending and disjoint from the database, members >= entries, with equality unless a write failed; members and pending together are the entries at the start and everything accepted since, written or not |
| `RoundStore.SubmitAnswers` | registration/round.go:150-174 | which answer a submission gets: refused exactly if the round is full, already submitted or conflicting exactly if its key is pending or written with the same or another challenge, accepted exactly if there is room and the key is new |
| `RoundStore.FlushTellsTheTruth` | registration/round.go:222-229 | whoever waits for a flush is told success exactly if the submission is in the database |
| `RoundStore.BatchIsFlushedWhenFull` | registration/round.go:183-184 | over every run, the batch stays below its maximal size |
| `RoundStore.ClosedRoundIsFrozen` | registration/round.go:276-285 | once closed, which flushes what is pending, a round accepts nothing and its database never changes |
| `RoundStore.WaiterGuarantee` | registration/round.go:176-235 | nobody gets two results, and who got success finds the submission in every later state, also when stopped timers fire |
| `RoundStore.ScheduledTimerDelivers` | registration/round.go:183-209 | everyone who waits has an armed timer, and when it fires gets exactly one result |
| `RoundStore.FlushesExplain` | registration/round.go:211-235 | what an operation adds to the database is exactly the batch it flushes, if the write succeeds; whatever was pending is in that batch, or stays pending |
| `RegistrationRound.Round.constructor` | registration/round.go:102-139 | a reopened round counts the entries of its database as members |
| `RegistrationRound.Round.NotifyAll` | registration/round.go:226-229 | everyone waiting gets the result, on a channel that has room, so that no send blocks |
| `RegistrationRound.Round.FlushPendingSubmitsLocked` | registration/round.go:211-235 | flushing in place refines the flush of the store |
| `RegistrationRound.Round.FlushPendingSubmits` | registration/round.go:197-201 | the forced flush refines it and keeps the invariant |
| `RegistrationRound.Round.TimedFlushPendingSubmits` | registration/round.go:203-209 | a timer flushes only while a flush is scheduled, so that one stopped too late does no harm; the invariant is kept |
| `RegistrationRound.Round.Submit` | registration/round.go:146-195 | a submission refines that of the store with the checks in order: capacity, pending duplicate, database error, duplicate, accepted |
| `RegistrationRound.Round.Close` | registration/round.go:276-285 | closing flushes first and keeps the invariant |
| `RegistrationRound.Round.CalcMembershipRoot` | registration/round.go:246-264 | the root is that of all entries in key order, including what was pending |
| `Membership.IterationIsComplete` | registration/round.go:255-261 | iterating yields exactly the entries of the database |
| `Membership.IterationIsOrdered` | registration/round.go:255-261 | an earlier key is a proper prefix of a later one, or has the smaller byte where they first differ |
| `Membership.CollectMembers` | registration/round.go:266-274 | the members read are the values in key order |
| `Membership.ComputeRoot` | registration/round.go:248-263 | the tree grown over the iterator has the root of the members in that order |
| `Registration.NextKeeps` | registration/registration.go:248-383 | every step keeps: what was sent or saved is what the database of that epoch says; a database holds exactly what was written to it; entries are only added, and only to the open round; the epoch does not decrease |
| `Registration.CloseRoundKeeps` | registration/registration.go:252-280 | a close at or after the start of the round strictly increases the open epoch, and opens the first round that has not started by then, however late the close is |
| `Registration.OpenRoundHasNotStarted` | registration/registration.go:271-278 | in every run, right after a start or a close, the open round is the least epoch that starts after that time |
| `Registration.RecoversRoundInProgress` | registration/registration.go:305-310 | what a start sends once more is the root of the round in whose epoch the start takes place |
| `Registration.NoAcknowledgedSubmissionIsLost` | registration/registration.go:468-502 | a submission whose own channel delivered success is among the entries of every root sent for its epoch |
| `Registration.RepeatedSubmissions` | registration/registration.go:484-502 | success reported for an already submitted challenge: if it was in the database it is in every root sent for the epoch; if it was pending, exactly if its batch was written, or it was written later |
| `Registration.RepeatedSubmissionIsLost` | registration/registration.go:496 | a run with a failed write in which a challenge reported as success is missing from the root |
| `Registration.StatementMatchesMembers` | registration/registration.go:330-375 | the root sent at closing, any root sent again after a restart, and the root of the members saved with the proof coincide |
| `Registration.ClosedRoundsAreFrozen` | registration/registration.go:252-280 | the database of a closed round never changes |
| `Schedule.RoundConfig.OpenRoundIsNextToStart` | server/config.go:162-181 | the open round is the least epoch that starts strictly after the given time |
| `Schedule.RoundConfig.OpenRoundIsMonotone` | server/config.go:175-181 | later times never open an earlier round |
| `Schedule.RoundConfig.RoundsAreEvenlySpaced` | server/config.go:162-168 | the first round starts after the phase shift, every other one an epoch after the one before, and an execution ends the cycle gap before the next start |
| `Schedule.RoundConfig.ClosingMovesOn` | registration/registration.go:271-278 | once a round has started, a later one is open |
| `Schedule.RoundConfig.ExecutionsDoNotOverlap` | server/config.go:162-172 | executions of different epochs do not overlap exactly if the cycle gap is not negative |
| `Worker.NextKeeps` | service/service.go:103-293 | every step of the worker, with removals that stop half-way and teardowns that write late, keeps: a proof that may be published is accepted, its epoch is over and it is the only one for it; a round in execution has true files, or can never be resumed |
| `Worker.NothingIsSkippedEarly` | service/service.go:146-165 | a round that waits in the channel is not displaced, and not dropped before its end unless the process ends |
| `Worker.SavedProofsGetPublished` | service/service.go:254-262 | a proof that is saved can be published, right away or at the next start |
| `Worker.ExecutionsGetResumed` | service/service.go:113-118 | a round in execution is resumed at the next start if its topmost layer file keeps a node |
| `Worker.PublishConsistency` | service/service.go:127-156 | all proofs published for an epoch are equal, over any run |
| `Worker.PublishedProofsAreAccepted` | service/round.go:149-152 | every published proof is the honest one for the statement and leaf count published with it, and the verifier accepts it |
| `EndToEnd.PublishedForRoot` | service/round.go:106-112 | in every run, a published proof is for the root the worker was sent for its epoch exactly if the work on that epoch did not start with a blank state file |
| `EndToEnd.FedRunsUseRoots` | service/round.go:79-118 | in every run, all work on an epoch, all its pending state files and all it publishes are on the root it was sent, exactly if the epoch is never taken up with a blank state file |
| `EndToEnd.RootOrBlank` | service/round.go:106-112 | whatever happens, nothing is published but for the root or the empty statement |
| `EndToEnd.WrongStatementRun` | service/service.go:246-266 | a run in which a failed removal leaves a blank state file, and a proof for the empty statement is published |
| `EndToEnd.ProofCoversSavedMembers` | registration/registration.go:352-375 | every published proof is honest, and is work on the root of exactly the members saved with it exactly if that work did not start with a blank state file; those members include every acknowledged challenge |
| `Scale.CompactRoundTrip` | shared/cert_scale.go:48-69 | every 64-bit number survives the compact encoding, whatever follows |
| `Scale.CompactSize` | shared/cert_scale.go:48-57 | numbers below 2^6, 2^14 and 2^30 take one, two and four bytes with their mode in the low bits, others a length byte and as many bytes as they need |
| `Scale.DecodedFits` | shared/cert_scale.go:59-69 | whatever the bytes, a decoded number has 64 bits |
| `Scale.SlicesRoundTrip` | shared/shared.go:150-170 | lists of byte slices within limits survive, and exactly their bytes are read |
| `Scale.ProofRoundTrip` | shared/shared.go:83-148 | a proof within limits survives, whatever follows |
| `Scale.DecodedProofFits` | shared/shared.go:122-170 | whatever the bytes, a decoded proof has a root of at most 32 bytes, at most 150 leaves and 5400 nodes, and each of at most 32 bytes |
| `Scale.ProofVector` | shared/shared.go:83-120 | the bytes of a small proof: root, leaves, nodes, in this order |
| `Scale.CertRoundTrip` | shared/cert.go:63-88 | a certificate survives, its expiration cut to whole seconds, also before 1970 |
| `Scale.DecodedCertFits` | shared/cert_scale.go:28-46 | whatever the bytes, a decoded key has at most 32 bytes, and an expiration is a 64-bit time |
| `Scale.CertVector` | shared/cert_scale.go:10-26 | the bytes of two small certificates, with and without expiration |
| `Scale.ConversionsWrapAround` | shared/cert.go:75-82 | seconds before 1970 are converted as in two's complement |
| `ScaleCodec.Encoder.EncodeProof` | shared/shared.go:83-120 | exactly the proofs within limits are encoded, and the bytes written are reported |
| `ScaleCodec.Decoder.DecodeSliceOfByteSliceWithLimit` | shared/shared.go:150-170 | the loop reads a list within both limits or fails as specified; the total is what was read, zero on failure |
| `ScaleCodec.Decoder.DecodeProof` | shared/shared.go:122-148 | the decoder reads a proof within limits, and exactly as many bytes as it reports |
| `ScaleCodec.Encoder.EncodeCert` | shared/cert_scale.go:10-26 | exactly the certificates with a short enough key are encoded |
| `ScaleCodec.Decoder.DecodeCert` | shared/cert_scale.go:28-46 | the decoder reads a certificate with a key of at most 32 bytes and a 64-bit time, and exactly as many bytes as it reports |
| `ScaleCodec.EncodeThenDecode` | shared/shared.go:83-148 | the decoder gives back what the encoder wrote, and both report the same byte count |
| `ScaleCodec.EncodeThenDecodeCert` | shared/cert.go:63-88 | the same for certificates |
| `Pow.CheckLeadingZeroBits` | shared/pow.go:57-75 | true exactly if the big-endian value is below 2^(8 len - expected), false for too few bytes |
| `Pow.PowHasher.Hash` | shared/pow.go:48-55 | whatever was hashed before, exactly the inputs are hashed, followed by the eight bytes whose value, read backwards, is the nonce |
| `Pow.PowHasher.constructor` | shared/pow.go:39-46 | the inputs are concatenated in order |
| `Pow.FindSubmitPowNonce` | shared/pow.go:11-32 | a nonce returned is the least that passes, and was reached before the cancellation; when canceled, none of the nonces reached passes |

## Left out

- The merkle-tree library, leveldb and the SCALE library are not part of the repository. Their parts used here are
  modelled by what the callers rely on: appended layers, ordered iteration, batches written as a whole, and a climb that
  ends when the proof nodes run out. What the tree library does with leaves of zero length is not modelled. Compact
  integers that are not in their shortest form are read like any other, up to 64 bits.
- Recovery.MakeRecoveryProofTree: a top file that keeps no node is reported as a failure, because what the tree library does with an empty small tree is not visible. File names and missing layers in between are not modelled; that files are contiguous is proved of every run.
- CrashRuns.CrashEquivalence: a crash leaves whole nodes in a layer file, not a part of one; write errors of the layer caches are not modelled.
- Labels.LabelMaker.Make: leaf numbers do not overflow 64 bits.
- SequentialWork.Work: deadline and cancellation are a list of what each turn finds, after which the deadline has passed; the security parameter is below 256 as in the code, and the checkpoint rate is such that none is due before a proof is possible.
- Verifier.Binding: equality for proofs of equal height only does not hold, as `BindingLimit.EqualHeightsDoNotBind` shows; equal numbers of proof nodes are what it takes.
- Verifier.Validate: a loop that draws no new index is represented by the verdict Diverged, after one cycle of the counter.
- Registration.NextKeeps: a `closeRound` that fails after the database is closed leaves the closed round in place; only closes that succeed are modelled.
- Worker.NextKeeps: the clock advances with every step, and the round configuration is fixed; a start that fails leaves no layer file.
- EndToEnd.ProofCoversSavedMembers: that the statement is the membership root does not hold of work that starts with a blank state file, as `EndToEnd.WrongStatementRun` shows; it holds of all other.
- Schedule.RoundConfig.OpenRoundIsNextToStart: times and durations do not overflow 64 bits.
- CacheSize.MemoryIsBounded: runs without a crash; a recovered tree keeps all layers above its files in memory.
- ScaleCodec.Encoder.EncodeProof: lists of 2^32 or more entries, whose length the code would truncate, are refused like all that are too long.
- Pow.CheckLeadingZeroBits: expected bit counts of 2^63 or more, which turn negative in the code.
- Certificate signatures, trusted keys and key hints, deadlines of submissions, and the rotation of the proof-of-work challenge.
- The hash functions themselves (SHA-256, BLAKE3, RIPEMD), gRPC and REST, configuration files, metrics, logging and migrations.
