# Verification of Cannon, the batcher, proxyd batching and the indexer traversal

A Dafny model of the parts of this repository whose correctness rests on invariants rather than on
single function bodies, with proofs. `dafny verify dfyconfig.toml` checks all of it. Go's and Solidity's
fixed-width integers are integers with the wrap-around written out. Hashing is a parameter of every
statement: nothing is assumed about it, collision resistance included.

**Cannon.** `Merkle` states the memory commitment without caches: the flat 32-bit memory and the plain
recursive hash over it. `Page` and `Memory` are the cached implementation, updated in place, and return
what the naive tree says. `Proofs` are Merkle proofs before and after a write. `MemoryRange` loads and
drains byte ranges. `Exec`, `Cpu`, `Witness` and `Replay` specify one instruction of the Go VM and one
`step` of the MIPS contract; the main theorem, `Replay.ContractReplaysStep`, says that the contract
replays the VM from the recorded witness alone. `Vm` is the VM itself, updated in place. `Trace` carries
the replay over whole runs to the base case of the dispute game, and `VmRun` over runs of the VM object with
its own witnesses. `PreimageOracle` is the contract that
serves pre-images, and the whole way of a witness onto the chain. `Preimage` is the request protocol,
over a stream and over the VM's system calls.

**Batcher.** `Channels` and `Manager` specify the builder, the channel and the manager as a state machine
over the manager's public calls, and prove what every run keeps. `Batcher` has the three objects as
classes whose methods refine that specification. `LateReceipt` is a run in which a late
receipt returns a block a second time. The channel out with its compressor is a function from
blocks to bytes of which only is required that bytes once produced stay produced.

**proxyd.** `Proxyd` and `ProxydServer` are the batch pipeline from `handleBatchRPC` to the backends'
replies. "Good" answers are an arbitrary relation between method, parameters and response body; backends
are required to answer each request once, in any order, as JSON-RPC 2.0 section 6 has it. `Consensus` is
the consensus poller. `Sentinel` is the running minimum with 0 for unset that both the batcher's timeout
and proxyd's lowest tags use.

**Indexer.** `Indexer` is the header traversal, the range query under it, and the ETL loop.

Where code and documents differ, the model follows the code:

- `srav` does not mask its shift amount to five bits (cannon/mipsevm/mips.go:431-432; MIPS32 Architecture
  For Programmers Volume II does): `ExecFacts.SravMatchesArchitecture` says exactly when that matters.
- specs/cannon-fault-proof-vm.md:165-167 limits every read and write to four bytes and to a result of at most
  four; lines 171 and 178 have the output streams and the hint files return the requested count. The code does
  the latter (cannon/mipsevm/mips.go:104-134): `Preimage.CountAboveFour` says exactly when a result exceeds four.
- The pre-image type 0 is illegal in specs/fault-proof.md; the VM still serves the zero key, as an empty
  stream until another key is read, and records no pre-image for it: `Vm.PreimageForTruth`,
  `Vm.WitnessReplays`.
- `ChannelConfig.Check` accepts a maximum frame size of 23, at which frames carry no data and the output
  loops do not end (op-batcher/batcher/channel_builder.go:78-88): `Channels.BareFramesNeverEnd`. The model asks
  for more than 23.
- A deadline whose 64-bit sum is zero reads as no deadline and also forgets the ones before it
  (op-batcher/batcher/channel_builder.go:277-282): `Manager.TxDataBeforeDeadlines` holds exactly without one.
- A receipt for a channel that timed out and already left the queue puts that channel's blocks back a
  second time: `Manager.TxConfirmedHoldings` says exactly when, `LateReceipt.LateReceiptCopiesBlock` is a run.
- The lowest tags of a consensus group depend on Go's map iteration order when some but not all of them are
  zero (proxyd/consensus_poller.go:368-383): `Sentinel.OrderMatters`. Safe and finalized tags are affected
  while some candidate has none yet, as when its fetch failed and is reported as zero (`Consensus.MixedSafeTags`),
  and the published finalized block can come out above the safe one (`Consensus.MixedTags`;
  `Consensus.UncrossedLowest` and `Consensus.CrossedLowest` say exactly when). Latest tags are affected only while
  the highest one is at most the maximum block lag, because a zero one lags otherwise
  (`Consensus.ConsensusPoller.GetConsensusCandidates`).
- `memReader.Read` panics, or runs past an absent page, for ranges that wrap around into their own start
  page (cannon/mipsevm/memory.go:303-317): `MemoryRange.MemReader.Read`.
- `SetMemoryRange` leaves hashes above the pages it rewrites (cannon/mipsevm/memory.go:278):
  `MemoryRange.SetMemoryRange` says exactly when the memory is still valid and when its hashes are still true,
  `MemoryRange.StaleRoot` is a run after which the cached root, which memory.go:125-127 hands out, is stale.

## Model

| member | source | states |
|---|---|---|
| Page.CachedPage.constructor | cannon/mipsevm/page.go:65-71 | a new page is all zero and has no valid intermediate node |
| Page.CachedPage.Invalidate | cannon/mipsevm/page.go:73-84 | clears exactly the intermediate nodes above the leaf of the address |
| Page.CachedPage.InvalidateFull | cannon/mipsevm/page.go:86-88 | clears every intermediate node |
| Page.CachedPage.MerkleRoot | cannon/mipsevm/page.go:90-113 | returns the root of the naive tree over the page's data; afterwards every intermediate node is valid |
| Page.CachedPage.MerkleizeSubtree | cannon/mipsevm/page.go:115-126 | returns the naive tree's node, intermediate or leaf, at any index of the page |
| Page.CachedPage.PutWord | cannon/mipsevm/memory.go:205 | writing a word whose branch is invalidated keeps every valid node truthful and changes four bytes |
| Page.CachedPage.PutBytes | cannon/mipsevm/memory.go:279 | reading into a fully invalidated page changes exactly those bytes |
| Merkle.NodeFrame | cannon/mipsevm/memory.go:102-133 | a node of the naive tree depends only on the leaves it covers |
| Merkle.PageNodeFrame | cannon/mipsevm/page.go:73-84 | a write inside one leaf changes no page node that does not cover the leaf |
| Merkle.PageNodeIsNode | cannon/mipsevm/memory.go:107-112 | below page level, the index the code hands to the page names the node of the page's own tree that is the node of the whole tree |
| Merkle.SplitAtPage | cannon/mipsevm/memory.go:103-111 | a generalized index at or below page level splits into a page and a node of that page |
| Merkle.NoPageSubtree | cannon/mipsevm/memory.go:120-124 | a subtree above no existing page hashes to the precomputed zero hash of its height |
| Merkle.AbsentPageSubtree | cannon/mipsevm/memory.go:113-115 | so does a subtree of an absent page |
| Merkle.OtherPageFrame | cannon/mipsevm/memory.go:76-100 | changing one page leaves every node that is not above it unchanged |
| Memory.UncachedRootMeansClearPath | cannon/mipsevm/memory.go:85-88 | the invariant behind the early return: a page whose own root is not cached has no cached hash above it |
| Memory.ClearPathKeepsValid | cannon/mipsevm/memory.go:90-99 | clearing the path above a page keeps the other cached hashes truthful |
| Memory.PageWriteKeepsValid | cannon/mipsevm/memory.go:189-206 | with the path above it clear, a page can take any contents and every cached hash stays truthful |
| Memory.AllocKeepsValid | cannon/mipsevm/memory.go:221-231 | adding an all-zero page and its path keeps every cached hash truthful |
| Memory.Memory.constructor | cannon/mipsevm/memory.go:55-61 | a new memory is empty and valid |
| Memory.Memory.PageLookup | cannon/mipsevm/memory.go:168-187 | finds exactly the pages in the table; the two-slot cache always agrees with it |
| Memory.Memory.Invalidate | cannon/mipsevm/memory.go:76-100 | afterwards no cached hash covers the address, although the walk stops early at a page whose root was not cached |
| Memory.Memory.AllocPage | cannon/mipsevm/memory.go:221-231 | adds one all-zero page, clears the path above it, and changes no byte of the flat memory |
| Memory.Memory.SetMemory | cannon/mipsevm/memory.go:189-206 | the flat memory afterwards differs in exactly the four bytes of the word, and every cached hash is truthful |
| Memory.Memory.GetMemory | cannon/mipsevm/memory.go:208-219 | returns the big-endian word of the flat memory; an absent page reads as zero |
| Memory.Memory.MerkleizeSubtree | cannon/mipsevm/memory.go:102-133 | returns the naive tree's node for every generalized index, from whatever caches there are, and leaves the roots of all pages below it cached |
| Memory.Memory.MerkleRoot | cannon/mipsevm/memory.go:164-166 | returns the root of the naive tree over the flat memory |
| Memory.Memory.MerkleProof | cannon/mipsevm/memory.go:135-142 | returns the true leaf of the address and its 27 siblings, deepest first |
| Memory.Memory.TraverseBranch | cannon/mipsevm/memory.go:144-162 | returns the part of that proof below the given node of the address's branch |
| Proofs.BranchStep | cannon/mipsevm/memory.go:144-162 | bit 31 - depth of the address selects the child on the branch |
| Proofs.BranchProofStep | cannon/mipsevm/memory.go:152-161 | one level up the proof gains the sibling that the bit selects |
| Proofs.ProofFoldsToRoot | cannon/mipsevm/memory.go:135-166 | for every address the proof starts with the true leaf and folds by the address bits to the root |
| Proofs.LeafHoldsWord | packages/contracts-bedrock/src/cannon/MIPS.sol:568-571 | the word read out of the proved leaf is the word in memory |
| Proofs.PatchedProof | packages/contracts-bedrock/src/cannon/MIPS.sol:581-621 | patching the written word into the leaf and refolding the same siblings gives exactly the root after the write, and the new memory's own proof is the old one with that leaf |
| MemoryRange.SetMemoryRange | cannon/mipsevm/memory.go:270-288 | whatever chunks the reader chooses, the bytes land at consecutive addresses (modulo 2^32, later bytes winning) and nothing else changes; the memory is valid afterwards if and only if every hash that was cached above a touched page was also above a newly allocated one, in particular at load time; its cached hashes are true if and only if the rewrite left the nodes of those still cached above touched pages as they were |
| MemoryRange.RangeByteWithin | cannon/mipsevm/memory.go:270-288 | data of at most 2^32 bytes is found byte for byte where it was written |
| MemoryRange.RewrittenValid | cannon/mipsevm/memory.go:278 | after pages were rewritten, the memory's invariant holds exactly if no cached hash is left above them, that is if each was also above a page allocated by the rewrite |
| MemoryRange.RewrittenTrue | cannon/mipsevm/memory.go:278 | the cached hashes are all true exactly if every one still cached above a rewritten page is of a node the rewrite did not change |
| MemoryRange.StaleRoot | cannon/mipsevm/memory.go:270-288 | a run that leaves a stale root: load a byte, ask for the root, load another byte at the same address; the cached root is the true one only if the bytes are equal |
| MemoryRange.Reader.Read | cannon/mipsevm/memory.go:279 | any reader: arbitrary chunk sizes including empty ones, the end with the last bytes or after them, or a failure |
| MemoryRange.MemReader.Read | cannon/mipsevm/memory.go:296-321 | delivers the next bytes of the range, inside one page, and advances; panics exactly if the range wraps back into its own start page and that page exists; on an absent page it then delivers zeros past the page |
| MemoryRange.WrapsBackMeans | cannon/mipsevm/memory.go:303-311 | when a range wraps back: it passes 2^32 and ends at or after the start of its first page |
| MemoryRange.SpanAdvances | cannon/mipsevm/memory.go:303-319 | a range that does not wrap back is never made to by reading part of it, and each read makes progress |
| MemoryRange.ReadAll | cannon/mipsevm/memory.go:296-325 | draining with any buffer sizes returns exactly the bytes of the range and ends |
| MemoryRange.LoadThenDrain | cannon/mipsevm/memory.go:270-325 | loading and then draining the same range returns exactly the loaded bytes, for any chunking on both sides |
| Exec.CountLeadingOnes | cannon/mipsevm/mips.go:501-509 | the shift loop of clo and clz computes the number of leading ones |
| ExecFacts.LeadingOnesMeaning | cannon/mipsevm/mips.go:501-509 | a word has that many leading ones and then, unless it is all ones, a zero |
| ExecFacts.SignExtension | cannon/mipsevm/mips.go:560-569 | SE reads an idx-bit pattern as a two's complement number |
| ExecFacts.ArithmeticShift | cannon/mipsevm/mips.go:424-426 | sra, and srav below 32, shift the signed value arithmetically, rounding down |
| ExecFacts.SravMatchesArchitecture | cannon/mipsevm/mips.go:431-432 | srav, which does not mask rs, agrees with the architecture if and only if rs < 32 or rt < 2^(rs mod 32) |
| ExecFacts.SravUnmaskedExample | cannon/mipsevm/mips.go:431-432 | a concrete shift that the VM gets wrong: -1 by 32 |
| ExecFacts.MultExact | cannon/mipsevm/mips.go:227-230 | HI:LO after mult is the exact signed 64-bit product |
| ExecFacts.DivisionTowardZero | cannon/mipsevm/mips.go:235-237 | quotient and remainder recompose the dividend, the remainder is smaller than the divisor and has the dividend's sign |
| ExecFacts.DivisionOverflow | cannon/mipsevm/mips.go:235-237 | the quotient in LO is exact except for -2^31 / -1 |
| Unaligned.StoreLeft | cannon/mipsevm/mips.go:539-542 | swl writes the bytes of rt from the address to the end of its word and no other byte |
| Unaligned.StoreRight | cannon/mipsevm/mips.go:545-548 | swr writes the last bytes of rt from the start of the word to the address and no other byte |
| Unaligned.StorePairWritesWord | cannon/mipsevm/mips.go:539-548 | swl at a then swr at a+3 store exactly the four bytes of rt at a..a+3 |
| Unaligned.LoadPairReadsWord | cannon/mipsevm/mips.go:517-530 | lwl at a then lwr at a+3 read exactly the four bytes at a..a+3, whatever rt held |
| Unaligned.UnalignedRoundTrip | cannon/mipsevm/mips.go:517-548 | a word stored unaligned is read back, at every address that does not cross 2^32 |
| Witness.EncodeWitness | cannon/mipsevm/state.go:49-71 | the witness is the 226-byte packing of memory root, scalars and registers |
| Witness.WitnessRoundTrip | cannon/mipsevm/state.go:49-71 | decoding the witness as the contract does gives back the root and every field |
| Witness.HashCarriesStatus | cannon/mipsevm/state.go:82-109 | the first byte of a state's hash is its VM status, the other bytes are those of the hash |
| Witness.StepInputRoundTrip | cannon/mipsevm/witness.go:36-56 | reading the encoded call by the Solidity ABI's rules for dynamic types gives back state, proof and local context |
| Replay.InsertAgrees | packages/contracts-bedrock/src/cannon/MIPS.sol:212-225 | the contract's shifts and masks insert the pre-image bytes where the VM copies them |
| Replay.KeyBytesAgree | packages/contracts-bedrock/src/cannon/MIPS.sol:256-264 | the contract's shifts and masks extract the key bytes that the VM copies |
| Replay.EffectsAgree | packages/contracts-bedrock/src/cannon/MIPS.sol:146-306 | system calls have the same effect on both sides if the contract's oracle holds the part being read |
| Replay.RecordedReadMem | packages/contracts-bedrock/src/cannon/MIPS.sol:527-621 | a recorded proof passes the contract's check, yields the word in memory, and writes back the true new root |
| Replay.ContractReplaysStep | packages/contracts-bedrock/src/cannon/MIPS.sol:629-795 | given the packed pre-state, the two recorded proofs and the pre-image part, the contract reaches the VM's packed post-state, and reverts exactly where the VM panics |
| Replay.ContractWithoutPart | packages/contracts-bedrock/src/cannon/MIPS.sol:200-208 | a step that reads a pre-image part the oracle does not hold reverts |
| Replay.StatelessStep | cannon/mipsevm/instrumented.go:56-82 | states that agree on witness, recorded proofs and recorded part step to the same witness, whatever else they hold |
| Vm.State.Advance | cannon/mipsevm/mips.go:176-179 | the delay slot moves: pc to nextPC, nextPC four further |
| Vm.InstrumentedState.constructor | cannon/mipsevm/instrumented.go:47-54 | a new VM has cached no pre-image under the zero key |
| Vm.InstrumentedState.ReadPreimage | cannon/mipsevm/mips.go:19-33 | returns the next bytes of the key's pre-image with its length prefix, cached by key, and panics exactly past the end |
| Vm.InstrumentedState.TrackMemAccess | cannon/mipsevm/mips.go:35-43 | buffers the proof of the accessed word; the panic on a different access is unreachable from every caller |
| Vm.InstrumentedState.HandleBranch | cannon/mipsevm/mips.go:182-214 | the registers move as the branch rules say; panics exactly in a delay slot |
| Vm.InstrumentedState.HandleJump | cannon/mipsevm/mips.go:252-263 | likewise for jumps, with the link register |
| Vm.InstrumentedState.HandleHiLo | cannon/mipsevm/mips.go:216-250 | likewise for HI, LO, multiplication and division; panics exactly on division by zero |
| Vm.InstrumentedState.HandleRd | cannon/mipsevm/mips.go:265-275 | likewise for a register write-back |
| Vm.InstrumentedState.SysPreimageRead | cannon/mipsevm/mips.go:83-103 | copies the next bytes of the pre-image into one word of memory, advances the offset, reports the count |
| Vm.InstrumentedState.SysPreimageWrite | cannon/mipsevm/mips.go:135-152 | shifts the written bytes into the key and restarts the offset |
| Vm.InstrumentedState.SysPlain | cannon/mipsevm/mips.go:56-174 | every other system call |
| Vm.InstrumentedState.HandleSyscall | cannon/mipsevm/mips.go:45-180 | the effect of any system call on registers, memory, proof and pre-image cache |
| Vm.InstrumentedState.StepMemory | cannon/mipsevm/mips.go:323-393 | loads and stores: registers, memory and the recorded proof |
| Vm.InstrumentedState.StepRegisters | cannon/mipsevm/mips.go:285-394 | every other instruction |
| Vm.InstrumentedState.MipsStep | cannon/mipsevm/mips.go:277-394 | one instruction takes registers and flat memory to the specified ones, records the proof of the one word it touches, and fails exactly where specified |
| Vm.InstrumentedState.Step | cannon/mipsevm/instrumented.go:56-82 | one step, and a witness that holds the packed pre-state, both proofs and the pre-image that was read; the pre-image cache stays true |
| Vm.WitnessReplays | cannon/mipsevm/instrumented.go:56-82 | the recorded witness alone replays the step on chain, except exactly for reads under the zero key or at offset 2^32-1, which it leaves out |
| Vm.PreimageForTruth | cannon/mipsevm/mips.go:19-33 | every key reads its own pre-image, except exactly the zero key before any other key was read |
| Trace.ChainReplaysRun | packages/contracts-bedrock/src/cannon/MIPS.sol:629-795 | over any number of steps the contract, given the recorded proofs, follows the VM |
| Trace.FalseClaimRefuted | packages/contracts-bedrock/src/cannon/MIPS.sol:629-795 | a claimed trace with a true start and a false end has a step, from a true state, whose claimed result the contract refutes |
| Trace.ExitedIsFinal | cannon/mipsevm/mips.go:278-280 | an exited state never changes, on or off chain |
| VmRun.Run | cannon/mipsevm/instrumented.go:56-82 | any number of steps of the VM object, with every witness: it stands where the specified run stands, and stops exactly where that panics |
| VmRun.WitnessReplaysStep | packages/contracts-bedrock/src/cannon/MIPS.sol:629-795 | at any step of a run the contract, loaded with that step's witness and nothing else, takes the step, or reverts exactly if the witness leaves its pre-image out |
| VmRun.RunsAsGoRun | cannon/mipsevm/mips.go:19-33 | a run that does not read the zero key before any other key reads every key's own pre-image |
| VmRun.ChainReplaysVmRun | packages/contracts-bedrock/src/cannon/MIPS.sol:629-795 | with the proofs of the object's own witnesses the contract goes through the object's whole run |
| PreimageOracle.Contract.SetPart | packages/contracts-bedrock/src/cannon/PreimageOracle.sol:66-71 | a stored part is served with the number of its bytes that exist; other parts stay |
| PreimageOracle.Contract.LoadKeccak256PreimagePart | packages/contracts-bedrock/src/cannon/PreimageOracle.sol:75-108 | serves the length-prefixed pre-image's bytes at the offset under its keccak key; reverts exactly past the end |
| PreimageOracle.Contract.LoadLocalData | packages/contracts-bedrock/src/cannon/PreimageOracle.sol:35-72 | serves the length-prefixed local data at the offset under the key localized to caller and context; reverts exactly past the end or above 32 bytes |
| PreimageOracle.Contract.Call | packages/contracts-bedrock/src/cannon/PreimageOracle.sol:35-108 | the two calls, dispatched and decoded from call data |
| PreimageOracle.LocalInput | cannon/mipsevm/witness.go:67-83 | the encoded call for local data decodes to key, context, padded word, size and offset |
| PreimageOracle.KeccakInput | cannon/mipsevm/witness.go:84-92 | the encoded call for a keccak pre-image decodes to offset and data |
| PreimageOracle.Provide | cannon/mipsevm/witness.go:62-98 | submitting the encoded call makes the oracle hold exactly the part that the replayed step reads |
| PreimageOracle.ReplayOnChain | cannon/mipsevm/witness.go:36-98 | end to end: from a step's witness through the oracle call to the contract's step, which reaches the VM's packed post-state |
| Preimage.Stream.NextPreimageRequest | op-preimage/oracle.go:51-74 | answers the next 32-byte key with length prefix and value; end of stream, partial key and failed lookup as errors |
| Preimage.Stream.Receive | op-preimage/oracle.go:28-42 | reads a length and exactly that many bytes, or panics |
| Preimage.Get | op-preimage/oracle.go:22-43 | over a server, Get returns the server's value and leaves the stream drained |
| Preimage.WriteCall | cannon/mipsevm/mips.go:135-152 | a write takes bytes up to the end of the word, shifts them into the key, restarts the offset and reports how many |
| Preimage.ReadCall | cannon/mipsevm/mips.go:83-103 | a read advances the offset by what it delivers and delivers nothing only if nothing is asked for or left |
| Preimage.ReadMemory | cannon/mipsevm/mips.go:83-103 | the delivered bytes are the next ones, at the buffer's address, and no other byte of memory changes |
| Preimage.KeyAndOffsetFrame | cannon/mipsevm/mips.go:277-394 | no other instruction touches pre-image key or offset |
| Preimage.OffsetBounded | cannon/mipsevm/mips.go:83-103 | the offset never exceeds 8 plus the payload length |
| Preimage.WrittenKey | cannon/mipsevm/mips.go:135-152 | whatever the alignment and chunks, the key is the last 32 bytes written and reading restarts at zero |
| Preimage.DeliveredBytes | cannon/mipsevm/mips.go:83-103 | a blocking read delivers exactly the next bytes, with no gap and no repeat, and past the end what is left |
| Preimage.SamePayload | op-preimage/oracle.go:22-74 | linked calls that write a key and read length and payload yield the payload that `Get` yields through a server of the same oracle |
| Preimage.RunLinks | cannon/mipsevm/mips.go:83-152 | in any run of the VM key and offset carry over from each pre-image call to the next, whatever the program does between them |
| Preimage.SamePayloadInRun | op-preimage/oracle.go:22-74 | in any run of the VM a program that writes a key and reads the length and then that many bytes finds the oracle's value in its buffers, for any alignment, chunks, and calls before, between and after |
| Preimage.CountAboveFour | cannon/mipsevm/mips.go:79-156 | successful reads and writes report more than four bytes exactly on the output streams and hint files when more are asked for |
| Sentinel.EarliestMeaning | op-batcher/batcher/channel_builder.go:277-282 | a running minimum that uses 0 for unset is the minimum of the values since the last zero one |
| Channels.TimeoutMeaning | op-batcher/batcher/channel_builder.go:277-282 | the timeout is the earliest deadline registered since the last zero one, and of all deadlines if none is zero |
| Channels.OpenMeansBeforeDeadlines | op-batcher/batcher/channel_builder.go:237-296 | a channel left open by the registration of an L1 block is before all those deadlines, the new duration deadline included |
| Channels.TimeoutIsEarliest | op-batcher/batcher/channel_builder.go:231-296 | while no deadline sum is zero, the timeout is the earliest of the sequencing-window deadlines of the channel's blocks, the channel-timeout deadlines of its confirmed frames and the duration deadlines of the L1 heads it has seen, and 0 only without any |
| Channels.FrameProgress | op-node/rollup/derive/channel_out.go:337-355 | a frame takes bytes off what is ready if and only if the size limit exceeds the 23 bytes of overhead |
| Channels.BareFramesNeverEnd | op-batcher/batcher/channel_builder.go:68-98 | the configuration check accepts a limit of 23, and then neither output loop ends: after any number of frames none was the last and as much is ready as before |
| Channels.OutputFrameKeeps | op-batcher/batcher/channel_builder.go:376-402 | creating a frame keeps the partition of frames and carries on the channel's byte stream |
| Channels.OutputFramesKeeps | op-batcher/batcher/channel_builder.go:334-371 | afterwards the channel is closed exactly if full, and a closed channel's frames carry all its bytes |
| Channels.NextTxDataKeeps | op-batcher/batcher/channel.go:130-140 | taking a frame keeps every frame ever created in exactly one of queue, pending and confirmed |
| Channels.TxFailedKeeps | op-batcher/batcher/channel.go:47-60 | so does a failed transaction |
| Channels.ConfirmKeeps | op-batcher/batcher/channel.go:66-78 | so does a confirmed one |
| Channels.AddBlockKeeps | op-batcher/batcher/channel_builder.go:204-229 | adding a block keeps the frames, the timeout and the byte stream consistent |
| Channels.ProcessBlocksKeeps | op-batcher/batcher/channel_manager.go:228-274 | the channel gains exactly the blocks counted as added; after an error other than a full channel it is still open |
| Channels.FillKeeps | op-batcher/batcher/channel_manager.go:170-188 | one filling of a channel: blocks, frames, timeout; left open, the L1 head is before every deadline since the last zero one |
| Channels.FillAccounts | op-batcher/batcher/channel_manager.go:170-188 | filling registers exactly the deadlines of what it adds; left open, the head is before all of the channel's deadlines if and only if none of their 64-bit sums is zero |
| Channels.DoneMeansComplete | op-batcher/batcher/channel.go:66-120 | a channel reported fully submitted is closed and drained, every frame it ever created is confirmed, together they carry all its bytes in order, and any two were included less than the channel timeout apart |
| Manager.TxDataKeeps | op-batcher/batcher/channel_manager.go:147-191 | TxData keeps the index of transactions, the queue's shape and every channel valid |
| Manager.TxConfirmedKeeps | op-batcher/batcher/channel_manager.go:95-110 | so does a confirmation |
| Manager.TxFailedKeeps | op-batcher/batcher/channel_manager.go:76-89 | so does a failure |
| Manager.StepKeeps | op-batcher/batcher/channel_manager.go:76-325 | so does every call: a transaction is indexed exactly while pending in its channel, queued or not; the current channel is queued and every other queued one is full; submitted channels are complete on L1 |
| Manager.TxDataFromEarliest | op-batcher/batcher/channel_manager.go:147-170 | the returned frame is genuine, pending and indexed, and from the earliest queued channel that has one |
| Manager.TxDataBeforeDeadlines | op-batcher/batcher/channel_manager.go:183-190 | if the channel is still open after the L1 head is registered, the head is before the sequencing-window end of every block in the channel, the channel timeout of every confirmed frame and the maximum duration since every head seen, exactly if none of these 64-bit sums is zero |
| Manager.TimeoutOfChannel | op-batcher/batcher/channel_builder.go:277-282 | in every reachable state every channel's timeout is the earliest of those deadlines |
| Manager.TxDataHoldings | op-batcher/batcher/channel_manager.go:147-274 | TxData loses no block; only an error other than a full channel leaves copies, exactly the blocks added before it |
| Manager.TxConfirmedHoldings | op-batcher/batcher/channel_manager.go:95-129 | a confirmation loses no block; only a receipt for a channel that already left the queue makes copies, exactly that channel's blocks |
| Manager.TxFailedHoldings | op-batcher/batcher/channel_manager.go:76-89 | a failure moves no block |
| Manager.AddL2BlockHoldings | op-batcher/batcher/channel_manager.go:313-325 | an accepted block is held once more, a rejected one not |
| Manager.StepHoldings | op-batcher/batcher/channel_manager.go:76-325 | every call: blocks held afterwards are those before, the accepted one, and the named copies |
| Manager.Run | op-batcher/batcher/channel_manager.go:76-325 | over every run since Clear: the invariants hold, and the blocks waiting, in queued channels and in fully submitted ones are exactly those accepted plus the copies, so none is lost and each is held once if no copies were made |
| LateReceipt.LateReceiptCopiesBlock | op-batcher/batcher/channel_manager.go:95-129 | a run with an accepted configuration in which one block was accepted and, after a receipt for a channel that had timed out, waits twice |
| Batcher.ChannelBuilder.constructor | op-batcher/batcher/channel_builder.go:138-156 | a new builder |
| Batcher.ChannelBuilder.AddBlock | op-batcher/batcher/channel_builder.go:204-229 | refines the specified addition, its three outcomes included |
| Batcher.ChannelBuilder.UpdateTimeout | op-batcher/batcher/channel_builder.go:277-282 | refines the specified timeout update |
| Batcher.ChannelBuilder.RegisterL1Block | op-batcher/batcher/channel_builder.go:237-296 | refines the specified registration |
| Batcher.ChannelBuilder.FramePublished | op-batcher/batcher/channel_builder.go:245-248 | refines the specified deadline of a published frame |
| Batcher.ChannelBuilder.OutputFrame | op-batcher/batcher/channel_builder.go:376-402 | refines the specified frame; the counters agree with the frames created |
| Batcher.ChannelBuilder.OutputFrames | op-batcher/batcher/channel_builder.go:334-339 | refines the specified output; never closes a channel twice |
| Batcher.ChannelBuilder.OutputReadyFrames | op-batcher/batcher/channel_builder.go:346-357 | the loop over ready frames ends and creates the specified ones |
| Batcher.ChannelBuilder.CloseAndOutputAllFrames | op-batcher/batcher/channel_builder.go:359-371 | the loop after closing ends and creates the specified frames |
| Batcher.ChannelBuilder.NextFrame | op-batcher/batcher/channel_builder.go:436-444 | pops the first frame |
| Batcher.ChannelBuilder.PushFrame | op-batcher/batcher/channel_builder.go:448-453 | appends a frame of the same channel |
| Batcher.PendingChannel.constructor | op-batcher/batcher/channel.go:30-43 | a new channel |
| Batcher.PendingChannel.TxFailed | op-batcher/batcher/channel.go:47-60 | refines the specified failure |
| Batcher.PendingChannel.TxConfirmed | op-batcher/batcher/channel.go:66-94 | refines the specified confirmation and its verdict |
| Batcher.PendingChannel.IsTimedOut | op-batcher/batcher/channel.go:99-115 | the min/max loop decides whether two inclusion blocks are at least the timeout apart |
| Batcher.PendingChannel.NextTxData | op-batcher/batcher/channel.go:130-140 | refines the specified next transaction |
| Batcher.ChannelManager.constructor | op-batcher/batcher/channel_manager.go:50-58 | a new manager is empty |
| Batcher.ChannelManager.Clear | op-batcher/batcher/channel_manager.go:62-72 | the cleared manager is empty, receipts to come forgotten |
| Batcher.ChannelManager.AddL2Block | op-batcher/batcher/channel_manager.go:313-325 | refines the specified addition; rejects a block that does not extend the tip |
| Batcher.ChannelManager.TxFailed | op-batcher/batcher/channel_manager.go:76-89 | refines the specified failure |
| Batcher.ChannelManager.TxConfirmed | op-batcher/batcher/channel_manager.go:95-110 | refines the specified confirmation |
| Batcher.ChannelManager.Settle | op-batcher/batcher/channel_manager.go:99-106 | what the verdict on a channel does to list and queue |
| Batcher.ChannelManager.RemovePendingChannel | op-batcher/batcher/channel_manager.go:113-129 | removes the channel from current and queue, if it is there |
| Batcher.ChannelManager.NextTxData | op-batcher/batcher/channel_manager.go:132-140 | takes and indexes a frame |
| Batcher.ChannelManager.EnsureChannelWithSpace | op-batcher/batcher/channel_manager.go:196-214 | the current channel if open, else a new one at the end of the queue |
| Batcher.ChannelManager.ProcessBlocks | op-batcher/batcher/channel_manager.go:228-274 | refines the specified processing; after an error the list stays as it is |
| Batcher.ChannelManager.TxData | op-batcher/batcher/channel_manager.go:147-191 | refines the specified call |
| Proxyd.SortBatchRPCResponse | proxyd/backend.go:668-683 | a permutation of the answers sorted by their requests' positions |
| Proxyd.SortedIsAligned | proxyd/backend.go:668-683 | if the answers' ids are a permutation of the distinct request ids, sorting puts answer i at request i |
| Proxyd.DoForward | proxyd/backend.go:599-631 | answers are aligned with the requests; fails exactly on a failed reply or a wrong number of answers |
| Proxyd.BackendForward | proxyd/backend.go:333-407 | the outcome of the retries, and aligned answers on success |
| Proxyd.ReinsertWeaves | proxyd/backend.go:794-802 | inserting overriding answers one by one at their requests' positions restores request order |
| Proxyd.WeaveAligned | proxyd/backend.go:794-802 | the restored list answers every request as it was sent or overridden |
| Proxyd.Forward | proxyd/backend.go:691-809 | answers are aligned with the original requests through rewriting, backend choice and reinsertion; fails exactly if the backends do |
| ProxydServer.Server.SplitBatch | proxyd/server.go:418-490 | every element is answered directly or in exactly one group under its own index, and no group has two equal ids |
| ProxydServer.Server.FromCache | proxyd/server.go:497-505 | cache hits fill their own slots; the rest is left over |
| ProxydServer.Server.PutRPC | proxyd/methods.go:67-92 | the cache keeps holding only good answers |
| ProxydServer.Server.ServeElems | proxyd/server.go:520-557 | one mini-batch fills exactly its slots, with answers, or with errors under the right ids if it failed; aborts exactly if its own outcome is one of the two that are not passed on |
| ProxydServer.Server.ServeBatch | proxyd/server.go:494-558 | a group is filled completely, in mini-batches of at most the limit and without equal ids |
| ProxydServer.Server.HandleBatchRPC | proxyd/server.go:406-569 | every slot is filled and right, through duplicate ids, cache, mini-batches, rewriting and sorting; a forwarding error is in a slot only if the mini-batch that carried the request failed; aborted only at the deadline or by the mini-batch sent last, and never otherwise |
| ProxydServer.Server.RightId | proxyd/server.go:423-436 | a right slot has its request's id, and none exactly if the request does not parse or validate |
| Sentinel.OrderMatters | proxyd/consensus_poller.go:368-383 | with both zero and other tags the lowest-tag loop depends on map iteration order |
| Consensus.TwoBackends | proxyd/consensus_poller.go:254-341 | any two backends' tags in order can be reported and make both candidates, zero tags included |
| Consensus.MixedTags | proxyd/consensus_poller.go:368-383 | a reachable group whose published finalized block depends on iteration order, and in one order is above the published safe block |
| Consensus.MixedSafeTags | proxyd/consensus_poller.go:368-383 | a reachable group whose published safe block depends on iteration order |
| Sentinel.OrderDoesNotMatter | proxyd/consensus_poller.go:368-383 | with no zero tag, or only zero tags, it does not |
| Consensus.TagsStayOrdered | proxyd/consensus_poller.go:254-341 | a backend that is not forced always has finalized <= safe <= latest |
| Consensus.TagsNeverDecrease | proxyd/consensus_poller.go:343-355 | its safe and finalized tags never decrease while no update bans it |
| Consensus.LowestIsMinimum | proxyd/consensus_poller.go:368-383 | over non-zero tags the loop finds the minimum |
| Consensus.GroupTagsOrdered | proxyd/consensus_poller.go:368-383 | a group with ordered non-zero tags has lowest finalized <= lowest safe <= lowest latest |
| Consensus.UncrossedLowest | proxyd/consensus_poller.go:368-383 | the lowest finalized (safe) tag is at most the lowest safe (latest) one in every order, unless tags are crossed: a zero lower tag with a non-zero upper one, and a lower tag above another non-zero upper one |
| Consensus.CrossedLowest | proxyd/consensus_poller.go:368-383 | if they are crossed, it is above it in some order |
| Consensus.HighestAgreedUnique | proxyd/consensus_poller.go:395-433 | there is only one highest agreed block |
| Consensus.SameConsensus | proxyd/consensus_poller.go:368-433 | the consensus block does not depend on iteration order while all latest tags are non-zero |
| Consensus.ConsensusPoller.Ban | proxyd/consensus_poller.go:492-506 | zeroes the tags and bans, except for a forced candidate |
| Consensus.ConsensusPoller.UpdateBackend | proxyd/consensus_poller.go:254-341 | the complete new state: skipped while banned, else as reported, else banned with zeroed tags; the tags of backends that are not forced stay in order |
| Consensus.ConsensusPoller.GetConsensusCandidates | proxyd/consensus_poller.go:632-683 | candidates are serving, within the lag of each other, and every serving backend left out lags |
| Consensus.ConsensusPoller.LowestTags | proxyd/consensus_poller.go:368-383 | the loop's result in any iteration order, and a candidate with the lowest block's hash |
| Consensus.ConsensusPoller.AllAgree | proxyd/consensus_poller.go:399-426 | one round decides whether all candidates that answer agree at the height |
| Consensus.ConsensusPoller.WalkBack | proxyd/consensus_poller.go:385-433 | ends at the highest agreed block at or below the start; broken exactly if that is below both the start and the current consensus block |
| Consensus.ConsensusPoller.UpdateBackendGroupConsensus | proxyd/consensus_poller.go:358-481 | the new tracker and group, from candidates to walk back; without forced candidates and crossed tags the published finalized block is at most the safe one, and that at most the lowest latest one |
| Indexer.Clamp | indexer/bigint/bigint.go:12-22 | an end with at most size elements, and exactly size if it is moved |
| Indexer.BlockHeadersByRange | indexer/node/client.go:114-164 | the parsed range: truncated at a failed element, rejected if it does not chain |
| Indexer.RangeFacts | indexer/node/client.go:114-164 | a range result is parent-linked and not longer than asked; from an honest node it is the chain's next headers |
| Indexer.NextFacts | indexer/node/header_traversal.go:52-100 | the next headers follow the last traversed one, are at most maxSize, and none is above latest less the confirmation depth |
| Indexer.NextMakesProgress | indexer/node/header_traversal.go:52-100 | with an honest node that answers and new confirmed headers, as many as fit are returned |
| Indexer.HeaderTraversal.NextHeaders | indexer/node/header_traversal.go:52-100 | refines the specified traversal step; on failure the position stays |
| Indexer.ETL.ProcessBatch | indexer/etl/etl.go:96-148 | sends exactly the specified batch: headers, their map, their logs, the blocks with logs; or nothing |
| Indexer.HeaderMapFacts | indexer/etl/etl.go:105-109 | the header map holds exactly the batch's headers by hash |
| Indexer.ETL.Start | indexer/etl/etl.go:49-94 | refines the specified loop over intervals |
| Indexer.RunInOrder | indexer/etl/etl.go:49-94 | over any run with any failures, batches sent and headers left over form one parent-linked chain from the starting header, in bounded batches |
| Indexer.RunGapFree | indexer/etl/etl.go:49-94 | if the nodes serve one chain, they are exactly its headers from the next height on, each once and in order |
| Indexer.RunConfirmed | indexer/node/header_traversal.go:52-100 | over any run no header is traversed or sent on before it is at or below some interval's latest height less the confirmation depth |

## Left out

- Page.CachedPage: data, hash cache and valid flags are sequences held in fields, not Go arrays; aliasing of the backing arrays is not captured.
- Memory.Memory.AllocPage: only for an absent page, as every caller in the repository does.
- Vm.InstrumentedState.SysPlain: writes to files 1, 2 and 4 have no effect here beyond the registers; in the code they first drain the range with `ReadMemoryRange`, which panics for ranges that wrap back (see `MemoryRange.MemReader.Read`), and hint bytes are buffered and parsed, which can panic on incomplete hints. The contract does neither.
- Vm.InstrumentedState.HandleSyscall: without the panics of draining and of parsing hints, as for `SysPlain`.
- Vm.InstrumentedState.MipsStep: likewise.
- Vm.InstrumentedState.Step: standard output, hints, the rate limiter, step matchers and symbol lookup leave no trace in the model.
- Replay.ContractReplaysStep: proofs are lists of 32-byte nodes rather than call data; the calldata encoding is `Witness.StepInputRoundTrip`. Gas and the free-memory checks of the contract are not modelled.
- PreimageOracle.Contract.Call: local contexts are 64 bits wide, as the off-chain encoder produces them; function selectors are parameters.
- Trace.ChainReplaysRun: reads every key's own pre-image; the object's reads of the zero key before any other are covered by `VmRun.Run` and `VmRun.WitnessReplaysStep`.
- Preimage.SamePayload: key and offset carry over between the given calls; `Preimage.SamePayloadInRun` derives that from the run.
- Preimage.SamePayloadInRun: payloads below 2^32 - 8 bytes, the range of the VM's offset.
- MemoryRange.SetMemoryRange: a reader that returns no bytes and no error forever is not modelled.
- Channels.OutputFrameKeeps: frame numbers are unbounded; the 65535-frame limit of channel_builder.go:390 is assumed not to be reached.
- Channels.AddBlock: the batch encoding and the compressor are a function of the blocks written; errors of compressor, random source and frame encoder are left out.
- Manager.Run: channel ids are assumed not to repeat; `Close` and everything after it, and `Reset` of a builder, are left out.
- Batcher.ChannelManager.TxConfirmed: Go slices that share a backing array (`append(blocks, s.blocks...)`, `s.blocks[:0]`) are values here, so a late receipt returns the blocks as they were.
- Proxyd.Forward: the translation of `consensus_getReceipts`, HTTP and JSON details, sliding windows, and the load balancer's shuffling are left out; the list of backends to try is given.
- ProxydServer.Server.HandleBatchRPC: rate limiters and the deadline are inputs; cache keys stand for method and parameters, without the hashing of the key.
- Consensus.ConsensusPoller.UpdateBackendGroupConsensus: fetches return the block asked for or fail; the latest block of a serving backend is still the one it reported; Redis tracking and listeners are left out.
- Indexer.Clamp: heights and sizes are integers without the 64-bit conversions of big integers.
- Indexer.ETL.Start: SQL, metrics and the downstream consumers of the channel are left out.
- Concurrency inside a mutex-protected method: every such method is one atomic step.
- proxyd websockets, Redis, TLS and configuration; generated bindings; ELF loading; JSON serialization of state; bridge processors.
