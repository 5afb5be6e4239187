# PacketCrypt: proof of announcements, programs and mining

A Dafny model of the parts of PacketCrypt that are hardest to get right: the compressed
proof that four announcements are in a committed tree, the tree itself, the random programs behind
an announcement, the memory-hard cycle in its fast and its reference form, the announcement store with
its lock-free slot claims, the merge that orders a tree's leaves, and the difficulty arithmetic that
decides what a share is worth.  `dafny verify dfyconfig.toml` checks everything.

How the files fit together:

- Compressed proofs (`PcCompress.c`, `PacketCryptProof.c`): `RangeTree` is the tree of prefix ranges,
  `ProofTable` the table of entries a proof is about, `EntryTable` its two builders, `BitReversal` their
  path arithmetic.  `ProofCheck` is a recursive checker; `TableWalk`, `TableFill`, `Climb` and `ClimbLoop`
  prove the in-place one equal to it.  `ProofWriter`, `Compress` and `WriteProof` write proofs.
  `ProofRoundTrip`, `ProofSoundness`, `ProofSystem` and `ProofMeaning` hold the theorems, and
  `OrderMatters` an example.
- The miner's tree (`prooftree.rs`): `TreeTable` (the rows in one table), `TreeBuild`, `MinerTree`.
- Announcement programs (`RandGen.c`, `RandHash_interpreted.c`, `Announce.c`): `RandProgram` is the
  structured language with its meaning and its flat code, `RandInterp` the semantics of flat code,
  `RandFlatten` relates the two, `RandMeaning` says what single instructions do, `RandGen` and `RandHash`
  are the generator and the interpreter, `AnnProgram` joins them, and `AnnItem` makes the items of an
  announcement's table with them.
  `MulHigh` is the long multiplication the instructions use.
- CryptoCycle: `CycleState`, `CryptoCycle` (specification), `CycleMining` (in place, fast against
  reference), `LaneMining` (all lanes), `CycleMeaning` (a step byte by byte).
- Announcements: `AnnMerkle`, `Announce`, `CheckAnn`, `AnnVerdicts` (which announcements get which
  answer), and `AnnMiner`, the mining thread.
- Shares: `Share` (`Validate_checkBlock`), `ShareVerdicts` (which shares get which answer), `ShareCrash`
  (which get none) and `SelfTest` (`fakeMine` and what an accepted share vouches for).
- The announcement store: `SlotClaims` (threads pushing into one buffer), `ClassPush` (threads pushing
  into one class), `AnnStore` (threads, classes and the tree builder), `Intake` (announcements into classes
  and memory), `IndexMerge` and `IndexTable` (the index table), `ComputeTree` (from buffers to a tree) and
  `OnWork` (from classes to a share).
- `Difficulty` and `EffectiveTarget` (what its arithmetic comes to), `Work`, and `Words` (machine words).

Hash functions, the stream cipher, the authenticator, the scalar multiplication and the ALU of the
random programs are function values that every statement is for-all over.  Where a statement speaks of
collisions it names the very inputs that would have to collide.  Code that updates a table, a state, a
buffer or a program in place is a method on arrays or a class, proved against a function; concurrent
code is a state machine in which any thread may take the next atomic step.

## Findings

Where the program does not have a property one would expect of it, a lemma gives the failing input and
the exact condition is proved.

- The two builders of the entry table are meant to agree.  They agree if and only if no announcement
  number is 0 (`EntryTable.BuildersAgree`); every caller adds 1 first, so the comparison never fails.
- An accepted proof is meant to vouch for four announcement hashes.  When two indexes reduce to the same
  number only the later hash is looked at (`ProofSoundness.EarlierHashIsIgnored`), and the honest proof is
  accepted with any other hash in place of the earlier one (`ProofRoundTrip.WrongHashAccepted`).  It vouches
  for all four if and only if equal numbers carry equal hashes (`ProofSoundness.AcceptedProofIsSoundIff`).
- A right leaf that reads all ones is refused when the leaf pass meets it before its left neighbour and
  accepted as padding when it meets it afterwards.  `ProofCheck.Check` has this condition
  (`RightsNonEmpty`), which makes `ClimbLoop.HashProof` exact for all inputs; `OrderMatters.OrderDecides`
  gives the same four announcements and proof in two orders, one refused and one accepted.
- `ProofTree::new(max_anns)` is meant to make room for `max_anns` announcements.  With the zero entry in
  front it makes room for `len` of them if and only if `max_anns > 1` and
  `len + 1 <= max_anns + max_anns % 2` (`MinerTree.NewTreeFitsIff`): with 4 and 4, `compute` panics.
- The tree over the chosen buffers is meant to be computed.  `compute_tree` finishes if and only if no entry
  of an earlier bucket exceeds one of a later bucket, there is a prefix but 0 and none of 2^64 - 1, and
  the table has room for one leaf for each distinct prefix and the zero entry (`ComputeTree.ComputeTree`).
- The merge of buffers is meant to give increasing prefixes.  A buffer numbers its buckets by the distinct
  quotients it has seen, so one that skips a quotient puts entries into earlier buckets than another
  buffer does.  The "hash prefix went backwards!" panic happens if and only if an entry of an earlier
  bucket exceeds one of a later bucket (`IndexTable.MakeTable`); buffers that do it, of any size above
  1, are in `IndexTable.SkippedQuotientPanics`.  Quotient 512 exists, for prefixes of at least 2^64 - 512
  (`IndexTable.TopQuotient`), and a buffer with more than 512 runs panics in `lock` (`IndexMerge.Lock`).
- An announcement is meant to get easier with age.  0x04000001 gets harder at age 4
  (`Difficulty.DegradingCanFall`); the exact condition is `Difficulty.DegradingIsMonotoneIff`.
- `Validate_checkBlock` is meant to return on every input.  It does not return (it aborts, panics in Rust,
  divides by zero, or reads or shifts out of bounds) if and only if the commitment is in order and one of
  these holds: a target it looks at for the share's work is negative, or has an effective target so small
  that the comparison reads in front of the hash; or the first announcement that does not pass crashes, by
  its validation or by a negative target between ages 4 and 259; or all announcements pass and the count is
  0 or from 2^63 to 2^64 - 2 (`ShareCrash.CrashesIff`; 2^64 - 1 wraps to 0 and is refused).
  `ShareCrash.ValidationCrashesIff` is the exact condition for the validation of an announcement,
  `ShareCrash.SafeToCheck` gives guards on the input that exclude all of it, and
  `ShareCrash.BadCountCrashes` inputs that do not return, whatever the header and the proof.
- The self-test share is refused with BAD_COINBASE exactly when the largest effective target of the
  class set is not acceptable (`SelfTest.RunSelfTest`); a set with a class that is too young has one
  (`SelfTest.TooYoungIsUnusable`).
- The comment at packetcrypt-sys/packetcrypt/include/packetcrypt/PacketCrypt.h:143 puts the fourth item's
  prefix before the Merkle proof.  The code (Announce.h:29-33) has them the other way round, and the model
  follows the code.

## Model

| member | source | states |
|---|---|---|
| `ProofSystem.ProveAndCheck` | packetcrypt-sys/packetcrypt/src/PacketCryptProof.c:252-444 | For the table of any valid tree and any four 64-bit indexes, repeats and neighbours included, `hashProof` on the bytes `mkProof` writes and on those announcements' hashes returns 0 and the root of that tree. |
| `ProofSystem.CheckAgainst` | packetcrypt-sys/packetcrypt/src/PacketCryptProof.c:252-420 | Whatever the proof bytes and hashes are: if `hashProof` returns 0 and the root of a tree and no collision was hashed, the hashes supplied are the tree's exactly when announcements with the same reduced number were given the same hash. |
| `ClimbLoop.HashProof` | packetcrypt-sys/packetcrypt/src/PacketCryptProof.c:252-420 | The in-place fill, leaf pass and climbing loop return 0 with a root exactly when the recursive checker `Check` yields that root, and -1 or -2 exactly when it yields none, on every input with 1 to 2^63 - 1 announcements. |
| `ProofRoundTrip.ProofChecks` | packetcrypt-sys/packetcrypt/src/PacketCryptProof.c:180-420 | The bytes written for any four leaves of a valid tree, given with those leaves' hashes, are accepted by `Check` and yield the tree's root. |
| `ProofRoundTrip.WrongHashAccepted` | packetcrypt-sys/packetcrypt/src/PacketCryptProof.c:277-282 | Finding: for every valid tree and two equal indexes, the honest proof with any other hash in place of the earlier of the two still yields the root. |
| `ProofSoundness.AcceptedProofBindsLeaves` | packetcrypt-sys/packetcrypt/src/PacketCryptProof.c:277-420 | An accepted proof with the tree's root forces, for each of the four announcement numbers, the last hash supplied for that number to be the tree's leaf hash, unless a collision was hashed on the way. |
| `ProofSoundness.AcceptedProofIsSoundIff` | packetcrypt-sys/packetcrypt/src/PacketCryptProof.c:277-420 | For an accepted proof with the tree's root, all four supplied hashes are the tree's if and only if equal announcement numbers carry equal hashes. |
| `ProofSoundness.EarlierHashIsIgnored` | packetcrypt-sys/packetcrypt/src/PacketCryptProof.c:277-282 | Of two hashes supplied for the same announcement number, the earlier one has no influence on the outcome at all, whatever the proof bytes. |
| `OrderMatters.OrderDecides` | packetcrypt-sys/packetcrypt/src/PacketCryptProof.c:299-331 | Finding: the same four announcements, two of them a right leaf of all ones, with the same proof are refused if such a leaf comes first and accepted if its left neighbour does, for every hash function. |
| `TableFill.ReadProof` | packetcrypt-sys/packetcrypt/src/PacketCryptProof.c:284-297 | Returns 0 exactly when the proof bytes supply every missing range and hash of the table and are used up exactly, and then the table holds what they say; otherwise -1. |
| `TableFill.GetAnn` | packetcrypt-sys/packetcrypt/src/PcCompress.c:30-40 | The walk along the reversed bits of an announcement number from the root stays inside the table and ends at the entry for exactly that leaf, for every one of the four numbers. |
| `TableFill.GetSibling` | packetcrypt-sys/packetcrypt/src/PcCompress.c:53-60 | The entry found through the parent links is the one for the other child of the same parent. |
| `EntryTable.MkEntryTable2` | packetcrypt-sys/packetcrypt/src/PcCompress.c:62-147 | Null exactly when a number is out of range; otherwise a fresh table whose used part is the layout `Table`: the pre-order list of nodes on or beside the four paths, linked and flagged. |
| `EntryTable.MkEntryTable` | packetcrypt-sys/packetcrypt/src/PcCompress.c:224-253 | For numbers from 1 on, the bit-reversed builder and the direct one produce the same table, so the run-time comparison never fails. |
| `EntryTable.MkEntries` | packetcrypt-sys/packetcrypt/src/PcCompress.c:150-221 | The bit-reversed recursion writes exactly the pre-order layout of the subtree it is called for, from `nextFree` on, and leaves every other cell alone. |
| `EntryTable.BuildersAgree` | packetcrypt-sys/packetcrypt/src/PcCompress.c:62-253 | Finding: the tables of the two builders are equal if and only if none of the four numbers is 0. |
| `ProofTable.TableFits` | packetcrypt-sys/packetcrypt/src/PcCompress.c:134-135 | The table never has more than the 12 entries per level of the tree that are allocated for it, for any four numbers and any count. |
| `BitReversal.RevInvolutive` | packetcrypt-sys/packetcrypt/src/PcCompress.c:15-17 | Reversing the low `h` bits twice gives back every number below 2^h. |
| `WriteProof.MkProof` | packetcrypt-sys/packetcrypt/src/PacketCryptProof.c:422-444 | The proof bytes are exactly `ProofBytes` of the four leaves past the zero entry, the bytes that `ProofChecks` is about. |
| `WriteProof.CompressProof` | packetcrypt-sys/packetcrypt/src/PacketCryptProof.c:180-249 | From any four extracted branches of one tree, the compressed bytes are `ProofBytes`: each range and hash that the checker cannot compute, once, in table order. |
| `ProofWriter.MkBranch` | packetcrypt-sys/packetcrypt/src/PacketCryptProof.c:129-160 | The entries collected along the table are the siblings of the announcement's path, one for each level up to the root. |
| `ProofWriter.HashBranchBig` | packetcrypt-sys/packetcrypt/src/PacketCryptProof.c:51-93 | Climbing such a branch from the announcement's hash reaches the root hash of the tree, and none of its assertions fails on the way. |
| `ProofMeaning.AcceptedProofIsOrdered` | packetcrypt-sys/packetcrypt/src/PacketCryptProof.c:284-417 | Every accepted proof, whatever its hashes: it has exactly as many bytes as its entries take; the two ranges hashed together meet without gap or overlap at every entry, none empty but padding; a right leaf met first has a range that does not wrap; and the root spans 0 to 2^64 - 1. |
| `ProofMeaning.LengthIff` | packetcrypt-sys/packetcrypt/src/PacketCryptProof.c:284-297 | A proof can be read if and only if its length is 8 for each explicit range and 32 for each hash that is not known or computable. |
| `ProofMeaning.RootOfThree` | packetcrypt-blkmine/src/prooftree.rs:139-195 | The root over three leaves, spelt out down to the padding: an odd row is completed by 48 bytes of 0xff, a parent spans from its left child's start to its right child's end, and the root entry is hashed once more on its own. |
| `RangeTree.RootSpansEverything` | packetcrypt-blkmine/src/prooftree.rs:182-183 | In the tree over any valid leaf row the root spans 0 to 2^64 - 1. |
| `RangeTree.NodesAreAdjacent` | packetcrypt-blkmine/src/prooftree.rs:139-181 | Every node ends where its right neighbour, real or padding, starts, in every row. |
| `TreeTable.RowPartitions` | packetcrypt-blkmine/src/prooftree.rs:139-181 | In every row the real entries are non-empty and partition the 64-bit space in order. |
| `TreeTable.EntryCountIs` | packetcrypt-sys/packetcrypt/src/PacketCryptProof.c:31-39 | `entryCount` is the index at which the root's row begins, plus one, and splits into the rows below and the count for the row above. |
| `TreeTable.TableHoldsIff` | packetcrypt-sys/packetcrypt/src/PacketCryptProof.c:31-39 | A table made for `m` leaves has room for the tree over `n > 1` leaves if and only if `m > 1` and `n <= m + m % 2`. |
| `TreeBuild.LeafRowIsValid` | packetcrypt-blkmine/src/prooftree.rs:89-132 | The leaf row with the zero entry in front is a valid partition if and only if the first prefix is not 0 and each entry's end is above its start. |
| `TreeBuild.FillLeaves` | packetcrypt-blkmine/src/prooftree.rs:72-126 | The chunks together fill the table with exactly the leaves of the index table, as far as it reaches; a panic means prefixes that do not increase or a table that is too short. |
| `TreeBuild.BuildRows` | packetcrypt-blkmine/src/prooftree.rs:139-183 | The layer loop finishes exactly when the table has room, and then every row holds the nodes of the range tree over the leaves, whatever the rows held before. |
| `MinerTree.ProofTree.constructor` | packetcrypt-blkmine/src/prooftree.rs:35-54 | A new tree is valid and uncomputed, with a table of `entryCount(max_anns)` entries. |
| `MinerTree.ProofTree.Compute` | packetcrypt-blkmine/src/prooftree.rs:61-195 | An error without any change when already computed or without announcements; otherwise it panics exactly when the prefixes do not strictly increase or the table is too short, and else locks the root hash of the whole tree, whatever the table held before. |
| `MinerTree.NewTreeFitsIff` | packetcrypt-blkmine/src/prooftree.rs:35-54 | Finding: the table made by `new(max_anns)` has room for `len` announcements and the zero entry if and only if `max_anns > 1` and `len + 1 <= max_anns + max_anns % 2`. |
| `MinerTree.ProofTree.GetCommit` | packetcrypt-blkmine/src/prooftree.rs:197-209 | Of a computed tree, 48 bytes from which the magic, the minimum work, the root hash of the tree and its announcement count read back. |
| `MinerTree.ProofTree.MkProof` | packetcrypt-blkmine/src/prooftree.rs:211-232 | None exactly when not computed or a number is out of range; otherwise the proof bytes of those announcements in the tree over the current index table. |
| `RandFlatten.FlatteningPreservesMeaning` | packetcrypt-sys/packetcrypt/src/RandHash_interpreted.c:155-313 | Running the flat code of any well-formed structured program never goes wrong: it ends at its last instruction with empty stacks and the output of direct evaluation, or is cut off exactly when that needs more operations than the limit. |
| `RandGen.Generator.Generate` | packetcrypt-sys/packetcrypt/src/RandGen.c:307-333 | A program that is neither too big nor uses a register past the operand field is the flat code of a well-formed structured program, whatever the draws, and the initial budget pays for all of it, loops by their share and the halves of branches by 7/32 each; too big exactly when -1 is returned. |
| `RandGen.Generator.OneOp` | packetcrypt-sys/packetcrypt/src/RandGen.c:289-297 | Which instruction a turn emits, as a function of the stream of draws: a coin for each kind from the dearest to the cheapest, at odds that grow with the turn, then a draw within the kind; kinds the budget does not allow are passed over with both of their draws spent. |
| `RandGen.Generator.Branch` | packetcrypt-sys/packetcrypt/src/RandGen.c:238-262 | What is emitted, both jumps patched in place, is the flat code of one conditional whose test is a variable in scope, a random one exactly if the first draw is even and a likely one otherwise; its two halves are paid for, and the scopes are as before. |
| `RandGen.Generator.Loop` | packetcrypt-sys/packetcrypt/src/RandGen.c:264-283 | What is emitted is the flat code of one loop with its memory reads first, or nothing exactly when the budget is too small for the cycles drawn; its cycles, and the number, the template and the carries of its reads are those of the draws, and the scopes are as before. |
| `RandGen.Generator.Body` | packetcrypt-sys/packetcrypt/src/RandGen.c:285-305 | A body in a scope of its own contributes the flat code of a well-formed block followed by END, and restores the scopes. |
| `RandGen.Generator.GetVar` | packetcrypt-sys/packetcrypt/src/RandGen.c:139-186 | The register chosen is always a variable of some open scope, never a scope marker, and for a double word its lower neighbour is one as well; unless the last coin said to reuse one it was unused, and afterwards it counts as used and no other changes. |
| `RandHash.Interpreter.Interpret` | packetcrypt-sys/packetcrypt/src/RandHash_interpreted.c:166-313 | The recursive interpreter over one flat variable stack computes what the frame-wise semantics says from any state in which that does not go wrong, and returns -1 at once past the operation limit. |
| `RandHash.Interpreter.RandHashInterpret` | packetcrypt-sys/packetcrypt/src/RandHash_interpreted.c:325-356 | For the flat code of a well-formed program and any number of cycles, 0 with the hash state of direct evaluation and empty stacks, or TOO_LONG exactly when direct evaluation passes the operation limit. |
| `RandMeaning.FirstRead` | packetcrypt-sys/packetcrypt/src/RandHash_interpreted.c:182-192 | A MEMORY instruction without carry reads, in cycle 0 of its loop, the place it names, modulo 256. |
| `RandMeaning.CarryReadsAhead` | packetcrypt-sys/packetcrypt/src/RandHash_interpreted.c:182-192 | A carry of one more reads in any cycle what would be read in the next one without it. |
| `RandMeaning.StepsOn` | packetcrypt-sys/packetcrypt/src/RandHash_interpreted.c:182-192 | From one cycle to the next the place read moves on by the step, round the 256 words. |
| `RandMeaning.PatternImmediate` | packetcrypt-sys/packetcrypt/src/DecodeInsn.h:58-87 | A pattern immediate is all ones but for two bits among the lowest 32, which cancel if they are the same, and for the top bit if asked for. |
| `RandMeaning.OperationAppends` | packetcrypt-sys/packetcrypt/src/RandHash_interpreted.c:251-311 | An operation appends one, two or four words, in order, of its result on its two operands: registers, register pairs with the low word below the high one, or an immediate cut to the operand's width. |
| `RandMeaning.BranchTaken` | packetcrypt-sys/packetcrypt/src/RandHash_interpreted.c:217-226 | A likely branch takes its first half unless the register is a multiple of 8, a random one unless it is even. |
| `RandMeaning.ScopeOutput` | packetcrypt-sys/packetcrypt/src/RandHash_interpreted.c:234-249 | A closing scope of up to 256 words adds them to the output words from the counter on, one each and round the end, and moves the counter by their number. |
| `AnnProgram.RunItem` | packetcrypt-sys/packetcrypt/src/Announce.c:39-60 | From random draws to item: a program that is made without wide registers runs to the result of the structured program it was generated from, on a memory that begins with its own code, or to TOO_LONG. |
| `CycleMining.FastFollowsReference` | packetcrypt-sys/packetcrypt/src/CryptoCycle.c:52-104 | The miner's partial decryption: after each update the fast state equals the reference state except where the next item will be written, it names the same item numbers, and after four updates the states are equal. |
| `CycleMining.InitAgrees` | packetcrypt-sys/packetcrypt/src/CryptoCycle.c:111-137 | The miner's partial initialisation of any stale state equals the full one except where the first item goes. |
| `CycleMining.UpdateNeverFails` | packetcrypt-sys/packetcrypt/src/CryptoCycle.c:146-156 | After any update of any state the fail flag is clear and the version 0, which is what `update` asserts. |
| `CryptoCycle.CryptAgrees` | packetcrypt-sys/packetcrypt/src/CryptoCycle.c:51-105 | Decrypting from the last block boundary before the item's end and decrypting everything differ only inside the area the next item overwrites. |
| `CryptoCycle.TruncationFits` | packetcrypt-sys/packetcrypt/src/CryptoCycle.c:40-49 | After truncation, header, additional data and message always fit the 2048-byte state. |
| `CycleMining.CryptInPlace` | packetcrypt-sys/packetcrypt/src/CryptoCycle.c:51-105 | The step-by-step in-place encryption or decryption leaves the state at `Crypt` of the old state, tag and flags included. |
| `LaneMining.BlockMineMulti` | packetcrypt-sys/packetcrypt/src/CryptoCycle.c:183-216 | Every lane ends in the state of the reference attempt with its own nonce and reports the item numbers and memory locations that attempt used, whatever the lanes held before. |
| `LaneMining.AnnMineMulti` | packetcrypt-sys/packetcrypt/src/CryptoCycle.c:218-245 | The same over a fixed table of 2^13 items, reporting the fourth item number. |
| `CycleMeaning.StartBytes` | packetcrypt-sys/packetcrypt/src/CryptoCycle.c:128-137 | Outside nonce and header word, byte i of a new state is byte i % 64 of block i / 64 of the keystream under the seed. |
| `CycleMeaning.MessageBytes` | packetcrypt-sys/packetcrypt/src/CryptoCycle.c:52-104 | What becomes of every byte behind the tag: byte j of the message is xored with byte j % 64 of block 1 + j / 64 of the keystream, so block 0 meets none; an encryption ends in its zero padding; all else stays. |
| `CycleMeaning.TagBytes` | packetcrypt-sys/packetcrypt/src/CryptoCycle.c:60-104 | The tag is that of the ciphertext, which is there before a decryption and after an encryption, under block 0 of the keystream as the one-time key. |
| `CycleMeaning.UpdateBytes` | packetcrypt-sys/packetcrypt/src/CryptoCycle.c:146-163 | Byte by byte what a full update makes of a state and an item: header word from bytes 16 to 19 of the state, nonce from its first 12, key from its bytes 16 to 31 and the item's first 16, and the item itself from byte 32 on. |
| `CycleMeaning.TruncatedFields` | packetcrypt-sys/packetcrypt/src/CryptoCycle.c:40-49 | The length becomes the smaller of itself and 125 less the additional blocks, the flag says whether that cut it, and no other field of the header word changes. |
| `AnnMerkle.Build` | packetcrypt-sys/packetcrypt/src/AnnMerkle.c:34-51 | Afterwards the array holds every node of the hash tree over the table, level by level, for any depth. |
| `AnnMerkle.GetBranch` | packetcrypt-sys/packetcrypt/src/AnnMerkle.c:53-72 | The branch read off such an array is the sibling path of the item, with the root at its end, so the closing self-check passes. |
| `AnnMerkle.OwnBranchIsValid` | packetcrypt-sys/packetcrypt/src/AnnMerkle.c:18-72 | Every item's own branch is valid at its own position. |
| `AnnMerkle.OnlyTheTrueLeafPasses` | packetcrypt-sys/packetcrypt/src/AnnMerkle.c:18-32 | Against the true root, an item hash and branch are valid at a position if and only if they are the true ones, unless a collision was hashed. |
| `AnnMerkle.IsItemValid` | packetcrypt-sys/packetcrypt/src/AnnMerkle.c:18-32 | The two-cell loop accepts exactly when climbing the branch by the bits of the item number gives the branch's last block. |
| `AnnMerkle.RootOfFour` | packetcrypt-sys/packetcrypt/src/AnnMerkle.c:34-51 | The root over four items, spelt out: hashes of items are hashed in pairs from the left, and so again. |
| `Announce.MinedAnnouncementsValidate` | packetcrypt-sys/packetcrypt/src/Validate.c:20-96 | Every announcement assembled and encrypted from a well-formed job whose soft nonce is in range and whose state meets the target passes the whole of `checkAnn` with OK, whatever the item buffer held, wherever the soft nonce bound and the comparison of work are defined. |
| `AnnItem.MkItem2` | packetcrypt-sys/packetcrypt/src/Announce.c:49-60 | With a program that was made, the item is the encrypted first half of the state that the structured program leaves after two runs on the state expanded from the item seed, or none past the operation limit; the fail flag is never set, as the program asserts. |
| `AnnItem.MakeItem` | packetcrypt-sys/packetcrypt/src/Announce.c:39-60 | From random draws to item: whatever the draws, a program that is made without wide registers is the flat code of a well-formed program, and the item is the one that program makes. |
| `AnnItem.TableOfPrograms` | packetcrypt-sys/packetcrypt/src/AnnMiner.c:147-159 | A table of 2^13 items under a seed exists exactly if the seed has a program, and holds for each number the item that program makes from the other half of the seed. |
| `AnnItem.MinedFromProgramsValidate` | packetcrypt-sys/packetcrypt/src/Validate.c:20-96 | Announcements mined over two tables that the programs of their seeds made pass `checkAnn` of a validator that makes its items one at a time from the same programs. |
| `Announce.CryptTwice` | packetcrypt-sys/packetcrypt/src/Announce.h:50-58 | Applying the encryption twice with the same state gives back the announcement. |
| `Announce.CryptKeeps` | packetcrypt-sys/packetcrypt/src/Announce.h:50-58 | Encryption leaves the header and the Merkle root readable. |
| `Announce.AnnCrypt` | packetcrypt-sys/packetcrypt/src/Announce.h:50-58 | The eight-bytes-at-a-time loops xor the first 832 bytes of the proof with the start of the state and the 40 prefix bytes with what follows, and nothing else. |
| `CheckAnnMethod.ValidateAnn` | packetcrypt-sys/packetcrypt/src/Validate.c:20-96 | The in-place validator returns the verdict of the functional specification `CheckAnn` for every announcement: which of soft nonce, fourth item, Merkle branch and work is at fault, or none where the program aborts or does something undefined. |
| `AnnVerdicts.CodesOfAnn` | packetcrypt-sys/packetcrypt/src/Validate.c:20-96 | For each of the five answers of `checkAnn`, exactly which announcements get it, for all announcements: OK exactly when the soft nonce is at most its bound, the prefix and the Merkle tree stand, and the hash read as an integer is below the target, which is non-negative and at most 0x207fffff; INSUF_POW when all but that holds; each other code when its own check is the first to fail. |
| `AnnVerdicts.ReplaySpelledOut` | packetcrypt-sys/packetcrypt/src/Validate.c:26-66 | The state, item and item number that the verdict is about: both header hashes without the soft nonce, the seed from root and first hash, four updates with the item that the state names each time, the final hash. |
| `AnnVerdicts.StandsIff` | packetcrypt-sys/packetcrypt/src/Validate.c:68-90 | Prefix and branch stand exactly when the 40 prefix bytes are the state's bytes behind the proof and the branch with the state's first 832 bytes taken off is valid for the item of the first hash; for version 0, the start of the last item and the branch as it is. |
| `AnnItem.HashedSpelledOut` | packetcrypt-sys/packetcrypt/src/RandHash_interpreted.c:325-356 | The two runs that make an item: memory is the 256 words of the program buffer from the item number modulo 1792 on, the first run goes from the first half of the state into the second and the other one back, within 20000 operations each. |
| `AnnMiner.HitsAreAccepted` | packetcrypt-sys/packetcrypt/src/AnnMiner.c:164-198 | Everything handed out for any list of in-range nonces of one job is accepted for that job's parent block. |
| `AnnMiner.Worker.SearchOpt` | packetcrypt-sys/packetcrypt/src/AnnMiner.c:164-198 | The sixteen soft nonces from the worker's own on, all in range, are tried; what is handed out is exactly the announcements of those that meet the target, in order. |
| `AnnMiner.Worker.GetNextJob` | packetcrypt-sys/packetcrypt/src/AnnMiner.c:201-238 | On 0 a complete job is in place whose seeds, tables and Merkle tree belong together and to the requested parent, and the search begins at soft nonce 0 with the target's bound; always the header becomes the requested one with the worker's next hard nonce, so that a retry has another. |
| `AnnMiner.JobsDiffer` | packetcrypt-sys/packetcrypt/src/AnnMiner.c:201-211 | No two jobs under one request have the same header, of one worker or of two, as long as the hard nonces do not go round all 2^32. |
| `AnnMiner.Worker.StartRequest` | packetcrypt-sys/packetcrypt/src/AnnMiner.c:293-328 | A changed request takes effect in any phase of a stopped worker and forces a new job before the search at the top of the loop, and keeps the invariant. |
| `AnnMiner.Worker.Continue` | packetcrypt-sys/packetcrypt/src/AnnMiner.c:264-277 | Each turn of the thread, a retry after a failed or interrupted job included, keeps the invariant and only appends to what was found; at the top of the loop it searches sixteen more soft nonces exactly if they fit below the bound, and otherwise goes for a new job. |
| `AnnMiner.Worker.Run` | packetcrypt-sys/packetcrypt/src/AnnMiner.c:240-328 | Over any sequence of turns, interruptions, retries and new requests, every announcement ever found is accepted by validators for the parent it was mined for, and that parent was asked for. |
| `Share.CheckBlock` | packetcrypt-sys/packetcrypt/src/Validate.c:152-211 | The staged validator returns exactly the first fault in the order header, commitment, announcements, proof, root, and else the verdict on the work; the inputs on which it panics or is undefined are its `Crashed` cases. |
| `Share.CheckPcHash` | packetcrypt-sys/packetcrypt/src/Validate.c:117-150 | The item numbers and hash of the four-update replay, and OK, SHARE_OK or INSUF_POW by the effective targets of block and share. |
| `ShareVerdicts.CodesOfWork` | packetcrypt-sys/packetcrypt/src/Validate.c:98-150 | For each answer of `checkPcHash`, exactly when it is given: OK when the hash, as an integer, is below the effective target of the block's target; SHARE_OK when it is not, there is a share target, and it is below that one's; INSUF_POW when neither; none when judging does not return. |
| `ShareVerdicts.CodesOfShare` | packetcrypt-sys/packetcrypt/src/Validate.c:152-211 | For a commitment in order, exactly which shares get OK, SHARE_OK and INSUF_POW: those whose announcements all pass and whose proof leads to the committed root, by their work as above; PCP_MISMATCH: those whose proof leads to another root; PCP_INVAL: those whose proof is none. |
| `ShareVerdicts.CodesOfAnns` | packetcrypt-sys/packetcrypt/src/Validate.c:177-193 | For each announcement, exactly which shares get the code that calls it invalid, or too easy: those whose work can be judged, whose earlier announcements pass, and where it is so. |
| `ShareVerdicts.RunSpelledOut` | packetcrypt-sys/packetcrypt/src/Validate.c:117-143 | The hash and the four item numbers of a share, spelt out: start from header hash and nonce, four updates with its announcements, each number read before its update, multiplication and final hash. |
| `SelfTest.SharesValidate` | packetcrypt-sys/packetcrypt/src/Validate.c:152-211 | A share of any attempt over a committed tree with the tree's proof passes every check of `checkBlock` except that of its work. |
| `SelfTest.RunSelfTest` | packetcrypt-blkmine/src/blkmine.rs:359-469 | From a computed tree and a class set: with a usable largest effective target the verdict on the fakeMine share is the verdict on its work, one of OK, SHARE_OK and INSUF_POW unless computing that target panics; otherwise BAD_COINBASE. |
| `SelfTest.FakeMine` | packetcrypt-sys/packetcrypt/src/BlockMine.c:369-399 | The first low nonce from 457 on whose hash meets 0x207fffff, with the locations its four updates used; nothing only if none of the tries does. |
| `SelfTest.ClassSetMinEffectiveWork` | packetcrypt-blkmine/src/blkmine.rs:227-232 | The largest degraded target of the set, attained by one of its classes; a panic exactly for an empty set or a target whose sign panics. |
| `SelfTest.TooYoungIsUnusable` | packetcrypt-blkmine/src/blkmine.rs:227-232 | Finding: if a class of the set is younger than three blocks, the largest effective target is 2^32 - 1, which is not acceptable. |
| `ShareCrash.CrashesIff` | packetcrypt-sys/packetcrypt/src/Validate.c:152-211 | Finding: the exact condition, for all inputs, under which `checkBlock` does not return: the commitment is in order and its work crashes, or the first announcement that does not pass crashes, or all pass and the count is 0 or from 2^63 to 2^64 - 2. |
| `ShareCrash.PowCrashesIff` | packetcrypt-sys/packetcrypt/src/Validate.c:98-150 | Judging the work does not return if and only if the block's target is negative or its effective target has an exponent below 3 and the hash, as an integer, is below 256 to that exponent, or else the block's target is not met and the same holds of a non-zero share target. |
| `ShareCrash.ValidationCrashesIff` | packetcrypt-sys/packetcrypt/src/Validate.c:20-96 | `checkAnn` does not return if and only if the bound on the soft nonce is undefined for the target, or the nonce, the prefix and the Merkle branch are in order, the target is not negative, its exponent is below 3 and the final hash is below 256 to that exponent. |
| `ShareCrash.SafeToCheck` | packetcrypt-sys/packetcrypt/src/Validate.c:152-211 | With a count from 1 to 2^63 - 1, no negative targets, effective targets with exponents of at least 3 and announcement targets with a mantissa and an exponent from 3 to 34, `checkBlock` always returns. |
| `ShareCrash.BadCountCrashes` | packetcrypt-sys/packetcrypt/src/Validate.c:152-211 | Finding: at height 0, with four announcements of non-negative targets up to 0x207fffff, a commitment to 0 announcements, or to 2^63 up to 2^64 - 2, never returns, whatever the header, the proof and the share target. |
| `SelfTest.AcceptedShareBinds` | packetcrypt-sys/packetcrypt/src/Validate.c:152-211 | If a share gets OK, SHARE_OK or INSUF_POW against the root of a tree, its four announcements are the tree's exactly when equal indexes carry equal announcements, unless a collision was hashed. |
| `SlotClaims.ClaimsCoverAPrefix` | packetcrypt-blkmine/src/ann_buf.rs:70-105 | In every interleaving of any number of pushing threads the claims are disjoint, lie inside the buffer and cover exactly a prefix, and a slot is written only by the claim it belongs to. |
| `SlotClaims.ReturnedCountIsWritten` | packetcrypt-blkmine/src/ann_buf.rs:70-105 | When a push returns, its count is the number of slots its claim has, all of them and no others hold its announcements. |
| `ClassPush.LockedBuffersAreFull` | packetcrypt-blkmine/src/ann_class.rs:92-165 | In every interleaving of threads pushing into a class under its read lock, double-checking under its write lock and replacing the top buffer, and of steals, every buffer taken off the top to be locked is completely full and its index is exactly its size. |
| `AnnStore.BuffersAreConserved` | packetcrypt-blkmine/src/ann_store.rs:81-264 | Over every run of pushing threads and the tree builder no buffer is lost, duplicated or invented, dropping dead classes included. |
| `AnnStore.StealTakesTheNewest` | packetcrypt-blkmine/src/ann_class.rs:153-165 | Stealing from a class that is live and not mining hands out its newest full buffer, or its top buffer if it has no other, and changes nothing else in it. |
| `AnnStore.CapturedBuffersAreNotStolen` | packetcrypt-blkmine/src/ann_class.rs:153-189 | A buffer the tree builder took from a class that is still mining is never handed out by stealing, wherever it is at the moment. |
| `IndexMerge.Lock` | packetcrypt-blkmine/src/ann_buf.rs:110-130 | Locking sorts the buffer and counts its runs of equal quotient; it panics exactly when there are more than 512 runs. |
| `IndexMerge.RangeTotals` | packetcrypt-blkmine/src/ann_store.rs:195-204 | The totals are the sizes of the buckets collected over all buffers. |
| `IndexMerge.BucketReceives` | packetcrypt-blkmine/src/ann_store.rs:219-233 | In every interleaving of the markers' fetch_adds a bucket receives exactly its entries of all buffers. |
| `IndexMerge.Scatter` | packetcrypt-blkmine/src/ann_store.rs:213-233 | In every interleaving each slot of the merged vector is written exactly once and each bucket's region ends up holding exactly what arrived for it. |
| `IndexMerge.RunsIncrease` | packetcrypt-blkmine/src/ann_buf.rs:117-128 | In a sorted buffer the quotients of consecutive buckets strictly increase. |
| `IndexTable.SortRegions` | packetcrypt-blkmine/src/ann_store.rs:236-245 | Each region is sorted within its own bounds; afterwards it is a sorted permutation of what it held. |
| `IndexTable.ReadTable` | packetcrypt-blkmine/src/ann_store.rs:248-257 | The reading loop gives the entries that rise above all earlier prefixes, or the panic, exactly as the recursive specification says. |
| `IndexTable.ReadsSorted` | packetcrypt-blkmine/src/ann_store.rs:248-257 | Reading succeeds if and only if the entries are sorted, and then lists one entry for each distinct prefix but 0, in strictly increasing order. |
| `IndexTable.MakeTable` | packetcrypt-blkmine/src/ann_store.rs:195-258 | The merge keeps every entry of every buffer exactly once, makes a table if and only if no entry of an earlier bucket exceeds one of a later bucket, and then lists each non-zero prefix once, in order. |
| `ComputeTree.ComputeTree` | packetcrypt-blkmine/src/ann_store.rs:175-268 | From locked buffers to a computed tree: a panic exactly when the buckets are out of order, or else a prefix is 2^64 - 1 or the table has no room for one leaf for each distinct prefix and the zero entry; an error without prefixes or when already computed; and otherwise a valid tree over one location for each prefix, in order. |
| `ComputeTree.ListedIncrease` | packetcrypt-blkmine/src/prooftree.rs:69-134 | The hashes of a listed index table strictly increase inside the 64-bit space if and only if it is not empty and no prefix is 2^64 - 1. |
| `Intake.OnAnns` | packetcrypt-blkmine/src/blkmine.rs:155-226 | Every announcement of a packet goes into exactly one batch, that of its parent height and target, and no two batches are of the same class. |
| `Intake.EntriesStayTrue` | packetcrypt-blkmine/src/ann_buf.rs:72-105 | In every run of puts into buffers of an announcement's own class and of recyclings, every entry of every buffer is for an announcement of the buffer's class that is still in memory, with the prefix of its hash. |
| `OnWork.BuildTree` | packetcrypt-blkmine/src/blkmine.rs:359-402 | The tree over the buffers of the chosen classes ends as `compute_tree` says, and when done it is over announcements in memory that all belong to the chosen classes. |
| `OnWork.BuildAndTest` | packetcrypt-blkmine/src/blkmine.rs:359-469 | From the classes of the store to the verdict on the self-test share: decided by its work alone if the largest effective target is usable, and otherwise BAD_COINBASE, always so if a chosen class is too young. |
| `IndexTable.NoGapsInOrder` | packetcrypt-blkmine/src/ann_store.rs:195-258 | If no buffer skips a quotient the merge never panics. |
| `IndexTable.FullSpread` | packetcrypt-blkmine/src/ann_buf.rs:117-128 | A buffer that shows all of the quotients 0 to 511 and not 512 skips none. |
| `IndexTable.SkippedQuotientPanics` | packetcrypt-blkmine/src/ann_store.rs:248-257 | Finding: two lockable buffers of any size above 1, one holding only quotient 2 and the other quotients 0 and 1, whose merge panics. |
| `IndexTable.TopQuotient` | packetcrypt-blkmine/src/ann_buf.rs:117-118 | Finding: a quotient is at most 512, and it is 512, one too many for the buckets, exactly for prefixes of at least 2^64 - 512. |
| `Difficulty.CompactIsMonotone` | packetcrypt-sys/src/difficulty.rs:19-37 | A larger integer never has a smaller compact form. |
| `Difficulty.CompactRoundsDown` | packetcrypt-sys/src/difficulty.rs:6-37 | Through the compact form and back an integer is rounded down and loses less than one part in 2^15. |
| `Difficulty.CompactInverts` | packetcrypt-sys/src/difficulty.rs:6-37 | A compact value survives expansion and compaction if and only if it is canonical. |
| `Difficulty.CanonicalOrder` | packetcrypt-sys/src/difficulty.rs:6-37 | On canonical values compact order is integer order. |
| `EffectiveTarget.EffectiveTargetIs` | packetcrypt-sys/src/difficulty.rs:91-98 | The value of the effective target, without a division: given the work of both targets, the effective work and its target by the brackets below, it is the largest canonical value up to 0x207fffff that is not above that target. |
| `EffectiveTarget.EffectiveWorkIff` | packetcrypt-sys/src/difficulty.rs:69-88 | The effective work is the only w with w * d <= B^3 < (w + 1) * d for d = 1024 * A * N^2, where B and A are the work of block and announcement and N the number of announcements; and 2^256 without work or announcements. |
| `EffectiveTarget.WorkForTarIff` | packetcrypt-sys/src/difficulty.rs:51-53 | The work of a target t is the only w with w * (t + 1) <= 2^256 < (w + 1) * (t + 1). |
| `EffectiveTarget.TarForWorkIff` | packetcrypt-sys/src/difficulty.rs:56-64 | The target of w units of work is the only t with (t + 1) * w <= 2^256 < (t + 2) * w; 2^256 for none, and 0 from 2^256 on. |
| `EffectiveTarget.CompactIsLargest` | packetcrypt-sys/src/difficulty.rs:6-37 | A canonical value is at most the compact form of an integer if and only if it stands for an integer that is at most that one. |
| `EffectiveTarget.DegradedTargetIs` | packetcrypt-sys/src/difficulty.rs:114-129 | At every age: the target itself at 3; from 4 to 259 the compact form of 2^(age - 3) times its integer, as long as that is below 2^255; otherwise 2^32 - 1. |
| `Difficulty.EffectiveTargetIsMonotone` | packetcrypt-sys/src/difficulty.rs:50-97 | The effective target never falls with more announcements or a higher block target, and never rises with a higher announcement target. |
| `Difficulty.DegradingIsMonotoneIff` | packetcrypt-sys/src/difficulty.rs:114-129 | Finding: for a non-negative target, from the waiting period on an announcement never gets harder if and only if its target is 0, or has a value and a mantissa of at least 0x4000, or is too large to degrade at all. |
| `Difficulty.CanonicalOnlyGetsEasier` | packetcrypt-sys/src/difficulty.rs:114-129 | Every canonical target degrades monotonically. |
| `Difficulty.DegradingCanFall` | packetcrypt-sys/src/difficulty.rs:114-129 | Finding: 0x04000001 is harder at age 4 than at age 3. |
| `Difficulty.MinAnnDiffOkIff` | packetcrypt-sys/src/difficulty.rs:132-143 | A minimum announcement target is acceptable if and only if it is non-negative, at most 0x207fffff and stands for a positive integer. |
| `Work.WorkCheck` | packetcrypt-sys/packetcrypt/src/Work.c:33-65 | The byte-wise comparison accepts exactly when the target is non-negative, at most 0x207fffff and above the hash read as a little-endian integer, wherever the comparison is defined. |
| `Work.AnnSoftNonceMax` | packetcrypt-sys/packetcrypt/src/Util.h:37-40 | Wherever it is defined the bound is at most 2^24 - 1, so it fits the three nonce bytes, and for exponents up to 32 at least 1023. |
| `Work.SoftNonceMaxIs` | packetcrypt-sys/packetcrypt/src/Util.h:37-40 | For a target from 2^j to below 2^(j+1) the bound is 2^(264 - j) - 1, cut to 24 bits, and 0 from j = 265 on: 256 soft nonces for each hash the target is expected to take. |
| `Work.NonceMaxDefinedFor` | packetcrypt-sys/packetcrypt/src/Util.h:37-40 | The bound is defined for every target with a mantissa and an exponent up to 34, and for none without a mantissa or with an exponent above 36. |
| `Words.Log2Ceil` | packetcrypt-sys/packetcrypt/src/Util.h:23-25 | The height `h` with 2^(h-1) < x <= 2^h, and 0 for 1. |
| `MulHigh.MulhuIsHighHalf` | packetcrypt-sys/packetcrypt/src/OpTemplate2.h:260-277 | The four-limb multiplication with wrapping carries gives bits 64 to 127 of the exact product. |
| `MulHigh.MulhIsHighHalf` | packetcrypt-sys/packetcrypt/src/OpTemplate2.h:279-292 | The sign-corrected variant gives bits 64 to 127 of the exact signed product, overflow of the low half and the least integer included. |
| `MulHigh.MulhsuIsHighHalf` | packetcrypt-sys/packetcrypt/src/OpTemplate2.h:294-304 | The same for a signed and an unsigned factor. |

## Left out

Contracts that say less than one might want:

- AnnMiner.Worker.Run: a worker of version 0, whose tables come from `populateTable` and `Announce_mkitem`, is not modelled; the validator's version-0 branch is.
- AnnMiner.Worker.StartRequest: one worker and its requests, for targets with a mantissa and an exponent from 3 to 32; that a request waits until all threads have stopped is taken as given, and the mutex and condition variable are not part of this model.
- RandGen.Generator.Generate: promises nothing about a program with a register number of 512 or more, whose operand field would run into its neighbour (`wide`), nor about the buffer of a rejected program, which the program frees or overwrites.
- RandGen.Generator.GetVar: the draws are any stream in which the reuse coin keeps coming up, without which the search need not end; where C leaves the order of two draws in one expression open, the left one is taken first.
- RandHash.Interpreter.RandHashInterpret: the ALU is a parameter; of its operations only the long multiplications are modelled (`MulHigh`).
- CheckAnnMethod.ValidateAnn: the validator ignores whether making a program succeeded, so after a rejected one the item is whatever the buffer then holds, an arbitrary value here (`Announce.MadeItem`).
- Work.WorkCheck: promises nothing where the program reads in front of the hash (`WorkDefined`).
- WriteProof.MkProof: no hash in the tree may be all ones, which the program uses for "no hash" and asserts against, and there are at most 2^63 leaves, beyond which the shifts by the tree's height are undefined.
- ProofSoundness.AcceptedProofIsSoundIff: soundness needs that the inputs hashed do not collide; the inputs are named, no property of the hash function as a whole is assumed.
- SelfTest.FakeMine: gives up after a number of tries; the program's loop has no bound and need not end.
- SelfTest.RunSelfTest: one proof tree, with announcements in memory that do not change meanwhile; the coinbase transaction between commitment and header (`compute_block_header`) and the parse of the commitment out of it are not part of this model, nor are negative block heights.
- OnWork.BuildTree: the buffers taken are those of a single look at the classes; that the entries of locked buffers are those `Intake` put there is a precondition (`ClassesOk`), and no hash of tree entries is all ones.
- ClassPush.LockedBuffersAreFull: a thread begins with something to push, as its only caller sees to; a push of nothing into a class without a top buffer could retire one that is not full.
- AnnItem.MakeItem: the same restriction to registers below 512 as the generator; the state is two sequences of integers while the program runs.
- AnnMerkle.Build: item numbers are unbounded; the program's are 16 bits wide, which suffices for its only depth, 13.
- AnnStore.BuffersAreConserved: the order in which a class hands out buffers is kept, but the ranking of classes is a parameter, and `dependent_trees` is left out because it does not move buffers.
- MinerTree.ProofTree.Compute: the size is an unbounded number; the program cuts it to 32 bits, which loses nothing because a table for a 32-bit `max_anns` has no room for more.
- IndexTable.MakeTable: the library sorts are any function that returns a sorted permutation; entries with equal prefixes may come out in any order.

Not modelled at all:

- The announcement handler, pool, sprayer and their networking: input and output, not arithmetic.
- `mineOpt`, the worker threads of the block miner and hash-rate counters: the lanes they drive are modelled.
- `pc_get_hashrate_multiplier` and `tar_to_diff`: statistics.
- `populateTable` and `Announce_mkitem` of version 0: a straight sequence of hashes.
- Clocks, logging, and freeing of memory.
