# uchain: verified models

Models, in Dafny, of the parts of uchain whose correctness needs a whole-run invariant or real
arithmetic, with proofs of what those parts promise.

| files | what they model |
|---|---|
| `SmtHash`, `SmtSpec`, `SparseMerkle` | the sparse Merkle tree: node store, updates and deletes, proofs, partial copies |
| `Overlay`, `TreeDb` | the versioned store on top of it: layers, parent descent, commit, reset, side versions |
| `Ledger`, `LedgerBlocks`, `LedgerGrowth`, `LedgerState` | blocks of payments and raw data, on the main path and on the fork path, and along every run of blocks |
| `Limbs`, `Bitwise`, `UintWords`, `UintShift`, `KnuthDigit`, `UintDiv`, `UintDivMod`, `UintMul`, `UintPow`, `UintSqrt` | the fixed-width big integers |
| `CompactTarget`, `Barossa` | compact targets and the difficulty of a chain |
| `RlpFormat`, `RlpStream`, `RlpView` | RLP: the format, the streaming writer, the reading view with its caches |
| `BitGroups`, `Base32`, `Bech32`, `Bech32Strings`, `Bech32Vectors`, `Mnemonic` | regrouping of bits, Bech32 and Bech32m strings, mnemonic phrases |

How the source is represented:

- **Hashes are terms.** A digest is a value of the datatype `Hash`, so two digests are equal exactly when
  they were computed from the same data. A tree is its root hash; its node store is the set of the
  subterms of the root with their preimages. Nothing is assumed about any concrete hash function.
- **Keys are paths.** A key of the tree is the bit string its digest makes; the depth is a parameter.
  The ledger takes the map from addresses to paths as a parameter and asks for it to be injective only
  where a statement needs it.
- **The empty byte string** as a value of the tree is `None`.
- **Objects** whose fields the source updates (trees, the store, streams, views, bit writers) are classes
  with the same fields; loops are loops with invariants. Errors are `Result`, panics are `None` or the
  precondition they enforce.
- **Machine words** are non-negative integers with every wrap-around written out. The big integers are
  sequences of 64-bit words of any length, so each statement covers every width the macro is used for.

Three properties one would expect turn out false of the code. In each case the model keeps what the code
does, a lemma or a run of the methods shows an input, and a lemma gives the exact condition:

- Storing a version under the root of one of its ancestors replaces that ancestor's layer, and reads that
  come to it without having found their key come to it again: `TreeDb.RecommitLoops` reaches this with
  three commits, and `Overlay.ReadsRightIff` says of every version and key whether the read is spoiled.
  Blocks do not do this while nonces and balances stay inside 64 bits: `LedgerGrowth.GrowthIsFresh`.
- `pow` clears the highest bit of an odd exponent where it means the lowest: `UintPow.PowGivesEight`,
  `UintPow.PowIsExactIff`, `UintPow.PowIsExactForAllIff`. `overflowing_pow` does not.
- The two paths of a block credit the reward to different readings of the coinbase account: after and
  before the block, and an absent one with nonce 1 and nonce 0. Their roots agree exactly when the
  coinbase's own transactions bring its nonce to where the fork path reads it and it is paid what it
  spends, up to a multiple of 2^64; short of the end of 64 bits, when it has an account, sends nothing and
  is paid a multiple of 2^64: `LedgerBlocks.EmptyBlockDisagrees`, `LedgerBlocks.BlockRootsAgreeIff`.

Smaller ones of the same kind:

- An RLP payload of 2^32 bytes or more gets a wrong header, so a tree is read back exactly when it holds no
  such payload: `RlpFormat.HeaderExactIff`, `RlpFormat.RoundTripIff`.
- A view answers differently when its cache is warm exactly when the bytes after its list change how the
  end of the list's payload reads: `RlpView.TrailingByteIsFound`, `RlpView.CacheIsInvisibleIff`.
- Of different transactions of one sender with equal nonce and price the first one given runs and the
  later ones are dropped, so the running order of a block depends on the order it is given in exactly when
  it holds such a pair: `Ledger.OrderMattersInASlot`, `Ledger.OrderDoesNotMatterIff`.
- 64-bit sums wrap, so a block can raise the sum of the balances or lower it by more than the fees:
  `Ledger.PaidFromNothing`, `Ledger.PaidIntoNothing`. Where no payment's price and fee wrap together, it
  lowers the sum by exactly the fees when and only when every account's opening balance, with what it is
  paid and without what it spends, is below 2^64: `Ledger.BlockConservesIff`. One nonce rises exactly
  short of the end of 64 bits: `Ledger.NonceRisesIff`.

## Model

| member | source | states |
|---|---|---|
| `SmtSpec.MinimalIsCanonical` | smt/src/smt.rs:172-183 | a minimal tree is the canonical tree of the map it holds |
| `SmtSpec.RootsAndMaps` | smt/src/smt.rs:172-183 | two minimal trees have the same root if and only if they hold the same map |
| `SmtSpec.InsertContent` | smt/src/smt.rs:316-399 | setting a key changes the map in that key only |
| `SmtSpec.InsertMinimal` | smt/src/smt.rs:316-399 | setting a key keeps the tree minimal |
| `SmtSpec.DeleteContent` | smt/src/smt.rs:259-314 | deleting a present key removes that key only |
| `SmtSpec.DeleteMinimal` | smt/src/smt.rs:259-314 | deleting, with the lone sibling leaf moved up, keeps the tree minimal |
| `SparseMerkle.CountCommonPrefix` | smt/src/utils.rs:10-20 | the loop returns the length of the longest common prefix of two paths |
| `SparseMerkle.SparseMerkleTree.SideNodesForRoot` | smt/src/smt.rs:189-257 | on a reachable tree the walk never hits a storage error, and its sides and path nodes rebuild the root; the sibling is stored |
| `SparseMerkle.PlaceLeaf` | smt/src/smt.rs:324-362 | the new leaf and the placeholders down to the common prefix are stored, and an unchanged value is detected |
| `SparseMerkle.Rebuild` | smt/src/smt.rs:364-396 | climbing the side nodes stores exactly the new path and returns the new root |
| `SparseMerkle.UpdateWithSideNodes` | smt/src/smt.rs:316-399 | the root and the node store after the update are those of the tree with the key set |
| `SparseMerkle.DeleteWithSideNodes` | smt/src/smt.rs:259-314 | the root and the node store after the delete are those of the tree without the key, with nothing left over and nothing missing |
| `SparseMerkle.SparseMerkleTree.Update` | smt/src/smt.rs:172-183 | the whole new state is `Next` of the old one; the only error is deleting a key that is absent, which changes nothing |
| `SparseMerkle.NextIsValid` | smt/src/smt.rs:172-183 | an update keeps the store exact and changes the map in one key; a full tree stays full |
| `SparseMerkle.HistoryIndependence` | smt/src/smt.rs:484-492 | after any updates and deletes the root is the canonical root of the resulting map, and two histories give the same root if and only if they give the same map, and then the same stores |
| `SparseMerkle.SparseMerkleTree.Get` | smt/src/smt.rs:457-468 | returns the value the map holds, for a full tree the value the root commits to |
| `SparseMerkle.SparseMerkleTree.Prove` | smt/src/smt.rs:433-455 | never fails, the proof leads to the root for the value the map holds, or for absence, and an updatable one carries the data of its first side node |
| `SparseMerkle.ProofSound` | smt/src/proof.rs:51-111 | any proof of at most `depth` side nodes that leads to the root for a value forces the map to hold it, and for the empty value forces the key to be absent |
| `SparseMerkle.VerifyProofWithUpdates` | smt/src/proof.rs:51-111 | accepts exactly the proofs that lead to the root, with the error for each refusal, and returns every node of the path shown, from its end up to the root, once each and with its preimage |
| `SparseMerkle.BranchIsStored` | smt/src/smt.rs:147-170 | whatever a store held, after a branch with its own sibling data it holds every node of the path from the key up to the root |
| `SparseMerkle.SparseMerkleTree.AddBranch` | smt/src/smt.rs:147-170 | for a proof against any root and any store: succeeds exactly for proofs that lead to the root, and then the nodes are the old ones with the path and the sibling data; on a store exact for the root, it stays exact if and only if the sibling data is the sibling's |
| `SparseMerkle.SparseMerkleTree.Subtree` | smt/src/smt.rs:124-145 | succeeds exactly when the tree itself holds the values of the imported keys, and the copy shares the nodes and holds just those values |
| `SparseMerkle.SparseMerkleTree.Import` | smt/src/smt.rs:134-135 | importing one key with an updatable proof adds its value and no node |
| `Overlay.DescentReadsTheMap` | state/src/tree.rs:349-362 | descent through the parents ends and returns the value of the flattened map of the version |
| `Overlay.StoreIsSafeIff` | state/src/store.rs:104-114 | storing a version leaves the versions without a cycle if and only if its root is not an ancestor of what it was made from |
| `Overlay.FreshRootsUnreached` | state/src/store.rs:104-114 | a root that is not stored is not an ancestor of anything stored |
| `Overlay.ReadsRightIff` | state/src/tree.rs:349-362 | after a layer has been stored, the read of a key at a version ends with the value the version commits to if and only if the descent does not come to the new layer without having found the key, miss it there and come back to it; a layer that is its own parent stops instead, so only keys it commits to are read wrong |
| `Overlay.StoreVersion` | state/src/store.rs:104-114 | storing a coherent layer keeps every stored root canonical for its map, keeps the versions without a cycle exactly under that condition, and spoils exactly the reads of `Overlay.ReadsRightIff` |
| `TreeDb.ApplyBatch` | state/src/tree.rs:204-224 | whatever order the hash map yields, the batch overlays the map, last entry of a key winning |
| `TreeDb.VersionsAreCanonical` | state/src/tree.rs:226-247 | every stored root is the canonical root of the map that reading the version gives |
| `TreeDb.TreeDB.Set` | state/src/tree.rs:249-264 | staging a value or a deletion mark makes the staging tree `Next` of itself, changes the staged map in that key only and keeps the store valid |
| `TreeDb.TreeDB.Commit` | state/src/tree.rs:226-247 | stores the staged layer, moves the head to it, stays valid unless the root is an ancestor of the old head, and spoils exactly the reads of `Overlay.ReadsRightIff` |
| `TreeDb.TreeDB.Rollback` | state/src/tree.rs:164-169 | staging is again an empty layer on the head |
| `TreeDb.TreeDB.Reset` | state/src/tree.rs:155-162 | succeeds exactly for stored roots, and then the head is that version and staging an empty layer on it; otherwise nothing changes |
| `TreeDb.TreeDB.DescendFrom` | state/src/tree.rs:349-362 | the loop over parents returns the value of the flattened map; for a key that is not in it, the error of a missing root |
| `TreeDb.TreeDB.Get` | state/src/tree.rs:296-321 | reads the staged map: a deleted key is `None`, a key never set the error of a missing root |
| `TreeDb.TreeDB.GetAtRoot` | state/src/tree.rs:323-347 | reads the flattened map of a stored version in the same way; a root that is not stored is an error |
| `TreeDb.TreeDB.ApplyNonCommit` | state/src/tree.rs:204-224 | the new version's map is that of the given root overlaid by the batch, under its canonical root, and storing it spoils exactly the reads of `Overlay.ReadsRightIff` |
| `TreeDb.RecommitLoops` | state/src/tree.rs:226-247 | from an empty store, setting any key to one value, another and the first again with a commit each time makes the read of any other key loop |
| `Ledger.ScheduleKeeps` | state/src/lib.rs:178-199 | the running order is strictly ordered, holds only given transactions, and loses none when no two different ones share a slot |
| `Ledger.ScheduleIsSorted` | transaction/src/lib.rs:81-91 | of two transactions in the running order the earlier has the lower address, or of one sender the lower nonce, or with one nonce the higher price |
| `Ledger.RunsIff` | state/src/lib.rs:178-193 | exactly the transactions run that were given first for their sender, nonce and price |
| `Ledger.LowestNonceFirst` | transaction/src/lib.rs:81-91 | of one sender's transactions the first to run has the lowest nonce, and of several with it the highest price |
| `Ledger.OrderDoesNotMatter` | transaction/src/lib.rs:81-91 | the running order depends only on the set of transactions, while no two different ones of one sender share nonce and price |
| `Ledger.OrderDoesNotMatterIff` | transaction/src/lib.rs:81-91 | every order of the same transactions runs the same if and only if no two different ones of one sender share nonce and price |
| `Ledger.OrderMattersInASlot` | transaction/src/lib.rs:81-91 | of two that do, the one given first runs and the other is dropped |
| `Ledger.SentEnqueue` | state/src/lib.rs:191-192 | inserting into the whole order inserts into the sender's set and leaves the other senders' sets alone |
| `Ledger.SentSplit` | state/src/lib.rs:195-199 | the set of the sender with the least address comes first in the order |
| `Ledger.ApplyTxEffect` | state/src/lib.rs:206-293 | fails exactly on a payment above the sender's balance; otherwise the new free balances of both accounts, also when they are one, and the sender's nonce, with all else unchanged |
| `Ledger.NonceRisesIff` | state/src/lib.rs:281-292 | the nonce rises, and above the transaction's, if and only if 64 bits do not run out |
| `Ledger.PaymentTotal` | state/src/lib.rs:340-358 | what a payment does to the sum of the free balances, wrap-around included |
| `Ledger.PaymentConservesIff` | state/src/lib.rs:340-358 | the sum falls by exactly the fee if and only if both 64-bit sums wrap or neither does |
| `Ledger.BlockConserves` | state/src/lib.rs:195-199 | a run of transactions lowers the sum by exactly the fees of its payments, while the sum and each price with its fee stay below 2^64 |
| `Ledger.BlockTotal` | state/src/lib.rs:195-199 | for every run that succeeds, the sum falls by the fees, rises by 2^64 for each price and fee that wrap together and falls by as much for each time a closing balance exceeds 64 bits, all counted on the start states and the transactions |
| `Ledger.BlockConservesIff` | state/src/lib.rs:195-199 | the sum falls by exactly the fees if and only if those two counts are equal; where no price and fee wrap together, if and only if every closing balance is below 2^64 |
| `Ledger.PaidFromNothing` | state/src/lib.rs:340-358 | between two empty accounts a payment of price 2^64 - 1 and fee 1 succeeds and raises the sum from 0 to 2^64 - 1 |
| `Ledger.PaidIntoNothing` | state/src/lib.rs:340-358 | a payment of 2^64 - 1 without fee to an account that holds 1 lowers the sum from 2^64 to 0 |
| `Ledger.AccountAfter` | state/src/lib.rs:206-293 | what any run that succeeds leaves of each account: its opening balance with what it is paid and without what it spends, cut to 64 bits, its nonce moved by its own transactions, and the rest unchanged |
| `Ledger.BlockConservesModulo` | state/src/lib.rs:195-199 | the sum falls by the fees up to a multiple of 2^64, without any condition |
| `Ledger.BlockNonces` | state/src/lib.rs:281-292 | over a run each sender's nonce rises by at least one per transaction and ends above all their nonces; others keep theirs |
| `Ledger.UnchangedIff` | state/src/lib.rs:206-293 | a run leaves an account as it was if and only if its own transactions bring its nonce back and it is paid what it spends, up to a multiple of 2^64; while nonces stay within 64 bits, if and only if it sends nothing and is paid a multiple of 2^64 |
| `LedgerState.State.Gather` | state/src/lib.rs:178-193 | every named account is read once from the staged version, and each sender's set is its part of the running order |
| `LedgerState.State.RunAll` | state/src/lib.rs:195-199 | running the senders' sets in the order of their addresses runs the whole order, up to the first failure |
| `LedgerState.State.ApplyTxs` | state/src/lib.rs:177-204 | on success stages exactly the end states of the block; on failure the staging tree is untouched |
| `LedgerState.State.CreditBalance` | state/src/lib.rs:67-72 | adds the amount to the account, an absent one counting as new |
| `LedgerState.State.AcceptBlock` | blockchain/src/chain_state.rs:286-289 | the committed root is that of the accounts after the block and the reward; from a state whose versions all grew out of their parents, a block with room leaves such a state, in which every read is right |
| `LedgerState.State.ApplyTxsNoCommit` | state/src/lib.rs:295-338 | the new root is that of the given root's accounts overlaid by the block and the reward; failure stores nothing; a block with room keeps the versions growing and every read right |
| `LedgerBlocks.PathsAgreeIff` | state/src/lib.rs:324-338 | both paths give the same accounts if and only if the block leaves the coinbase's account as the fork path read it |
| `LedgerBlocks.UntouchedCoinbaseAgreesIff` | state/src/lib.rs:324-338 | for a coinbase that is neither sender nor recipient they agree if and only if its account exists |
| `LedgerBlocks.RootsAgreeIff` | state/src/lib.rs:295-338 | the same for the two roots of minimal trees |
| `LedgerBlocks.BlockRootsAgreeIff` | state/src/lib.rs:295-338 | a block gives the same root on both paths if and only if the coinbase's transactions bring its nonce to where the fork path reads it and it is paid what it spends modulo 2^64; while nonces stay within 64 bits, if and only if it has an account, sends nothing and is paid a multiple of 2^64 |
| `LedgerBlocks.EmptyBlockDisagrees` | state/src/lib.rs:324-338 | an empty block on no accounts leaves the coinbase nonce 1 on the main path and nonce 0 on the fork path |
| `LedgerBlocks.RawDataAlone` | state/src/lib.rs:178-204 | a block of one raw-data transaction moves its sender's nonce and also writes the account of the default address |
| `LedgerGrowth.MainGrows` | blockchain/src/chain_state.rs:286-289 | while nonces and balances stay within 64 bits and the reward is positive, a block on the main path lowers no nonce and raises one, or changes no nonce, lowers no balance and raises one |
| `LedgerGrowth.ForkGrows` | state/src/lib.rs:295-338 | so does a block on the fork path, though the coinbase's account is taken from before the block |
| `LedgerGrowth.RewardsComeBack` | blockchain/src/chain_state.rs:286-289 | without that room it can fail: two empty blocks of reward 2^63 leave the accounts they began with |
| `LedgerGrowth.GrowsOn` | state/src/store.rs:104-114 | growth goes on from version to version |
| `LedgerGrowth.GrowthIsFresh` | state/src/store.rs:104-114 | among versions that each grew out of their parent, one more is never stored over an ancestor, and they stay such |
| `LedgerBlocks.BlockOrderDoesNotMatter` | state/src/lib.rs:177-204 | the end states of a block do not depend on the order it lists its transactions in, while no two different ones of one sender share nonce and price |
| `LedgerBlocks.BlockBurnsFees` | state/src/lib.rs:177-204 | where no price and fee wrap together, a block lowers the total of the accounts it names by exactly the fees of the payments that ran if and only if each of them closes below 2^64, so always when they hold less than that together |
| `UintWords.SubSlice` | common/uint/src/uint.rs:1181-1201 | subtracts in place word by word, touching no other word, and returns the borrow |
| `UintWords.AddSlice` | common/uint/src/uint.rs:1176-1201 | adds in place word by word and returns the carry |
| `UintWords.SubWordsValue` | common/uint/src/uint.rs:1186-1201 | the words and the borrow are those of the difference of the numbers |
| `UintWords.AddWordsValue` | common/uint/src/uint.rs:1186-1201 | the words and the carry are those of the sum of the numbers |
| `UintWords.FullMulWord` | common/uint/src/uint.rs:829-835 | the product with one word, with the carry as the highest word |
| `UintShift.ShiftLeft` | common/uint/src/uint.rs:1550-1573 | the product with a power of two, cut to the width, for any shift |
| `UintShift.ShiftRight` | common/uint/src/uint.rs:1587-1612 | the quotient by a power of two, for any shift |
| `KnuthDigit.GuessDigit` | common/uint/src/uint.rs:875-897 | the two-word test ends with the quotient of the three leading words by the two, or the largest word when saturated |
| `KnuthDigit.GuessIsGood` | common/uint/src/uint.rs:870-901 | that guess is never low and at most one too high, in the saturated branch too |
| `UintDiv.DivDigit` | common/uint/src/uint.rs:867-921 | one round leaves the remainder of its slice, below the divisor, and returns its digit: one add-back suffices |
| `UintDiv.DivDigits` | common/uint/src/uint.rs:861-922 | the main loop keeps remainder plus quotient times divisor equal to the dividend and ends below the divisor |
| `UintDivMod.Bits` | common/uint/src/uint.rs:686-692 | the loop returns the bit length of the number |
| `UintDivMod.WordsOfBits` | common/uint/src/uint.rs:930-934 | the word count from the bits finds the highest nonzero word |
| `UintDivMod.FullShl` | common/uint/src/uint.rs:804-812 | the whole product with a power of two below one word |
| `UintDivMod.FullShr` | common/uint/src/uint.rs:814-827 | the quotient by a power of two below one word, without the words above the width |
| `UintDivMod.DivModWord` | common/uint/src/uint.rs:1168-1173 | quotient and remainder of two words by one, both within a word |
| `UintDivMod.DivModSmall` | common/uint/src/uint.rs:837-845 | dividend = quotient times divisor plus remainder, remainder below divisor, for one-word divisors |
| `UintDivMod.DivModKnuth` | common/uint/src/uint.rs:848-928 | the same for longer divisors, through the normalising shift and back |
| `UintDivMod.DivMod` | common/uint/src/uint.rs:941-965 | the exact quotient and remainder for every dividend and every nonzero divisor |
| `UintMul.OverflowingAdd` | common/uint/src/uint.rs:214-248 | the sum, with the flag exactly when it leaves the width |
| `UintMul.OverflowingSub` | common/uint/src/uint.rs:214-248 | the difference, with the flag exactly when it is negative |
| `UintMul.Less` | common/uint/src/uint.rs:1626-1630 | comparing words from the highest down compares the numbers |
| `UintMul.PlaceProduct` | common/uint/src/uint.rs:276-295 | one step of a row loses nothing: at most one of its two additions overflows |
| `UintMul.AddRow` | common/uint/src/uint.rs:270-299 | a row adds the multiplicand times one word, moved up, up to its last carry |
| `UintMul.RowCarryIsZero` | common/uint/src/uint.rs:269-300 | the carry dropped at the end of each row is zero |
| `UintMul.FullMul` | common/uint/src/uint.rs:252-305 | the whole product in twice the words, for every pair and for both variants of the zero test |
| `UintMul.OverflowingMul` | common/uint/src/uint.rs:307-333 | the product cut to the width, flagged exactly when it does not fit |
| `UintPow.OverflowingPow` | common/uint/src/uint.rs:1021-1044 | the power cut to the width, flagged exactly when it does not fit |
| `UintPow.Power` | common/uint/src/uint.rs:995-1018 | `pow` returns the power to `PowExponent` and panics exactly when that does not fit |
| `UintPow.PowIsExactIff` | common/uint/src/uint.rs:989-1018 | so it is right unless a base above one has an odd exponent with the highest bit set and the wrong power fits |
| `UintPow.PowIsExactForAllIff` | common/uint/src/uint.rs:989-1018 | it is right for every base if and only if the exponent is not odd with the highest bit set and used as one below the width |
| `UintPow.PowGivesEight` | common/uint/src/uint.rs:1013 | in 256 bits `2^(2^255 + 1)` comes out as 8 |
| `UintSqrt.IntegerSqrt` | common/uint/src/uint.rs:968-987 | ends without overflow with the largest number whose square is not above the argument |
| `UintSqrt.RootIsUnique` | common/uint/src/uint.rs:967-987 | there is only one such number |
| `CompactTarget.FromParts` | common/primitive-types/src/lib.rs:633-650 | the form is the byte count with room for the sign bit over the leading bytes, and both assertions hold |
| `CompactTarget.DecodedIsRounded` | common/primitive-types/src/lib.rs:611-650 | every 256-bit number is written and read back without error, never larger |
| `CompactTarget.RoundingError` | common/primitive-types/src/lib.rs:611-650 | what is lost is at most one part in 2^15 |
| `CompactTarget.RoundingIsMonotone` | common/primitive-types/src/lib.rs:611-650 | the round trip is monotone |
| `CompactTarget.ReencodesTheSame` | common/primitive-types/src/lib.rs:611-650 | the number read back has the same compact form |
| `CompactTarget.RefusedIff` | common/primitive-types/src/lib.rs:611-631 | reading fails if and only if the form stands for a negative number or for 2^256 or more, and otherwise gives the number it stands for |
| `Barossa.MaximumLeavesRoom` | common/types/src/network.rs:27-47 | each network's maximum times the largest timespan fits 256 bits, on the test network by less than five parts in a million |
| `Barossa.EasiestForms` | common/types/src/network.rs:27-47 | the compact forms of the three maxima are 1d00ffff, 1e0377ae and 1d0fff00 |
| `Barossa.RetargetTimespan` | consensus/src/barossa.rs:76-85 | the difference of the times; the lower bound exactly where it is smaller, the upper one where it is larger |
| `Barossa.RetargetBounds` | consensus/src/barossa.rs:88-119 | a retarget never overflows, stays in range, is at most four times the old target and at least a quarter less one part in 2^15 |
| `Barossa.RetargetIsProportional` | consensus/src/barossa.rs:88-119 | the new target is the old one times the elapsed time over two weeks, the time kept between half a week and eight, as the compact form rounds it and at most the easiest |
| `Barossa.RetargetIsMonotone` | consensus/src/barossa.rs:88-119 | more elapsed time never gives a harder target |
| `Barossa.OnScheduleKeeps` | consensus/src/barossa.rs:88-119 | exactly two weeks give back any target that was written from a number |
| `Barossa.WorkRequiredTestnet` | consensus/src/barossa.rs:121-165 | the two loops return `FirstReal` of the last interval of targets, or the easiest one after a long gap |
| `Barossa.FirstRealIsLeast` | consensus/src/barossa.rs:158-164 | that is the first target going back that is not the easiest or was set at a retarget, and the easiest when there is none |
| `Barossa.WorkStaysInRange` | consensus/src/barossa.rs:38-70 | from targets in range the next one is computed without overflow and is in range |
| `Barossa.GrowthGoesOn` | consensus/src/barossa.rs:402-420 | the genesis block alone is such a chain, and `work_required` extends any of them |
| `Barossa.EveryTargetInRange` | consensus/src/barossa.rs:38-70 | on every chain grown with `work_required` every target decodes, at most to the network's maximum |
| `Barossa.EachTarget` | consensus/src/barossa.rs:38-119 | on such a chain a target at a retarget height is the retarget over the last 10080 blocks, and between them mainnet and alphanet keep the parent's |
| `Barossa.RetargetHeightIff` | consensus/src/barossa.rs:72-74 | the retarget heights are the multiples of 10080 |
| `Barossa.EachTestnetTarget` | consensus/src/barossa.rs:121-165 | between retargets a block of the test network more than four minutes after its parent has the easiest target, and otherwise that of the nearest earlier block that is not the easiest or has a retarget height |
| `Barossa.ChainNeverOverflows` | consensus/src/barossa.rs:38-165 | on every such chain, at any time, the next target can be computed |
| `RlpFormat.SizeRoundTrip` | common/rlp/src/stream.rs:371-382 | a size below 2^32 is written without leading zero and read back |
| `RlpFormat.HeaderRoundTrip` | common/rlp/src/rlpin.rs:84-99 | a header is read back whatever follows the payload |
| `RlpFormat.HeaderExactIff` | common/rlp/src/stream.rs:371-396 | a header tells the length of its payload if and only if that is below 2^32 |
| `RlpFormat.SelfDelimiting` | common/rlp/src/rlpin.rs:413-419 | the encoding of a tree shows its own end, whatever bytes follow |
| `RlpFormat.SplitRoundTrip` | common/rlp/src/rlpin.rs:340-351 | a payload splits into the encodings of its items |
| `RlpFormat.RoundTrip` | common/rlp/src/rlpin.rs:421-459 | reading the encoding of any tree with payloads below 2^32 gives the tree |
| `RlpFormat.RoundTripIff` | common/rlp/src/rlpin.rs:421-459 | and of no other tree |
| `RlpFormat.ReadIsNoLonger` | common/rlp/src/rlpin.rs:421-459 | whatever tree is read from some bytes is written in no more bytes |
| `RlpFormat.ReadIsCanonical` | common/rlp/src/rlpin.rs:421-459 | so bytes that are as long as the encoding of what they are read as are that encoding |
| `RlpFormat.HeaderIsCanonical` | common/rlp/src/rlpin.rs:50-99 | an accepted header of a payload below 2^32 bytes is the one written for it |
| `RlpFormat.DataCanonicalIff` | common/rlp/src/rlpin.rs:421-459 | a byte string that is read starts with the encoding of its value, unless a long header tells of at most 55 bytes or of 2^32 or more |
| `RlpStream.RlpStream.InsertSize` | common/rlp/src/stream.rs:371-382 | appending and rotating puts the size bytes at the position and keeps all others |
| `RlpStream.RlpStream.InsertListPayload` | common/rlp/src/stream.rs:385-396 | the header replaces the byte kept free |
| `RlpStream.RlpStream.EncodeValue` | common/rlp/src/stream.rs:403-439 | appends the encoding of a byte string |
| `RlpStream.RlpStream.NoteAppended` | common/rlp/src/stream.rs:309-335 | counts the items, finishes each list that is then full and counts it once in the next |
| `RlpStream.RlpStream.BeginList` | common/rlp/src/stream.rs:187-209 | opens a list, or appends and counts the empty one |
| `RlpStream.RlpStream.FinalizeUnboundedList` | common/rlp/src/stream.rs:342-352 | closes a list of open length and counts it once |
| `RlpStream.RlpStream.AppendList` | common/rlp/src/stream.rs:155-165 | a list appended part by part ends up as its encoding appended as one item |
| `RlpStream.RlpStream.Append` | common/rlp/src/stream.rs:121-131 | whatever a value is made of, the stream ends up as if its finished encoding had been appended as one item |
| `RlpStream.StreamTree` | common/rlp/src/stream.rs:287-306 | streaming a tree leaves no list open, gives its encoding, and the reader recovers the tree |
| `RlpView.SumOfBytes` | common/rlp/src/impls.rs:24-39 | the loop of shifted bytes is the big-endian number of at most eight bytes without leading zero, and stays within 64 bits |
| `RlpView.Rlp.SkipItems` | common/rlp/src/rlpin.rs:340-351 | the loop skips that many items or returns the first error |
| `RlpView.Rlp.At` | common/rlp/src/rlpin.rs:215-254 | the answer and the cache left behind are those of the lookup, and while the bytes after the list do not matter the answer is that of an uncached one, whatever was asked before |
| `RlpView.Rlp.ItemCount` | common/rlp/src/rlpin.rs:174-187 | ends with the cached count, or with what `Counted` says for every view; that is the number of items while the bytes after the list do not matter |
| `RlpView.CountIsRightIff` | common/rlp/src/rlpin.rs:174-187 | a first count is the number of items of the list if and only if the list is empty or no item starts with the rest of its payload and the bytes after it |
| `RlpView.CacheIsInvisible` | common/rlp/src/rlpin.rs:215-254 | while the bytes after the list do not matter, a cache that points at its item changes no answer and stays so |
| `RlpView.AnswersAreFresh` | common/rlp/src/rlpin.rs:203-254 | then any run of lookups answers as uncached lookups would |
| `RlpView.CacheIsInvisibleIff` | common/rlp/src/rlpin.rs:203-254 | all runs of lookups answer as uncached ones if and only if the bytes after the list do not change how the rest of its payload reads |
| `RlpView.LookUpIsFind` | common/rlp/src/rlpin.rs:215-254 | for every view, a lookup from the cache searches the list with the bytes after it, a fresh one the payload, and the cache still points at its item |
| `RlpView.TrailingByteIsFound` | common/rlp/src/rlpin.rs:215-254 | with a byte after the list the second lookup of item 0 finds that byte |
| `RlpView.LookUpIsSplit` | common/rlp/src/rlpin.rs:328-359 | a lookup finds exactly the items the payload splits into |
| `RlpView.WrittenListIsFound` | common/rlp/src/rlpin.rs:203-254 | in a written list, item `i` is the encoding of the `i`-th item, and there are no others |
| `BitGroups.GroupOfFlat` | common/tiny-bip39/src/util.rs:124-147 | values of a width come back from their bits |
| `BitGroups.FlatOfGroup` | common/tiny-bip39/src/util.rs:183-197 | whole groups hold exactly the bits they were cut from |
| `Base32.ConvertBits` | common/bech32/src/lib.rs:724-756 | the accumulator loop regroups the bits, with padding or a refusal, for every pair of widths |
| `Base32.WriteBase32` | common/bech32/src/lib.rs:279-319 | the streaming conversion equals `convert_bits(8, 5, true)` |
| `Base32.BackToBytes` | common/bech32/src/lib.rs:252-255 | `convert_bits(5, 8, false)` inverts it |
| `Base32.UnpaddedIsCanonical` | common/bech32/src/lib.rs:724-756 | between any two widths, what is accepted without padding comes back when converted with it |
| `Base32.AcceptedIff` | common/bech32/src/lib.rs:724-756 | `convert_bits(5, 8, false)` accepts exactly what `convert_bits(8, 5, true)` makes of some bytes, and gives those |
| `Base32.RefusedValue` | common/bech32/src/lib.rs:737-740 | the error names the first value too large for its width, and occurs only for one |
| `Bech32.StepIsLinear` | common/bech32/src/lib.rs:172-181 | the checksum step is linear |
| `Bech32.StepIsInjective` | common/bech32/src/lib.rs:172-181 | it is injective on thirty-bit states |
| `Bech32.Polymod` | common/bech32/src/lib.rs:616-630 | the loop is the run of steps |
| `Bech32.CheckSymbolsComplete` | common/bech32/src/lib.rs:190-205 | the six check symbols bring the checksum to the variant's constant |
| `Bech32.CharRoundTrip` | common/bech32/src/lib.rs:636-651 | every symbol's character is ASCII, not upper case, not the separator, and stands for the symbol |
| `Bech32.LowerHrp` | common/bech32/src/lib.rs:367-396 | the human-readable part as written is the lowercased one and still valid |
| `Bech32.Bech32Writer.constructor` | common/bech32/src/lib.rs:146-170 | writes the human-readable part and starts the checksum with its expansion |
| `Bech32.Bech32Writer.WriteU5` | common/bech32/src/lib.rs:211-214 | writes one character and steps the checksum |
| `Bech32.Bech32Writer.WriteChecksum` | common/bech32/src/lib.rs:190-205 | writes the check symbols of the state |
| `Bech32.EncodeString` | common/bech32/src/lib.rs:406-427 | through the writer: the lowercased part, the separator, the data and its check symbols |
| `Bech32.RoundTrip` | common/bech32/src/lib.rs:495-531 | decoding an encoded string gives back the lowercased part, the data of any length and the variant |
| `Bech32.BurstIsDetected` | common/bech32/src/lib.rs:598-630 | two valid data parts of one variant that differ only within six consecutive symbols are equal |
| `Bech32.SingleErrorIsDetected` | common/bech32/src/lib.rs:598-630 | one wrong symbol is never valid for the same variant, at any length |
| `Bech32.DecodeDetectsBurst` | common/bech32/src/lib.rs:495-531 | two strings that decode in one variant, with the same separator, and differ only within six consecutive characters after it decode to the same |
| `Bech32.DecodeDetectsOne` | common/bech32/src/lib.rs:495-531 | one character after the separator replaced by one for another symbol never decodes in the same variant, at any length |
| `Bech32Strings.DecodeIff` | common/bech32/src/lib.rs:495-531 | a string decodes to a human-readable part, data and variant if and only if its letters have one case and in lower case it is what encoding those gives |
| `Bech32Strings.HrpPassesIff` | common/bech32/src/lib.rs:367-396 | a human-readable part is valid if and only if it has 1 to 83 printable characters and letters of one case |
| `Bech32Strings.StandsForIff` | common/bech32/src/lib.rs:636-651 | a character stands for a symbol if and only if its lower case is the symbol's character |
| `Bech32Strings.LettersAreCovered` | common/bech32/src/lib.rs:598-630 | data valid for one human-readable part is not valid in the same variant for another that differs only in the low bits of six consecutive characters |
| `Bech32Strings.CasesAreCovered` | common/bech32/src/lib.rs:598-630 | nor for one that differs only in the high bits of one character |
| `Bech32Strings.NetworksAreApart` | common/types/src/network.rs:49-51 | the prefixes of the three networks do not share an address |
| `Bech32Vectors.ShortBech32` | common/bech32/src/lib.rs:774 | `A12UEL5L` decodes to "a" without data, in the first variant |
| `Bech32Vectors.ShortBech32m` | common/bech32/src/lib.rs:780 | `A1LQFN3A` does so in the second |
| `Bech32Vectors.Alphabet` | common/bech32/src/lib.rs:776 | the published string of all 32 characters decodes to the 32 symbols in order |
| `Mnemonic.BitWriter.Push` | common/tiny-bip39/src/util.rs:124-135 | appends exactly the bits of the value |
| `Mnemonic.BitWriter.Len` | common/tiny-bip39/src/util.rs:137-139 | the number of bits written |
| `Mnemonic.BitWriter.IntoBytes` | common/tiny-bip39/src/util.rs:141-147 | the bytes of the bits written, the last one filled up with zeros |
| `Mnemonic.BitIter.Next` | common/tiny-bip39/src/util.rs:183-197 | hands out the next group, cut to 16 bits, exactly while enough bits are left |
| `Mnemonic.Regroup` | common/tiny-bip39/src/util.rs:28-36 | all groups of an iterator are the whole groups of its bits, cut to 16 bits; groups of at most that width are not changed |
| `Mnemonic.Pack` | common/tiny-bip39/src/util.rs:124-147 | values pushed one by one give the bytes of their bits |
| `Mnemonic.AcceptedIff` | common/tiny-bip39/src/mnemonic.rs:189-222 | a phrase is accepted exactly when its bits are the entropy followed by the first bits of its hash |
| `Mnemonic.EntropyRoundTrip` | common/tiny-bip39/src/mnemonic.rs:91-123 | every entropy of a permitted size comes back from its eleven-bit words |
| `Mnemonic.PhraseIsCanonical` | common/tiny-bip39/src/mnemonic.rs:189-222 | every accepted phrase is the one its entropy is written as |
| `Mnemonic.KeySizeIff` | common/tiny-bip39/src/mnemonic_type.rs:78-89 | the key sizes are the multiples of 32 bits from 128 to 256, each with one check bit for 32 |
| `Mnemonic.WordCountIff` | common/tiny-bip39/src/mnemonic_type.rs:54-65 | the word counts are the multiples of three from 12 to 24, of eleven bits a word and 32 in 33 of them entropy |
| `Mnemonic.FromEntropy` | common/tiny-bip39/src/mnemonic.rs:84-123 | succeeds exactly for 16, 20, 24, 28 and 32 bytes, with the words of the entropy joined by spaces, and otherwise gives the error for its size |
| `Mnemonic.PhraseToEntropy` | common/tiny-bip39/src/mnemonic.rs:189-222 | the entropy the words stand for, or the error for an unknown word, for a word count other than 12, 15, 18, 21 and 24, or for the checksum |
| `Mnemonic.SplitOfJoin` | common/tiny-bip39/src/util.rs:4-26 | words without spaces come back from the joined phrase |
| `Mnemonic.PhraseRoundTrip` | common/tiny-bip39/src/mnemonic.rs:84-222 | for any list of 2048 distinct words without spaces, a phrase made from entropy reads back as it |
| `Mnemonic.ReadsIff` | common/tiny-bip39/src/mnemonic.rs:84-222 | a phrase reads as an entropy if and only if it is the phrase made from it, character by character, and the entropy has one of the five sizes |
| `Mnemonic.JoinOfSplit` | common/tiny-bip39/src/util.rs:4-26 | any phrase comes back from its pieces |

## Left out

- Transaction pool, chain reorganisation, synchronisation, p2p, RPC, client, miner and node: networking, I/O or code whose intended invariants are not what it does.
- WebAssembly calls and application creation in `apply_transaction`: foreign execution.
- Cryptography: hashes are terms or parameters; signatures, key derivation and proof of work are not modelled.
- Byte layout of tree nodes and the picking of single bits out of a 32-byte path: a path is its bit sequence.
- `TreeDB` on disk and `TreeDB::apply`: the store is a map from roots to layers.
- TreeDb.TreeDB.Commit: covers `persist` true; with `persist` false nothing reaches the disk, which is not modelled.
- SparseMerkle.SparseMerkleTree.SideNodesForRoot: walks from the tree's own root, the only one whose nodes the store is known to hold.
- SparseMerkle.SparseMerkleTree.Prove: for the tree's own root, for the same reason.
- Ledger.BlockConserves: asks that the named accounts together hold less than 2^64; the exact condition is Ledger.BlockConservesIff.
- LedgerBlocks.BlockOrderDoesNotMatter: a sufficient condition; the exact one is stated of the running order, Ledger.OrderDoesNotMatterIff, since two different orders can still end in the same states.
- Ledger.BlockNonces: stated for nonces that stay within 64 bits over the block; every run is Ledger.AccountAfter.
- LedgerBlocks.PathsAgreeIff: the condition is the coinbase's account after the block; on the transactions it is LedgerBlocks.BlockRootsAgreeIff.
- LedgerBlocks.RootsAgreeIff: the same, for the roots.
- LedgerGrowth.MainGrows: a sufficient condition; without it blocks can come back to earlier accounts (LedgerGrowth.RewardsComeBack), and which reads that spoils is Overlay.ReadsRightIff.
- LedgerGrowth.ForkGrows: the same, on the fork path.
- Ledger.ApplyTx: sums wrap around as in a release build; a build with overflow checks panics there.
- Barossa.WorkRequired: the chain is one line of blocks, so a retarget header that lies on another branch is not shown; the bounds hold for any of its times. The limit on the time in the test network's rule wraps at 32 bits.
- `work_required_adjusted`, `Compact::to_f64` and `make_target`: dead code and floating point.
- `append_raw`, `clear`, `estimate_size` and typed decoding of integers and options in RLP.
- Bech32.SplitAndDecode: strings are sequences of characters; the UTF-8 bytes of characters outside ASCII, which are refused either way, are not modelled.
- Bech32 without checksum, and detection of up to four arbitrary errors, which rests on an exhaustive search.
- Unicode normalisation of phrases, word lists themselves, seeds and passphrases.
- Decimal and hexadecimal parsing, byte conversions, bitwise operators and random generation of the big integers.
