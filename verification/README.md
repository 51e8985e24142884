# NexusChain in Dafny

NexusChain is a layer-1 node written in Rust, with a privacy pool contract in Solidity. This project models the
parts of it whose correctness is a matter of data structures, arithmetic and protocol, and proves what those parts
are for. `dafny verify dfyconfig.toml` checks everything.

Classes of the original are classes here, with the same fields; loops are loops; tables and small formulas are
functions. A hash, a signature scheme, an encoding and a clock are parameters. Where a theorem needs the hash to be
collision free it says so (`CollisionFree`, `Binding`, `BindsContents`). Every public method is one atomic step.

| files | what they model |
|---|---|
| `TrieSpec.dfy`, `Trie.dfy`, `Storage.dfy` | the Merkle Patricia trie over its node table, proofs of inclusion, and the account database that commits into it |
| `DagGraph.dfy`, `DagState.dfy`, `DagSearch.dfy`, `Dag.dfy`, `DagRuns.dfy` | the DAG with its indexes, orphans, searches and whole runs |
| `Stake.dfy`, `Finality.dfy` | validator sets, finality proofs, voting, choice of a candidate |
| `Arith.dfy`, `Uint256.dfy`, `Decimal.dfy` | 256-bit integers as four limbs; printing and parsing them |
| `MerkleTree.dfy`, `PrivacyPool.dfy`, `BatchTree.dfy`, `SparseTree.dfy`, `Accumulator.dfy` | three Merkle trees, each held to a recursive definition |
| `Iso8583Fields.dfy`, `Iso8583.dfy` | the ISO 8583:1987 codec |
| `Journal.dfy` | the journaled state with nested checkpoints |
| `CheckDigits.dfy` | MOD 97-10 (ISO/IEC 7064) and the Luhn formula (ISO/IEC 7812-1, Annex B) |

## Main results

- **Trie.** An insertion keeps the one canonical shape; a canonical tree is determined by its lookups; so two runs of
  insertions give one root exactly when they leave one map behind, and a commit does not depend on its order.
  Earlier roots stay readable.
- **DAG.** The invariant over all indexes holds in every run, failed calls included. Nodes that receive the same
  well-made vertices in any two orders, with repeats, end with the same graph, the same statuses and the same orphans,
  and what is stored is the least parent-closed set.
- **Finality.** At most one target has a quorum at a time, no quorum is left unconsumed, and whenever two targets
  were finalized under one validator set, validators with more than a third of its stake validly signed both.
- **Arithmetic.** The limb loops compute the integer operations for all inputs; long division is exact although its
  shift can drop a bit; a printed number is read back.
- **Merkle trees.** The frontier tree has the root of the full padded tree exactly up to its capacity. Which proofs
  the accumulator accepts, which of them offer a commitment, and which of its own proofs verify after any number of
  commitments is settled exactly.
- **ISO 8583.** A message survives printing and parsing exactly when it does not use fields 1 and 65.
- **Journal.** Reverting a checkpoint restores every account and storage answer, whatever happened to inner ones, and
  which accounts exist exactly if no balance of an absent one was written.
- **Check digits.** Exactly which replacements of one character and which exchanges of two neighbours go unnoticed.

## Where the code differs from what it promises

The code is modelled as it is. Each point names the theorem that says exactly when the property holds, and an input
for which it fails.

- An insertion with a key that ends inside an extension slices past the end of the key and panics
  (`crates/nexus-state/src/trie.rs:235`): `TrieSpec.PutFailsIff`, for instance `Trie.KeyInsideExtensionPanics`. Keys
  of one length never do.
- A deleted account stays in the trie if an earlier commit put it there: `Storage.CommitExactIff`,
  `Storage.DeletedAccountLingers`.
- `verify_proof` compares the digest of the first node and never looks at the value. A wrong value can be passed off
  for every key of a non-empty trie, and absence under any root: `Trie.WrongProofAccepted`, `Trie.AbsenceAccepted`.
  What tells right proofs from wrong ones is following the nodes: `Trie.ProofRightIff`. A proof from an empty trie is
  refused, as the digest of the empty node is not the zero root: `Trie.MerkleTrie.Prove`.
- `init_genesis` stores what it is given and looks at no orphan: `DagState.GenesisKeepsInvIff`, `DagRuns.LateGenesis`.
- The date of a vertex is checked against the parents that are there on its arrival, and not again when it has waited
  for others. The stored vertices are in the order of their dates exactly under the condition of `DagState.DatedIff`;
  an older child of a younger parent is stored in `DagRuns.ChildOlderThanParent`.
- The pool contract does not stop at its capacity: `PrivacyPool.FullTreeIff`.
- The accumulator hashes zero words, not hashes of zeros, for vacant subtrees, so that its root is not that of the
  padded tree in general: `SparseTree.PlainRootIff`.
- Its verification fixes neither the length of a path nor that the index is taken: `SparseTree.AcceptedIff`,
  `SparseTree.OffersCommitmentIff`. The root passes as a leaf of an empty path, and zero as an absent neighbour:
  `SparseTree.RootPassesAsLeaf`, `SparseTree.ZeroPassesAsLeaf`.
- It takes commitments past its capacity, which come to stand below earlier ones and spoil their proofs:
  `Accumulator.OwnProofVerifiesIff`, `Accumulator.AllOwnProofsVerifyIff`.
- The decimal parser multiplies modulo 2^256 without notice, while its addition panics: `Decimal.ReadIs` says when it
  panics and what it reads otherwise, `Decimal.ReadExactIff` when that is the number. 2^256 itself panics,
  10^256 is read as zero: `Decimal.FirstTooLargePanics`, `Decimal.PowerOfTenReadAsZero`.
- ISO 8583 fields 1 and 65 are written but never read: `Iso8583.RoundTripIff`. `set_element` overflows for the
  number 0, in a shift, and for 129 to 255, in the subtraction before it: `Iso8583.Iso8583Message.SetElement`,
  `Iso8583.StrangeNumberUnwritable`.
- `commit_checkpoint` is documented to discard journal entries, but keeps them. Discarding them would leave the
  checkpoints below restorable only under the condition of `Journal.DiscardKeepsIff`, and not in
  `Journal.DiscardBreaksOuter`.
- A revert does not make accounts vanish that came to exist after the checkpoint:
  `Journal.JournaledState.RevertCheckpoint` says exactly which exist, `Journal.RevertLeavesAccount` is an example.
- The entry for a destroyed account does not bring back its storage: `Journal.UndoDestroyedIff`. Nothing records one.
- MOD 97-10 over letters and digits misses the replacement of a digit by a letter, or the reverse, behind one prefix
  in 97, such as 13 by 1A: `CheckDigits.SubstitutionDetectedIff`, `CheckDigits.TwoValidLeis`. It misses exchanges of a
  digit with a neighbouring letter worth eleven times as much, and Luhn those of 0 with 9:
  `CheckDigits.TranspositionDetectedIff`, `CheckDigits.LuhnTranspositionIff`.
- The IBAN pattern ends at 31 characters, but the table of countries has lengths of 32 and 33 (LC, NI, RU), whose
  IBANs never pass: `CheckDigits.CountryPassesIff`.

## Model

| member | source | states |
|---|---|---|
| TrieSpec.PutLookup | crates/nexus-state/src/trie.rs:122-280 | an insertion changes the answer at its own key to the new value and at no other key |
| TrieSpec.PutCanonical | crates/nexus-state/src/trie.rs:122-280 | an insertion keeps the canonical shape: no empty prefix, an extension leads to a branch, every branch has two slots taken |
| TrieSpec.CanonicalUnique | crates/nexus-state/src/trie.rs:122-280 | two canonical trees that answer all lookups alike are the same tree |
| TrieSpec.PutAllLookup | crates/nexus-state/src/trie.rs:115-280 | after any run of insertions a lookup gives the last value assigned to the key, or what was there before |
| TrieSpec.RunsConverge | crates/nexus-state/src/trie.rs:115-280 | two runs of insertions into an empty trie build one tree if and only if they leave one key-to-value map behind |
| TrieSpec.PutFailsIff | crates/nexus-state/src/trie.rs:180-260 | an insertion panics exactly when several stored keys extend the key and all go on with one nibble, whatever the value |
| TrieSpec.EqualLengthsNeverFail | crates/nexus-state/src/trie.rs:122-280 | with keys of one length no insertion panics |
| Trie.KeyInsideExtensionPanics | crates/nexus-state/src/trie.rs:193-240 | two keys that begin alike, then their beginning: the third insertion panics |
| Trie.RootInjective | crates/nexus-state/src/trie.rs:32-45 | with a collision free digest equal roots name equal trees |
| Trie.StoredGrows | crates/nexus-state/src/trie.rs:122-280 | a tree that can be read from the node table can still be read when the table has grown |
| Trie.NibblesAt | crates/nexus-state/src/trie.rs:410-417 | the two nibbles of a byte are at twice its index, the high one first |
| Trie.NibblesInjective | crates/nexus-state/src/trie.rs:410-417 | different keys have different nibbles |
| Trie.CheckAcceptsIff | crates/nexus-state/src/trie.rs:399-407 | under the root of a non-empty trie the check accepts exactly claims of absence without nodes and lists that begin with the root node |
| Trie.ProofRightIff | crates/nexus-state/src/trie.rs:399-407 | a proof whose nodes lead by their digests from the root to an answer has the right value if and only if it is that answer; the check accepts all such proofs of a non-empty trie |
| Trie.WrongProofAccepted | crates/nexus-state/src/trie.rs:399-407 | the check accepts a wrong value for every key of every non-empty trie |
| Trie.AbsenceAccepted | crates/nexus-state/src/trie.rs:399-402 | the check accepts an empty list of nodes as proof of absence under any root |
| Trie.MerkleTrie.constructor | crates/nexus-state/src/trie.rs:56-65 | a new trie is empty, with the zero root, and answers nothing for every key |
| Trie.MerkleTrie.KeyToNibbles | crates/nexus-state/src/trie.rs:410-417 | the loop yields the nibbles of the key |
| Trie.MerkleTrie.GetRecursive | crates/nexus-state/src/trie.rs:77-112 | reading below any stored node, under any root, is lookup in the tree that its digest names |
| Trie.MerkleTrie.Get | crates/nexus-state/src/trie.rs:73-75 | `get` answers as the current tree does |
| Trie.MerkleTrie.InsertRecursive | crates/nexus-state/src/trie.rs:122-280 | the nodes that are written make up exactly the tree that the specification inserts, all of it stored; the table only grows; panics coincide |
| Trie.MerkleTrie.SplitLeaf | crates/nexus-state/src/trie.rs:137-192 | splitting a leaf yields the branch over the stored and the new leaf, each stored under its next nibble |
| Trie.MerkleTrie.SplitExtension | crates/nexus-state/src/trie.rs:193-260 | splitting an extension yields the branch over its rest and the new leaf, and fails exactly when the key ends inside it |
| Trie.MerkleTrie.Insert | crates/nexus-state/src/trie.rs:115-119 | `insert` sets one key, keeps every other answer and every earlier root readable; on a panic the root does not move |
| Trie.MerkleTrie.ProveRecursive | crates/nexus-state/src/trie.rs:357-396 | the collected nodes lead a reader that checks every digest to the right answer |
| Trie.MerkleTrie.Prove | crates/nexus-state/src/trie.rs:341-407 | the trie's own proof carries the answer and replays to it; its own check accepts it exactly for a non-empty trie |
| Trie.RootsMatchContents | crates/nexus-state/src/trie.rs:47-65 | two valid tries have equal roots if and only if they answer every lookup alike |
| Storage.OverlayUnique | crates/nexus-state/src/storage.rs:175-187 | there is one canonical tree that overlays the accounts on a given trie |
| Storage.HoldsExactlyInjective | crates/nexus-state/src/storage.rs:175-187 | a tree that holds exactly the accounts of two maps shows that the maps are equal |
| Storage.StateRootBinds | crates/nexus-state/src/storage.rs:175-187 | tries that hold exactly their accounts have equal roots if and only if the account maps are equal |
| Storage.CommitExactIff | crates/nexus-state/src/storage.rs:167-187 | a commit leaves exactly the accounts in the trie if and only if no deleted account lingers in it |
| Storage.DeletedAccountLingers | crates/nexus-state/src/storage.rs:167-187 | an account that was committed and then deleted stays in the trie through the next commit |
| Storage.StateDb.constructor | crates/nexus-state/src/storage.rs:37-44 | a new database has no accounts and an empty trie, and every slot reads zero |
| Storage.StateDb.GetAccount | crates/nexus-state/src/storage.rs:52-56 | an absent account reads as nonce, balance and digests all zero |
| Storage.StateDb.SetAccount | crates/nexus-state/src/storage.rs:59-61 | sets one account and no other |
| Storage.StateDb.DeleteAccount | crates/nexus-state/src/storage.rs:167-172 | takes the account and its storage slots out of the maps, no other slot, and leaves the trie alone |
| Storage.StateDb.SetStorage | crates/nexus-state/src/storage.rs:138-151 | sets one slot and no other; slots that hold zero are not kept |
| Storage.StateDb.Commit | crates/nexus-state/src/storage.rs:175-187 | in whatever order the accounts come, no insertion panics and the root is that of the one canonical overlay |
| Storage.CommitsAgree | crates/nexus-state/src/storage.rs:175-187 | two databases without lingering deleted accounts commit to equal roots if and only if their accounts are equal, whatever the orders |
| DagGraph.HashFixesParents | crates/nexus-dag/src/vertex.rs:161-199 | two verified vertices with one hash agree in parents, transactions, timestamp and validator, but not in the height and what is not checked on arrival |
| DagGraph.VerifiedIff | crates/nexus-dag/src/vertex.rs:161-199 | a vertex is verified exactly if it has height zero or a parent, at most 8 parents and 1000 transactions, and the transaction root and hash of its contents |
| DagGraph.NextHeightAbove | crates/nexus-dag/src/dag.rs:160-166 | the expected height is above that of every stored parent |
| DagGraph.NextHeightAttained | crates/nexus-dag/src/dag.rs:160-166 | unless it is zero, it is one more than the height of some stored parent |
| DagGraph.GraphGrows | crates/nexus-dag/src/dag.rs:154-198 | a vertex whose parents are stored and whose height is one more than their greatest keeps the graph closed and levelled |
| DagGraph.AncestorIsLower | crates/nexus-dag/src/dag.rs:159-173 | proper ancestors are stored and strictly lower, so there are no cycles |
| DagGraph.TipAbove | crates/nexus-dag/src/dag.rs:180-189 | every vertex has a childless descendant at least as high |
| DagState.StoredKeepsStore | crates/nexus-dag/src/dag.rs:175-192 | storing a vertex keeps children the inverse of parents, tips the childless vertices, and the height and status indexes right |
| DagState.WaitingIsAbsent | crates/nexus-dag/src/dag.rs:201-229 | a vertex that waits for another is not stored, nor becomes so when that one is stored |
| DagState.AllLimited | crates/nexus-dag/src/vertex.rs:161-176 | in every valid state, each vertex that is stored or waits, genesis apart, has at most 8 parents and 1000 transactions |
| DagState.ParkedOk | crates/nexus-dag/src/dag.rs:126-147 | putting a vertex aside keeps the invariant |
| DagState.ParkedSettled | crates/nexus-dag/src/dag.rs:126-147 | a vertex put aside is listed under every absent parent and counts as delivered |
| DagState.GenesisKeepsInvIff | crates/nexus-dag/src/dag.rs:94-111 | `init_genesis` keeps the invariant if and only if the vertex has no parents and height zero and nothing refers to it yet |
| DagRuns.LateGenesis | crates/nexus-dag/src/dag.rs:94-111 | on a new DAG, a vertex that arrives before its only parent is not stored when that comes as the genesis vertex |
| DagState.StoredIsLeast | crates/nexus-dag/src/dag.rs:154-229 | the stored vertices lie in every set that contains each delivered vertex whose parents it contains |
| DagState.StoredIsClosed | crates/nexus-dag/src/dag.rs:154-229 | after a run without failures the stored vertices are such a set themselves |
| DagState.StoredIsComplete | crates/nexus-dag/src/dag.rs:154-229 | after a run without failures exactly those vertices are stored that have been delivered with all their ancestors |
| DagState.DatedIff | crates/nexus-dag/src/dag.rs:207-254 | the stored vertices are in the order of their dates if and only if no vertex delivered with all its ancestors is dated before a parent |
| DagRuns.ChildOlderThanParent | crates/nexus-dag/src/dag.rs:201-254 | a child dated before its parent is stored if it arrives first |
| DagState.StatusAfter | crates/nexus-dag/src/dag.rs:142-176 | a vertex that is taken in becomes confirmed with what waited for it, or is marked as waiting; no other status changes |
| DagState.Convergence | crates/nexus-dag/src/dag.rs:114-229 | two states after failure-free runs that delivered the same vertices agree in vertices, pending, children, tips, heights and dependencies, and in statuses if those of the same vertices were kept |
| Dag.Dag.constructor | crates/nexus-dag/src/dag.rs:78-91 | a new DAG satisfies the invariant and has been delivered nothing |
| Dag.Dag.InitGenesis | crates/nexus-dag/src/dag.rs:94-111 | fails exactly if there is a genesis vertex; otherwise the whole new state, and when it is valid |
| Dag.Dag.StoreVertex | crates/nexus-dag/src/dag.rs:175-192 | the loops over parents and the index updates reach the specified state |
| Dag.Dag.InsertVertex | crates/nexus-dag/src/dag.rs:154-198 | keeps the invariant, refuses exactly a wrong height without change, loses no orphan, and terminates although it calls itself through the orphans |
| Dag.Dag.ProcessOrphans | crates/nexus-dag/src/dag.rs:201-229 | whatever the order, a finished call leaves nothing behind that could be stored, except what outer calls have still to look at |
| Dag.Dag.TakeUp | crates/nexus-dag/src/dag.rs:207-225 | an orphan is inserted if nothing it needs is absent, else listed under all that still is |
| Dag.Dag.TakeIn | crates/nexus-dag/src/dag.rs:126-151 | a checked vertex is put aside or stored with what waited for it, and is refused exactly for a wrong height when all its parents are there |
| Dag.Dag.AddVertex | crates/nexus-dag/src/dag.rs:114-151 | over the fields of the vertex: which ones are refused, with which error first; that a refusal changes nothing, what a taken vertex changes, and that delivering consistent vertices never fails |
| Dag.Dag.SetFinalizedHeight | crates/nexus-dag/src/dag.rs:307-321 | the finalized height never falls; exactly the vertices at that very height are marked |
| Dag.Dag.LatestHeight | crates/nexus-dag/src/dag.rs:293-299 | the greatest height of a tip, which no vertex exceeds |
| Dag.Dag.IsAncestor | crates/nexus-dag/src/dag.rs:383-408 | the search decides reflexive reachability along parents |
| Dag.Dag.CalculateWeight | crates/nexus-dag/src/dag.rs:324-349 | the weight is the number of stored vertices that have the given one as an ancestor |
| Dag.Dag.GetAncestors | crates/nexus-dag/src/dag.rs:352-380 | each vertex at a shortest distance of 1 to `max_depth` once, no other, nearest first |
| DagRuns.DeliverOne | crates/nexus-dag/src/dag.rs:114-151 | for a well-made vertex the call returns Ok and adds exactly that vertex to what was delivered |
| DagRuns.Deliver | crates/nexus-dag/src/dag.rs:114-229 | every call of any sequence of such deliveries, with repeats, returns Ok |
| DagRuns.WithAllOrder | crates/nexus-dag/src/dag.rs:114-229 | what has been delivered depends on the set of vertices only |
| DagRuns.AnyOrderConverges | crates/nexus-dag/src/dag.rs:114-229 | two nodes that receive the same vertices in different orders accept every one and end alike, statuses included if these began alike, with the least parent-closed set stored |
| DagRuns.ValidateParents | crates/nexus-dag/src/tip_selection.rs:389-430 | accepts exactly 1 to 8 distinct, confirmed vertices none of which is an ancestor of another, and otherwise reports the first thing wrong |
| DagRuns.TipsAreValidParents | crates/nexus-dag/src/tip_selection.rs:389-430 | any 1 to 8 distinct tips are accepted |
| Stake.NewValidatorSet | crates/nexus-dag/src/finality.rs:67-78 | of entries with one id the last is kept; the stakes of distinct validators add up to no more than the total, and to exactly it without repeated ids |
| Stake.QuorumsOverlap | crates/nexus-dag/src/finality.rs:81-88 | two supermajorities share validators with more than a third of the total stake |
| Stake.SupermajorityIff | crates/nexus-dag/src/finality.rs:81-88 | a set of validators has a supermajority exactly if there is stake and less than a third of it is left |
| Stake.EqualStakes | crates/nexus-dag/src/finality.rs:81-88 | of n equal stakes k suffice exactly if 3k > 2n |
| Stake.WeightAdds | crates/nexus-dag/src/finality.rs:201-214 | nobody weighs nothing; one more validator adds its stake, a stranger nothing |
| Stake.WeightsFit | crates/nexus-dag/src/finality.rs:81-88 | the comparison of weights stays within 128 bits if three times the total does |
| Finality.Verify | crates/nexus-dag/src/finality.rs:186-224 | accepts exactly proofs in which distinct members signed the target in this epoch and less than a third of the stake is missing; else reports the first wrong vote, or insufficient weight if none is |
| Finality.Accountability | crates/nexus-dag/src/finality.rs:186-224 | any two accepted proofs share voters with more than a third of the stake, each of whom validly signed both targets |
| Finality.OneQuorum | crates/nexus-dag/src/finality.rs:326-351 | at most one target has a quorum among the votes of a round, so that the order of the groups cannot matter |
| Finality.QuorumIs | crates/nexus-dag/src/finality.rs:326-331 | a target has a quorum exactly if the stake of those who did not vote for it is less than a third |
| Finality.OnlyItsTarget | crates/nexus-dag/src/finality.rs:274-305 | a vote completes a quorum for no target but its own |
| Finality.GroupProves | crates/nexus-dag/src/finality.rs:326-337 | the votes of a group with a supermajority make a proof that `verify` accepts |
| Finality.FinalityGadget.constructor | crates/nexus-dag/src/finality.rs:256-271 | a new gadget has the given validators, no votes and no proofs, and has finalized nothing |
| Finality.FinalityGadget.AddVote | crates/nexus-dag/src/finality.rs:274-305 | which votes are refused and why; an accepted one replaces the voter's vote, and finalizes its target with exactly the votes for it if it is above the finalized height and less than a third of the stake is missing |
| Finality.FinalityGadget.GroupVotes | crates/nexus-dag/src/finality.rs:314-324 | every target with votes gets the group of exactly its voters and their weight |
| Finality.FinalityGadget.TryFinalize | crates/nexus-dag/src/finality.rs:308-354 | finalizes the newest target exactly if it is above the finalized height and less than a third of the stake is missing; no quorum is left over |
| Finality.FinalityGadget.StoredProofsOverlap | crates/nexus-dag/src/finality.rs:229-252 | any two stored proofs under one validator set share voters with more than a third of its stake, who signed both |
| Finality.FinalityGadget.UpdateValidatorSet | crates/nexus-dag/src/finality.rs:418-427 | the new set takes over with its total, votes are dropped, stored proofs stay good under the sets of their time |
| Finality.FinalityGadget.ApplyProof | crates/nexus-dag/src/finality.rs:439-465 | takes exactly accepted proofs of known targets; records them, and marks their very level in the DAG, if they are higher than what is finalized |
| Finality.FinalityGadget.FindBestCandidate | crates/nexus-dag/src/finality.rs:363-391 | a highest vertex above the finalized height that is an ancestor of every tip; none only if none exists |
| Uint256.CheckedAdd | crates/nexus-primitives/src/types.rs:103-119 | the sum, or `None` exactly when it does not fit |
| Uint256.CheckedSub | crates/nexus-primitives/src/types.rs:121-137 | the difference, or `None` exactly when it would be negative |
| Uint256.Cmp | crates/nexus-primitives/src/types.rs:199-209 | the order of the integers, with equality only of equal limbs |
| Uint256.Mul | crates/nexus-primitives/src/types.rs:159-180 | the product modulo 2^256, every cell within 128 bits |
| Uint256.BitIsBit | crates/nexus-primitives/src/types.rs:238-240 | reading a bit of a limb reads that bit of the number |
| Uint256.Shl1 | crates/nexus-primitives/src/types.rs:242-250 | doubles modulo 2^256 |
| Uint256.SetBitAt | crates/nexus-primitives/src/types.rs:252-255 | sets that bit of the number and no other |
| Uint256.PartBound | crates/nexus-primitives/src/types.rs:223-235 | in every step of the division the doubled remainder is a part of the dividend, so that the shift loses no bit |
| Uint256.CheckedDiv | crates/nexus-primitives/src/types.rs:215-236 | the integer quotient for every dividend and divisor, `None` exactly for the divisor zero |
| Decimal.DigitsInOrder | crates/nexus-primitives/src/types.rs:264-281 | the digit n is the character at place n of "0123456789", in both directions |
| Decimal.OnlyTheseAreDigits | crates/nexus-node/src/genesis.rs:88-99 | no other character is a digit |
| Decimal.SpelledSkips | crates/nexus-node/src/genesis.rs:88-99 | a character that is no digit adds nothing to the number |
| Arith.SetBitEffect | crates/nexus-primitives/src/types.rs:252-255 | setting a bit sets that one and leaves the others alone |
| Decimal.Display | crates/nexus-primitives/src/types.rs:264-281 | terminates with digits only, without leading zeros, that spell the number; a number n below ten is the character at place n of "0123456789" |
| Decimal.ParseU256Decimal | crates/nexus-node/src/genesis.rs:88-99 | the loop computes what multiplying modulo 2^256 and a failing addition compute digit by digit; the character at place n of "0123456789" is read as n |
| Decimal.ReadExactIff | crates/nexus-node/src/genesis.rs:88-99 | a string is read as the number it spells if and only if that number is below 2^256 |
| Decimal.ReadIs | crates/nexus-node/src/genesis.rs:88-99 | reading panics exactly if some digit overflows the addition to ten times what was read modulo 2^256; otherwise it gives the number modulo 2^256 |
| Decimal.TooLarge | crates/nexus-node/src/genesis.rs:88-99 | a number past the range either panics or is silently read as another one, and which of the two |
| Decimal.FirstTooLargePanics | crates/nexus-node/src/genesis.rs:88-99 | the first four numbers past the range panic |
| Decimal.PowerOfTenReadAsZero | crates/nexus-node/src/genesis.rs:88-99 | 10^256 and higher powers of ten are read as zero |
| Decimal.RoundTrip | crates/nexus-node/src/genesis.rs:88-99 | every 256-bit integer is printed and read back without a panic |
| MerkleTree.ClimbIff | crates/nexus-zkp/src/poseidon.rs:239-261 | with a binding hash a path leads from a leaf to a node exactly if it is the leaf at the spelled index with its siblings |
| MerkleTree.SiblingsClimb | crates/nexus-zkp/src/poseidon.rs:239-261 | with any hash the siblings of a leaf lead to the node over it |
| MerkleTree.RowsAreNodes | crates/nexus-zkp/src/poseidon.rs:209-236 | rows of words that begin with the leaves and zeros, each hashing the pairs of the one below, are the nodes of the tree |
| MerkleTree.FoldUpIsRoot | crates/nexus-zkp/src/poseidon.rs:209-236 | folding the padded leaves level by level gives the root of the recursively defined tree |
| MerkleTree.EqualNodes | contracts/NexusPrivacyPool.sol:192-194 | with a binding hash equal nodes of one level stand over equal leaves |
| PrivacyPool.FullTreeIff | contracts/NexusPrivacyPool.sol:85-102 | the root after n deposits is that of the full padded tree if and only if n is at most 2^depth |
| PrivacyPool.AgreesWithBatch | contracts/NexusPrivacyPool.sol:85-102 | within capacity it is also what the batch algorithm computes from all deposits |
| PrivacyPool.FrontierStep | contracts/NexusPrivacyPool.sol:88-97 | after a deposit each level remembers the left sibling that the next deposit will need |
| PrivacyPool.NexusPrivacyPool.constructor | contracts/NexusPrivacyPool.sol:53-66 | the root of an empty pool is that of the tree of zero leaves |
| PrivacyPool.NexusPrivacyPool.ZerosAt | contracts/NexusPrivacyPool.sol:196-203 | the root of an empty subtree of the given height |
| PrivacyPool.NexusPrivacyPool.Deposit | contracts/NexusPrivacyPool.sol:74-106 | which deposits are taken, that a refusal changes nothing, and that root and frontier stay right for all deposits so far |
| PrivacyPool.NexusPrivacyPool.InsertLeaf | contracts/NexusPrivacyPool.sol:85-99 | one walk up yields the root over all leaves and the frontier for the next one |
| PrivacyPool.NexusPrivacyPool.EnableCompliance | contracts/NexusPrivacyPool.sol:176-180 | turns compliance on and names the oracle |
| PrivacyPool.NexusPrivacyPool.UpdateSanctioned | contracts/NexusPrivacyPool.sol:185-188 | only the oracle changes the list, for one account |
| BatchTree.PoseidonMerkle.ComputeRoot | crates/nexus-zkp/src/poseidon.rs:209-236 | zero without leaves; with up to 2^depth the root of the recursively defined tree |
| BatchTree.PoseidonMerkle.NextLevel | crates/nexus-zkp/src/poseidon.rs:222-233 | word by word the hashes of neighbours, with zero beside an odd one out |
| BatchTree.PoseidonMerkle.VerifyProof | crates/nexus-zkp/src/poseidon.rs:239-261 | accepts exactly paths of full length that lead to the root; of one step, on the side that the direction says |
| BatchTree.ProofIff | crates/nexus-zkp/src/poseidon.rs:239-261 | with a binding hash a path leads to the root if and only if it is the leaf at the spelled index with its siblings |
| SparseTree.OtherSparse | crates/nexus-zkp/src/commitment.rs:240-274 | adding a leaf changes only the nodes above it |
| SparseTree.RowsAreSparse | crates/nexus-zkp/src/commitment.rs:240-274 | rows of words that begin with the leaves and zeros, each hashing the pairs of the one below unless all leaves lie before, are the nodes of the tree |
| Accumulator.StepUp | crates/nexus-zkp/src/commitment.rs:253-273 | one turn of the update loop makes one more node of the path right and disturbs no other |
| Accumulator.ArrayIsExact | crates/nexus-zkp/src/commitment.rs:240-274 | within the capacity every node of the array is what the commitments make it |
| Accumulator.AboveConsistent | crates/nexus-zkp/src/commitment.rs:240-274 | after any number of commitments, the nodes above a slot that was written are the hashes of what stands below them |
| Accumulator.SlotHolds | crates/nexus-zkp/src/commitment.rs:240-274 | a slot holds its commitment until a later one comes to stand below it, and a hash from then on; exactly when that is |
| Accumulator.FirstPastCapacity | crates/nexus-zkp/src/commitment.rs:240-274 | after one commitment more than the tree has leaves, the first slot holds the hash of that commitment with zero |
| Accumulator.OwnProofVerifiesIff | crates/nexus-zkp/src/commitment.rs:183-237 | after any number of distinct commitments, the proof for index i verifies if and only if i is below 2^depth and there are at most 2^depth + 2i of them |
| Accumulator.AllOwnProofsVerifyIff | crates/nexus-zkp/src/commitment.rs:183-237 | all proofs verify if and only if there are at most 2^depth commitments |
| SparseTree.Verify | crates/nexus-zkp/src/commitment.rs:302-320 | the check climbs path and directions in step, as far as both go, and compares with the root |
| SparseTree.SparseClimb | crates/nexus-zkp/src/commitment.rs:204-237 | with any hash the siblings of a node lead to the nodes above it, unless over a vacant one |
| SparseTree.ProofBinds | crates/nexus-zkp/src/commitment.rs:302-320 | with a binding hash a proof of which exactly as many steps are looked at as the tree is high, and which spells a committed index, offers the commitment at that index |
| SparseTree.AcceptedIff | crates/nexus-zkp/src/commitment.rs:302-320 | for proofs of any length: accepted if and only if it offers the node at the level given by its length and the position it spells, with its siblings, over no vacant node |
| SparseTree.OffersCommitmentIff | crates/nexus-zkp/src/commitment.rs:302-320 | an accepted proof offers a commitment if and only if it has full length and spells the index of one, and then that one; longer proofs are never accepted |
| SparseTree.RootPassesAsLeaf | crates/nexus-zkp/src/commitment.rs:302-320 | a proof without steps passes the root off as a leaf, which it is not |
| SparseTree.ZeroPassesAsLeaf | crates/nexus-zkp/src/commitment.rs:302-320 | with one commitment, a proof of full length passes zero off as the second |
| SparseTree.PlainRootIff | crates/nexus-zkp/src/commitment.rs:173-180 | the accumulator has the root of the plain padded tree if and only if at most the last leaf is missing |
| Accumulator.CommitmentAccumulator.constructor | crates/nexus-zkp/src/commitment.rs:173-180 | the new array is that of no commitments |
| Accumulator.CommitmentAccumulator.Root | crates/nexus-zkp/src/commitment.rs:195-201 | within the capacity, the root of the tree over the commitments |
| Accumulator.CommitmentAccumulator.Add | crates/nexus-zkp/src/commitment.rs:183-192 | appends, returns the index, and leaves the array as specified for all commitments so far, past the capacity as well |
| Accumulator.CommitmentAccumulator.UpdateTree | crates/nexus-zkp/src/commitment.rs:240-274 | the growing, writing and walking loops reach the specified array for any index |
| Accumulator.CommitmentAccumulator.Proof | crates/nexus-zkp/src/commitment.rs:204-237 | a proof exists exactly for commitments, is what stands beside the way up, spells the index, and verifies within the capacity |
| Iso8583Fields.DecodeEncoded | crates/nexus-iso/src/iso8583.rs:313-392 | every field is read back from its own encoding, whatever precedes and follows it: position by position the value, in a fixed field blank from its end on |
| Iso8583Fields.EncodedForm | crates/nexus-iso/src/iso8583.rs:313-343 | byte by byte what is written: the value cut or followed by blanks, or two or three decimal digits for its length and then the value |
| Iso8583Fields.ExactValueKept | crates/nexus-iso/src/iso8583.rs:315-319 | a value of exactly the length of its fixed field is written as it is |
| Iso8583Fields.FieldsByEncoding | crates/nexus-iso/src/iso8583.rs:222-310 | for each encoding the fields that have it |
| Iso8583Fields.DecodeFieldIs | crates/nexus-iso/src/iso8583.rs:346-392 | byte by byte what is read at any position of any data, and when that fails: a maximum length is not looked at, and the first digit of a length may be a plus sign |
| Iso8583Fields.EncodeField | crates/nexus-iso/src/iso8583.rs:313-343 | succeeds exactly for existing fields with variable values within their maximum |
| Iso8583Fields.PrefixesParse | crates/nexus-iso/src/iso8583.rs:346-392 | two- and three-digit length prefixes are read back |
| Iso8583Fields.PlusIsDropped | crates/nexus-iso/src/iso8583.rs:356-389 | a length prefix may begin with a plus sign; apart from that only digits are read |
| Iso8583.CodesRoundTrip | crates/nexus-iso/src/iso8583.rs:29-45 | every message type is recognised from its own code and from the four hexadecimal digits of it |
| Iso8583.CodesOnWire | crates/nexus-iso/src/iso8583.rs:29-45 | the four bytes of each message type |
| Iso8583.HexRoundTrip | crates/nexus-iso/src/iso8583.rs:401-406 | every 16-bit code is read back from its four hexadecimal digits |
| Iso8583.HexValueIff | crates/nexus-iso/src/iso8583.rs:401-406 | which bytes are hexadecimal digits, of either case, and for which value |
| Iso8583.TwoForms | crates/nexus-iso/src/iso8583.rs:400-452 | with the message type as two bytes in place of four digits, whatever follows is parsed to the same message or the same error |
| Iso8583.TrailingIgnored | crates/nexus-iso/src/iso8583.rs:395-452 | whatever stands behind a message that can be parsed is ignored |
| Iso8583.UnknownTypeIff | crates/nexus-iso/src/iso8583.rs:395-415 | data is refused for its message type exactly if its first four hexadecimal digits, or first two bytes, are none of the eight codes |
| Iso8583.LeastFirst | crates/nexus-iso/src/iso8583.rs:470-478 | of the fields the one with the least number is written first, then the others in the same way |
| Iso8583.BytesRoundTrip | crates/nexus-iso/src/iso8583.rs:412-430 | a bitmap is read back from its bytes |
| Iso8583.BitmapOnWire | crates/nexus-iso/src/iso8583.rs:455-468 | counted from the first bitmap bit on, the bit with the number of a field is set exactly if the message has the field |
| Iso8583.RangeRoundTrip | crates/nexus-iso/src/iso8583.rs:395-481 | the fields that a bitmap announces are read back in order, each into its own place |
| Iso8583.RoundTrip | crates/nexus-iso/src/iso8583.rs:395-481 | a message over fields 2 to 64 and 66 to 128 is read back with its type, bitmaps and elements, variable ones unchanged, fixed ones position by position up to their end and blank from there on |
| Iso8583.RoundTripIff | crates/nexus-iso/src/iso8583.rs:395-481 | any built message survives if and only if it has neither field 1 nor field 65 |
| Iso8583.ParsedFields | crates/nexus-iso/src/iso8583.rs:425-452 | no parsed message has the fields 1 and 65 |
| Iso8583.Iso8583Message.constructor | crates/nexus-iso/src/iso8583.rs:72-79 | a new message has no elements and empty bitmaps |
| Iso8583.Iso8583Message.SetElement | crates/nexus-iso/src/iso8583.rs:82-94 | sets one element; which bit it sets in which bitmap, for which numbers it panics, and that without overflow checks exactly such a number breaks the bitmaps |
| Iso8583.StrangeNumberUnwritable | crates/nexus-iso/src/iso8583.rs:313-343 | a message with a field numbered 0 or above 128 cannot be written |
| Iso8583.Iso8583Message.Serialize | crates/nexus-iso/src/iso8583.rs:455-481 | header and fields in ascending order, or the error of the first field that cannot be written; succeeds exactly if there is none |
| Iso8583.Parse | crates/nexus-iso/src/iso8583.rs:395-452 | succeeds and fails, with that message and that error, as the specification of parsing does; data of less than ten bytes is refused for its format |
| Iso8583.Transmit | crates/nexus-iso/src/iso8583.rs:395-481 | printing and parsing a message object without fields 1 and 65 succeeds exactly if all its fields can be written; position by position every element arrives |
| Journal.UndoAllSplit | crates/nexus-evm/src/state.rs:319-328 | undoing a journal is undoing its later part and then its earlier part |
| Journal.UndoAllAccounts | crates/nexus-evm/src/state.rs:319-356 | undoing removes no account and brings back those whose balance is in the journal |
| Journal.UndoBalance | crates/nexus-evm/src/state.rs:359-366 | the entry recorded for a balance undoes the write |
| Journal.UndoSlot | crates/nexus-evm/src/state.rs:369-377 | the entry recorded for a storage slot undoes the write |
| Journal.UndoOthers | crates/nexus-evm/src/state.rs:331-356 | the entries for a nonce and for code undo such a write, that for a created account takes it away |
| Journal.UndoDestroyedIff | crates/nexus-evm/src/state.rs:331-341 | the entry for a destroyed account brings back the account, and what its storage read if and only if that was all zero |
| Journal.WriteKeeps | crates/nexus-evm/src/state.rs:359-377 | a recorded write keeps every open checkpoint restorable |
| Journal.RevertKeeps | crates/nexus-evm/src/state.rs:319-328 | after a revert the checkpoints below are as restorable as before |
| Journal.RevertExists | crates/nexus-evm/src/state.rs:319-328 | a revert changes nothing about which accounts exist |
| Journal.DiscardKeepsIff | crates/nexus-evm/src/state.rs:311-316 | were the entries since a checkpoint discarded on its commit, the ones below would stay restorable if and only if whatever has changed since had been written below already |
| Journal.DiscardBreaksOuter | crates/nexus-evm/src/state.rs:311-316 | with two checkpoints and one write, discarding its entry leaves the outer one unrestorable |
| Journal.StateDb.constructor | crates/nexus-evm/src/state.rs:63-72 | in a new database every balance and every slot reads zero |
| Journal.StateDb.SetBalance | crates/nexus-evm/src/state.rs:94-98 | sets the balance of one account and leaves the rest of it and of all others; no other balance and no slot reads differently |
| Journal.StateDb.SetStorage | crates/nexus-evm/src/state.rs:174-183 | sets one slot and no other |
| Journal.StateDb.DeleteAccount | crates/nexus-evm/src/state.rs:198-202 | removes an account with its storage, which reads zero from then on; no other account or slot reads differently |
| Journal.JournaledState.constructor | crates/nexus-evm/src/state.rs:296-302 | starts without journal and checkpoints |
| Journal.JournaledState.Checkpoint | crates/nexus-evm/src/state.rs:305-309 | opens a checkpoint at the top of the stack that stands for the present state |
| Journal.JournaledState.CommitCheckpoint | crates/nexus-evm/src/state.rs:312-316 | gives up a checkpoint and those above it, while those below stay restorable |
| Journal.JournaledState.RevertEntry | crates/nexus-evm/src/state.rs:331-356 | each kind of entry has its own inverse |
| Journal.JournaledState.RevertCheckpoint | crates/nexus-evm/src/state.rs:319-328 | every account and storage answer is what it was when the checkpoint now at that index was taken; the accounts that exist are those of then and those whose balance was written since; an unknown index changes nothing |
| Journal.RevertLeavesAccount | crates/nexus-evm/src/state.rs:186-195 | after a write to an absent account and its revert the account exists, empty |
| Journal.JournaledState.SetBalance | crates/nexus-evm/src/state.rs:359-366 | writes the balance and keeps all checkpoints restorable |
| Journal.JournaledState.SetStorage | crates/nexus-evm/src/state.rs:369-377 | writes the slot and keeps all checkpoints restorable |
| CheckDigits.Remainder97 | crates/nexus-iso/src/validators.rs:75-81 | the chunk loop computes the whole decimal string modulo 97, at any length, within 64 bits |
| CheckDigits.ValuesInOrder | crates/nexus-iso/src/validators.rs:63-72 | digits and then letters have the values 0 to 35 in their order |
| CheckDigits.ToNumeric | crates/nexus-iso/src/validators.rs:63-72 | letters become two digits, digits stay |
| CheckDigits.SubstitutionDetectedIff | crates/nexus-iso/src/validators.rs:63-85 | exactly which replacements of one character by another change the remainder: all of like by like, and of a digit by a letter or the reverse all but those that depend on the prefix in a stated way |
| CheckDigits.ThreeForA | crates/nexus-iso/src/validators.rs:63-85 | 13 and 1A in front of any text have one remainder |
| CheckDigits.TranspositionDetectedIff | crates/nexus-iso/src/validators.rs:63-85 | exchanging two neighbours changes the remainder unless they are equal or a letter is worth eleven times the digit |
| CheckDigits.ValidateLei | crates/nexus-iso/src/validators.rs:110-146 | after conversion to upper case, accepts exactly strings of the right length and form with remainder 1, and which error comes first |
| CheckDigits.LeiThreeForA | crates/nexus-iso/src/validators.rs:16-18 | an identifier that begins with 13 is exactly as valid with 1A in its place |
| CheckDigits.TwoValidLeis | crates/nexus-iso/src/validators.rs:110-146 | two valid identifiers that differ in one character |
| CheckDigits.IbanChecksum | crates/nexus-iso/src/validators.rs:61-85 | accepts exactly a remainder of 1 after the first four characters have gone to the end |
| CheckDigits.ValidateIban | crates/nexus-iso/src/validators.rs:21-88 | accepts exactly strings of the right form, and length where the country is known, with remainder 1, and which error comes first |
| CheckDigits.CountryPassesIff | crates/nexus-iso/src/validators.rs:7-59 | some IBAN of a known country passes if and only if the length in the table is between 15 and 31 |
| CheckDigits.IbanSubstitutionIff | crates/nexus-iso/src/validators.rs:61-85 | exactly which replacements of one character of an IBAN leave its checksum as it was |
| CheckDigits.ValidateCardNumber | crates/nexus-iso/src/validators.rs:149-181 | accepts exactly 13 to 19 digits, whatever stands between them, whose Luhn sum is a multiple of ten |
| CheckDigits.LuhnTwoPlaces | crates/nexus-iso/src/validators.rs:158-171 | from the end, the last digit counts as itself, the one before it with the digit sum of its double, and so on two places at a time |
| CheckDigits.LuhnLast | crates/nexus-iso/src/validators.rs:158-171 | replacing the last digit changes the sum by the difference of the digits |
| CheckDigits.KnownCard | crates/nexus-iso/src/validators.rs:149-181 | 4111111111111111 has the sum 30 |
| CheckDigits.OnlyDigitsAre | crates/nexus-iso/src/validators.rs:149-152 | digits are kept, and nothing else is |
| CheckDigits.OnlyDigitsAppend | crates/nexus-iso/src/validators.rs:149-152 | the digits of a text are those of its parts, in order |
| CheckDigits.LuhnSubstitution | crates/nexus-iso/src/validators.rs:158-177 | a valid number with one digit changed is invalid |
| CheckDigits.LuhnTranspositionIff | crates/nexus-iso/src/validators.rs:158-177 | a valid number with two neighbours exchanged is invalid unless they are equal or 0 and 9 |

## Left out

- Trie deletion: it does nothing below an extension, so that the canonical shape and the lookups of the map are not what it keeps.
- RLP encoding and Keccak: an injective digest that is never zero stands for them; `Hash` is an unbounded number so that such a digest exists.
- DagState.Settled: what it says of pending vertices holds after runs in which every call returned Ok; the error of a wrong height stops the orphan loop early.
- DagRuns.AnyOrderConverges: is about deliveries; calls of `set_finalized_height` in between mark what is there at that time, as `Dag.Dag.SetFinalizedHeight` says.
- Dag.Dag.SetFinalizedHeight: marks one height only, as the code does; it states no link between a vertex and its finalized ancestors.
- `Dag::prune` and `stats`: pruning drops parents that the invariant needs.
- Transactions of a vertex: represented by their hashes; its state and receipt roots, weight, signature, version and extra data by one field, as nothing looks at them here; the vertex hash and the Merkle root over transactions are parameters.
- Finality weights are unbounded naturals; `Stake.WeightsFit` gives the condition under which 128 bits suffice.
- `create_vote`, `get_proofs`, `finalized_state` and the configuration of the finality gadget: plain reads.
- Signature texts and keys: `Scheme` says what becomes of a signature over a round and a target.
- `BftConsensus`: it adds up stake without comparing hashes or views, so agreement is not what it decides.
- U256 conversion from and to bytes, and the hexadecimal parser.
- PrivacyPool.NexusPrivacyPool.Deposit: a revert is a result `false` that changes nothing; events and payments are not modelled.
- `withdraw` and nullifiers: they rest on a proof verifier that is not part of this model.
- Pedersen commitments, notes, Poseidon rounds and field arithmetic: the tree hash is a parameter.
- Accessors of single ISO 8583 fields and the constructors of requests and responses: they would add only easy members.
- Journal entries for created and destroyed accounts, nonces and code: the code can undo them but never records them.
- The table of country lengths is a parameter, as are the conversions to upper case and the removal of blanks; a character stands for a byte of the text. BIC and card networks: tables and regular expressions.
- Accumulator.OwnProofVerifiesIff: assumes that no commitment is zero or a hash value of the tree, and that commitments differ.
- Locks inside methods; iteration over hash maps is modelled as an arbitrary order.
- Executor, precompiles, RPC, libp2p, mempools, staking rewards, tip selection strategies, ISO 20022, configuration and files.
