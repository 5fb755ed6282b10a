# Solnadocash, verified

Solnadocash is a privacy pool: deposits of one fixed denomination put a commitment into a Merkle tree, and a
withdrawal pays one denomination out against a zero-knowledge proof that some commitment in the tree belongs to
the withdrawer and has not been used before. This project models the on-chain program, the client's tree and its
reconstruction, the fee arithmetic of the four parties, the monitor's balance check, the note's text form and the
browser's note storage, and proves what they promise together.

`dafny verify dfyconfig.toml` checks everything.

## How it is put together

- **Field, Words, MerkleSpec** fix the arithmetic: field elements, bytes, and a plain definition of the padded
  tree of depth 20, with no caching, against which both implementations are measured. Poseidon is a parameter.
  Binding is stated as "equal, unless a collision can be read off these two trees (or this path and this tree)":
  `TreeClash` and `PathClash` name the position of the collision, so no false axiom about hashing is needed.
- **PoolState, SdkTree, PoolLayout, TreeAgreement** are the on-chain incremental tree with its ring of 256 roots,
  the client's layered tree, the account's bytes with the four programs that read them, and why the two trees agree.
- **ProgramFees, RelayerFees, ClientFees, FeeHandshake** are the fee contract, party by party and end to end.
- **Accounts, Chain** are a lamport ledger in which one address is one cell, and the pool as a state machine over
  it: initialisation, deposit, withdrawal, pause, unpause, and anything third parties may do. **Program** is the
  same thing as the program runs it, guard by guard and cell by cell on mutable objects, with rollback, and is
  proved to do exactly what the state machine says.
- **ChainInvariant, ChainTheorems, Instructions** hold over every run for an arbitrary proof verifier; Instructions says
  in balances who may act, who pays and who is paid. **Solvency** adds an ideal
  one: every acceptance comes with a witness of the circuit's relation, and honest witnesses are accepted.
  **WithdrawClient** builds that witness from the client's tree, and the tree from its cache.
- **Monitor, RelayerPreflight** are checked against the same states.
- **History, Chronology, Assembly, DepositRecovery, Reconstruction, LeafCache, Rebuild, RebuildRuns** recover the leaves from
  transaction history through an untrusted cache. (**Sequences** and **Arith** hold generic lemmas.)
- **Hex, NoteCodec** are the note's text form; **NoteVault, DepositFlow, DepositRuns** its storage under several
  tabs, and the deposit page on top of it.

Every assumption behind the liveness, solvency and reconstruction results is a named predicate: `HashHolds` and
`Spendable` (no collision met by the notes at hand), `KnowledgeSound` and `Complete` (the ideal verifier),
`Ordinary` (the relayer can pay and the payees are not the pool's own accounts), `HonestRpc` (asked without a bound or
with one it accepts, the RPC lists a stretch of the pool's history, in any order, with any tail of each transaction's
events lost).

## What the proofs found

- **Only a cache the client did not write can change the answer.** The comment at `app/src/utils/merkle.ts:385-388` says
  that the cache can only affect speed. With an honest RPC that is true of every cache whose leaves are a prefix of the
  chain's or run past them, and of a cache of the chain's length that fails verification: the returned leaves are the
  chain's, with no assumption about the hash or about zero leaves (`Rebuild.RightFor`, ensured by
  `Rebuild.RebuildMerkleTree`). Every cache that a rebuild writes is such a prefix, so from a cold cache every rebuild of a
  browser returns the chain's leaves, however many there are and whichever states of the chain they see
  (`RebuildRuns.EveryRebuildIsRight`). It is false of a cache of the chain's length that passes verification without being
  the chain's, which is returned as it is. `Rebuild.WrongCachesStand` gives two kinds. One leaf can be raised by the field
  prime, because `loadCache` accepts any 64 hex digits and the client's hash reduces its inputs
  (`TreeAgreement.NonCanonicalLeafPasses`). And any of the last 255 leaves with all after it can be replaced by zeros,
  because verification accepts every root still in the ring (`TreeAgreement.ZeroTailPasses`). In both cases a search for
  the note at that leaf finds nothing. `TreeAgreement.VerifiedExactlyRecentTails` says exactly what verification lets
  through: modulo the prime, a recent prefix of the chain's leaves filled up with zeros.
  `TreeAgreement.VerifiedTreeIsOnChain` says exactly when a verified list is the chain's: its root is the newest one, which
  the client can read at `current_root_index`, and every leaf is below the prime.
- **A cached bound can block every rebuild.** `loadCache` does not look at `lastSignature`, and the first scan passes it
  to the RPC as its lower bound outside any `try` (`app/src/utils/merkle.ts:417`). With an honest RPC
  `Rebuild.RebuildMerkleTree` returns a tree if and only if the cache already has the chain's leaf count or its bound is
  absent or one the RPC accepts; otherwise the cache stays as it is, and so does the failure.
  `Rebuild.UnacceptedBoundBlocks` is the input, and `Rebuild.RebuildIsBlocked` runs the rebuild on it.
- **An unreadable entry can cost a legacy note.** Migration skips a note whose own key holds anything at all and then
  removes the array. `NoteVault.KeptExactlyWhenReadable` states exactly when a note at rest is never lost: when its
  own key is free or holds its readable entry.
- **A message shown for the wrong case.** The deposit page's last error branch tells the user that the note "has been
  saved in this browser". `DepositFlow.HandleDeposit` shows that it is reached exactly when the preparation failed with
  an unrecognised error, before anything was staged; `DepositFlow.OrdinaryFailureIsUnrecognised` is such an error.
- **A zero leaf is invisible** (`MerkleSpec.ZeroLeafIsInvisible`), so "every insert changes the root" is false.
- **Unreachable errors.** `FeeInvariantViolated`, `LamportOverflow` (with the supply within 64 bits), the monitor's
  `INVARIANT_LOGIC_ERROR` and the relayer's second subsidy check cannot occur.

## Model

Rows marked **Main.** are the results the others build up to.

| member | source | states |
|---|---|---|
| Words.IsCanonicalFr | programs/solnadocash/src/withdraw.rs:219-232 | **Main.** The byte loop accepts exactly the 32-byte big-endian values below the field prime |
| Words.AcceptedAliasesAreEqual | programs/solnadocash/src/withdraw.rs:203-253 | Two accepted values congruent modulo the prime are the same bytes, hence the same address seed |
| Words.PubkeyToFieldOnChain | programs/solnadocash/src/withdraw.rs:187-200 | The program's key encoding never fails and is the hash of the key's two 128-bit halves |
| Words.PubkeyToField | sdk/src/proof.ts:102-110 | The client's and the relayer's byte loops compute that same field element |
| Words.KeyEncodingBinds | programs/solnadocash/src/withdraw.rs:158-200 | Two different keys with one encoding exhibit a collision of the hash on explicit canonical inputs |
| MerkleSpec.WidthIsCeiling | sdk/src/proof.ts:152-171 | The width of level k is n / 2^k rounded up |
| MerkleSpec.EmptySubtree | programs/solnadocash/src/state.rs:190-198 | A subtree with no leaf has the precomputed zero of its height |
| MerkleSpec.AppendIsLocal | programs/solnadocash/src/state.rs:177-218 | An insertion changes only the nodes above the new leaf |
| MerkleSpec.ZeroLeafIsInvisible | programs/solnadocash/src/state.rs:177-218 | Inserting a zero leaf changes no node, so not every insertion changes the root |
| MerkleSpec.EqualRootsEqualLeaves | sdk/src/proof.ts:280-298 | Equal roots mean equal zero-padded leaves, or a collision at an explicit position of the two trees |
| MerkleSpec.HonestPathReachesTop | sdk/src/proof.ts:174-192 | The sibling path of any leaf within capacity folds to the root, bit false meaning left |
| MerkleSpec.PathBindsLeaf | sdk/src/proof.ts:174-192 | **Main.** A path folding to the root carries the padded leaf at the index its bits spell, or exhibits a collision |
| PoolState.KnownExactlyInWindow | programs/solnadocash/src/state.rs:211-231 | **Main.** After n deposits a non-zero root is in the ring exactly when it is the root after one of the last 256 deposit counts |
| PoolState.RingAdvances | programs/solnadocash/src/state.rs:211-215 | One insertion turns the ring of n leaves into the ring of n + 1 by writing one slot |
| PoolState.StepUp | programs/solnadocash/src/state.rs:190-209 | One turn of the insertion loop: the sibling is the empty subtree on the right or the stored complete subtree on the left |
| PoolState.SubtreesStayComplete | programs/solnadocash/src/state.rs:190-198 | Kept invariant: whenever n >> k is odd, entry k is the complete left sibling at level k |
| PoolState.InitialRootIsEmpty | programs/solnadocash/src/initialize_pool.rs:57-66 | The published initial root is the root of the empty tree |
| PoolState.CurrentRootIsKnown | programs/solnadocash/src/state.rs:211-231 | The newest root is always in the ring |
| PoolState.Pool.constructor | programs/solnadocash/src/initialize_pool.rs:34-66 | A new pool depicts the empty list of leaves, unpaused |
| PoolState.Pool.Insert | programs/solnadocash/src/state.rs:177-218 | **Main.** Succeeds exactly when unpaused, below saturation and for a leaf below the prime; the returned root is the full padded tree's; a failure names its cause |
| PoolState.Pool.Climb | programs/solnadocash/src/state.rs:182-209 | The hash loop reaches the root over all leaves and stores exactly the left children it met |
| PoolState.Pool.IsKnownRoot | programs/solnadocash/src/state.rs:220-231 | The struct scan answers whether the root is non-zero and in the 256-deposit window |
| SdkTree.MerkleTree.constructor | sdk/src/proof.ts:124-139 | An empty tree of any depth with the zero values of every level |
| SdkTree.MerkleTree.Root | sdk/src/proof.ts:144-149 | At any depth the root is that of the padded tree over the leaves modulo the prime; a tree of depth 0 gives its first leaf as it is |
| SdkTree.MerkleTree.Insert | sdk/src/proof.ts:152-171 | **Main.** Appends one leaf, returns its index, and keeps every layer the specified ceil(n / 2^k) nodes |
| SdkTree.MerkleTree.GetProof | sdk/src/proof.ts:174-192 | At any depth gives the path of exactly the leaves in range, with the specified siblings, bits and root |
| SdkTree.MerkleTree.FindLeaf | sdk/src/proof.ts:195-197 | The first position of a leaf value, or -1 when there is none |
| SdkTree.ProofFoldsToRoot | sdk/src/proof.ts:174-192 | A path the tree gives folds from its leaf to the tree's root |
| SdkTree.GrowLayer | sdk/src/proof.ts:157-169 | Replacing or pushing the new leaf's ancestor keeps a layer correct for the longer list |
| PoolLayout.OffsetsFindFields | programs/solnadocash/src/state.rs:59-110 | Every fixed offset of the layout finds its field in the encoded account: both keys, denomination, counters, treasury, version, bumps, pause flag and subtrees |
| PoolLayout.SlotsAreRing | programs/solnadocash/src/state.rs:91-110 | **Main.** The 256 slots of an encoded pool are the struct's ring |
| PoolLayout.IsKnownRootInAccount | programs/solnadocash/src/withdraw.rs:138-156 | The raw-byte scan answers as the struct scan does on the decoded ring, and never matches zero |
| PoolLayout.ReadRootHistory | relayer/src/preflight.js:45-54 | The relayer's decoder reads the same ring |
| PoolLayout.ReadPoolTreeState | sdk/src/proof.ts:253-278 | The client's decoder reads the same ring and the two counters, and refuses exactly the short accounts |
| PoolLayout.VerifyTreeMatchesPool | sdk/src/proof.ts:299-325 | Passes exactly when the leaf count matches and the root is in the ring, naming the slot; each refusal says which failed |
| TreeAgreement.TwoTreesAgree | sdk/src/proof.ts:114-171 | **Main.** After the same leaves the newest on-chain root is the client's root, with level k at n / 2^k rounded up |
| TreeAgreement.EncodedPoolIsDescribed | programs/solnadocash/src/state.rs:91-110 | The account of every pool object satisfies the description the tree results assume |
| TreeAgreement.VerifiedTreeIsRecent | sdk/src/proof.ts:280-325 | A tree that passes verification has the zero-padded leaves of the chain at a root still in the ring, or a collision is exhibited |
| TreeAgreement.VerifiedExactlyRecentTails | sdk/src/proof.ts:299-325 | **Main.** Verification lets through exactly the lists that are, modulo the prime, one of the last 256 prefixes of the chain's leaves filled up with zeros, or a collision is exhibited |
| TreeAgreement.VerifiedTreeIsOnChain | sdk/src/proof.ts:299-325 | **Main.** A verified list is the chain's if and only if its root is the one at current_root_index and every leaf is canonical; with the first alone they agree modulo the prime |
| TreeAgreement.ZeroFreeTreeIsNewest | sdk/src/proof.ts:299-325 | A verified list without zero leaves has the newest root and agrees with the chain's modulo the prime |
| TreeAgreement.NonCanonicalLeafPasses | app/src/utils/merkle.ts:385-388 | Counterexample: a list with one leaf raised by the prime passes verification and hides the note at that leaf |
| TreeAgreement.ZeroTailPasses | app/src/utils/merkle.ts:385-388 | Counterexample: any of the last 255 leaves and all after it replaced by zeros passes verification, is canonical, and hides the note at that leaf |
| ProgramFees.ComputeFeeSplit | programs/solnadocash/src/withdraw.rs:28-47 | Accepted exactly for a fee within a ceiling of at most 2% of a non-zero denomination; the shares make up the denomination; each error's cause |
| ProgramFees.WorstCaseUserAmount | programs/solnadocash/src/withdraw.rs:52-56 | Never underflows and leaves at least 97.8% |
| ProgramFees.RouteTreasuryFee | programs/solnadocash/src/withdraw.rs:74-93 | Routing preserves the total; a treasury that is not a payee is untouched or ends rent-exempt; exactly when it fails |
| ProgramFees.DenominationsAccepted | programs/solnadocash/src/initialize_pool.rs:10-32 | Exactly which denominations are accepted |
| ProgramFees.AcceptedDenominationsStayPayable | programs/solnadocash/src/initialize_pool.rs:10-32 | For an accepted pool and any accepted fee a fresh recipient gets at least the rent minimum after routing |
| RelayerFees.PriceFitsBudget | relayer/src/fees.js:65-118 | Lamports for a price fit a budget if and only if the price is at most what the budget buys |
| RelayerFees.PriceUnits | relayer/src/fees.js:65-118 | Five units of price to the lamport, rounded up one way and exact the other |
| RelayerFees.PlanChargesWhatItSpends | relayer/src/fees.js:143-172 | **Main.** A ceiling that covers fee and rent is charged the estimated cost or the ceiling, whichever is less, without subsidy; the plan never pays for more priority than estimated, an undegraded one at least the estimate, a degraded one the most the ceiling buys; the shortfall and the subsidy exactly |
| RelayerFees.CostCoversPrice | relayer/src/fees.js:181-185 | The cost is signature fee, rent, and the least lamports that cover the price |
| RelayerFees.SubmissionsAccepted | relayer/src/api.js:323-370 | Accepted exactly between fixed cost and cap, and charged the estimated cost or the ceiling, whichever is less; the refusal after planning is unreachable |
| RelayerFees.QuoteCoversCost | relayer/src/api.js:200-226 | A quote is issued exactly when the cost fits the cap, covers the cost, and completes the denomination |
| ClientFees.AcceptedQuotes | sdk/src/fees.ts:74-126 | Exactly which quotes validate, at any denomination including those below 500, and what each refusal means; the figures shown make up the denomination whatever the relayer claims |
| FeeHandshake.IssuedQuotesValidate | sdk/src/fees.ts:74-126 | Apart from expiry every issued quote validates, at a floor no lower than a fresh account's rent minimum |
| FeeHandshake.ValidatedCeilingIsAccepted | programs/solnadocash/src/withdraw.rs:28-47 | Any fee within a validated ceiling is accepted on-chain and leaves the user the validated floor |
| FeeHandshake.QuotedWithdrawalHonoursFloor | relayer/src/api.js:323-370 | **Main.** If rent has not risen, a quoted withdrawal passes the submit checks, is charged its need within the quote, is split on-chain without subsidy, and pays at least the quoted floor and at least the denomination less a five-hundredth and that need |
| Accounts.MoveAt | programs/solnadocash/src/deposit.rs:47-57 | A transfer changes two balances, which may be one, and nothing else |
| Accounts.MoveKeepsTotal | programs/solnadocash/src/deposit.rs:47-57 | A transfer conserves lamports, also onto itself |
| Accounts.OpenAt | programs/solnadocash/src/withdraw.rs:453-522 | Creating the nullifier account charges the payer exactly the shortfall and leaves an account of the program |
| Accounts.OpenKeepsTotal | programs/solnadocash/src/withdraw.rs:453-522 | Account creation conserves lamports at any pre-funded balance |
| Chain.PayOutAt | programs/solnadocash/src/withdraw.rs:576-627 | Every address ends with what it held plus the sum of the shares it is owed, whichever roles coincide |
| ChainInvariant.EachAccountGainsItsShares | programs/solnadocash/src/withdraw.rs:453-627 | **Main.** Under every allowed aliasing each account gains exactly its shares, the vault loses exactly one denomination, and only the nullifier account changes owner or data |
| ChainInvariant.WithdrawalKeepsTotal | programs/solnadocash/src/withdraw.rs:453-627 | A withdrawal neither makes nor destroys lamports |
| ChainInvariant.InitialInv | programs/solnadocash/src/initialize_pool.rs:9-69 | A freshly initialised pool satisfies the invariant, wherever its addresses were pre-funded |
| ChainInvariant.DepositInv | programs/solnadocash/src/deposit.rs:17-57 | A deposit keeps the invariant |
| ChainInvariant.WithdrawInv | programs/solnadocash/src/withdraw.rs:234-638 | A withdrawal keeps it: balance equation, one account per spent hash, each hash once, each withdrawal justified by a past root |
| ChainInvariant.ExternalInv | programs/solnadocash/src/withdraw.rs:440-452 | Third parties, including transfers into the vault and unused nullifier addresses, keep it |
| ChainInvariant.RunInv | programs/solnadocash/src/withdraw.rs:234-638 | **Main.** The invariant holds after every run |
| ChainTheorems.OutflowCap | programs/solnadocash/src/withdraw.rs:535-552 | **Main.** For any verifier and every reachable state: vault = rent + (deposits - withdrawals) * denomination + donations; without donations withdrawals never exceed deposits and the monitor is silent |
| ChainTheorems.MonitorOnReachable | monitor/src/checks.js:31-91 | On a reachable state the monitor never reports a drain, and is silent exactly when donations are a whole number of denominations not above what was withdrawn |
| ChainTheorems.NullifiersSpentOnce | programs/solnadocash/src/withdraw.rs:404-412 | **Main.** Over every run no two withdrawals use nullifier hashes congruent modulo the prime |
| ChainTheorems.SpentStaysSpent | programs/solnadocash/src/withdraw.rs:404-412 | **Main.** A spent hash is refused in every later state |
| ChainTheorems.AuthorisedWhileInWindow | programs/solnadocash/src/withdraw.rs:398-412 | **Main.** An authorised withdrawal stays authorised in a later state exactly as long as its root is in the 256-deposit window and its note unspent |
| ChainTheorems.AuthorisedFor255Deposits | programs/solnadocash/src/state.rs:211-231 | A proof against the newest root stays good for 255 further deposits |
| ChainTheorems.CommitmentBindsPayees | programs/solnadocash/src/withdraw.rs:426-438 | One commitment fixes relayer key, fee ceiling and recipient key, or a collision is exhibited |
| Instructions.LoggedWithdrawalsWereGuarded | programs/solnadocash/src/withdraw.rs:243-412 | **Main.** Over every run each withdrawal that went through paid the pool's own treasury, was signed by a wallet as relayer, took at most its ceiling and that at most a fiftieth, named this pool's vault and the hash's own nullifier account, credited neither of them, and used no empty-tree root |
| Instructions.WithdrawalPays | programs/solnadocash/src/withdraw.rs:453-627 | **Main.** Every balance after an accepted withdrawal, whichever roles coincide: the vault loses one denomination, the pool's treasury gets a five-hundredth if it can hold it, the relayer the fee taken less what the nullifier account lacks, the recipient the rest |
| Instructions.NobodyLeftBelowRent | programs/solnadocash/src/withdraw.rs:535-580 | No account is left with a changed balance below its rent minimum |
| Instructions.OnlyVaultAndRelayerPay | programs/solnadocash/src/withdraw.rs:464-503 | Only the vault, and a signing relayer whose account is a plain wallet, can end with less |
| Instructions.DepositsLand | programs/solnadocash/src/deposit.rs:17-57 | Exactly which deposits land, and that they append the leaf and move one denomination from depositor to vault |
| Instructions.PauseStopsDeposits | programs/solnadocash/src/admin.rs:6-12 | **Main.** After the admin's pause no deposit lands in any run without the admin's unpause |
| Instructions.UnpauseAllowsDeposits | programs/solnadocash/src/admin.rs:14-20 | After the admin's unpause a funded wallet's canonical leaf lands |
| Instructions.OnlyAdminPauses | programs/solnadocash/src/admin.rs:6-20 | Nobody else changes the flag, and it does not affect withdrawals |
| Instructions.PoolsAccepted | programs/solnadocash/src/initialize_pool.rs:9-32 | Exactly which pools are created, once their accounts can be |
| Instructions.InitialisationPays | programs/solnadocash/src/initialize_pool.rs:34-66 | A pool starts empty and open; the admin pays what its two accounts lack and no other balance changes |
| Solvency.WithdrawalSpendsDeposit | circuits/test/circuits.test.js:166-193 | With an ideal verifier every withdrawal opens a deposited leaf |
| Solvency.Solvent | programs/solnadocash/src/withdraw.rs:234-638 | **Main.** Withdrawals map one-to-one into deposits, so they never exceed them, donations notwithstanding |
| Solvency.UnspentNoteIsCovered | programs/solnadocash/src/withdraw.rs:535-552 | While a deposited note is unspent the vault holds its denomination on top of rent |
| Solvency.HonestWitnessSatisfies | sdk/src/proof.ts:371-397 | The client's witness satisfies the circuit against the current root |
| Solvency.UnspentNoteIsWithdrawable | programs/solnadocash/src/withdraw.rs:234-638 | **Main.** Liveness: in every state, paused or not, an unspent note is withdrawable at any in-cap fee, payees coinciding or not, its nullifier address pre-funded or not, and pays a separate recipient the full remainder |
| Solvency.WithdrawableLater | programs/solnadocash/src/withdraw.rs:234-638 | Liveness across time: the call proved today is accepted after up to 255 further deposits, whatever else happened, while its note is unspent |
| WithdrawClient.BuildInputs | sdk/src/proof.ts:339-397 | Fails exactly when the commitment is not in the tree; otherwise the inputs satisfy the circuit with the path of the note's first deposit |
| WithdrawClient.PathSpellsIndex | sdk/src/proof.ts:181-189 | The path bits spell the leaf's index |
| WithdrawClient.PrepareWithdrawal | sdk/src/proof.ts:339-413 | **Main.** The call names the recipient, relayer, treasury, ceiling and fee that were asked for, and is bound to them; from a tree holding the chain's leaves, for a deposited, unspent note with an ordinary relayer, the program accepts it and pays that recipient the denomination less a five-hundredth and the fee taken |
| WithdrawClient.WithdrawThroughRebuild | app/src/pages/Withdraw.tsx:164-212 | **Main.** The same from a cache the client could have written and an honest RPC, through the rebuild |
| Program.Program.InitializePool | programs/solnadocash/src/initialize_pool.rs:9-69 | Succeeds exactly for the accepted configurations, the admin's own rent included, in the initial state of the machine; what each error means |
| Program.Program.SetPaused | programs/solnadocash/src/admin.rs:6-20 | Only the admin sets the flag; nothing else changes |
| Program.Program.Deposit | programs/solnadocash/src/deposit.rs:9-57 | Is the machine's deposit step: leaf inserted and one denomination moved, or everything rolled back |
| Program.Program.Withdraw | programs/solnadocash/src/withdraw.rs:234-638 | **Main.** Is the machine's withdrawal step, with rollback; every error names a condition that fails |
| Program.Program.ProcessWithdraw | programs/solnadocash/src/withdraw.rs:234-638 | The handler succeeds exactly when the call is authorised and funded, pays as specified and conserves lamports; a conservation error is never returned |
| Program.Program.Guards | programs/solnadocash/src/withdraw.rs:243-438 | The guards pass exactly the authorised calls of this pool, and each refusal's condition really fails |
| Program.Program.RootInAccount | programs/solnadocash/src/withdraw.rs:400-402 | The handler's scan of the account's raw bytes answers whether the root is in the ring |
| Program.Program.CanonicalInputs | programs/solnadocash/src/withdraw.rs:243-253 | All three public inputs are below the prime |
| Program.Program.CreateNullifier | programs/solnadocash/src/withdraw.rs:453-534 | Both creation paths end in the same account, at any pre-funded balance |
| Program.Program.Settle | programs/solnadocash/src/withdraw.rs:535-627 | After the nullifier account is open, payment succeeds exactly when the vault covers it and routing does, and pays as specified |
| Program.Program.PayShares | programs/solnadocash/src/withdraw.rs:572-627 | One debit and three in-place credits never overflow, never trip the conservation check and equal three transfers |
| Program.Program.Conserved | programs/solnadocash/src/withdraw.rs:596-627 | The per-address conservation check always holds after the credits |
| Program.DirectCreditsAreTransfers | programs/solnadocash/src/withdraw.rs:576-579 | Debit-then-credit under aliasing is three transfers out of the vault |
| Monitor.SilentExactlyWhenExplained | monitor/src/checks.js:31-91 | **Main.** Silent exactly when some count of withdrawals within the deposits explains the balance; each alarm means what it says; the logic-error branch is unreachable |
| Monitor.DonationsExplained | monitor/src/checks.js:60-77 | Exactly which donations the check reports |
| RelayerPreflight.Preflight | relayer/src/preflight.js:69-161 | Exactly which submissions pass and which check refuses the others, the nullifier's address derived from its hash of any size |
| RelayerPreflight.NullifierAddressMatchesProgram | relayer/src/preflight.js:60-62 | The hex-padded seed gives the program's own nullifier address for every 32-byte value |
| RelayerPreflight.PreflightMatchesProgram | relayer/src/preflight.js:69-161 | **Main.** Refuses nothing the program would accept in the same state, whichever lookups fail; the program's further refusals of what it passes are named |
| Hex.FixedIsBijective | relayer/src/preflight.js:60-62 | Fixed-width hex is a bijection between values and digit strings of that width |
| NoteCodec.DecodeEncode | sdk/src/note.ts:121-188 | **Main.** Decoding an encoded valid note gives back its fields |
| NoteCodec.EncodeDecode | sdk/src/note.ts:121-188 | **Main.** Re-encoding an accepted string gives that string, and only valid notes are accepted |
| NoteCodec.AcceptedTextIsUnique | sdk/src/note.ts:133-188 | Two accepted strings of one note are equal |
| NoteCodec.SpelledIsAccepted | sdk/src/note.ts:133-188 | A text of prefix, address, 16 and twice 64 hexadecimal digits with values in the field is accepted with those values, in that order |
| NoteCodec.AcceptedIsSpelled | sdk/src/note.ts:133-188 | And no other text is |
| History.DepositInstructions | app/src/utils/merkle.ts:308-336 | The loops find the deposits in execution order, each top-level instruction followed by its inner ones |
| History.DepositIsItsEncoding | app/src/utils/merkle.ts:321-329 | A deposit is found exactly in an instruction of the program that begins with the discriminator and the leaf's 32 bytes and has the pool as first account |
| History.ExecutedInOrder | app/src/utils/merkle.ts:331-334 | An instruction precedes what it invoked, which precedes every later instruction |
| History.PairTransaction | app/src/utils/merkle.ts:204-245 | One transaction's deposits are split into indexed and unindexed by positional pairing; fails exactly on an unusable index |
| History.PlacedIsWitnessed | app/src/utils/merkle.ts:232-245 | Every placed leaf has an event naming leaf and index, and one disagreeing event places nothing |
| History.PairingLosesNothing | app/src/utils/merkle.ts:237-244 | Every deposit into the pool is placed at its event's index or kept with its position |
| History.PairDeposits | app/src/utils/merkle.ts:204-245 | The same over the whole listing |
| Chronology.Chronological | app/src/utils/merkle.ts:263-298 | The result is a sorted rearrangement of the entries by slot, block position and order; fails only for a missing slot or a block that does not list an entry it must settle |
| Chronology.SortingRecoversChainOrder | app/src/utils/merkle.ts:290-297 | Any sorted rearrangement of entries of an ordered history is the order of execution |
| Assembly.Assemble | app/src/utils/merkle.ts:347-365 | The map, the hole filling and the dense prefix compute the specified list |
| Assembly.IndexLeaves | app/src/utils/merkle.ts:348-350 | The merged map is the base overlaid with the indexed leaves |
| DepositRecovery.Pairing | app/src/utils/merkle.ts:207-245 | In an honest history over several pools, pairing finds exactly the known deposits at their indices and the unknown ones in order |
| DepositRecovery.ExecutionIsChainOrder | app/src/utils/merkle.ts:263-298 | Execution order is ascending in slot, block position and order, strictly |
| Reconstruction.ScanIsFaithful | app/src/utils/merkle.ts:156-252 | **Main.** Whatever order the listing came in, the scan finds the known leaves at their indices and the unknown ones in order |
| Reconstruction.RecoversPrefix | app/src/utils/merkle.ts:347-365 | **Main.** With the exact leaves before as base the result is a correct prefix, and exactly the first nextIndex leaves when no indexless deposit lies at or beyond it |
| Reconstruction.CompleteIsRight | app/src/utils/merkle.ts:347-365 | **Main.** Over any base that is a prefix of the chain's leaves, short of, inside or past the scanned part, a complete result is the chain's leaves |
| Reconstruction.LateScanFindsNothing | app/src/utils/merkle.ts:425-433 | A scan that begins too late recovers nothing without its base, so it is never taken for complete |
| LeafCache.LoadUndoesSave | app/src/utils/leafCache.ts:44-83 | What is saved is what is loaded |
| LeafCache.MalformedIsCold | app/src/utils/leafCache.ts:58-62 | Anything but 64 lower-case hexadecimal digits in one leaf empties the cache |
| LeafCache.Cache.Load | app/src/utils/leafCache.ts:52-68 | One malformed leaf, or unavailable storage, makes a cold cache |
| LeafCache.Cache.Save | app/src/utils/leafCache.ts:70-83 | Exactly when and what is stored |
| LeafCache.Cache.Clear | app/src/utils/leafCache.ts:85-91 | The entry is gone if storage is available |
| Rebuild.ScanDeposits | app/src/utils/merkle.ts:156-252 | The scan's result in terms of the listing, and the only reasons it fails: the RPC refuses, an index is unusable, an order cannot be settled |
| Rebuild.HonestAssembly | app/src/utils/merkle.ts:416-451 | An honest scan assembled over a correct base gives the chain's leaves whenever it is complete; without base and bound it always is |
| Rebuild.GatherLeaves | app/src/utils/merkle.ts:411-437 | With an honest RPC leaves are gathered exactly when the cached bound is usable, a correct cache gives the chain's, and a failure leaves the cache |
| Rebuild.RebuildMerkleTree | app/src/utils/merkle.ts:393-457 | **Main.** For every cache and RPC only verified trees are returned and a cache that passes is returned as it is; with an honest RPC a tree is returned if and only if the cache has the chain's count or a usable bound, a failure leaves the cache, and a cache that is a prefix of the chain's leaves, runs past them, or has their length and fails verification gives exactly those leaves; what is saved is the leaves returned and the newest signature of the scan they came from |
| Rebuild.RebuildsAgreeOnEqualRoots | app/src/utils/merkle.ts:385-388 | Two verified rebuilds agree modulo the prime if and only if they found the same root |
| Rebuild.WrongCachesStand | app/src/utils/merkle.ts:385-388 | Counterexamples as caches: a leaf raised by the prime, or a zero tail, is loaded, passes, and is returned |
| Rebuild.UnacceptedBoundBlocks | app/src/utils/leafCache.ts:52-68 | Counterexample: a cache with no leaves and a bound the RPC does not accept blocks every rebuild of a pool with a deposit |
| Rebuild.RebuildIsBlocked | app/src/utils/merkle.ts:416-418 | The rebuild on that cache fails and leaves it as it was |
| RebuildRuns.SessionIsRight | app/src/utils/merkle.ts:393-457 | A rebuild from a correct cache returns the chain's leaves and leaves a correct cache, cleared, kept or written |
| RebuildRuns.EveryRebuildIsRight | app/src/utils/merkle.ts:374-392 | **Main.** Every rebuild of a browser that starts with a correct cache, a cold one above all, returns the chain's leaves, over any sequence of rebuilds against states of one chain in any order |
| RebuildRuns.EveryRebuildFromColdIsRight | app/src/utils/merkle.ts:374-392 | The same from no cache at all |
| NoteVault.ClockStartsAtFirstSend | app/src/utils/noteVault.ts:212-228 | Over any sequence of updates the broadcast time is that of the first update out of unsent, a known signature is kept, the status is the last one's, and nothing else changes |
| NoteVault.SignatureIsLastGiven | app/src/utils/noteVault.ts:212-228 | The signature is the last one given, or the note's own if none was |
| NoteVault.CallKeeps | app/src/utils/noteVault.ts:61-77 | No storage call of one tab, failing or not, endangers a safe note in its own or another tab's view |
| NoteVault.NoLostNote | app/src/utils/noteVault.ts:26-77 | **Main.** Over every interleaving of tabs, failures and crashes, a safe note stays stored until a tab is told to clear that note |
| NoteVault.StagedNoteIsSafe | app/src/utils/noteVault.ts:189-210 | A note whose staging succeeded is safe whatever other tabs are doing, unless one is removing it |
| NoteVault.KeptExactlyWhenReadable | app/src/utils/noteVault.ts:56-77 | **Main.** A note at rest, in its own key or a legacy array, is never lost if and only if its own key is free or holds its entry |
| NoteVault.MigratesAlone | app/src/utils/noteVault.ts:61-82 | An uninterrupted tab's storage calls amount to the migration the vault's methods perform |
| NoteVault.TaskAlone | app/src/utils/noteVault.ts:61-238 | Each task of an uninterrupted tab leaves exactly what the vault's method of that task leaves |
| NoteVault.MigrationRunsOnce | app/src/utils/noteVault.ts:56-77 | Migration changes no existing entry, and with room to write leaves no array behind and is idempotent |
| NoteVault.LegacyNoteIsFiled | app/src/utils/noteVault.ts:61-77 | With room to write, a legacy note without an entry is filed exactly as it stood in the array |
| NoteVault.Vault.MigrateArrays | app/src/utils/noteVault.ts:61-82 | The loops carry over the notes in order until a write fails, and remove an array only when all were carried |
| NoteVault.Vault.ReadAll | app/src/utils/noteVault.ts:158-176 | After migration, exactly the readable entries under their own keys, each once |
| NoteVault.Vault.StageNote | app/src/utils/noteVault.ts:206-210 | True exactly when the write succeeded, then the note is filed and no other note is touched |
| NoteVault.Vault.MarkNoteStatus | app/src/utils/noteVault.ts:212-228 | Rewrites only the entry it read, after migration, and does nothing for an unknown note |
| NoteVault.Vault.ClearNote | app/src/utils/noteVault.ts:231-238 | Removes that note only |
| NoteVault.EncodedNotesAreNotes | app/src/utils/noteVault.ts:84-86 | Every generated note passes the vault's test |
| NoteVault.NoteTextsBegin | app/src/utils/noteVault.ts:84-86 | Exactly which texts the vault takes for notes |
| DepositFlow.RpcCannotRejectForTheWallet | app/src/pages/Deposit.tsx:44-59 | An RPC error wrapped by the adapter is never taken for the wallet's refusal, a bare one exactly when its object carries an adapter's own error name; no text changes the verdict |
| DepositFlow.RejectionIsWalletRefusal | app/src/pages/Deposit.tsx:44-59 | An error is taken for a refusal exactly when it names itself a signing failure or the wallet-origin object, bare or inside the sending error, has code 4001 |
| DepositFlow.OnlySimulationProves | app/src/pages/Deposit.tsx:70-76 | Exactly which errors prove that nothing was broadcast |
| DepositFlow.VerdictsExclude | app/src/pages/Deposit.tsx:44-76 | No error is both the wallet's refusal and proof of a failed simulation, save one that names itself a signing failure |
| DepositFlow.MessagesAreTrue | app/src/pages/Deposit.tsx:448-480 | What each error message tells the user is so |
| DepositFlow.CausesAreSeen | app/src/pages/Deposit.tsx:86-94 | A cause named in the message or in a failed simulation's logs is found |
| DepositFlow.OrdinaryFailureIsUnrecognised | app/src/pages/Deposit.tsx:448-480 | Counterexample: a plain failure to build the transaction is told that its note has been saved |
| DepositFlow.HandleDeposit | app/src/pages/Deposit.tsx:325-482 | **Main.** Broadcast only with the note readable in storage; the note is let go exactly on a wallet refusal in the sense of RejectionIsWalletRefusal, and in every other case is still there with the status, signature and time that the answer calls for; nothing sent, nothing stored; exactly when each screen is shown |
| DepositFlow.HandleAnswer | app/src/pages/Deposit.tsx:394-450 | The storage and the screen after each answer of the wallet |
| DepositRuns.BroadcastNotesAreKept | app/src/pages/Deposit.tsx:364-434 | **Main.** Over every run of any number of tabs from any storage, a broadcast note is stored, or the run holds a wallet's refusal of it (code 4001 or a signing failure) or the user's acknowledgement |
| DepositRuns.NothingUnstoredIsSent | app/src/pages/Deposit.tsx:364-400 | Whenever a page is about to broadcast, its note is stored, or was released in that way |
| DepositRuns.AttemptAlone | app/src/pages/Deposit.tsx:325-450 | A page's steps with no other tab in between leave the storage that HandleDeposit leaves, and broadcast exactly a stored note |
| DepositRuns.LetGoAlone | app/src/pages/Deposit.tsx:617-625 | Acknowledging or discarding a note drops it |
| DepositRuns.ReconcileAlone | app/src/utils/noteReconcile.ts:112-119 | A note found on-chain is marked confirmed and kept |

## Left out

- Groth16 arithmetic, the circuits, verifying keys and the trusted setup: the verifier is a parameter, arbitrary in ChainTheorems and ideal in Solvency; a proof that does not deserialise is one it rejects, so that error is not told apart.
- Poseidon's internals and the concrete zero and empty-root constants: the hash is a parameter, and the constants are given by their recurrence.
- PDA derivation: derived addresses are injective in their seeds by construction; the pool-address check in `deposit` and the bump search are not modelled.
- Anchor's account macros, events, compute units and the slot written into a nullifier account: only what they reject or move is modelled, in `InitAccepted` and `CanOpen`.
- The runtime: a failed instruction changes nothing, and a successful one must leave every account it changed empty or rent-exempt; the rent schedule is fixed for a run.
- Several pools: one pool is modelled, an instruction that names another pool account is refused here and is part of what third parties may do; the history that the client scans does mix pools.
- RPC calls, routing, rate limits, alerts, rendering, wallet adapters and the cluster gate: their outcomes are parameters.
- JavaScript numbers: amounts, leaf counts and prices are exact integers, and a decimal string that does not parse is not modelled.
- The relayer's rent cache and its set of pending nullifiers: rent is a parameter of each check.
- Transactions the RPC returns as missing: they are absent from the listing.
- The warning about duplicate commitments, and note randomness: a note is spent through its first deposit, and which secrets are drawn is not modelled.
- NoteVault.NoLostNote: the interleaved vault is a step machine on values, since its tabs share no memory; the vault's own methods are imperative and tied to it for an uninterrupted tab by `MigratesAlone`.
- NoteVault.Vault.ReadAll: the order in which the browser enumerates keys, and the sort by creation time, are not modelled.
- Rebuild.RebuildMerkleTree: the result is fixed for an RPC that is honest at every scan it answers; for a shorter or longer cache that disagrees with the chain only verification is promised, whose exact strength is `VerifiedExactlyRecentTails`.
- Stealth addresses, deployment scripts, the simulation and the monitor's other checks: they would only add easy members.
