/** Solvency and liveness under an ideal verifier: one whose every acceptance comes with a witness of the
  circuit's relation, and which accepts every proof an honest prover makes. */
module Solvency {
  import opened Field
  import opened MerkleSpec
  import opened PoolState
  import opened ProgramErrors
  import opened ProgramFees
  import opened Accounts
  import opened Words
  import opened Arith
  import opened Chain
  import opened ChainInvariant
  import opened ChainTheorems

  /** The circuit's private inputs. */
  datatype Witness = Witness(
    nullifier: Element, secret: Element, denomination: Element,
    siblings: seq<Element>, bits: seq<bool>,
    recipient: Element, relayer: Element, feeMax: Element)

  function NoteLeaf(p: Poseidon, w: Witness): Element {
    p.three(w.nullifier, w.secret, w.denomination)
  }

  /** The circuit's constraints: the nullifier hash, membership of the note in the tree, and the binding of
    relayer, fee ceiling and recipient. */
  predicate Relation(p: Poseidon, w: Witness, nullifierHash: Element, root: Element, commitment: Element) {
    && |w.bits| == |w.siblings| == DEPTH
    && nullifierHash == p.one(w.nullifier)
    && Fold(p.two, NoteLeaf(p, w), w.bits, w.siblings) == root
    && commitment == p.three(w.relayer, w.feeMax, w.recipient)
  }

  type Extractor = (Proof, Element, Element, Element) -> Witness
  type Prover = (Witness, Element, Element, Element) -> Proof

  ghost predicate KnowledgeSound(env: Env, extract: Extractor) {
    forall proof, nf, root, wc :: env.verify(proof, nf, root, wc) ==>
      Relation(env.poseidon, extract(proof, nf, root, wc), nf, root, wc)
  }

  ghost predicate Complete(env: Env, prove: Prover) {
    forall w, nf, root, wc :: Relation(env.poseidon, w, nf, root, wc) ==>
      env.verify(prove(w, nf, root, wc), nf, root, wc)
  }

  /** The witness behind an accepted withdrawal. */
  function WitnessOf(extract: Extractor, c: Call): Witness
    requires c.nullifierHash < FR && c.root < FR && c.commitment < FR
  {
    extract(c.proof, c.nullifierHash, c.root, c.commitment)
  }

  function Position(extract: Extractor, c: Call): nat
    requires c.nullifierHash < FR && c.root < FR && c.commitment < FR
  {
    PathIndex(WitnessOf(extract, c).bits)
  }

  /** Two notes with the same commitment are the same note. */
  predicate SameNoteIfSameLeaf(p: Poseidon, v: Witness, w: Witness) {
    NoteLeaf(p, v) == NoteLeaf(p, w) ==> v.nullifier == w.nullifier
  }

  /** The hash was not broken by this withdrawal: its note does not hash to the empty-leaf value, and its
    path does not collide with any earlier tree of the pool with the root it was proved against. */
  ghost predicate Unbroken(env: Env, leaves: seq<Element>, extract: Extractor, c: Call)
    requires c.nullifierHash < FR && c.root < FR && c.commitment < FR
  {
    var h, w := env.poseidon.two, WitnessOf(extract, c);
    && NoteLeaf(env.poseidon, w) != 0
    && (|w.bits| == |w.siblings| ==>
          forall m: nat :: RootOfPrefix(env, leaves, c.root, m) ==>
            !PathClash(h, leaves[..m], 0, NoteLeaf(env.poseidon, w), w.bits, w.siblings))
  }

  ghost predicate HashHolds(env: Env, s: State, extract: Extractor) {
    && (forall c :: c in s.log ==> c.nullifierHash < FR && c.root < FR && c.commitment < FR)
    && (forall c :: c in s.log ==> Unbroken(env, s.leaves, extract, c))
    && (forall c, c' :: c in s.log && c' in s.log ==>
          SameNoteIfSameLeaf(env.poseidon, WitnessOf(extract, c), WitnessOf(extract, c')))
  }

  // ---------------------------------------------------------------- solvency

  /** Every withdrawal spent a deposit: the leaf at its position is its note's commitment. */
  lemma WithdrawalSpendsDeposit(env: Env, s: State, extract: Extractor, c: Call)
    requires Inv(env, s) && KnowledgeSound(env, extract) && HashHolds(env, s, extract)
    requires c in s.log
    ensures Position(extract, c) < |s.leaves|
    ensures s.leaves[Position(extract, c)] == NoteLeaf(env.poseidon, WitnessOf(extract, c))
    ensures c.nullifierHash == env.poseidon.one(WitnessOf(extract, c).nullifier)
  {
    var i :| 0 <= i < |s.log| && s.log[i] == c;
    assert Justified(env, s.leaves, s.log[i]);
    var m: nat :| RootOfPrefix(env, s.leaves, c.root, m);
    var w := WitnessOf(extract, c);
    assert Relation(env.poseidon, w, c.nullifierHash, c.root, c.commitment);
    assert Unbroken(env, s.leaves, extract, c);
    PathBindsLeaf(env.poseidon.two, s.leaves[..m], NoteLeaf(env.poseidon, w), w.bits, w.siblings);
  }

  /** Different withdrawals spent different deposits. */
  lemma PositionsAreDistinct(env: Env, s: State, extract: Extractor, i: nat, j: nat)
    requires Inv(env, s) && KnowledgeSound(env, extract) && HashHolds(env, s, extract)
    requires i < j < |s.log|
    ensures Position(extract, s.log[i]) != Position(extract, s.log[j])
  {
    WithdrawalSpendsDeposit(env, s, extract, s.log[i]);
    WithdrawalSpendsDeposit(env, s, extract, s.log[j]);
    assert SameNoteIfSameLeaf(env.poseidon, WitnessOf(extract, s.log[i]), WitnessOf(extract, s.log[j]));
  }

  /** The deposits spent so far, in order of withdrawal. */
  ghost function Spent(env: Env, s: State, extract: Extractor): (positions: seq<nat>)
    requires HashHolds(env, s, extract)
    ensures |positions| == |s.log|
  {
    seq(|s.log|, i requires 0 <= i < |s.log| => Position(extract, s.log[i]))
  }

  /** Solvency: over every run the spent nullifiers map one-to-one into the deposited leaves, so there are
    never more withdrawals than deposits, donations notwithstanding. */
  lemma Solvent(env: Env, s: State, extract: Extractor)
    requires Inv(env, s) && KnowledgeSound(env, extract) && HashHolds(env, s, extract)
    ensures Distinct(Spent(env, s, extract))
    ensures forall i :: 0 <= i < |s.log| ==>
      && Spent(env, s, extract)[i] < |s.leaves|
      && s.leaves[Spent(env, s, extract)[i]] == NoteLeaf(env.poseidon, WitnessOf(extract, s.log[i]))
    ensures |s.log| <= |s.leaves|
  {
    var spent := Spent(env, s, extract);
    forall i, j | 0 <= i < j < |spent|
      ensures spent[i] != spent[j]
    {
      PositionsAreDistinct(env, s, extract, i, j);
    }
    forall i | 0 <= i < |spent|
      ensures spent[i] < |s.leaves| && s.leaves[spent[i]] == NoteLeaf(env.poseidon, WitnessOf(extract, s.log[i]))
    {
      WithdrawalSpendsDeposit(env, s, extract, s.log[i]);
    }
    DistinctBelow(spent, |s.leaves|);
  }

  ghost predicate Distinct(xs: seq<nat>) {
    forall i, j :: 0 <= i < j < |xs| ==> xs[i] != xs[j]
  }

  /** Distinct numbers below n are at most n. */
  lemma {:induction false} DistinctBelow(xs: seq<nat>, n: nat)
    requires Distinct(xs) && forall i :: 0 <= i < |xs| ==> xs[i] < n
    ensures |xs| <= n
  {
    if xs == [] { return; }
    assert xs[0] < n;
    if n - 1 in xs {
      var k :| 0 <= k < |xs| && xs[k] == n - 1;
      DistinctBelow(xs[..k] + xs[k + 1..], n - 1);
    } else {
      assert forall i :: 0 <= i < |xs| ==> xs[i] in xs;
      DistinctBelow(xs, n - 1);
    }
  }

  // ---------------------------------------------------------------- liveness

  /** A withdrawal as the client and an honest relayer build it, proved against the current root. */
  function HonestCall(env: Env, s: State, prove: Prover, w: Witness, relayer: Address, recipient: Address,
                      feeMax: U64, feeTaken: U64): Call
  {
    var nf, root := env.poseidon.one(w.nullifier), Root(env.poseidon.two, s.leaves);
    var wc := Commitment(env, relayer, feeMax, recipient);
    Call(PoolPda, VaultPda, NullifierPda(nf), recipient, s.config.treasury, relayer, SystemProgram, true,
         prove(w, nf, root, wc), nf, root, wc, feeMax, feeTaken)
  }

  /** The witness the client builds for the note at leaf `i`. */
  function HonestWitness(env: Env, s: State, nullifier: Element, secret: Element, denomination: Element, i: nat,
                         relayer: Address, recipient: Address, feeMax: U64): Witness
  {
    PathWitness(env.poseidon, s.leaves, nullifier, secret, denomination, i,
                KeyToField(env.poseidon, env.keyOf(relayer)), KeyToField(env.poseidon, env.keyOf(recipient)), feeMax)
  }

  /** The witness whose path is the sibling path of leaf `i`. */
  function PathWitness(p: Poseidon, leaves: seq<Element>, nullifier: Element, secret: Element, denomination: Element,
                       i: nat,
                       relayer: Element, recipient: Element, feeMax: Element): Witness
  {
    Witness(nullifier, secret, denomination, PathSiblings(p.two, leaves, i, 0, DEPTH), PathBits(i, 0, DEPTH),
            recipient, relayer, feeMax)
  }

  /** The note was deposited and its nullifier has not been spent, with no hash accident along the way. */
  ghost predicate Spendable(env: Env, s: State, extract: Extractor, w: Witness, i: nat) {
    Unspent(env, s, extract, w, i) && Root(env.poseidon.two, s.leaves) != 0 && !ClashesWithEmpty(env, s)
  }

  ghost predicate Unspent(env: Env, s: State, extract: Extractor, w: Witness, i: nat) {
    && i < |s.leaves| && s.leaves[i] == NoteLeaf(env.poseidon, w) != 0
    && env.poseidon.one(w.nullifier) !in SpentHashes(s.log)
    && (forall c :: c in s.log && c.nullifierHash < FR && c.root < FR && c.commitment < FR ==>
          SameNoteIfSameLeaf(env.poseidon, w, WitnessOf(extract, c)))
  }

  ghost predicate ClashesWithEmpty(env: Env, s: State) {
    var none: seq<Element> := [];
    TreeClash(env.poseidon.two, s.leaves, none)
  }

  /** The relayer and the payees are ordinary: the relayer is a wallet able to pay the nullifier rent and
    stay above its own minimum; no payee is one of the pool's own accounts. They may coincide. */
  predicate Ordinary(env: Env, s: State, nf: Element, relayer: Address, recipient: Address) {
    && relayer.Wallet? && CanPay(s.ledger, relayer, NullifierRent(env) + env.minBalance(0))
    && recipient !in {PoolPda, VaultPda, NullifierPda(nf)}
    && DataLen(At(s.ledger, recipient).data) == 0
    && s.config.treasury != NullifierPda(nf)
  }

  /** An unspent note leaves the vault able to pay: at least one deposit is not withdrawn. */
  lemma UnspentNoteIsCovered(env: Env, s: State, extract: Extractor, w: Witness, i: nat)
    requires Inv(env, s) && KnowledgeSound(env, extract) && HashHolds(env, s, extract)
    requires Unspent(env, s, extract, w, i)
    ensures |s.log| < |s.leaves|
    ensures Bal(s.ledger, VaultPda) >= s.config.denomination + VaultRent(env)
  {
    Solvent(env, s, extract);
    var spent := Spent(env, s, extract);
    forall j | 0 <= j < |spent|
      ensures spent[j] != i
    {
      WithdrawalSpendsDeposit(env, s, extract, s.log[j]);
      assert s.log[j] in s.log;
      assert s.log[j].nullifierHash in SpentHashes(s.log);
    }
    var all := spent + [i];
    assert Distinct(all);
    DistinctBelow(all, |s.leaves|);
    OneUncovered(|s.leaves|, |s.log|, s.config.denomination);
  }

  lemma OneUncovered(n: nat, w: nat, d: nat)
    requires w < n && d > 0
    ensures n * d >= w * d + d
  {
    Distribute(n, w, d);
    AtLeastOnce(n - w, d);
  }

  /** A tree with a non-zero leaf does not have the root every pool starts from. */
  lemma RootMoved(h: Compress, leaves: seq<Element>, none: seq<Element>, i: nat)
    requires none == [] && i < |leaves| <= SATURATION_THRESHOLD && leaves[i] != 0
    requires !TreeClash(h, leaves, none)
    ensures Root(h, leaves) != InitialRoot(h)
  {
    assert Padded(leaves, i) != Padded(none, i);
    InitialRootIsEmpty(h, none);
    CapacityIsPow2();
    if Root(h, leaves) == InitialRoot(h) {
      EqualRootsEqualLeaves(h, leaves, none);
    }
  }

  lemma CurrentRootIsUsable(env: Env, s: State, extract: Extractor, w: Witness, i: nat)
    requires |s.leaves| <= SATURATION_THRESHOLD && Spendable(env, s, extract, w, i)
    ensures KnownRoot(env, s, Root(env.poseidon.two, s.leaves))
  {
    CurrentRootIsKnown(env.poseidon.two, s.leaves);
    RootMoved(env.poseidon.two, s.leaves, [], i);
  }

  /** The witness the client builds satisfies the circuit against the current root. */
  lemma HonestWitnessSatisfies(env: Env, s: State, nullifier: Element, secret: Element, denomination: Element, i: nat,
                               relayer: Address, recipient: Address, feeMax: U64)
    requires i < |s.leaves| <= SATURATION_THRESHOLD
    requires s.leaves[i] == env.poseidon.three(nullifier, secret, denomination)
    ensures var w := HonestWitness(env, s, nullifier, secret, denomination, i, relayer, recipient, feeMax);
      Relation(env.poseidon, w, env.poseidon.one(nullifier), Root(env.poseidon.two, s.leaves),
               Commitment(env, relayer, feeMax, recipient))
  {
    CapacityIsPow2();
    HonestPathReachesTop(env.poseidon.two, s.leaves, i, DEPTH);
  }

  lemma HonestCallIsAuthorised(env: Env, s: State, prove: Prover, w: Witness,
                               relayer: Address, recipient: Address, feeMax: U64, feeTaken: U64)
    requires Inv(env, s) && Complete(env, prove)
    requires env.poseidon.one(w.nullifier) !in SpentHashes(s.log)
    requires KnownRoot(env, s, Root(env.poseidon.two, s.leaves))
    requires Relation(env.poseidon, w, env.poseidon.one(w.nullifier), Root(env.poseidon.two, s.leaves),
                      Commitment(env, relayer, feeMax, recipient))
    requires feeTaken <= feeMax <= s.config.denomination / MAX_RELAYER_FEE_DIVISOR
    requires Ordinary(env, s, env.poseidon.one(w.nullifier), relayer, recipient)
    ensures Authorised(env, s, HonestCall(env, s, prove, w, relayer, recipient, feeMax, feeTaken))
  {
    var nf := env.poseidon.one(w.nullifier);
    assert At(s.ledger, NullifierPda(nf)).(lamports := 0) == NullifierAccount(SpentHashes(s.log), nf);
  }

  lemma UnspentAccountIsEmpty(s: State, x: Word)
    requires NullifiersRecorded(s) && DataLen(At(s.ledger, NullifierPda(x)).data) == 0
    ensures At(s.ledger, NullifierPda(x)).(lamports := 0) == Account(0, System, NoData)
  {
    assert At(s.ledger, NullifierPda(x)).(lamports := 0) == NullifierAccount(SpentHashes(s.log), x);
  }

  /** The relayer can open the nullifier account, whatever it was pre-funded with, and no addition
    overflows while the supply fits in 64 bits. */
  lemma OrdinaryCallIsFunded(env: Env, s: State, c: Call)
    requires Inv(env, s) && Authorised(env, s, c)
    requires CanPay(s.ledger, c.relayer, NullifierRent(env))
    requires Bal(s.ledger, VaultPda) >= s.config.denomination + VaultRent(env)
    ensures Funded(env, s, c)
  {
    UnspentAccountIsEmpty(s, c.nullifierHash);
    OpenKeepsTotal(s.ledger, c.relayer, c.nullifier, NullifierData(c.nullifierHash), NullifierRent(env));
    var ready := Opened(env, s, c);
    assert Bal(ready, c.vault) == Bal(s.ledger, c.vault);
    BalancesWithinTotal(ready, c.treasury, c.vault);
  }

  lemma PayeesKeepRent(env: Env, s: State, c: Call)
    requires Inv(env, s) && Authorised(env, s, c) && Funded(env, s, c)
    requires Ordinary(env, s, c.nullifierHash, c.relayer, c.recipient)
    ensures RentOk(env, s.ledger, Paid(env, s, c), c.relayer)
    ensures RentOk(env, s.ledger, Paid(env, s, c), c.recipient)
  {
    EachAccountGainsItsShares(env, s, c, c.relayer);
    EachAccountGainsItsShares(env, s, c, c.recipient);
    var shares := Routed(env, s, c, Opened(env, s, c)).value;
    assert shares.1 >= env.minBalance(0);
  }

  lemma TreasuryKeepsRent(env: Env, s: State, c: Call)
    requires Inv(env, s) && Authorised(env, s, c) && Funded(env, s, c)
    requires !TreasuryIsPayee(c)
    ensures RentOk(env, s.ledger, Paid(env, s, c), c.treasury)
  {
    EachAccountGainsItsShares(env, s, c, c.treasury);
    assert At(Opened(env, s, c), c.treasury) == At(s.ledger, c.treasury);
  }

  lemma PoolAccountsKeepRent(env: Env, s: State, c: Call)
    requires Inv(env, s) && Authorised(env, s, c) && Funded(env, s, c)
    ensures RentOk(env, s.ledger, Paid(env, s, c), c.vault)
    ensures RentOk(env, s.ledger, Paid(env, s, c), c.nullifier)
  {
    EachAccountGainsItsShares(env, s, c, c.vault);
    EachAccountGainsItsShares(env, s, c, c.nullifier);
  }

  /** With lamports in the vault, an authorised call of ordinary parties succeeds. */
  lemma OrdinaryCallIsAccepted(env: Env, s: State, c: Call)
    requires Inv(env, s) && Authorised(env, s, c)
    requires Ordinary(env, s, c.nullifierHash, c.relayer, c.recipient)
    requires Bal(s.ledger, VaultPda) >= s.config.denomination + VaultRent(env)
    ensures Accepts(env, s, c)
  {
    OrdinaryCallIsFunded(env, s, c);
    PayeesKeepRent(env, s, c);
    PoolAccountsKeepRent(env, s, c);
    if !TreasuryIsPayee(c) { TreasuryKeepsRent(env, s, c); }
  }

  /** Liveness: in every state of every run, paused or not, a deposited unspent note can be withdrawn
    against the current root by an honest client and an ordinary relayer, at any fee within the cap and
    whatever its nullifier address was pre-funded with. A recipient with no other role is paid the whole
    remainder of the denomination, enough for a fresh account. */
  lemma UnspentNoteIsWithdrawable(env: Env, s: State, extract: Extractor, prove: Prover, nullifier: Element,
                                  secret: Element, denomination: Element, i: nat, relayer: Address,
                                  recipient: Address, feeMax: U64, feeTaken: U64)
    requires Inv(env, s)
    requires KnowledgeSound(env, extract) && Complete(env, prove) && HashHolds(env, s, extract)
    requires var w := HonestWitness(env, s, nullifier, secret, denomination, i, relayer, recipient, feeMax);
      Spendable(env, s, extract, w, i)
    requires feeTaken <= feeMax <= s.config.denomination / MAX_RELAYER_FEE_DIVISOR
    requires Ordinary(env, s, env.poseidon.one(nullifier), relayer, recipient)
    ensures var w := HonestWitness(env, s, nullifier, secret, denomination, i, relayer, recipient, feeMax);
      var c := HonestCall(env, s, prove, w, relayer, recipient, feeMax, feeTaken);
      && Accepts(env, s, c)
      && (recipient != relayer && recipient != s.config.treasury ==>
            var received := Bal(Withdraw(env, s, c).ledger, recipient) - Bal(s.ledger, recipient);
            var d := s.config.denomination;
            received >= d - d / TREASURY_FEE_DIVISOR - feeTaken >= env.minBalance(0))
  {
    var w := HonestWitness(env, s, nullifier, secret, denomination, i, relayer, recipient, feeMax);
    var c := HonestCall(env, s, prove, w, relayer, recipient, feeMax, feeTaken);
    CurrentRootIsUsable(env, s, extract, w, i);
    HonestWitnessSatisfies(env, s, nullifier, secret, denomination, i, relayer, recipient, feeMax);
    HonestCallIsAuthorised(env, s, prove, w, relayer, recipient, feeMax, feeTaken);
    UnspentNoteIsCovered(env, s, extract, w, i);
    OrdinaryCallIsAccepted(env, s, c);
    EachAccountGainsItsShares(env, s, c, recipient);
  }

  /** Liveness across time: the call proved against today's root still succeeds after up to 255 further
    deposits and whatever else happened, if its note is still unspent and its parties still ordinary. */
  lemma WithdrawableLater(env: Env, s: State, ops: seq<Op>, extract: Extractor, prove: Prover, nullifier: Element,
                          secret: Element, denomination: Element, i: nat, relayer: Address, recipient: Address,
                          feeMax: U64, feeTaken: U64)
    requires Inv(env, s)
    requires KnowledgeSound(env, extract) && Complete(env, prove) && HashHolds(env, s, extract)
    requires var w := HonestWitness(env, s, nullifier, secret, denomination, i, relayer, recipient, feeMax);
      Spendable(env, s, extract, w, i)
    requires feeTaken <= feeMax <= s.config.denomination / MAX_RELAYER_FEE_DIVISOR
    requires Ordinary(env, s, env.poseidon.one(nullifier), relayer, recipient)
    requires var later := Run(env, s, ops);
      && |later.leaves| < |s.leaves| + ROOT_HISTORY_SIZE && HashHolds(env, later, extract)
      && Ordinary(env, later, env.poseidon.one(nullifier), relayer, recipient)
      && var w := HonestWitness(env, s, nullifier, secret, denomination, i, relayer, recipient, feeMax);
      Unspent(env, later, extract, w, i)
    ensures var w := HonestWitness(env, s, nullifier, secret, denomination, i, relayer, recipient, feeMax);
      Accepts(env, Run(env, s, ops), HonestCall(env, s, prove, w, relayer, recipient, feeMax, feeTaken))
  {
    var w := HonestWitness(env, s, nullifier, secret, denomination, i, relayer, recipient, feeMax);
    var c, later := HonestCall(env, s, prove, w, relayer, recipient, feeMax, feeTaken), Run(env, s, ops);
    UnspentNoteIsWithdrawable(env, s, extract, prove, nullifier, secret, denomination, i, relayer, recipient, feeMax,
                              feeTaken);
    RunInv(env, s, ops);
    AuthorisedFor255Deposits(env, s, ops, c);
    UnspentNoteIsCovered(env, later, extract, w, i);
    OrdinaryCallIsAccepted(env, later, c);
  }
}
