/** What every instruction keeps, whatever proofs the verifier accepts. */
module ChainInvariant {
  import opened Field
  import opened MerkleSpec
  import opened PoolState
  import opened ProgramErrors
  import opened ProgramFees
  import opened Accounts
  import opened Arith
  import opened Chain

  // ---------------------------------------------------------------- one withdrawal's lamports

  /** Lamport conservation under aliasing. Whichever of treasury, relayer and recipient coincide, and
    whatever the nullifier address held before, each account ends with exactly its old balance and the
    sum of its own shares; the vault loses exactly one denomination; only the nullifier account changes
    owner or data. */
  lemma EachAccountGainsItsShares(env: Env, s: State, c: Call, a: Address)
    requires Authorised(env, s, c) && Funded(env, s, c)
    ensures var shares := Routed(env, s, c, Opened(env, s, c)).value;
      var x := Shortfall(s.ledger, c.nullifier, NullifierRent(env));
      && shares.0 + c.feeTaken + shares.1 == s.config.denomination
      && Bal(Paid(env, s, c), a) == Bal(s.ledger, a)
           - If(a == c.vault, s.config.denomination) + If(a == c.nullifier, x) - If(a == c.relayer, x)
           + CreditOwedTo(c, shares.0, shares.1, a)
      && At(Paid(env, s, c), a).(lamports := 0) ==
           if a == c.nullifier then Account(0, ThisProgram, NullifierData(c.nullifierHash))
           else At(s.ledger, a).(lamports := 0)
  {
    var ready := Opened(env, s, c);
    var shares := Routed(env, s, c, ready).value;
    OpenAt(s.ledger, c.relayer, c.nullifier, NullifierData(c.nullifierHash), NullifierRent(env), a);
    OpenAt(s.ledger, c.relayer, c.nullifier, NullifierData(c.nullifierHash), NullifierRent(env), c.vault);
    PayOutAt(ready, c, shares.0, shares.1, a);
  }

  /** A withdrawal neither makes nor destroys lamports. */
  lemma WithdrawalKeepsTotal(env: Env, s: State, c: Call)
    requires Authorised(env, s, c) && Funded(env, s, c)
    ensures Total(Paid(env, s, c)) == Total(s.ledger)
  {
    var ready := Opened(env, s, c);
    OpenKeepsTotal(s.ledger, c.relayer, c.nullifier, NullifierData(c.nullifierHash), NullifierRent(env));
    var shares := Routed(env, s, c, ready).value;
    var m1 := Move(ready, c.vault, c.treasury, shares.0);
    var m2 := Move(m1, c.vault, c.relayer, c.feeTaken);
    MoveKeepsTotal(ready, c.vault, c.treasury, shares.0);
    MoveKeepsTotal(m1, c.vault, c.relayer, c.feeTaken);
    MoveKeepsTotal(m2, c.vault, c.recipient, shares.1);
  }

  // ---------------------------------------------------------------- the invariant

  function SpentHashes(log: seq<Call>): set<Word> {
    set i | 0 <= i < |log| :: log[i].nullifierHash
  }

  /** The nullifier accounts are exactly the hashes spent, each at its own address. */
  ghost predicate NullifiersRecorded(s: State) {
    forall x: Word :: At(s.ledger, NullifierPda(x)).(lamports := 0) == NullifierAccount(SpentHashes(s.log), x)
  }

  function NullifierAccount(spent: set<Word>, x: Word): Account {
    if x in spent then Account(0, ThisProgram, NullifierData(x)) else Account(0, System, NoData)
  }

  ghost predicate SpentOnce(log: seq<Call>) {
    forall i, j :: 0 <= i < j < |log| ==> log[i].nullifierHash != log[j].nullifierHash
  }

  /** The withdrawal's root is the root after some number of the deposits made so far, and not zero. */
  ghost predicate RootOfPrefix(env: Env, leaves: seq<Element>, root: Word, m: nat) {
    m <= |leaves| && root != 0 && Root(env.poseidon.two, leaves[..m]) == root
  }

  ghost predicate Justified(env: Env, leaves: seq<Element>, c: Call) {
    && c.nullifierHash < FR && c.root < FR && c.commitment < FR
    && env.verify(c.proof, c.nullifierHash, c.root, c.commitment)
    && c.commitment == Commitment(env, c.relayer, c.feeMax, c.recipient)
    && exists m: nat :: RootOfPrefix(env, leaves, c.root, m)
  }

  /** The vault holds its rent, one denomination for every deposit not yet withdrawn, and what it was
    sent besides. */
  ghost predicate VaultBalances(env: Env, s: State) {
    var d := s.config.denomination;
    Bal(s.ledger, VaultPda) + |s.log| * d == VaultRent(env) + |s.leaves| * d + s.donated
  }

  ghost predicate Inv(env: Env, s: State) {
    && Total(s.ledger) <= U64_MAX
    && DenominationAccepted(s.config.denomination, env.minBalance(0))
    && s.config.treasury != PoolPda && s.config.treasury != VaultPda
    && |s.leaves| <= SATURATION_THRESHOLD
    && At(s.ledger, PoolPda).(lamports := 0) == Account(0, ThisProgram, PoolData)
    && At(s.ledger, VaultPda).(lamports := 0) == Account(0, ThisProgram, VaultData)
    && Bal(s.ledger, VaultPda) >= VaultRent(env)
    && VaultBalances(env, s)
    && NullifiersRecorded(s)
    && SpentOnce(s.log)
    && forall i :: 0 <= i < |s.log| ==> Justified(env, s.leaves, s.log[i])
  }

  // ---------------------------------------------------------------- its preservation

  lemma InitialInv(env: Env, m: Ledger, config: Config)
    requires Pristine(m) && InitAccepted(env, m, config)
    ensures Inv(env, Initial(env, m, config))
  {
    OpenKeepsTotal(m, config.admin, PoolPda, PoolData, env.minBalance(DataLen(PoolData)));
    OpenKeepsTotal(WithPool(env, m, config.admin), config.admin, VaultPda, VaultData, VaultRent(env));
    var s := Initial(env, m, config);
    forall x: Word
      ensures At(s.ledger, NullifierPda(x)).(lamports := 0) == Account(0, System, NoData)
    {
      assert At(m, NullifierPda(x)).owner == System && At(m, NullifierPda(x)).data == NoData;
    }
  }

  lemma JustifiedStays(env: Env, leaves: seq<Element>, leaf: Element, c: Call)
    requires Justified(env, leaves, c)
    ensures Justified(env, leaves + [leaf], c)
  {
    var m: nat :| RootOfPrefix(env, leaves, c.root, m);
    assert (leaves + [leaf])[..m] == leaves[..m];
    assert RootOfPrefix(env, leaves + [leaf], c.root, m);
  }

  lemma DepositInv(env: Env, s: State, depositor: Address, leaf: Word)
    requires Inv(env, s) && DepositAccepted(env, s, depositor, leaf)
    ensures Inv(env, Deposit(env, s, depositor, leaf))
  {
    var d := s.config.denomination;
    MoveKeepsTotal(s.ledger, depositor, VaultPda, d);
    DepositFrame(s, depositor, d);
    DepositKeepsNullifiers(s, depositor, d);
    AllJustifiedStay(env, s.leaves, leaf, s.log);
    DepositBalances(env, s, leaf, Move(s.ledger, depositor, VaultPda, d));
  }

  /** The pool and the vault keep their owner and data, and the vault receives one denomination. */
  lemma DepositFrame(s: State, depositor: Address, d: nat)
    requires depositor.Wallet? && d <= Bal(s.ledger, depositor)
    ensures var after := Move(s.ledger, depositor, VaultPda, d);
      && Bal(after, VaultPda) == Bal(s.ledger, VaultPda) + d
      && At(after, VaultPda).(lamports := 0) == At(s.ledger, VaultPda).(lamports := 0)
      && At(after, PoolPda).(lamports := 0) == At(s.ledger, PoolPda).(lamports := 0)
  {
    MoveAt(s.ledger, depositor, VaultPda, d, VaultPda);
    MoveAt(s.ledger, depositor, VaultPda, d, PoolPda);
  }

  lemma DepositBalances(env: Env, s: State, leaf: Element, after: Ledger)
    requires VaultBalances(env, s) && Bal(after, VaultPda) == Bal(s.ledger, VaultPda) + s.config.denomination
    ensures VaultBalances(env, s.(leaves := s.leaves + [leaf], ledger := after))
  {
    Distribute(|s.leaves| + 1, |s.leaves|, s.config.denomination);
  }

  lemma AllJustifiedStay(env: Env, leaves: seq<Element>, leaf: Element, log: seq<Call>)
    requires forall i :: 0 <= i < |log| ==> Justified(env, leaves, log[i])
    ensures forall i :: 0 <= i < |log| ==> Justified(env, leaves + [leaf], log[i])
  {
    forall i | 0 <= i < |log|
      ensures Justified(env, leaves + [leaf], log[i])
    {
      JustifiedStays(env, leaves, leaf, log[i]);
    }
  }

  lemma DepositKeepsNullifiers(s: State, depositor: Address, d: nat)
    requires NullifiersRecorded(s) && d <= Bal(s.ledger, depositor)
    ensures NullifiersRecorded(s.(ledger := Move(s.ledger, depositor, VaultPda, d)))
  {
    forall x: Word
      ensures At(Move(s.ledger, depositor, VaultPda, d), NullifierPda(x)).(lamports := 0)
           == NullifierAccount(SpentHashes(s.log), x)
    {
      MoveAt(s.ledger, depositor, VaultPda, d, NullifierPda(x));
      assert At(s.ledger, NullifierPda(x)).(lamports := 0) == NullifierAccount(SpentHashes(s.log), x);
    }
  }

  lemma SpentHashesGrow(log: seq<Call>, c: Call)
    ensures SpentHashes(log + [c]) == SpentHashes(log) + {c.nullifierHash}
  {
    var log' := log + [c];
    assert log'[|log|] == c;
    assert forall i :: 0 <= i < |log| ==> log'[i] == log[i];
  }

  lemma WithdrawRecordsNullifier(env: Env, s: State, c: Call)
    requires NullifiersRecorded(s) && SpentOnce(s.log)
    requires Authorised(env, s, c) && Funded(env, s, c)
    ensures var s' := s.(ledger := Paid(env, s, c), log := s.log + [c]);
      NullifiersRecorded(s') && SpentOnce(s'.log)
  {
    var s' := s.(ledger := Paid(env, s, c), log := s.log + [c]);
    SpentHashesGrow(s.log, c);
    forall x: Word
      ensures At(s'.ledger, NullifierPda(x)).(lamports := 0) == NullifierAccount(SpentHashes(s'.log), x)
    {
      EachAccountGainsItsShares(env, s, c, NullifierPda(x));
      assert At(s.ledger, NullifierPda(x)).(lamports := 0) == NullifierAccount(SpentHashes(s.log), x);
    }
    assert c.nullifierHash !in SpentHashes(s.log);
    assert forall i :: 0 <= i < |s.log| ==> s.log[i].nullifierHash in SpentHashes(s.log);
  }

  /** The pool and the vault keep their owner and data, and the vault pays one denomination. */
  lemma WithdrawFrame(env: Env, s: State, c: Call)
    requires Authorised(env, s, c) && Funded(env, s, c)
    ensures Bal(Paid(env, s, c), VaultPda) == Bal(s.ledger, VaultPda) - s.config.denomination
    ensures At(Paid(env, s, c), VaultPda).(lamports := 0) == At(s.ledger, VaultPda).(lamports := 0)
    ensures At(Paid(env, s, c), PoolPda).(lamports := 0) == At(s.ledger, PoolPda).(lamports := 0)
  {
    EachAccountGainsItsShares(env, s, c, VaultPda);
    EachAccountGainsItsShares(env, s, c, PoolPda);
  }

  lemma WithdrawBalances(env: Env, s: State, c: Call, after: Ledger)
    requires VaultBalances(env, s) && Bal(after, VaultPda) == Bal(s.ledger, VaultPda) - s.config.denomination
    ensures VaultBalances(env, s.(ledger := after, log := s.log + [c]))
  {
    Distribute(|s.log| + 1, |s.log|, s.config.denomination);
  }

  lemma WithdrawInv(env: Env, s: State, c: Call)
    requires Inv(env, s) && Accepts(env, s, c)
    ensures Inv(env, Withdraw(env, s, c))
  {
    WithdrawalKeepsTotal(env, s, c);
    WithdrawRecordsNullifier(env, s, c);
    AcceptedIsJustified(env, s, c);
    WithdrawFrame(env, s, c);
    WithdrawBalances(env, s, c, Paid(env, s, c));
  }

  lemma AcceptedIsJustified(env: Env, s: State, c: Call)
    requires Authorised(env, s, c)
    ensures Justified(env, s.leaves, c)
  {
    KnownExactlyInWindow(env.poseidon.two, s.leaves, c.root);
    var m: nat :| RecentRoot(env.poseidon.two, s.leaves, m, c.root);
    assert RootOfPrefix(env, s.leaves, c.root, m);
  }

  lemma ExternalInv(env: Env, s: State, after: Ledger)
    requires Inv(env, s) && ThirdParty(s.ledger, after)
    ensures Inv(env, Next(env, s, ExternalOp(after)))
  {
    var s' := Next(env, s, ExternalOp(after));
    forall x: Word
      ensures At(after, NullifierPda(x)).(lamports := 0) == At(s.ledger, NullifierPda(x)).(lamports := 0)
    {
      assert Derived(NullifierPda(x));
    }
    assert Derived(PoolPda) && Derived(VaultPda);
  }

  lemma NextInv(env: Env, s: State, op: Op)
    requires Inv(env, s)
    ensures Inv(env, Next(env, s, op))
  {
    match op
    case DepositOp(depositor, leaf) =>
      if DepositAccepted(env, s, depositor, leaf) { DepositInv(env, s, depositor, leaf); }
    case WithdrawOp(call) =>
      if Accepts(env, s, call) { WithdrawInv(env, s, call); }
    case PauseOp(_) =>
    case UnpauseOp(_) =>
    case ExternalOp(after) =>
      if ThirdParty(s.ledger, after) { ExternalInv(env, s, after); }
  }

  /** The invariant holds after every run of the pool, from its creation. */
  lemma {:induction false} RunInv(env: Env, s: State, ops: seq<Op>)
    requires Inv(env, s)
    ensures Inv(env, Run(env, s, ops))
  {
    if ops != [] {
      RunInv(env, s, ops[..|ops| - 1]);
      NextInv(env, Run(env, s, ops[..|ops| - 1]), ops[|ops| - 1]);
    }
  }
}
