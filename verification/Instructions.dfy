/** What each instruction does, in balances and over runs: who may act, who pays, who is paid. */
module Instructions {
  import opened Field
  import opened MerkleSpec
  import opened PoolState
  import opened ProgramErrors
  import opened ProgramFees
  import opened Accounts
  import opened Words
  import opened Chain
  import opened ChainInvariant
  import opened ChainTheorems

  // ---------------------------------------------------------------- withdrawals: which calls

  /** What a withdrawal that went through looked like, apart from its proof. */
  ghost predicate Guarded(env: Env, config: Config, c: Call) {
    && c.pool == PoolPda && c.vault == VaultPda && c.systemProgram == SystemProgram
    && c.nullifier == NullifierPda(c.nullifierHash)
    && c.treasury == config.treasury
    && c.relayerSigned && c.relayer.Wallet?
    && c.feeTaken <= c.feeMax <= config.denomination / 50
    && VaultPda !in {c.recipient, c.treasury, c.relayer}
    && c.nullifier !in {c.recipient, c.treasury, c.relayer}
    && c.recipient != PoolPda
    && c.root != 0 && c.root != InitialRoot(env.poseidon.two)
  }

  lemma {:induction false} RunGuarded(env: Env, s: State, ops: seq<Op>)
    requires forall i :: 0 <= i < |s.log| ==> Guarded(env, s.config, s.log[i])
    ensures var later := Run(env, s, ops);
      later.config == s.config && forall i :: 0 <= i < |later.log| ==> Guarded(env, s.config, later.log[i])
  {
    if ops != [] {
      var init, last := ops[..|ops| - 1], ops[|ops| - 1];
      RunGuarded(env, s, init);
      StepGuarded(env, Run(env, s, init), last);
    }
  }

  lemma StepGuarded(env: Env, s: State, op: Op)
    requires forall i :: 0 <= i < |s.log| ==> Guarded(env, s.config, s.log[i])
    ensures var next := Next(env, s, op);
      next.config == s.config && forall i :: 0 <= i < |next.log| ==> Guarded(env, s.config, next.log[i])
  {}

  /** Over every run each withdrawal that went through paid the pool's own treasury, was signed by a wallet as
    relayer, took no more than the ceiling it was proved with, itself at most a fiftieth of the denomination,
    and credited neither the vault nor its nullifier account; and its root was not the empty tree's. */
  lemma LoggedWithdrawalsWereGuarded(env: Env, s: State, i: nat)
    requires Reachable(env, s) && i < |s.log|
    ensures var c := s.log[i];
      && c.treasury == s.config.treasury
      && c.relayerSigned && c.relayer.Wallet?
      && c.feeTaken <= c.feeMax && 50 * c.feeMax <= s.config.denomination
      && c.pool == PoolPda && c.vault == VaultPda && c.nullifier == NullifierPda(c.nullifierHash)
      && c.systemProgram == SystemProgram
      && VaultPda !in {c.recipient, c.treasury, c.relayer}
      && NullifierPda(c.nullifierHash) !in {c.recipient, c.treasury, c.relayer}
      && c.recipient != PoolPda
      && c.root != 0 && c.root != Root(env.poseidon.two, seq(0, _ => 0))
  {
    var m, config, ops :| Reached(env, m, config, ops, s);
    RunGuarded(env, Initial(env, m, config), ops);
    InitialRootIsEmpty(env.poseidon.two, seq(0, _ => 0));
    assert Guarded(env, s.config, s.log[i]);
  }

  // ---------------------------------------------------------------- withdrawals: whom they pay

  /** What is missing from a balance to a minimum. */
  function ToReach(balance: nat, minimum: nat): nat {
    if balance < minimum then minimum - balance else 0
  }

  /** What opening the nullifier account costs the relayer. */
  function NullifierCost(env: Env, s: State, c: Call): nat {
    ToReach(Bal(s.ledger, NullifierPda(c.nullifierHash)), env.minBalance(80))
  }

  /** The treasury is paid, rather than skipped for being too poor to hold its share. */
  predicate TreasuryPaid(env: Env, s: State, c: Call) {
    var t, fee := s.config.treasury, s.config.denomination / 500;
    || t == c.relayer || t == c.recipient || fee == 0
    || Bal(s.ledger, t) + fee >= env.minBalance(DataLen(At(s.ledger, t).data))
  }

  /** The whole effect of an accepted withdrawal on lamports, whichever roles coincide: the vault loses one
    denomination; the pool's treasury gets a five-hundredth of it, if it can hold that; the relayer gets the
    fee taken and pays for the nullifier account; the recipient gets the rest; no other balance changes. */
  lemma WithdrawalPays(env: Env, s: State, c: Call, a: Address)
    requires Accepts(env, s, c)
    ensures var d, x := s.config.denomination, NullifierCost(env, s, c);
      var fee := if TreasuryPaid(env, s, c) then d / 500 else 0;
      Bal(Withdraw(env, s, c).ledger, a) == Bal(s.ledger, a)
        - If(a == VaultPda, d)
        + If(a == s.config.treasury, fee)
        + If(a == c.relayer, c.feeTaken - x)
        + If(a == c.recipient, d - fee - c.feeTaken)
        + If(a == NullifierPda(c.nullifierHash), x)
  {
    EachAccountGainsItsShares(env, s, c, a);
    TreasuryShare(env, s, c);
  }

  /** What routing makes of the treasury's share. */
  lemma TreasuryShare(env: Env, s: State, c: Call)
    requires Accepts(env, s, c)
    ensures var d, shares := s.config.denomination, Routed(env, s, c, Opened(env, s, c)).value;
      && shares.0 == (if TreasuryPaid(env, s, c) then d / 500 else 0)
      && shares.1 == d - shares.0 - c.feeTaken
  {
    OpenAt(s.ledger, c.relayer, c.nullifier, NullifierData(c.nullifierHash), NullifierRent(env), c.treasury);
    EachAccountGainsItsShares(env, s, c, c.treasury);
  }

  /** Nobody is left with a balance the withdrawal changed to something below the rent minimum. */
  lemma NobodyLeftBelowRent(env: Env, s: State, c: Call, a: Address)
    requires Accepts(env, s, c)
    ensures var after := Withdraw(env, s, c).ledger;
      || Bal(after, a) == Bal(s.ledger, a) || Bal(after, a) == 0
      || Bal(after, a) >= env.minBalance(DataLen(At(after, a).data))
  {
    EachAccountGainsItsShares(env, s, c, a);
  }

  /** Only the vault, and a relayer that signed and holds no data, can end with less. */
  lemma OnlyVaultAndRelayerPay(env: Env, s: State, c: Call, a: Address)
    requires Accepts(env, s, c) && Bal(Withdraw(env, s, c).ledger, a) < Bal(s.ledger, a)
    ensures a == VaultPda ||
      (a == c.relayer && c.relayerSigned && At(s.ledger, a).owner == System && DataLen(At(s.ledger, a).data) == 0)
  {
    WithdrawalPays(env, s, c, a);
    SharesFit(env, s, c);
    if a == c.relayer { RelayerCanPay(env, s, c); }
  }

  lemma SharesFit(env: Env, s: State, c: Call)
    requires Accepts(env, s, c)
    ensures c.feeTaken + s.config.denomination / 500 <= s.config.denomination
  {}

  lemma RelayerCanPay(env: Env, s: State, c: Call)
    requires Accepts(env, s, c)
    ensures c.relayerSigned
    ensures NullifierCost(env, s, c) > 0 ==> CanPay(s.ledger, c.relayer, NullifierCost(env, s, c))
  {}

  // ---------------------------------------------------------------- deposits

  /** Exactly which deposits land, and all they do: append the leaf, and move one denomination from the
    depositor to the vault. */
  lemma DepositsLand(env: Env, s: State, depositor: Address, leaf: Word, a: Address)
    requires Inv(env, s)
    ensures var after, d := Next(env, s, DepositOp(depositor, leaf)), s.config.denomination;
      var payer := At(s.ledger, depositor);
      var lands :=
        && !s.paused && |s.leaves| < 950_000 && leaf < FR
        && depositor.Wallet? && payer.owner == System && DataLen(payer.data) == 0 && d <= payer.lamports
        && (payer.lamports == d || payer.lamports - d >= env.minBalance(0));
      && after.leaves == (if lands then s.leaves + [leaf as Element] else s.leaves)
      && Bal(after.ledger, a) == Bal(s.ledger, a) + If(lands && a == VaultPda, d) - If(lands && a == depositor, d)
      && after.(leaves := s.leaves, ledger := s.ledger) == s
  {
    if s.config.denomination <= Bal(s.ledger, depositor) {
      MoveAt(s.ledger, depositor, VaultPda, s.config.denomination, a);
      MoveAt(s.ledger, depositor, VaultPda, s.config.denomination, depositor);
    }
  }

  // ---------------------------------------------------------------- pause and unpause

  /** A pause stops deposits until the admin lifts it, whatever else happens. */
  lemma {:induction false} PauseStopsDeposits(env: Env, s: State, ops: seq<Op>)
    requires UnpauseOp(s.config.admin) !in ops
    ensures var later := Run(env, Next(env, s, PauseOp(s.config.admin)), ops);
      later.paused && later.leaves == s.leaves && later.config == s.config
  {
    if ops != [] {
      var init, last := ops[..|ops| - 1], ops[|ops| - 1];
      assert forall op :: op in init ==> op in ops;
      assert last in ops;
      PauseStopsDeposits(env, s, init);
    }
  }

  /** Lifting it lets the next good deposit in. */
  lemma UnpauseAllowsDeposits(env: Env, s: State, depositor: Address, leaf: Word)
    requires Inv(env, s) && |s.leaves| < SATURATION_THRESHOLD && leaf < FR && depositor.Wallet?
    requires At(s.ledger, depositor).owner == System && DataLen(At(s.ledger, depositor).data) == 0
    requires Bal(s.ledger, depositor) >= s.config.denomination + env.minBalance(0)
    ensures var open := Next(env, s, UnpauseOp(s.config.admin));
      var after := Next(env, open, DepositOp(depositor, leaf));
      && !open.paused && after.leaves == s.leaves + [leaf as Element]
      && Bal(after.ledger, VaultPda) == Bal(s.ledger, VaultPda) + s.config.denomination
  {
    var open := Next(env, s, UnpauseOp(s.config.admin));
    NextInv(env, s, UnpauseOp(s.config.admin));
    DepositsLand(env, open, depositor, leaf, VaultPda);
  }

  /** The flag is the admin's alone, and says nothing about withdrawals. */
  lemma OnlyAdminPauses(env: Env, s: State, signer: Address, c: Call)
    ensures signer != s.config.admin ==> Next(env, s, PauseOp(signer)) == s && Next(env, s, UnpauseOp(signer)) == s
    ensures Next(env, s, PauseOp(s.config.admin)) == s.(paused := true)
    ensures Next(env, s, UnpauseOp(s.config.admin)) == s.(paused := false)
    ensures forall flag: bool :: Accepts(env, s.(paused := flag), c) == Accepts(env, s, c)
  {
    forall flag: bool
      ensures Accepts(env, s.(paused := flag), c) == Accepts(env, s, c)
    {
      var other := s.(paused := flag);
      if Authorised(env, s, c) {
        assert Funded(env, other, c) == Funded(env, s, c);
        if Funded(env, s, c) { assert Paid(env, other, c) == Paid(env, s, c); }
      }
    }
  }

  // ---------------------------------------------------------------- initialisation

  /** Once the two accounts can be created, exactly which pools are. */
  lemma PoolsAccepted(env: Env, m: Ledger, config: Config)
    requires CanCreate(env, m, config.admin)
    ensures var after, d := WithVault(env, m, config.admin), config.denomination;
      var left := Bal(after, config.admin);
      InitAccepted(env, m, config) <==>
        && config.admin.Wallet? && At(after, config.treasury).owner == System && config.version < 255
        && d >= 500 && d - d / 500 - d / 50 >= env.minBalance(0)
        && (left == Bal(m, config.admin) || left == 0
            || left >= env.minBalance(DataLen(At(after, config.admin).data)))
  {}

  /** A pool starts empty and open, and the admin alone pays for its two accounts. */
  lemma InitialisationPays(env: Env, m: Ledger, config: Config, a: Address)
    requires InitAccepted(env, m, config)
    ensures var s := Initial(env, m, config);
      var x, y := ToReach(Bal(m, PoolPda), env.minBalance(8976)), ToReach(Bal(m, VaultPda), env.minBalance(8));
      && s.leaves == [] && !s.paused && s.log == [] && s.config == config
      && Bal(s.ledger, a) == Bal(m, a) + If(a == PoolPda, x) + If(a == VaultPda, y) - If(a == config.admin, x + y)
      && At(s.ledger, config.treasury).owner == System && config.treasury != PoolPda && config.treasury != VaultPda
      && config.denomination >= 500 && config.version < 255
  {
    OpenAt(m, config.admin, PoolPda, PoolData, env.minBalance(DataLen(PoolData)), a);
    OpenAt(m, config.admin, PoolPda, PoolData, env.minBalance(DataLen(PoolData)), VaultPda);
    OpenAt(WithPool(env, m, config.admin), config.admin, VaultPda, VaultData, VaultRent(env), a);
    OpenAt(WithPool(env, m, config.admin), config.admin, VaultPda, VaultData, VaultRent(env), PoolPda);
  }
}
