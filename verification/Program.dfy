/** The program as it runs: instructions that check their accounts one by one and then move lamports cell
  by cell, inside a runtime that undoes a failed instruction. Each is proved to do exactly what the state
  machine of module Chain says. */
module Program {
  import opened Field
  import opened Words
  import opened MerkleSpec
  import opened PoolState
  import opened PoolLayout
  import opened ProgramErrors
  import opened ProgramFees
  import opened Accounts
  import opened Chain

  /** What a refusal by the handler's guards is allowed to mean: the condition it names really fails. */
  predicate Refuses(env: Env, s: State, c: Call, e: ErrorCode) {
    match e
    case NonCanonicalPublicInput => c.nullifierHash >= FR || c.root >= FR || c.commitment >= FR
    case InvalidPoolPda =>
      || At(s.ledger, c.pool).owner != ThisProgram || At(s.ledger, c.pool).data != PoolData
      || c.nullifier != NullifierPda(c.nullifierHash)
    case InvalidSystemProgram => c.systemProgram != SystemProgram
    case RelayerNotSigner => !c.relayerSigned
    case RelayerFeeExceedsMax => c.feeTaken > c.feeMax
    case RelayerFeeMaxTooHigh => c.feeMax > s.config.denomination / MAX_RELAYER_FEE_DIVISOR
    case UserAmountZero => s.config.denomination == 0
    case DuplicateAccount => !DistinctAccounts(c)
    case InvalidVaultPda => c.pool != PoolPda || c.vault != VaultPda || At(s.ledger, c.vault).owner != ThisProgram
    case InvalidTreasury => c.treasury != s.config.treasury
    case RootNotFound => !KnownRoot(env, s, c.root)
    case NullifierAlreadySpent =>
      DataLen(At(s.ledger, c.nullifier).data) != 0 || At(s.ledger, c.nullifier).owner != System
    case InvalidProof =>
      && c.nullifierHash < FR && c.root < FR && c.commitment < FR
      && !env.verify(c.proof, c.nullifierHash, c.root, c.commitment)
    case InvalidWithdrawalCommitment => c.commitment != Commitment(env, c.relayer, c.feeMax, c.recipient)
    case _ => false
  }

  /** What any reported error is allowed to mean. The conservation check and a lamport overflow are never
    to blame. */
  predicate Blames(env: Env, s: State, c: Call, e: ErrorCode) {
    || Refuses(env, s, c, e)
    || (e == MissingSignature && c.relayerSigned && !c.relayer.Wallet?)
    || (e == SystemTransferFailed && !CanOpen(s.ledger, c.relayer, c.nullifier, NullifierRent(env)))
    || (e == ArithmeticOverflow && Bal(s.ledger, c.vault) <= U64_MAX < VaultNeeds(env, s, c))
    || (e == InsufficientVaultBalance && Bal(s.ledger, c.vault) < VaultNeeds(env, s, c))
    || (e == BelowRentMinimum
        && Authorised(env, s, c) && Funded(env, s, c) && !RentKept(env, s.ledger, Paid(env, s, c), c))
  }

  function VaultNeeds(env: Env, s: State, c: Call): nat {
    s.config.denomination + env.minBalance(DataLen(At(s.ledger, c.vault).data))
  }

  class Program {
    const env: Env
    const pool: Pool
    var ledger: Ledger

    /** Accepted withdrawals, and lamports the vault received outside deposits. */
    ghost var log: seq<Call>
    ghost var donated: nat

    ghost predicate Valid()
      reads this, pool, pool.rootHistory, pool.filledSubtrees
    {
      pool.Valid() && pool.poseidon == env.poseidon && Total(ledger) <= U64_MAX
    }

    /** The state of the machine this object is in. */
    ghost function Abs(): State
      reads this, pool
    {
      State(pool.config, pool.leaves, pool.isPaused, ledger, log, donated)
    }

    constructor (env: Env, pool: Pool, ledger: Ledger, ghost donated: nat)
      requires pool.Valid() && pool.poseidon == env.poseidon && Total(ledger) <= U64_MAX
      ensures Valid() && this.env == env && this.pool == pool
      ensures Abs() == State(pool.config, pool.leaves, pool.isPaused, ledger, [], donated)
    {
      this.env := env;
      this.pool := pool;
      this.ledger := ledger;
      log := [];
      this.donated := donated;
    }

    // -------------------------------------------------------------- initialize_pool

    static method InitializePool(env: Env, ledger: Ledger, config: Config) returns (r: Result<Program>)
      requires Total(ledger) <= U64_MAX
      ensures r.Ok? <==> InitAccepted(env, ledger, config)
      ensures r.Ok? ==> fresh(r.value) && r.value.Valid() && r.value.env == env
      ensures r.Ok? ==> r.value.Abs() == Initial(env, ledger, config)
      ensures r == Err(DenominationTooLow) ==> !DenominationAccepted(config.denomination, env.minBalance(0))
      ensures r == Err(BelowRentMinimum) ==>
        CanCreate(env, ledger, config.admin) && !RentOk(env, ledger, WithVault(env, ledger, config.admin), config.admin)
      ensures r == Err(VersionTooHigh) ==> config.version >= 255
      ensures r == Err(InvalidTreasury) ==>
        && CanCreate(env, ledger, config.admin)
        && At(WithVault(env, ledger, config.admin), config.treasury).owner != System
    {
      // account constraints: the pool and the vault are created before the treasury is looked at
      if !config.admin.Wallet? { return Err(MissingSignature); }
      var poolRent := env.minBalance(DataLen(PoolData));
      if !CanOpen(ledger, config.admin, PoolPda, poolRent) { return Err(SystemTransferFailed); }
      var m := Open(ledger, config.admin, PoolPda, PoolData, poolRent);
      if !CanOpen(m, config.admin, VaultPda, VaultRent(env)) { return Err(SystemTransferFailed); }
      OpenKeepsTotal(ledger, config.admin, PoolPda, PoolData, poolRent);
      OpenKeepsTotal(m, config.admin, VaultPda, VaultData, VaultRent(env));
      m := Open(m, config.admin, VaultPda, VaultData, VaultRent(env));
      if At(m, config.treasury).owner != System { return Err(InvalidTreasury); }
      // handler
      if config.denomination < 500 { return Err(DenominationTooLow); }
      if config.version >= 255 { return Err(VersionTooHigh); }
      var worstCase := WorstCaseUserAmount(config.denomination);
      if worstCase.None? || worstCase.value < env.minBalance(0) { return Err(DenominationTooLow); }
      // runtime
      if !RentOk(env, ledger, m, config.admin) { return Err(BelowRentMinimum); }
      var pool := new Pool(env.poseidon, config);
      ghost var surplus := if Bal(m, VaultPda) >= VaultRent(env) then Bal(m, VaultPda) - VaultRent(env) else 0;
      var program := new Program(env, pool, m, surplus);
      r := Ok(program);
    }

    // -------------------------------------------------------------- pause and unpause

    method SetPaused(signer: Address, paused: bool) returns (r: Result<()>)
      requires Valid()
      modifies pool`isPaused
      ensures Valid() && Abs() == Chain.SetPaused(old(Abs()), signer, paused)
      ensures r == if signer == pool.config.admin then Ok(()) else Err(InvalidPoolPda)
    {
      if pool.config.admin != signer { return Err(InvalidPoolPda); }
      pool.isPaused := paused;
      return Ok(());
    }

    // -------------------------------------------------------------- deposit

    /** Insert the leaf, then take one denomination from the depositor. If the transfer fails the insertion
      is undone. Returns the leaf's index. */
    method Deposit(depositor: Address, leaf: Word) returns (r: Result<nat>)
      requires Valid()
      modifies this, pool`nextIndex, pool`currentRootIndex, pool`leaves, pool.rootHistory, pool.filledSubtrees
      ensures Valid() && Abs() == Chain.Deposit(env, old(Abs()), depositor, leaf)
      ensures r.Ok? <==> DepositAccepted(env, old(Abs()), depositor, leaf)
      ensures r.Ok? ==> r.value == |old(pool.leaves)| && pool.leaves[r.value] == leaf
    {
      if !depositor.Wallet? { return Err(MissingSignature); }
      var image := Image(pool.nextIndex, pool.currentRootIndex, pool.rootHistory[..], pool.filledSubtrees[..]);
      ghost var leaves := pool.leaves;
      var denomination := pool.config.denomination;
      var inserted := pool.Insert(leaf);
      if inserted.Err? {
        pool.Restore(image, leaves);
        return Err(inserted.error);
      }
      var leafIndex := pool.nextIndex - 1;
      if !CanPay(ledger, depositor, denomination) {
        pool.Restore(image, leaves);
        return Err(SystemTransferFailed);
      }
      var after := Move(ledger, depositor, VaultPda, denomination);
      if !RentOk(env, ledger, after, depositor) {
        pool.Restore(image, leaves);
        return Err(BelowRentMinimum);
      }
      MoveKeepsTotal(ledger, depositor, VaultPda, denomination);
      ledger := after;
      r := Ok(leafIndex);
    }

    // -------------------------------------------------------------- withdraw

    /** One withdrawal, as the runtime executes it: on any error, and if an account would be left below its
      rent minimum, the ledger is what it was. */
    method Withdraw(c: Call) returns (r: Result<()>)
      requires Valid()
      modifies this
      ensures Valid() && Abs() == Chain.Withdraw(env, old(Abs()), c)
      ensures r.Ok? <==> Accepts(env, old(Abs()), c)
      ensures r.Err? ==> Blames(env, old(Abs()), c, r.error)
    {
      if c.relayerSigned && !c.relayer.Wallet? { return Err(MissingSignature); }
      var before := ledger;
      r := Execute(c);
      if r.Err? {
        ledger := before;
      } else {
        log := log + [c];
      }
    }

    /** The handler, and the runtime's rent check of every account it changed. */
    method Execute(c: Call) returns (r: Result<()>)
      requires Valid()
      modifies this`ledger
      ensures var s := old(Abs());
        && (r.Ok? <==> Authorised(env, s, c) && Funded(env, s, c) && RentKept(env, s.ledger, Paid(env, s, c), c))
        && (r.Ok? ==> ledger == Paid(env, s, c) && Total(ledger) == Total(s.ledger))
        && (r.Err? ==> Blames(env, s, c, r.error))
    {
      var before := ledger;
      r := ProcessWithdraw(c);
      if r.Ok? && !RentKept(env, before, ledger, c) {
        r := Err(BelowRentMinimum);
      }
    }

    /** The instruction handler. */
    method ProcessWithdraw(c: Call) returns (r: Result<()>)
      requires Valid()
      modifies this`ledger
      ensures r.Ok? <==> Authorised(env, old(Abs()), c) && Funded(env, old(Abs()), c)
      ensures r.Ok? ==> ledger == Paid(env, old(Abs()), c) && Total(ledger) == Total(old(ledger))
      ensures r.Err? ==> Blames(env, old(Abs()), c, r.error)
    {
      var refused := Guards(c);
      if refused.Some? { return Err(refused.value); }
      ghost var s := Abs();
      var split := ComputeFeeSplit(pool.config.denomination, c.feeTaken, c.feeMax).value;

      var created := CreateNullifier(c);
      if created.Err? { return created; }
      OpenKeepsTotal(s.ledger, c.relayer, c.nullifier, NullifierData(c.nullifierHash), NullifierRent(env));

      r := Settle(c, split, s);
    }

    /** After the nullifier account is open: the vault's floor, the treasury's routing and the payment. */
    method Settle(c: Call, split: Split, ghost s: State) returns (r: Result<()>)
      requires Authorised(env, s, c) && CanOpen(s.ledger, c.relayer, c.nullifier, NullifierRent(env))
      requires s.config == pool.config && ledger == Opened(env, s, c)
      requires Total(ledger) == Total(s.ledger) <= U64_MAX
      requires split == ComputeFeeSplit(s.config.denomination, c.feeTaken, c.feeMax).value
      modifies this`ledger
      ensures r.Ok? <==> Funded(env, s, c)
      ensures r.Ok? ==> ledger == Paid(env, s, c) && Total(ledger) == Total(old(ledger))
      ensures r.Err? ==>
        || (r.error == ArithmeticOverflow && Bal(s.ledger, c.vault) <= U64_MAX < VaultNeeds(env, s, c))
        || (r.error == InsufficientVaultBalance && Bal(s.ledger, c.vault) < VaultNeeds(env, s, c))
    {
      var denomination := pool.config.denomination;
      BalanceWithinTotal(s.ledger, c.vault);
      OpenAt(s.ledger, c.relayer, c.nullifier, NullifierData(c.nullifierHash), NullifierRent(env), c.vault);
      var vaultRentFloor := env.minBalance(DataLen(At(ledger, c.vault).data));
      if denomination + vaultRentFloor > U64_MAX { return Err(ArithmeticOverflow); }
      if Bal(ledger, c.vault) < denomination + vaultRentFloor { return Err(InsufficientVaultBalance); }

      BalancesWithinTotal(ledger, c.treasury, c.vault);
      var routed := RouteTreasuryFee(split.treasuryFee, split.userAmount, Bal(ledger, c.treasury),
                                     env.minBalance(DataLen(At(ledger, c.treasury).data)), TreasuryIsPayee(c));
      assert routed == Routed(env, s, c, Opened(env, s, c));
      if routed.Err? { return Err(LamportOverflow); }
      r := PayShares(c, denomination, routed.value.0, routed.value.1);
    }

    /** Everything that can be refused before an account is touched. */
    method Guards(c: Call) returns (refused: Option<ErrorCode>)
      requires Valid()
      ensures refused.None? <==> Authorised(env, Abs(), c)
      ensures refused.Some? ==> Refuses(env, Abs(), c, refused.value)
    {
      refused := AccountGuards(c);
      if refused.None? {
        refused := ProofGuards(c);
      }
    }

    /** Steps 0 to 4: arguments, fees and accounts. */
    method AccountGuards(c: Call) returns (refused: Option<ErrorCode>)
      requires Valid()
      ensures refused.None? <==> WellFormed(env, Abs(), c)
      ensures refused.Some? ==> Refuses(env, Abs(), c, refused.value)
    {
      var canonical := CanonicalInputs(c);
      if !canonical { return Some(NonCanonicalPublicInput); }
      if At(ledger, c.pool).owner != ThisProgram || At(ledger, c.pool).data != PoolData { return Some(InvalidPoolPda); }
      if c.systemProgram != SystemProgram { return Some(InvalidSystemProgram); }
      if !c.relayerSigned { return Some(RelayerNotSigner); }
      var split := ComputeFeeSplit(pool.config.denomination, c.feeTaken, c.feeMax);
      if split.Err? { return Some(split.error); }
      if c.recipient == c.vault || c.treasury == c.vault || c.relayer == c.vault { return Some(DuplicateAccount); }
      if c.treasury == c.nullifier || c.recipient == c.nullifier || c.relayer == c.nullifier {
        return Some(DuplicateAccount);
      }
      if c.recipient == c.pool { return Some(DuplicateAccount); }
      // the expected vault is derived from the pool's key
      if c.pool != PoolPda || c.vault != VaultPda || At(ledger, c.vault).owner != ThisProgram {
        return Some(InvalidVaultPda);
      }
      if c.treasury != pool.config.treasury { return Some(InvalidTreasury); }
      return None;
    }

    /** Steps 5 to 9: root, nullifier account, proof and commitment. */
    method ProofGuards(c: Call) returns (refused: Option<ErrorCode>)
      requires Valid() && WellFormed(env, Abs(), c)
      ensures refused.None? <==> Proven(env, Abs(), c)
      ensures refused.Some? ==> Refuses(env, Abs(), c, refused.value)
    {
      if c.root == InitialRoot(env.poseidon.two) { return Some(RootNotFound); }
      var known := RootInAccount(c.root);
      if !known { return Some(RootNotFound); }
      if DataLen(At(ledger, c.nullifier).data) != 0 { return Some(NullifierAlreadySpent); }
      if c.nullifier != NullifierPda(c.nullifierHash) { return Some(InvalidPoolPda); }
      if !env.verify(c.proof, c.nullifierHash, c.root, c.commitment) { return Some(InvalidProof); }
      var relayerField := PubkeyToFieldOnChain(env.poseidon, env.keyOf(c.relayer));
      var recipientField := PubkeyToFieldOnChain(env.poseidon, env.keyOf(c.recipient));
      if env.poseidon.three(relayerField.value, c.feeMax, recipientField.value) != c.commitment {
        return Some(InvalidWithdrawalCommitment);
      }
      return None;
    }

    /** The scan of the account's bytes as the handler makes it. */
    method RootInAccount(root: Word) returns (known: bool)
      requires Valid()
      ensures known == KnownIn(Ring(env.poseidon.two, pool.leaves), root)
    {
      var account := RecordOf(pool, env.keyOf);
      SlotsAreRing(account);
      Pow256Of32();
      BeRoundTrip(root, 32);
      var found := IsKnownRootInAccount(Encode(account), ToBe(root, 32));
      known := found == Some(true);
    }

    static method CanonicalInputs(c: Call) returns (canonical: bool)
      ensures canonical <==> c.nullifierHash < FR && c.root < FR && c.commitment < FR
    {
      Pow256Of32();
      BeRoundTrip(c.nullifierHash, 32);
      BeRoundTrip(c.root, 32);
      BeRoundTrip(c.commitment, 32);
      canonical := IsCanonicalFr(ToBe(c.nullifierHash, 32));
      if !canonical { return; }
      canonical := IsCanonicalFr(ToBe(c.root, 32));
      if !canonical { return; }
      canonical := IsCanonicalFr(ToBe(c.commitment, 32));
    }

    /** Create the nullifier account: in one call if its address is untouched, otherwise topping it up to
      the rent minimum, then allocating and assigning it. */
    method CreateNullifier(c: Call) returns (r: Result<()>)
      requires DataLen(At(ledger, c.nullifier).data) == 0 && c.relayer != c.nullifier
      modifies this`ledger
      ensures r.Ok? <==> CanOpen(old(ledger), c.relayer, c.nullifier, NullifierRent(env))
      ensures r.Ok? ==>
        ledger == Open(old(ledger), c.relayer, c.nullifier, NullifierData(c.nullifierHash), NullifierRent(env))
      ensures r.Err? ==>
        || r.error == SystemTransferFailed
        || (r.error == NullifierAlreadySpent && At(old(ledger), c.nullifier).owner != System)
    {
      var rent := NullifierRent(env);
      var existing := Bal(ledger, c.nullifier);
      if existing == 0 {
        if At(ledger, c.nullifier).owner != System || !CanPay(ledger, c.relayer, rent) {
          return Err(SystemTransferFailed);
        }
        ledger := Move(ledger, c.relayer, c.nullifier, rent);
      } else {
        if At(ledger, c.nullifier).owner != System { return Err(NullifierAlreadySpent); }
        if existing < rent {
          if !CanPay(ledger, c.relayer, rent - existing) { return Err(SystemTransferFailed); }
          ledger := Move(ledger, c.relayer, c.nullifier, rent - existing);
        }
      }
      ledger := ledger[c.nullifier := Account(Bal(ledger, c.nullifier), ThisProgram, NullifierData(c.nullifierHash))];
      return Ok(());
    }

    /** Debit the vault, credit the three payees in turn, then check each cell against what its address was
      owed. With the supply within 64 bits no addition overflows and the check never fails. */
    method PayShares(c: Call, denomination: nat, treasuryFee: nat, userAmount: nat) returns (r: Result<()>)
      requires Total(ledger) <= U64_MAX
      requires treasuryFee + c.feeTaken + userAmount == denomination <= Bal(ledger, c.vault)
      requires c.vault !in {c.recipient, c.treasury, c.relayer}
      modifies this`ledger
      ensures r == Ok(())
      ensures ledger == PayOut(old(ledger), c, treasuryFee, userAmount)
      ensures Total(ledger) == Total(old(ledger))
    {
      ghost var before := ledger;
      var vaultBefore, treasuryBefore := Bal(ledger, c.vault), Bal(ledger, c.treasury);
      var relayerBefore, recipientBefore := Bal(ledger, c.relayer), Bal(ledger, c.recipient);
      var moved := MoveShares(c, denomination, treasuryFee, userAmount);
      if !moved { return Err(LamportOverflow); }
      var conserved := Conserved(c, treasuryFee, userAmount, before, vaultBefore - denomination,
                                 treasuryBefore, relayerBefore, recipientBefore);
      if !conserved { return Err(FeeInvariantViolated); }
      return Ok(());
    }

    method MoveShares(c: Call, denomination: nat, treasuryFee: nat, userAmount: nat) returns (moved: bool)
      requires Total(ledger) <= U64_MAX
      requires treasuryFee + c.feeTaken + userAmount == denomination <= Bal(ledger, c.vault)
      requires c.vault !in {c.recipient, c.treasury, c.relayer}
      modifies this`ledger
      ensures moved && ledger == PayOut(old(ledger), c, treasuryFee, userAmount)
      ensures Total(ledger) == Total(old(ledger))
    {
      DirectCreditsAreTransfers(ledger, c, treasuryFee, userAmount);
      DebitVault(c.vault, denomination);
      moved := CreditAll(c, treasuryFee, userAmount);
    }

    method CreditAll(c: Call, treasuryFee: nat, userAmount: nat) returns (moved: bool)
      requires Total(ledger) + treasuryFee + c.feeTaken + userAmount <= U64_MAX
      modifies this`ledger
      ensures moved && ledger == AllCredited(old(ledger), c, treasuryFee, userAmount)
      ensures Total(ledger) == Total(old(ledger)) + treasuryFee + c.feeTaken + userAmount
    {
      moved := Credit(c.treasury, treasuryFee);
      if !moved { return; }
      moved := Credit(c.relayer, c.feeTaken);
      if !moved { return; }
      moved := Credit(c.recipient, userAmount);
    }

    method DebitVault(vault: Address, x: nat)
      requires x <= Bal(ledger, vault)
      modifies this`ledger
      ensures ledger == SetBal(old(ledger), vault, Bal(old(ledger), vault) - x)
      ensures Total(ledger) + x == Total(old(ledger))
    {
      TotalAfterSetBal(ledger, vault, Bal(ledger, vault) - x);
      ledger := SetBal(ledger, vault, Bal(ledger, vault) - x);
    }

    /** The handler's own check of the ledger, per distinct address. */
    method Conserved(c: Call, treasuryFee: nat, userAmount: nat, ghost before: Ledger,
                     vaultAfter: nat, treasuryBefore: nat, relayerBefore: nat, recipientBefore: nat) returns (ok: bool)
      requires c.vault !in {c.recipient, c.treasury, c.relayer}
      requires treasuryFee + c.feeTaken + userAmount <= Bal(before, c.vault)
      requires ledger == PayOut(before, c, treasuryFee, userAmount)
      requires vaultAfter == Bal(before, c.vault) - (treasuryFee + c.feeTaken + userAmount)
      requires treasuryBefore == Bal(before, c.treasury) && relayerBefore == Bal(before, c.relayer)
      requires recipientBefore == Bal(before, c.recipient)
      ensures ok
    {
      PayOutAt(before, c, treasuryFee, userAmount, c.vault);
      PayOutAt(before, c, treasuryFee, userAmount, c.treasury);
      PayOutAt(before, c, treasuryFee, userAmount, c.relayer);
      PayOutAt(before, c, treasuryFee, userAmount, c.recipient);
      ok := Bal(ledger, c.vault) == vaultAfter
        && Bal(ledger, c.treasury) == treasuryBefore + CreditOwedTo(c, treasuryFee, userAmount, c.treasury)
        && Bal(ledger, c.relayer) == relayerBefore + CreditOwedTo(c, treasuryFee, userAmount, c.relayer)
        && Bal(ledger, c.recipient) == recipientBefore + CreditOwedTo(c, treasuryFee, userAmount, c.recipient);
    }

    /** Add to one lamport cell; fails if the sum does not fit in 64 bits. */
    method Credit(a: Address, x: nat) returns (ok: bool)
      modifies this`ledger
      ensures ok <==> Bal(old(ledger), a) + x <= U64_MAX
      ensures Total(old(ledger)) + x <= U64_MAX ==> ok
      ensures ok ==> ledger == Accounts.Credit(old(ledger), a, x) && Total(ledger) == Total(old(ledger)) + x
    {
      BalanceWithinTotal(ledger, a);
      if Bal(ledger, a) + x > U64_MAX { return false; }
      TotalAfterSetBal(ledger, a, Bal(ledger, a) + x);
      ledger := SetBal(ledger, a, Bal(ledger, a) + x);
      return true;
    }
  }

  function AllCredited(m: Ledger, c: Call, treasuryFee: nat, userAmount: nat): Ledger {
    var m1 := Accounts.Credit(m, c.treasury, treasuryFee);
    var m2 := Accounts.Credit(m1, c.relayer, c.feeTaken);
    Accounts.Credit(m2, c.recipient, userAmount)
  }

  /** One debit of the vault and three credits are the same as three transfers out of it. */
  lemma DirectCreditsAreTransfers(m: Ledger, c: Call, treasuryFee: nat, userAmount: nat)
    requires c.vault !in {c.recipient, c.treasury, c.relayer}
    requires treasuryFee + c.feeTaken + userAmount <= Bal(m, c.vault)
    ensures var debited := SetBal(m, c.vault, Bal(m, c.vault) - (treasuryFee + c.feeTaken + userAmount));
      AllCredited(debited, c, treasuryFee, userAmount) == PayOut(m, c, treasuryFee, userAmount)
  {
    DebitThenCredit(m, c.vault, c.treasury, treasuryFee, c.feeTaken + userAmount);
    var m1 := Move(m, c.vault, c.treasury, treasuryFee);
    DebitThenCredit(m1, c.vault, c.relayer, c.feeTaken, userAmount);
    var m2 := Move(m1, c.vault, c.relayer, c.feeTaken);
    DebitThenCredit(m2, c.vault, c.recipient, userAmount, 0);
  }
}
