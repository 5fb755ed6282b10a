/** One pool as a state machine: what each instruction requires and what it does, on values.

  The verifier, the rent schedule and the addresses' key bytes are parameters of the run. A failed
  instruction changes nothing.
*/
module Chain {
  import opened Field
  import opened MerkleSpec
  import opened PoolState
  import opened ProgramErrors
  import opened ProgramFees
  import opened Accounts
  import opened Words

  datatype Proof = Proof(a: seq<Byte>, b: seq<Byte>, c: seq<Byte>)

  /** What the run is fixed against: the hash, the proof verifier (its public inputs are the nullifier hash,
    the root and the withdrawal commitment), the rent minimum by data length, and each address's key. */
  datatype Env = Env(
    poseidon: Poseidon,
    verify: (Proof, Element, Element, Element) -> bool,
    minBalance: nat -> nat,
    keyOf: Address -> Bytes32)

  /** The accounts and arguments of one withdrawal. */
  datatype Call = Call(
    pool: Address, vault: Address, nullifier: Address, recipient: Address, treasury: Address, relayer: Address,
    systemProgram: Address, relayerSigned: bool,
    proof: Proof, nullifierHash: Word, root: Word, commitment: Word, feeMax: U64, feeTaken: U64)

  /** `log` lists the accepted withdrawals and `donated` the lamports the vault was sent outside deposits;
    neither is read by any instruction. */
  datatype State = State(
    config: Config, leaves: seq<Element>, paused: bool, ledger: Ledger, log: seq<Call>, donated: nat)

  // ---------------------------------------------------------------- rent

  function NullifierRent(env: Env): nat { env.minBalance(DataLen(NullifierData(0))) }
  function VaultRent(env: Env): nat { env.minBalance(DataLen(VaultData)) }

  /** The runtime refuses to leave an account it changed holding lamports below its rent minimum. */
  predicate RentOk(env: Env, before: Ledger, after: Ledger, a: Address) {
    Bal(after, a) == Bal(before, a) || Bal(after, a) == 0 || Bal(after, a) >= env.minBalance(DataLen(At(after, a).data))
  }

  // ---------------------------------------------------------------- withdrawals

  /** What the withdrawal binds its relayer, fee ceiling and recipient to. */
  function Commitment(env: Env, relayer: Address, feeMax: U64, recipient: Address): Element {
    var p := env.poseidon;
    p.three(KeyToField(p, env.keyOf(relayer)), feeMax, KeyToField(p, env.keyOf(recipient)))
  }

  /** No payee is the vault, the nullifier account or, for the recipient, the pool. */
  predicate DistinctAccounts(c: Call) {
    && c.vault !in {c.recipient, c.treasury, c.relayer}
    && c.nullifier !in {c.recipient, c.treasury, c.relayer}
    && c.recipient != c.pool
  }

  predicate KnownRoot(env: Env, s: State, root: Word) {
    root != InitialRoot(env.poseidon.two) && KnownIn(Ring(env.poseidon.two, s.leaves), root)
  }

  predicate TreasuryIsPayee(c: Call) { c.treasury == c.relayer || c.treasury == c.recipient }

  /** The shares after routing, computed on the ledger in which the nullifier account was just opened. */
  function Routed(env: Env, s: State, c: Call, ready: Ledger): Result<(nat, nat)>
    requires ComputeFeeSplit(s.config.denomination, c.feeTaken, c.feeMax).Ok?
  {
    var split := ComputeFeeSplit(s.config.denomination, c.feeTaken, c.feeMax).value;
    var treasury := At(ready, c.treasury);
    RouteTreasuryFee(split.treasuryFee, split.userAmount, treasury.lamports,
                     env.minBalance(DataLen(treasury.data)), TreasuryIsPayee(c))
  }

  function Opened(env: Env, s: State, c: Call): Ledger
    requires CanOpen(s.ledger, c.relayer, c.nullifier, NullifierRent(env))
  {
    Open(s.ledger, c.relayer, c.nullifier, NullifierData(c.nullifierHash), NullifierRent(env))
  }

  /** The vault pays one denomination out in three transfers. */
  function PayOut(m: Ledger, c: Call, treasuryFee: nat, userAmount: nat): Ledger
    requires treasuryFee + c.feeTaken + userAmount <= Bal(m, c.vault)
    requires c.vault !in {c.recipient, c.treasury, c.relayer}
  {
    var m1 := Move(m, c.vault, c.treasury, treasuryFee);
    var m2 := Move(m1, c.vault, c.relayer, c.feeTaken);
    Move(m2, c.vault, c.recipient, userAmount)
  }

  /** What the account `key` is owed by the payout, summed over the roles it plays. */
  function CreditOwedTo(c: Call, treasuryFee: nat, userAmount: nat, key: Address): nat {
    (if c.treasury == key then treasuryFee else 0)
    + (if c.relayer == key then c.feeTaken else 0)
    + (if c.recipient == key then userAmount else 0)
  }

  /** After the payout every cell holds what its address was owed on top of what it held. */
  lemma PayOutAt(m: Ledger, c: Call, treasuryFee: nat, userAmount: nat, a: Address)
    requires c.vault !in {c.recipient, c.treasury, c.relayer}
    requires treasuryFee + c.feeTaken + userAmount <= Bal(m, c.vault)
    ensures Bal(PayOut(m, c, treasuryFee, userAmount), a) ==
      if a == c.vault then Bal(m, a) - (treasuryFee + c.feeTaken + userAmount)
      else Bal(m, a) + CreditOwedTo(c, treasuryFee, userAmount, a)
    ensures At(PayOut(m, c, treasuryFee, userAmount), a).(lamports := 0) == At(m, a).(lamports := 0)
  {
    MoveAt(m, c.vault, c.treasury, treasuryFee, a);
    var m1 := Move(m, c.vault, c.treasury, treasuryFee);
    MoveAt(m1, c.vault, c.relayer, c.feeTaken, a);
    var m2 := Move(m1, c.vault, c.relayer, c.feeTaken);
    MoveAt(m2, c.vault, c.recipient, userAmount, a);
  }

  /** The arguments and the accounts are the ones the program insists on. The vault's address is derived from
    the pool account's key, so the vault of this pool goes with no other pool account. */
  predicate WellFormed(env: Env, s: State, c: Call) {
    && c.nullifierHash < FR && c.root < FR && c.commitment < FR
    && At(s.ledger, c.pool).owner == ThisProgram && At(s.ledger, c.pool).data == PoolData
    && c.systemProgram == SystemProgram
    && c.relayerSigned
    && ComputeFeeSplit(s.config.denomination, c.feeTaken, c.feeMax).Ok?
    && DistinctAccounts(c)
    && c.pool == PoolPda && c.vault == VaultPda && At(s.ledger, c.vault).owner == ThisProgram
    && c.treasury == s.config.treasury
  }

  /** The note is unspent, and the proof is valid for a known root and for these payees. */
  predicate Proven(env: Env, s: State, c: Call)
    requires c.nullifierHash < FR && c.root < FR && c.commitment < FR
  {
    && KnownRoot(env, s, c.root)
    && DataLen(At(s.ledger, c.nullifier).data) == 0
    && c.nullifier == NullifierPda(c.nullifierHash)
    && env.verify(c.proof, c.nullifierHash, c.root, c.commitment)
    && c.commitment == Commitment(env, c.relayer, c.feeMax, c.recipient)
  }

  /** Everything about a withdrawal that does not move lamports. */
  predicate Authorised(env: Env, s: State, c: Call) {
    WellFormed(env, s, c) && Proven(env, s, c)
  }

  /** The lamports are there: the relayer can open the nullifier account and the vault keeps its rent. */
  predicate Funded(env: Env, s: State, c: Call)
    requires Authorised(env, s, c)
  {
    && CanOpen(s.ledger, c.relayer, c.nullifier, NullifierRent(env))
    && Bal(s.ledger, c.vault) >= s.config.denomination + env.minBalance(DataLen(At(s.ledger, c.vault).data))
    && Routed(env, s, c, Opened(env, s, c)).Ok?
  }

  function Paid(env: Env, s: State, c: Call): Ledger
    requires Authorised(env, s, c) && Funded(env, s, c)
  {
    var ready := Opened(env, s, c);
    assert Bal(ready, c.vault) == Bal(s.ledger, c.vault);
    var shares := Routed(env, s, c, ready).value;
    PayOut(ready, c, shares.0, shares.1)
  }

  predicate RentKept(env: Env, before: Ledger, after: Ledger, c: Call) {
    && RentOk(env, before, after, c.vault)
    && RentOk(env, before, after, c.nullifier)
    && RentOk(env, before, after, c.treasury)
    && RentOk(env, before, after, c.relayer)
    && RentOk(env, before, after, c.recipient)
  }

  /** The withdrawals that succeed. */
  predicate Accepts(env: Env, s: State, c: Call) {
    && (c.relayerSigned ==> c.relayer.Wallet?)
    && Authorised(env, s, c)
    && Funded(env, s, c)
    && RentKept(env, s.ledger, Paid(env, s, c), c)
  }

  function Withdraw(env: Env, s: State, c: Call): State {
    if Accepts(env, s, c) then s.(ledger := Paid(env, s, c), log := s.log + [c]) else s
  }

  // ---------------------------------------------------------------- deposits and administration

  predicate DepositAccepted(env: Env, s: State, depositor: Address, leaf: Word) {
    && depositor.Wallet?
    && !s.paused && |s.leaves| < SATURATION_THRESHOLD && leaf < FR
    && CanPay(s.ledger, depositor, s.config.denomination)
    && RentOk(env, s.ledger, Move(s.ledger, depositor, VaultPda, s.config.denomination), depositor)
  }

  function Deposit(env: Env, s: State, depositor: Address, leaf: Word): State {
    if DepositAccepted(env, s, depositor, leaf) then
      s.(leaves := s.leaves + [leaf as Element], ledger := Move(s.ledger, depositor, VaultPda, s.config.denomination))
    else s
  }

  function SetPaused(s: State, signer: Address, paused: bool): State {
    if signer == s.config.admin then s.(paused := paused) else s
  }

  /** Addresses only this program can sign for. */
  predicate Derived(a: Address) { a.PoolPda? || a.VaultPda? || a.NullifierPda? }

  /** Whatever anyone else does, fees and issuance included: the supply stays within 64 bits, and nothing
    is taken from a derived address or written to it. Sending lamports to one, the vault or an unused
    nullifier address included, is allowed. */
  ghost predicate ThirdParty(before: Ledger, after: Ledger) {
    && Total(after) <= U64_MAX
    && forall a: Address :: Derived(a) ==>
         At(after, a) == At(before, a).(lamports := Bal(after, a)) && Bal(after, a) >= Bal(before, a)
  }

  datatype Op =
    | DepositOp(depositor: Address, leaf: Word)
    | WithdrawOp(call: Call)
    | PauseOp(signer: Address)
    | UnpauseOp(signer: Address)
    | ExternalOp(after: Ledger)

  ghost function Next(env: Env, s: State, op: Op): State {
    match op
    case DepositOp(depositor, leaf) => Deposit(env, s, depositor, leaf)
    case WithdrawOp(call) => Withdraw(env, s, call)
    case PauseOp(signer) => SetPaused(s, signer, true)
    case UnpauseOp(signer) => SetPaused(s, signer, false)
    case ExternalOp(after) =>
      if ThirdParty(s.ledger, after)
      then s.(ledger := after, donated := s.donated + Bal(after, VaultPda) - Bal(s.ledger, VaultPda))
      else s
  }

  ghost function Run(env: Env, s: State, ops: seq<Op>): State {
    if ops == [] then s else Next(env, Run(env, s, ops[..|ops| - 1]), ops[|ops| - 1])
  }

  // ---------------------------------------------------------------- initialisation

  /** The ledger once the pool and its vault have been created. */
  predicate CanCreate(env: Env, m: Ledger, admin: Address) {
    && CanOpen(m, admin, PoolPda, env.minBalance(DataLen(PoolData)))
    && CanOpen(WithPool(env, m, admin), admin, VaultPda, VaultRent(env))
  }

  function WithPool(env: Env, m: Ledger, admin: Address): Ledger
    requires CanOpen(m, admin, PoolPda, env.minBalance(DataLen(PoolData)))
  {
    Open(m, admin, PoolPda, PoolData, env.minBalance(DataLen(PoolData)))
  }

  function WithVault(env: Env, m: Ledger, admin: Address): Ledger
    requires CanCreate(env, m, admin)
  {
    Open(WithPool(env, m, admin), admin, VaultPda, VaultData, VaultRent(env))
  }

  /** `initialize_pool` succeeds. The treasury is checked once the pool and vault exist, so it can be
    neither. */
  predicate InitAccepted(env: Env, m: Ledger, config: Config) {
    && config.admin.Wallet?
    && CanCreate(env, m, config.admin)
    && At(WithVault(env, m, config.admin), config.treasury).owner == System
    && RentOk(env, m, WithVault(env, m, config.admin), config.admin)
    && config.version < 255
    && DenominationAccepted(config.denomination, env.minBalance(0))
  }

  function Initial(env: Env, m: Ledger, config: Config): State
    requires InitAccepted(env, m, config)
  {
    var ledger := WithVault(env, m, config.admin);
    State(config, [], false, ledger, [],
      if Bal(ledger, VaultPda) >= VaultRent(env) then Bal(ledger, VaultPda) - VaultRent(env) else 0)
  }

  /** A ledger in which the program has never run: no derived address holds data. */
  ghost predicate Pristine(m: Ledger) {
    && Total(m) <= U64_MAX
    && forall a: Address :: Derived(a) ==> At(m, a).owner == System && At(m, a).data == NoData
  }
}
