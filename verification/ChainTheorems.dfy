/** Safety over every run of a pool. */
module ChainTheorems {
  import opened Field
  import opened MerkleSpec
  import opened PoolState
  import opened ProgramFees
  import opened Accounts
  import opened Words
  import opened Chain
  import opened ChainInvariant
  import Monitor

  /** The states a pool can be in: created on a ledger the program never ran on, then any sequence of
    instructions and of third-party activity. */
  ghost predicate Reached(env: Env, m: Ledger, config: Config, ops: seq<Op>, s: State) {
    Pristine(m) && InitAccepted(env, m, config) && s == Run(env, Initial(env, m, config), ops)
  }

  ghost predicate Reachable(env: Env, s: State) {
    exists m, config, ops :: Reached(env, m, config, ops, s)
  }

  lemma ReachableInv(env: Env, s: State)
    requires Reachable(env, s)
    ensures Inv(env, s)
  {
    var m, config, ops :| Reached(env, m, config, ops, s);
    InitialInv(env, m, config);
    RunInv(env, Initial(env, m, config), ops);
  }

  // ---------------------------------------------------------------- with any verifier at all

  /** Outflow cap. Whatever the verifier accepts, the vault balance is accounted for exactly, and what
    has left it is covered by deposits and donations; without donations there are never more
    withdrawals than deposits, and the monitor stays silent. */
  lemma OutflowCap(env: Env, s: State)
    requires Reachable(env, s)
    ensures var d, n, w := s.config.denomination, |s.leaves|, |s.log|;
      && Bal(s.ledger, VaultPda) == VaultRent(env) + (n - w) * d + s.donated
      && w * d <= n * d + s.donated
      && (s.donated == 0 ==> w <= n && Monitor.CheckVaultIntegrity(d, n, Bal(s.ledger, VaultPda), VaultRent(env)) == [])
  {
    ReachableInv(env, s);
    var d, n, w, v, r := s.config.denomination, |s.leaves|, |s.log|, Bal(s.ledger, VaultPda), VaultRent(env);
    Monitor.AccountedBalance(d, n, w, s.donated, v, r);
    if s.donated == 0 {
      Monitor.SilentExactlyWhenExplained(d, n, v, r);
      assert Monitor.ExplainedBy(d, n, v, r, w);
    }
  }

  /** Donations make the monitor noisy but never make it report a drain, and it stays silent whenever
    they are a whole number of denominations no greater than what was withdrawn. */
  lemma MonitorOnReachable(env: Env, s: State)
    requires Reachable(env, s)
    ensures var v, r := Bal(s.ledger, VaultPda), VaultRent(env);
      var found := Monitor.CheckVaultIntegrity(s.config.denomination, |s.leaves|, v, r);
      && (forall f :: f in found ==> f.code == Monitor.VAULT_SURPLUS || f.code == Monitor.INTEGRITY_REMAINDER)
      && (found == [] <==> exists k: nat :: k <= |s.log| && s.donated == k * s.config.denomination)
  {
    ReachableInv(env, s);
    Monitor.DonationsExplained(s.config.denomination, |s.leaves|, |s.log|, s.donated, Bal(s.ledger, VaultPda),
                               VaultRent(env));
  }

  /** No double spend: over a whole run no two withdrawals used nullifier hashes that a proof cannot tell
    apart. */
  lemma NullifiersSpentOnce(env: Env, s: State, i: nat, j: nat)
    requires Reachable(env, s)
    requires i < j < |s.log|
    ensures Reduce(s.log[i].nullifierHash) != Reduce(s.log[j].nullifierHash)
  {
    ReachableInv(env, s);
    assert Justified(env, s.leaves, s.log[i]) && Justified(env, s.leaves, s.log[j]);
  }

  /** The account that records a spent hash is never removed: a withdrawal reusing the hash, or one
    congruent to it, is refused in every later state. */
  lemma SpentStaysSpent(env: Env, s: State, i: nat, ops: seq<Op>, c: Call)
    requires Inv(env, s) && i < |s.log|
    requires Reduce(c.nullifierHash) == Reduce(s.log[i].nullifierHash)
    ensures !Accepts(env, Run(env, s, ops), c)
  {
    var later := Run(env, s, ops);
    RunInv(env, s, ops);
    LogOnlyGrows(env, s, ops);
    var x := s.log[i].nullifierHash;
    assert Justified(env, s.leaves, s.log[i]) && later.log[i] == s.log[i];
    assert x in SpentHashes(later.log);
    assert At(later.ledger, NullifierPda(x)).(lamports := 0) == NullifierAccount(SpentHashes(later.log), x);
  }

  lemma PoolAccountStays(env: Env, s: State, ops: seq<Op>)
    requires Inv(env, s)
    ensures var later := Run(env, s, ops);
      && At(later.ledger, PoolPda).(lamports := 0) == At(s.ledger, PoolPda).(lamports := 0)
      && At(later.ledger, VaultPda).(lamports := 0) == At(s.ledger, VaultPda).(lamports := 0)
  {
    RunInv(env, s, ops);
  }

  /** What the root ring is for: a withdrawal that is authorised now is authorised in a later state of the run
    exactly as long as its root is in the window and its note unspent, whatever happened in between. */
  lemma AuthorisedWhileInWindow(env: Env, s: State, ops: seq<Op>, c: Call)
    requires Inv(env, s) && Authorised(env, s, c)
    ensures var later := Run(env, s, ops);
      Authorised(env, later, c) <==>
        InWindow(env.poseidon.two, later.leaves, c.root) && c.nullifierHash !in SpentHashes(later.log)
  {
    var later := Run(env, s, ops);
    RunInv(env, s, ops);
    LogOnlyGrows(env, s, ops);
    PoolAccountStays(env, s, ops);
    KnownExactlyInWindow(env.poseidon.two, later.leaves, c.root);
    NullifierDataTellsSpent(later, c.nullifierHash);
  }

  lemma NullifierDataTellsSpent(s: State, x: Word)
    requires NullifiersRecorded(s)
    ensures DataLen(At(s.ledger, NullifierPda(x)).data) == 0 <==> x !in SpentHashes(s.log)
  {
    assert At(s.ledger, NullifierPda(x)).(lamports := 0) == NullifierAccount(SpentHashes(s.log), x);
  }

  /** A proof against the root of its day stays good for 255 further deposits. */
  lemma AuthorisedFor255Deposits(env: Env, s: State, ops: seq<Op>, c: Call)
    requires Inv(env, s) && Authorised(env, s, c) && c.root == Root(env.poseidon.two, s.leaves)
    requires |Run(env, s, ops).leaves| < |s.leaves| + ROOT_HISTORY_SIZE
    requires c.nullifierHash !in SpentHashes(Run(env, s, ops).log)
    ensures Authorised(env, Run(env, s, ops), c)
  {
    var later := Run(env, s, ops);
    LogOnlyGrows(env, s, ops);
    assert later.leaves[..|s.leaves|] == s.leaves;
    assert RecentRoot(env.poseidon.two, later.leaves, |s.leaves|, c.root);
    AuthorisedWhileInWindow(env, s, ops, c);
  }

  lemma {:induction false} LogOnlyGrows(env: Env, s: State, ops: seq<Op>)
    ensures s.log <= Run(env, s, ops).log && s.leaves <= Run(env, s, ops).leaves
    ensures Run(env, s, ops).config == s.config
  {
    if ops != [] {
      var init, last := ops[..|ops| - 1], ops[|ops| - 1];
      LogOnlyGrows(env, s, init);
      StepGrows(env, Run(env, s, init), last);
    }
  }

  lemma StepGrows(env: Env, s: State, op: Op)
    ensures s.log <= Next(env, s, op).log && s.leaves <= Next(env, s, op).leaves
    ensures Next(env, s, op).config == s.config
  {}

  /** What one proof can pay is fixed by its public inputs: two withdrawals with the same commitment name
    the same relayer key, fee ceiling and recipient key, unless they exhibit a collision. */
  lemma CommitmentBindsPayees(env: Env, s: State, c: Call, s': State, c': Call)
    requires Authorised(env, s, c) && Authorised(env, s', c') && c.commitment == c'.commitment
    requires !TripleClash(env, c, c')
    requires !KeyClash(env, c.relayer, c'.relayer) && !KeyClash(env, c.recipient, c'.recipient)
    ensures env.keyOf(c.relayer) == env.keyOf(c'.relayer)
    ensures env.keyOf(c.recipient) == env.keyOf(c'.recipient)
    ensures c.feeMax == c'.feeMax
  {
    if env.keyOf(c.relayer) != env.keyOf(c'.relayer) {
      KeyEncodingBinds(env.poseidon, env.keyOf(c.relayer), env.keyOf(c'.relayer));
    }
    if env.keyOf(c.recipient) != env.keyOf(c'.recipient) {
      KeyEncodingBinds(env.poseidon, env.keyOf(c.recipient), env.keyOf(c'.recipient));
    }
  }

  /** Different commitment inputs, same commitment. */
  ghost predicate TripleClash(env: Env, c: Call, c': Call) {
    var p := env.poseidon;
    && Commitment(env, c.relayer, c.feeMax, c.recipient) == Commitment(env, c'.relayer, c'.feeMax, c'.recipient)
    && (KeyToField(p, env.keyOf(c.relayer)), c.feeMax, KeyToField(p, env.keyOf(c.recipient)))
       != (KeyToField(p, env.keyOf(c'.relayer)), c'.feeMax, KeyToField(p, env.keyOf(c'.recipient)))
  }

  /** Different key halves, same hash. */
  ghost predicate KeyClash(env: Env, a: Address, b: Address) {
    && KeyToField(env.poseidon, env.keyOf(a)) == KeyToField(env.poseidon, env.keyOf(b))
    && Halves(env.keyOf(a)) != Halves(env.keyOf(b))
  }
}
