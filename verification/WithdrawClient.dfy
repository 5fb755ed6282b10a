/** The client's side of a withdrawal: from a note and a rebuilt tree to the circuit's inputs. */
module WithdrawClient {
  import opened Field
  import opened Words
  import opened MerkleSpec
  import opened PoolState
  import opened SdkTree
  import opened TreeAgreement
  import opened Accounts
  import opened Chain
  import opened ChainInvariant
  import opened ProgramFees
  import opened Solvency
  import opened Instructions
  import Sequences
  import History
  import LeafCache
  import Rebuild

  /** The circuit's inputs, private and public. */
  datatype Inputs = Inputs(secrets: Witness, nullifierHash: Element, root: nat, commitment: Element)

  /** The inputs `generateWithdrawProof` hands to the prover; none if the note's commitment is not a leaf of
    the tree. Within capacity they satisfy the circuit, and the path is that of the note's first deposit. */
  method BuildInputs(tree: MerkleTree, nullifier: Element, secret: Element, denomination: U64,
                     relayerKey: Bytes32, recipientKey: Bytes32, feeMax: U64) returns (r: Option<Inputs>)
    requires tree.Valid() && tree.depth == DEPTH
    ensures var p := tree.poseidon;
      && (r.Some? <==> p.three(nullifier, secret, denomination) in tree.Leaves())
      && (r.Some? ==>
            && r.value.root == Root(p.two, ReduceAll(tree.Leaves())) < FR
            && r.value.nullifierHash == p.one(nullifier)
            && r.value.secrets.nullifier == nullifier && r.value.secrets.secret == secret
            && r.value.secrets.relayer == KeyToField(p, relayerKey)
            && r.value.secrets.recipient == KeyToField(p, recipientKey)
            && r.value.commitment == p.three(KeyToField(p, relayerKey), feeMax, KeyToField(p, recipientKey)))
      && (r.Some? && |tree.Leaves()| <= TREE_CAPACITY ==>
            SpendsFirstDeposit(p, tree.Leaves(), r.value, denomination, feeMax))
  {
    var p := tree.poseidon;
    var leaf := p.three(nullifier, secret, denomination);
    var leafIndex := tree.FindLeaf(leaf);
    if leafIndex == -1 { return None; }
    var proof := tree.GetProof(leafIndex);
    var relayerField := PubkeyToField(p, relayerKey);
    var recipientField := PubkeyToField(p, recipientKey);
    var secrets := Witness(nullifier, secret, denomination, ReduceAll(proof.value.pathElements), proof.value.pathBits,
                           recipientField, relayerField, feeMax);
    r := Some(Inputs(secrets, p.one(nullifier), proof.value.root, p.three(relayerField, feeMax, recipientField)));
    if |tree.Leaves()| <= TREE_CAPACITY {
      PathSatisfies(p, tree.Leaves(), proof.value, r.value, tree.depth, denomination, feeMax);
    }
  }

  /** The inputs satisfy the circuit, with the honest path of the first leaf that is the note's commitment. */
  ghost predicate SpendsFirstDeposit(p: Poseidon, leaves: seq<nat>, inputs: Inputs, denomination: U64, feeMax: U64) {
    var w := inputs.secrets;
    var i := PathIndex(w.bits);
    && inputs.root < FR && Relation(p, w, inputs.nullifierHash, inputs.root, inputs.commitment)
    && i < |leaves| && leaves[i] == NoteLeaf(p, w) && NoteLeaf(p, w) !in leaves[..i]
    && w == PathWitness(p, ReduceAll(leaves), w.nullifier, w.secret, denomination, i, w.relayer, w.recipient, feeMax)
  }

  lemma PathSatisfies(p: Poseidon, leaves: seq<nat>, proof: MerkleProof, inputs: Inputs, depth: nat, denomination: U64,
                      feeMax: U64)
    requires depth == DEPTH && proof.leafIndex < |leaves| <= TREE_CAPACITY
    requires proof.pathBits == PathBits(proof.leafIndex, 0, depth)
    requires ReduceAll(proof.pathElements) == PathSiblings(p.two, ReduceAll(leaves), proof.leafIndex, 0, depth)
    requires inputs.root == Node(p.two, ReduceAll(leaves), depth, 0)
    requires var w := inputs.secrets;
      && w.bits == proof.pathBits && w.siblings == ReduceAll(proof.pathElements)
      && w.denomination == denomination && w.feeMax == feeMax
      && leaves[proof.leafIndex] == NoteLeaf(p, w) && NoteLeaf(p, w) !in leaves[..proof.leafIndex]
      && inputs.nullifierHash == p.one(w.nullifier) && inputs.commitment == p.three(w.relayer, w.feeMax, w.recipient)
    ensures SpendsFirstDeposit(p, leaves, inputs, denomination, feeMax)
  {
    CapacityIsPow2();
    ProofFoldsToRoot(p.two, leaves, proof, depth);
    PathSpellsIndex(proof.leafIndex, depth);
  }

  lemma {:induction false} BitsSpellAncestor(i: nat, k: nat, top: nat)
    requires k <= top && Ancestor(i, top) == 0
    ensures PathIndex(PathBits(i, k, top)) == Ancestor(i, k)
    decreases top - k
  {
    if k < top {
      BitsSpellAncestor(i, k + 1, top);
    }
  }

  /** The bits of the honest path spell the leaf's index. */
  lemma PathSpellsIndex(i: nat, depth: nat)
    requires i < Pow2(depth)
    ensures PathIndex(PathBits(i, 0, depth)) == i
  {
    AncestorBelow(i, 1, depth);
    BitsSpellAncestor(i, 0, depth);
  }

  // ---------------------------------------------------------------- end to end

  /** A deposited, unspent note in a state of a run, an ideal verifier, an honest relayer: what liveness asks
    for, at some leaf of the tree. */
  ghost predicate Withdrawable(env: Env, s: State, extract: Extractor, prove: Prover,
                               nullifier: Element, secret: Element, denomination: U64,
                               relayer: Address, recipient: Address, feeMax: U64, feeTaken: U64)
  {
    && Inv(env, s) && KnowledgeSound(env, extract) && Complete(env, prove) && HashHolds(env, s, extract)
    && feeTaken <= feeMax <= s.config.denomination / MAX_RELAYER_FEE_DIVISOR
    && Ordinary(env, s, env.poseidon.one(nullifier), relayer, recipient)
    && exists i: nat ::
         Spendable(env, s, extract,
                   HonestWitness(env, s, nullifier, secret, denomination, i, relayer, recipient, feeMax), i)
  }

  /** The call asks for exactly this payout, from this note, proved for these parties. */
  ghost predicate AsksFor(env: Env, c: Call, leaves: seq<nat>, nullifier: Element, treasury: Address, relayer: Address,
                          recipient: Address, feeMax: U64, feeTaken: U64)
  {
    && c.recipient == recipient && c.relayer == relayer && c.treasury == treasury
    && c.feeMax == feeMax && c.feeTaken == feeTaken
    && c.nullifierHash == env.poseidon.one(nullifier) && c.nullifier == NullifierPda(c.nullifierHash)
    && c.root == Root(env.poseidon.two, ReduceAll(leaves))
    && c.commitment == env.poseidon.three(KeyToField(env.poseidon, env.keyOf(relayer)), feeMax,
                                          KeyToField(env.poseidon, env.keyOf(recipient)))
  }

  /** The program takes the call and pays the recipient: the denomination less a five-hundredth and the fee
    taken, if it plays no other part. */
  ghost predicate PaysOut(env: Env, s: State, c: Call, recipient: Address, relayer: Address, feeTaken: U64) {
    && Accepts(env, s, c)
    && (recipient != relayer && recipient != s.config.treasury ==>
          var d := s.config.denomination;
          Bal(Withdraw(env, s, c).ledger, recipient) >= Bal(s.ledger, recipient) + d - d / 500 - feeTaken)
  }

  lemma AcceptedCallPaysOut(env: Env, s: State, c: Call)
    requires Accepts(env, s, c)
    ensures PaysOut(env, s, c, c.recipient, c.relayer, c.feeTaken)
  {
    WithdrawalPays(env, s, c, c.recipient);
  }

  /** From the client's tree to the chain: when the tree holds the chain's leaves, the call the client and an
    honest relayer build for a withdrawable note is accepted, and pays the recipient that was asked for. */
  method PrepareWithdrawal(env: Env, tree: MerkleTree, prove: Prover, nullifier: Element, secret: Element,
                           denomination: U64,
                           treasury: Address, relayer: Address, recipient: Address, feeMax: U64, feeTaken: U64,
                           ghost s: State, ghost extract: Extractor) returns (c: Option<Call>)
    requires tree.Valid() && tree.depth == DEPTH && tree.poseidon == env.poseidon
    ensures c.Some? <==> env.poseidon.three(nullifier, secret, denomination) in tree.Leaves()
    ensures c.Some? ==> AsksFor(env, c.value, tree.Leaves(), nullifier, treasury, relayer, recipient, feeMax, feeTaken)
    ensures tree.Leaves() == s.leaves && treasury == s.config.treasury ==>
      Withdrawable(env, s, extract, prove, nullifier, secret, denomination, relayer, recipient, feeMax, feeTaken) ==>
      c.Some? && PaysOut(env, s, c.value, recipient, relayer, feeTaken)
  {
    var built := BuildInputs(tree, nullifier, secret, denomination, env.keyOf(relayer), env.keyOf(recipient), feeMax);
    if Withdrawable(env, s, extract, prove, nullifier, secret, denomination, relayer, recipient, feeMax, feeTaken) {
      WithdrawableIsDeposited(env, s, extract, prove, nullifier, secret, denomination, relayer, recipient, feeMax,
                              feeTaken);
    }
    if built.None? { return None; }
    c := Some(BuiltCall(built.value, prove, treasury, relayer, recipient, feeMax, feeTaken));
    if tree.Leaves() == s.leaves && treasury == s.config.treasury
      && Withdrawable(env, s, extract, prove, nullifier, secret, denomination, relayer, recipient, feeMax, feeTaken)
    {
      BuiltCallIsAccepted(env, s, extract, prove, tree.Leaves(), built.value, nullifier, secret, denomination,
                          relayer, recipient, feeMax, feeTaken);
      AcceptedCallPaysOut(env, s, c.value);
    }
  }

  /** The whole client path: rebuild the tree from the cache and the RPC, then build the call. From a cache the
    client itself could have written, a withdrawable note's call is accepted and pays the recipient asked for. */
  method WithdrawThroughRebuild(env: Env, p: History.Program, pool: History.Key, poolData: seq<Byte>, rpc: Rebuild.Rpc,
                                cache: LeafCache.Cache, prove: Prover, nullifier: Element, secret: Element,
                                denomination: U64, treasury: Address, relayer: Address, recipient: Address,
                                feeMax: U64, feeTaken: U64,
                                ghost accepts: History.Signature -> bool, ghost s: State, ghost extract: Extractor)
    returns (c: Option<Call>)
    requires p.Valid()
    modifies cache
    ensures var found := old(cache.Content());
      && Describes(env.poseidon.two, poolData, s.leaves) && Rebuild.HonestRpc(p, pool, rpc, accepts, s.leaves)
      && Sequences.Comparable(found.leaves, s.leaves) && Rebuild.BoundUsable(found, |s.leaves|, accepts)
      && treasury == s.config.treasury
      && Withdrawable(env, s, extract, prove, nullifier, secret, denomination, relayer, recipient, feeMax, feeTaken)
      ==> && c.Some? && PaysOut(env, s, c.value, recipient, relayer, feeTaken)
          && AsksFor(env, c.value, s.leaves, nullifier, treasury, relayer, recipient, feeMax, feeTaken)
  {
    var rebuilt := Rebuild.RebuildMerkleTree(env.poseidon, p, pool, poolData, rpc, cache, accepts, s.leaves);
    if rebuilt.None? { return None; }
    c := PrepareWithdrawal(env, rebuilt.value, prove, nullifier, secret, denomination, treasury, relayer, recipient,
                           feeMax, feeTaken, s, extract);
  }

  /** The instruction sent for the circuit's inputs. */
  function BuiltCall(inputs: Inputs, prove: Prover, treasury: Address, relayer: Address, recipient: Address,
                     feeMax: U64, feeTaken: U64): Call
    requires inputs.root < FR
  {
    var nf, root, wc := inputs.nullifierHash, inputs.root, inputs.commitment;
    Call(PoolPda, VaultPda, NullifierPda(nf), recipient, treasury, relayer, SystemProgram, true,
         prove(inputs.secrets, nf, root, wc), nf, root, wc, feeMax, feeTaken)
  }

  lemma WithdrawableIsDeposited(env: Env, s: State, extract: Extractor, prove: Prover,
                                nullifier: Element, secret: Element, denomination: U64,
                                relayer: Address, recipient: Address, feeMax: U64, feeTaken: U64)
    requires Withdrawable(env, s, extract, prove, nullifier, secret, denomination, relayer, recipient, feeMax, feeTaken)
    ensures env.poseidon.three(nullifier, secret, denomination) in s.leaves && |s.leaves| <= SATURATION_THRESHOLD
  {
    var i: nat :|
      Spendable(env, s, extract, HonestWitness(env, s, nullifier, secret, denomination, i, relayer, recipient, feeMax),
                i);
    assert s.leaves[i] in s.leaves;
  }

  lemma BuiltCallIsAccepted(env: Env, s: State, extract: Extractor, prove: Prover, leaves: seq<nat>, inputs: Inputs,
                            nullifier: Element, secret: Element, denomination: U64,
                            relayer: Address, recipient: Address, feeMax: U64, feeTaken: U64)
    requires Withdrawable(env, s, extract, prove, nullifier, secret, denomination, relayer, recipient, feeMax, feeTaken)
    requires leaves == s.leaves && SpendsFirstDeposit(env.poseidon, leaves, inputs, denomination, feeMax)
    requires inputs.root == Root(env.poseidon.two, ReduceAll(leaves))
    requires var w := inputs.secrets;
      && w.nullifier == nullifier && w.secret == secret
      && w.relayer == KeyToField(env.poseidon, env.keyOf(relayer))
      && w.recipient == KeyToField(env.poseidon, env.keyOf(recipient))
    requires inputs.nullifierHash == env.poseidon.one(nullifier)
    requires inputs.commitment == Commitment(env, relayer, feeMax, recipient)
    ensures Accepts(env, s, BuiltCall(inputs, prove, s.config.treasury, relayer, recipient, feeMax, feeTaken))
  {
    ReduceCanonical(leaves);
    ReduceCanonical(s.leaves);
    assert forall x :: x in s.leaves ==> x < FR;
    var at: nat :|
      Spendable(env, s, extract, HonestWitness(env, s, nullifier, secret, denomination, at, relayer, recipient, feeMax),
                at);
    var i := PathIndex(inputs.secrets.bits);
    assert inputs.secrets == HonestWitness(env, s, nullifier, secret, denomination, i, relayer, recipient, feeMax);
    SpendableAnywhere(env, s, extract,
                      HonestWitness(env, s, nullifier, secret, denomination, at, relayer, recipient, feeMax), at,
                      inputs.secrets, i);
    UnspentNoteIsWithdrawable(env, s, extract, prove, nullifier, secret, denomination, i, relayer, recipient, feeMax,
                              feeTaken);
  }

  /** A note deposited twice can be spent from either leaf, once. */
  lemma SpendableAnywhere(env: Env, s: State, extract: Extractor, v: Witness, i: nat, w: Witness, j: nat)
    requires Spendable(env, s, extract, v, i) && j < |s.leaves| && s.leaves[j] == NoteLeaf(env.poseidon, w)
    requires NoteLeaf(env.poseidon, v) == NoteLeaf(env.poseidon, w) && v.nullifier == w.nullifier
    ensures Spendable(env, s, extract, w, j)
  {
    forall c | c in s.log && c.nullifierHash < FR && c.root < FR && c.commitment < FR
      ensures SameNoteIfSameLeaf(env.poseidon, w, WitnessOf(extract, c))
    {
      assert SameNoteIfSameLeaf(env.poseidon, v, WitnessOf(extract, c));
    }
  }
}
