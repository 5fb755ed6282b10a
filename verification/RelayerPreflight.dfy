/** The relayer's check of a submission before it pays for a transaction. */
module RelayerPreflight {
  import opened Field
  import opened Words
  import opened Hex
  import opened MerkleSpec
  import opened PoolState
  import opened PoolLayout
  import opened Accounts
  import opened Chain

  // ---------------------------------------------------------------- the nullifier's address

  /** The bytes that pairs of hexadecimal digits stand for. */
  function HexBytes(s: string): (bytes: seq<Byte>)
    requires |s| % 2 == 0 && forall i :: 0 <= i < |s| ==> IsHexDigit(s[i])
    ensures |bytes| == |s| / 2
  {
    if s == "" then []
    else
      var high, low := DigitValue(s[|s| - 2]), DigitValue(s[|s| - 1]);
      HexBytes(s[..|s| - 2]) + [16 * high + low]
  }

  lemma {:induction false} HexBytesValue(s: string)
    requires |s| % 2 == 0 && forall i :: 0 <= i < |s| ==> IsHexDigit(s[i])
    ensures BeValue(HexBytes(s)) == FromHex(s)
  {
    if s != "" {
      var init, bytes := s[..|s| - 2], HexBytes(s);
      HexBytesValue(init);
      assert bytes[..|bytes| - 1] == HexBytes(init);
      FromHexLocal(s, init, |init|);
      assert FromHex(s) == 16 * FromHexUpTo(s, |s| - 1) + DigitValue(s[|s| - 1]);
      assert FromHexUpTo(s, |s| - 1) == 16 * FromHex(init) + DigitValue(s[|s| - 2]);
    }
  }

  /** A number as the seed of an address: its hexadecimal digits padded to 64, an odd last one dropped. */
  function SeedOf(n: nat): (seed: seq<Byte>)
    ensures |seed| >= 32
  {
    var text := Fixed(n, 64);
    FixedIsHex(n, 64);
    HexBytes(text[..|text| - |text| % 2])
  }

  lemma {:induction false} ToHexIsHex(n: nat)
    ensures forall i :: 0 <= i < |ToHex(n)| ==> IsHexDigit(ToHex(n)[i])
  {
    DigitRoundTrip(n % 16, '0');
    if n >= 16 { ToHexIsHex(n / 16); }
  }

  lemma FixedIsHex(n: nat, width: nat)
    ensures |Fixed(n, width)| >= width && forall i :: 0 <= i < |Fixed(n, width)| ==> IsHexDigit(Fixed(n, width)[i])
  {
    ToHexIsHex(n);
  }

  /** No address for a seed longer than the runtime allows. */
  function NullifierAddress(n: nat): Option<Address> {
    var seed := SeedOf(n);
    if |seed| > 32 then None else (WordFits(seed); Some(NullifierPda(BeValue(seed))))
  }

  /** For every 32-byte value, canonical or not, it is the address the program derives. */
  lemma NullifierAddressMatchesProgram(n: Word)
    ensures NullifierAddress(n) == Some(NullifierPda(n))
  {
    Pow16Values();
    FixedIsBijective(n, "", 64);
    var text := Fixed(n, 64);
    assert text[..64] == text;
    HexBytesValue(text);
  }

  // ---------------------------------------------------------------- the check

  /** What looking up an account returned: the data length, zero if there is no account. */
  datatype Lookup = Failed | Found(dataLen: nat)

  datatype Verdict = Pass | StaleRoot | WrongCommitment | NullifierSpent

  /** The lookup found the nullifier recorded. A failed one, or a nullifier with no address, is not held against
    the submission. */
  predicate SeenSpent(lookup: Address -> Lookup, nullifierHash: nat) {
    var address := NullifierAddress(nullifierHash);
    address.Some? && lookup(address.value).Found? && lookup(address.value).dataLen > 0
  }

  /** The three checks, on the account's raw bytes and on public signals of any size. */
  method Preflight(poseidon: Poseidon, poolData: seq<Byte>, nullifierHash: nat, root: nat, commitment: nat,
                   relayerKey: Bytes32, recipientKey: Bytes32, feeMax: U64, lookup: Address -> Lookup)
    returns (v: Verdict)
    requires |poolData| >= POOL_ACCOUNT_LEN
    ensures v == StaleRoot <==> root == 0 || root !in Slots(poolData)
    ensures v == WrongCommitment <==>
      && root != 0 && root in Slots(poolData)
      && commitment != poseidon.three(KeyToField(poseidon, relayerKey), feeMax, KeyToField(poseidon, recipientKey))
    ensures v == Pass <==>
      && root != 0 && root in Slots(poolData)
      && commitment == poseidon.three(KeyToField(poseidon, relayerKey), feeMax, KeyToField(poseidon, recipientKey))
      && !SeenSpent(lookup, nullifierHash)
  {
    var roots := ReadRootHistory(poolData);
    if root == 0 || root !in roots { return StaleRoot; }
    var relayerField := PubkeyToField(poseidon, relayerKey);
    var recipientField := PubkeyToField(poseidon, recipientKey);
    if poseidon.three(relayerField, feeMax, recipientField) != commitment { return WrongCommitment; }
    var address := NullifierAddress(nullifierHash);
    if address.None? { return Pass; }
    var account := lookup(address.value);
    if account.Found? && account.dataLen > 0 { return NullifierSpent; }
    return Pass;
  }

  /** The condition under which `Preflight` passes a call. */
  ghost predicate Passes(env: Env, poolData: seq<Byte>, c: Call, lookup: Address -> Lookup)
    requires |poolData| >= POOL_ACCOUNT_LEN
  {
    && c.root != 0 && c.root in Slots(poolData)
    && c.commitment == Commitment(env, c.relayer, c.feeMax, c.recipient)
    && !SeenSpent(lookup, c.nullifierHash)
  }

  /** Lookups see the ledger the program sees, or fail. */
  ghost predicate Truthful(s: State, lookup: Address -> Lookup) {
    forall a :: lookup(a).Failed? || lookup(a) == Found(DataLen(At(s.ledger, a).data))
  }

  /** Against the state the program sees, the check refuses nothing the program would accept, whichever lookups
    fail; and what it lets through after a lookup the program refuses only for the empty-tree root, a bad
    proof, or a misaddressed nullifier account. */
  lemma PreflightMatchesProgram(env: Env, s: State, poolData: seq<Byte>, c: Call, lookup: Address -> Lookup)
    requires |poolData| >= POOL_ACCOUNT_LEN && Slots(poolData) == Ring(env.poseidon.two, s.leaves)
    requires c.nullifierHash < FR && c.root < FR && c.commitment < FR
    requires Truthful(s, lookup)
    ensures Proven(env, s, c) ==> Passes(env, poolData, c, lookup)
    ensures lookup(NullifierPda(c.nullifierHash)).Found? ==>
      (Proven(env, s, c) <==>
        && Passes(env, poolData, c, lookup)
        && c.root != InitialRoot(env.poseidon.two)
        && c.nullifier == NullifierPda(c.nullifierHash)
        && env.verify(c.proof, c.nullifierHash, c.root, c.commitment))
  {
    NullifierAddressMatchesProgram(c.nullifierHash);
  }
}
