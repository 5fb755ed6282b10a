/** The pool account as raw bytes, and the four programs that read its root ring.

  The on-chain withdrawal, the relayer and the client library never deserialise the account: each reads
  fixed offsets. `Encode` is the layout the compiler gives the struct, behind its 8-byte discriminator.
*/
module PoolLayout {
  import opened Field
  import opened MerkleSpec
  import opened PoolState
  import opened Words
  import opened SdkTree
  import opened Accounts

  const DISCRIMINATOR: seq<Byte> := [0xf1, 0x9a, 0x6d, 0x04, 0x11, 0xb1, 0x6d, 0xbc]

  const OFF_ADMIN: nat := 8 + 0
  const OFF_MINT: nat := 8 + 32
  const OFF_DENOMINATION: nat := 8 + 64
  const OFF_NEXT_INDEX: nat := 8 + 80
  const OFF_TREASURY: nat := 8 + 88
  const OFF_VERSION: nat := 8 + 120
  const OFF_BUMP: nat := 8 + 121
  const OFF_VAULT_BUMP: nat := 8 + 122
  const OFF_IS_PAUSED: nat := 8 + 123
  const OFF_CURRENT_ROOT_INDEX: nat := 8 + 128
  const OFF_ROOT_HISTORY: nat := 8 + 136
  const OFF_FILLED_SUBTREES: nat := 8 + 8328
  const RING_END: nat := OFF_ROOT_HISTORY + ROOT_HISTORY_SIZE * 32
  const POOL_ACCOUNT_LEN: nat := 8 + 8968

  datatype PoolRecord = PoolRecord(
    admin: Bytes32, mint: Bytes32, denomination: U64, mintDecimals: Byte, nextIndex: U64, treasury: Bytes32,
    version: Byte, bump: Byte, vaultBump: Byte, isPaused: Byte, currentRootIndex: U64,
    rootHistory: seq<Word>, filledSubtrees: seq<Word>)
  {
    predicate WellSized() {
      |rootHistory| == ROOT_HISTORY_SIZE && |filledSubtrees| == DEPTH
    }
  }

  function Flatten(ws: seq<Word>): seq<Byte> {
    if ws == [] then [] else ToBe(ws[0], 32) + Flatten(ws[1..])
  }

  function Padding(n: nat): seq<Byte> { seq(n, _ => 0) }

  /** Everything before `next_index`: keys, denomination, decimals and padding. */
  function HeadLow(p: PoolRecord): (s: seq<Byte>)
    ensures |s| == 80
  {
    (p.admin + p.mint) + ToLe(p.denomination, 8) + ([p.mintDecimals] + Padding(7))
  }

  /** From `next_index` up to the ring. */
  function HeadHigh(p: PoolRecord): (s: seq<Byte>)
    ensures |s| == 56
  {
    ToLe(p.nextIndex, 8) + p.treasury + [p.version, p.bump, p.vaultBump, p.isPaused] + Padding(4)
    + ToLe(p.currentRootIndex, 8)
  }

  function Encode(p: PoolRecord): seq<Byte> {
    (DISCRIMINATOR + HeadLow(p) + HeadHigh(p)) + (Flatten(p.rootHistory) + Flatten(p.filledSubtrees))
  }

  // ---------------------------------------------------------------- what the bytes say

  function SlotBytes(data: seq<Byte>, i: nat): Bytes32
    requires i < ROOT_HISTORY_SIZE && RING_END <= |data|
  {
    data[OFF_ROOT_HISTORY + i * 32..OFF_ROOT_HISTORY + i * 32 + 32]
  }

  function SlotValue(data: seq<Byte>, i: nat): Word
    requires i < ROOT_HISTORY_SIZE && RING_END <= |data|
  {
    WordFits(SlotBytes(data, i));
    BeValue(SlotBytes(data, i))
  }

  /** The ring as numbers. */
  function Slots(data: seq<Byte>): (ring: seq<Word>)
    requires RING_END <= |data|
    ensures |ring| == ROOT_HISTORY_SIZE
  {
    seq(ROOT_HISTORY_SIZE, i requires 0 <= i < ROOT_HISTORY_SIZE => SlotValue(data, i))
  }

  function U64At(data: seq<Byte>, offset: nat): nat
    requires offset + 8 <= |data|
  {
    LeValue(data[offset..offset + 8])
  }

  lemma {:induction false} FlattenLength(ws: seq<Word>)
    ensures |Flatten(ws)| == 32 * |ws|
  {
    if ws != [] {
      FlattenLength(ws[1..]);
    }
  }

  lemma {:induction false} FlattenSlot(ws: seq<Word>, i: nat)
    requires i < |ws|
    ensures 32 * i + 32 <= |Flatten(ws)| == 32 * |ws|
    ensures Flatten(ws)[32 * i..32 * i + 32] == ToBe(ws[i], 32)
  {
    FlattenLength(ws);
    FlattenLength(ws[1..]);
    var first, rest := ToBe(ws[0], 32), Flatten(ws[1..]);
    if i > 0 {
      FlattenSlot(ws[1..], i - 1);
      var at := 32 * (i - 1);
      assert (first + rest)[at + 32..at + 64] == rest[at..at + 32];
    }
  }

  lemma Middle(a: seq<Byte>, b: seq<Byte>, c: seq<Byte>)
    ensures (a + b + c)[|a|..|a| + |b|] == b
  {}

  lemma EncodedLength(p: PoolRecord)
    requires p.WellSized()
    ensures |Encode(p)| == POOL_ACCOUNT_LEN
  {
    FlattenLength(p.rootHistory);
    FlattenLength(p.filledSubtrees);
  }

  /** Every fixed offset finds the struct's own field; the ring is the subject of `SlotsAreRing`. */
  lemma OffsetsFindFields(p: PoolRecord)
    requires p.WellSized()
    ensures |Encode(p)| == POOL_ACCOUNT_LEN && Encode(p)[..8] == DISCRIMINATOR
    ensures Encode(p)[OFF_ADMIN..OFF_ADMIN + 32] == p.admin && Encode(p)[OFF_MINT..OFF_MINT + 32] == p.mint
    ensures U64At(Encode(p), OFF_DENOMINATION) == p.denomination
    ensures U64At(Encode(p), OFF_NEXT_INDEX) == p.nextIndex
    ensures U64At(Encode(p), OFF_CURRENT_ROOT_INDEX) == p.currentRootIndex
    ensures Encode(p)[OFF_TREASURY..OFF_TREASURY + 32] == p.treasury
    ensures Encode(p)[OFF_VERSION] == p.version && Encode(p)[OFF_BUMP] == p.bump
    ensures Encode(p)[OFF_VAULT_BUMP] == p.vaultBump && Encode(p)[OFF_IS_PAUSED] == p.isPaused
    ensures OFF_FILLED_SUBTREES == RING_END && Encode(p)[OFF_FILLED_SUBTREES..] == Flatten(p.filledSubtrees)
  {
    EncodedLength(p);
    Pow256Of32();
    var tail := Flatten(p.rootHistory) + Flatten(p.filledSubtrees);
    LowFields(p, tail);
    KeyFields(p, tail);
    HighFields(p, tail);
    FlattenLength(p.rootHistory);
    TailField(DISCRIMINATOR + HeadLow(p) + HeadHigh(p), Flatten(p.rootHistory), Flatten(p.filledSubtrees));
  }

  lemma LowFields(p: PoolRecord, tail: seq<Byte>)
    ensures var data := (DISCRIMINATOR + HeadLow(p) + HeadHigh(p)) + tail;
      && data[..8] == DISCRIMINATOR
      && U64At(data, OFF_DENOMINATION) == p.denomination
  {
    var data := (DISCRIMINATOR + HeadLow(p) + HeadHigh(p)) + tail;
    var denomination := ToLe(p.denomination, 8);
    var before := DISCRIMINATOR + (p.admin + p.mint);
    var after := ([p.mintDecimals] + Padding(7)) + HeadHigh(p) + tail;
    assert data == before + denomination + after;
    Middle(before, denomination, after);
    Pow256Of32();
    LeRoundTrip(p.denomination, 8);
  }

  lemma KeyFields(p: PoolRecord, tail: seq<Byte>)
    ensures var data := (DISCRIMINATOR + HeadLow(p) + HeadHigh(p)) + tail;
      data[OFF_ADMIN..OFF_ADMIN + 32] == p.admin && data[OFF_MINT..OFF_MINT + 32] == p.mint
  {
    var data := (DISCRIMINATOR + HeadLow(p) + HeadHigh(p)) + tail;
    var after := ToLe(p.denomination, 8) + ([p.mintDecimals] + Padding(7)) + HeadHigh(p) + tail;
    assert data == DISCRIMINATOR + p.admin + p.mint + after;
    Parts2(DISCRIMINATOR, p.admin, p.mint, after);
  }

  lemma TailField(head: seq<Byte>, ring: seq<Byte>, filled: seq<Byte>)
    ensures (head + (ring + filled))[|head| + |ring|..] == filled
  {}

  /** Slicing a concatenation at the boundaries gives its parts back. */
  lemma Parts(low: seq<Byte>, a: seq<Byte>, b: seq<Byte>, c: seq<Byte>, d: seq<Byte>, tail: seq<Byte>)
    ensures var data := (low + (a + b + c + d)) + tail;
      var i, j, k := |low| + |a|, |low| + |a| + |b|, |low| + |a| + |b| + |c|;
      data[|low|..i] == a && data[i..j] == b && data[j..k] == c && data[k..k + |d|] == d
  {
    Parts2(low, a, b, c + d + tail);
    Parts2(low + a + b, c, d, tail);
    var data := (low + (a + b + c + d)) + tail;
    assert data == low + a + b + (c + d + tail);
    assert data == (low + a + b) + c + d + tail;
  }

  lemma Parts2(low: seq<Byte>, a: seq<Byte>, b: seq<Byte>, tail: seq<Byte>)
    ensures var data := low + a + b + tail;
      data[|low|..|low| + |a|] == a && data[|low| + |a|..|low| + |a| + |b|] == b
  {
    Middle(low + a, b, tail);
    assert low + a + b + tail == low + a + (b + tail);
    Middle(low, a, b + tail);
  }

  lemma HighFields(p: PoolRecord, tail: seq<Byte>)
    ensures var data := (DISCRIMINATOR + HeadLow(p) + HeadHigh(p)) + tail;
      && U64At(data, OFF_NEXT_INDEX) == p.nextIndex
      && U64At(data, OFF_CURRENT_ROOT_INDEX) == p.currentRootIndex
      && data[OFF_TREASURY..OFF_TREASURY + 32] == p.treasury
      && data[OFF_VERSION] == p.version && data[OFF_BUMP] == p.bump
      && data[OFF_VAULT_BUMP] == p.vaultBump && data[OFF_IS_PAUSED] == p.isPaused
  {
    var low := DISCRIMINATOR + HeadLow(p);
    var flags := [p.version, p.bump, p.vaultBump, p.isPaused];
    assert HeadHigh(p) == ToLe(p.nextIndex, 8) + p.treasury + (flags + Padding(4)) + ToLe(p.currentRootIndex, 8);
    Parts(low, ToLe(p.nextIndex, 8), p.treasury, flags + Padding(4), ToLe(p.currentRootIndex, 8), tail);
    Pow256Of32();
    LeRoundTrip(p.nextIndex, 8);
    LeRoundTrip(p.currentRootIndex, 8);
    var data := (low + HeadHigh(p)) + tail;
    forall i: nat | i < 4
      ensures data[128 + i] == flags[i]
    {
      assert data[128 + i] == data[128..136][i] == (flags + Padding(4))[i];
    }
    assert flags == [data[128 + 0], data[128 + 1], data[128 + 2], data[128 + 3]];
  }

  /** The slots of an encoded pool are the struct's ring. */
  lemma SlotsAreRing(p: PoolRecord)
    requires p.WellSized()
    ensures |Encode(p)| == POOL_ACCOUNT_LEN && Slots(Encode(p)) == p.rootHistory
  {
    EncodedLength(p);
    var data := Encode(p);
    var head := DISCRIMINATOR + HeadLow(p) + HeadHigh(p);
    var ring, filled := Flatten(p.rootHistory), Flatten(p.filledSubtrees);
    forall i: nat | i < ROOT_HISTORY_SIZE
      ensures SlotValue(data, i) == p.rootHistory[i]
    {
      FlattenSlot(p.rootHistory, i);
      assert data == head + (ring + filled);
      assert SlotBytes(data, i) == ring[32 * i..32 * i + 32];
      Pow256Of32();
      BeRoundTrip(p.rootHistory[i], 32);
    }
  }

  /** The account of a pool: what the runtime stores for the object. */
  function RecordOf(pool: Pool, keyOf: Address -> Bytes32): PoolRecord
    requires pool.Valid()
    reads pool, pool.rootHistory, pool.filledSubtrees
  {
    PoolRecord(
      keyOf(pool.config.admin), seq(32, _ => 0), pool.config.denomination, 9, pool.nextIndex,
      keyOf(pool.config.treasury),
      pool.config.version, pool.config.bump, pool.config.vaultBump, if pool.isPaused then 1 else 0,
      pool.currentRootIndex,
      pool.rootHistory[..], pool.filledSubtrees[..])
  }

  // ---------------------------------------------------------------- the readers

  datatype PoolTreeState = PoolTreeState(nextIndex: nat, currentRootIndex: nat, roots: seq<Word>)

  /** On-chain withdrawal: compare each 32-byte slot with the root's bytes, never matching zero. */
  method IsKnownRootInAccount(data: seq<Byte>, root: Bytes32) returns (known: Option<bool>)
    requires |data| >= 8
    ensures BeValue(root) == 0 ==> known == Some(false)
    ensures BeValue(root) != 0 ==> (known.Some? <==> |data| >= RING_END)
    ensures known.Some? && |data| >= RING_END ==> (WordFits(root); known.value == KnownIn(Slots(data), BeValue(root)))
  {
    WordFits(root);
    var zero: Bytes32 := seq(32, _ => 0);
    LeadingZeros(32, []);
    assert zero + [] == zero;
    if root == zero { return Some(false); }
    if BeValue(root) == 0 { EqualValuesEqualBytes(root, zero); }
    if |data| < RING_END { return None; }
    for i := 0 to ROOT_HISTORY_SIZE
      invariant forall k: nat :: k < i ==> SlotValue(data, k) != BeValue(root)
    {
      if SlotBytes(data, i) == root {
        assert Slots(data)[i] == BeValue(root);
        return Some(true);
      }
      if SlotValue(data, i) == BeValue(root) { EqualValuesEqualBytes(SlotBytes(data, i), root); }
    }
    return Some(false);
  }

  /** Accumulate one slot, byte by byte. */
  method ReadSlot(data: seq<Byte>, i: nat) returns (v: Word)
    requires i < ROOT_HISTORY_SIZE && RING_END <= |data|
    ensures v == SlotValue(data, i)
  {
    var start := OFF_ROOT_HISTORY + i * 32;
    ghost var slot := SlotBytes(data, i);
    var acc: nat := 0;
    for j := 0 to 32
      invariant acc == BeValue(slot[..j])
    {
      PrefixStep(slot, j);
      assert slot[j] == data[start + j];
      acc := acc * 256 + data[start + j];
    }
    assert slot[..32] == slot;
    WordFits(slot);
    v := acc;
  }

  /** Relayer: the ring as a list of numbers. The caller has checked the account's length. */
  method ReadRootHistory(data: seq<Byte>) returns (roots: seq<Word>)
    requires |data| >= POOL_ACCOUNT_LEN
    ensures roots == Slots(data)
  {
    roots := [];
    for i := 0 to ROOT_HISTORY_SIZE
      invariant roots == Slots(data)[..i]
    {
      var v := ReadSlot(data, i);
      roots := roots + [v];
    }
  }

  /** Client library: a little-endian 64-bit field. */
  method ReadU64LE(data: seq<Byte>, offset: nat) returns (v: nat)
    requires offset + 8 <= |data|
    ensures v == U64At(data, offset)
  {
    v := 0;
    var i := 8;
    while i > 0
      invariant 0 <= i <= 8
      invariant v == LeValue(data[offset + i..offset + 8])
    {
      i := i - 1;
      assert data[offset + i..offset + 8][1..] == data[offset + i + 1..offset + 8];
      v := v * 256 + data[offset + i];
    }
  }

  /** Client library: the Merkle-relevant fields, or nothing for an account that is too small. */
  method ReadPoolTreeState(data: seq<Byte>) returns (state: Option<PoolTreeState>)
    ensures state.Some? <==> |data| >= RING_END
    ensures state.Some? ==>
      state.value == PoolTreeState(U64At(data, OFF_NEXT_INDEX), U64At(data, OFF_CURRENT_ROOT_INDEX), Slots(data))
  {
    if |data| < RING_END { return None; }
    var roots: seq<Word> := [];
    for i := 0 to ROOT_HISTORY_SIZE
      invariant roots == Slots(data)[..i]
    {
      var v := ReadSlot(data, i);
      roots := roots + [v];
    }
    var nextIndex := ReadU64LE(data, OFF_NEXT_INDEX);
    var currentRootIndex := ReadU64LE(data, OFF_CURRENT_ROOT_INDEX);
    state := Some(PoolTreeState(nextIndex, currentRootIndex, roots));
  }

  // ---------------------------------------------------------------- tree verification

  datatype Verification =
    | Verified(root: nat, leafCount: nat, rootIndex: nat)
    | AccountTooSmall
    | Incomplete(recovered: nat, expected: nat)
    | RootMismatch

  /** A tree over `leaves` has the account's leaf count and a root in its ring. */
  ghost predicate MatchesPool(h: Compress, leaves: seq<nat>, data: seq<Byte>) {
    && RING_END <= |data|
    && |leaves| == U64At(data, OFF_NEXT_INDEX)
    && Root(h, ReduceAll(leaves)) in Slots(data)
  }

  method VerifyTreeMatchesPool(tree: MerkleTree, data: seq<Byte>) returns (v: Verification)
    requires tree.Valid() && tree.depth == DEPTH
    ensures v.Verified? <==> MatchesPool(tree.poseidon.two, tree.Leaves(), data)
    ensures v.Verified? ==>
      && v.leafCount == |tree.Leaves()| && v.root == Root(tree.poseidon.two, ReduceAll(tree.Leaves()))
      && v.rootIndex < ROOT_HISTORY_SIZE && Slots(data)[v.rootIndex] == v.root
    ensures v.AccountTooSmall? <==> |data| < RING_END
    ensures v.Incomplete? ==> v.recovered == |tree.Leaves()| != v.expected == U64At(data, OFF_NEXT_INDEX)
  {
    var state := ReadPoolTreeState(data);
    if state.None? { return AccountTooSmall; }
    var leafCount := |tree.layers[0]|;
    if leafCount != state.value.nextIndex {
      return Incomplete(leafCount, state.value.nextIndex);
    }
    var root := tree.Root();
    for i := 0 to ROOT_HISTORY_SIZE
      invariant root !in Slots(data)[..i]
    {
      if state.value.roots[i] == root {
        return Verified(root, leafCount, i);
      }
    }
    assert Slots(data)[..ROOT_HISTORY_SIZE] == Slots(data);
    return RootMismatch;
  }
}
