/** What it means for the client's tree to have passed verification against the chain's. */
module TreeAgreement {
  import opened Field
  import opened MerkleSpec
  import opened PoolState
  import opened SdkTree
  import opened PoolLayout
  import opened Words
  import opened Accounts

  /** Two implementations, one tree: after the same leaves the newest on-chain root is the client's root,
    and the client keeps ceil(n / 2^k) nodes at level k. */
  lemma TwoTreesAgree(pool: Pool, tree: MerkleTree, k: nat)
    requires pool.Valid() && tree.Valid() && tree.depth == DEPTH
    requires pool.poseidon == tree.poseidon && tree.Leaves() == pool.leaves
    requires k <= DEPTH
    ensures pool.nextIndex == |tree.Leaves()|
    ensures pool.rootHistory[pool.currentRootIndex] == Root(tree.poseidon.two, ReduceAll(tree.Leaves()))
    ensures var w := |tree.layers[k]|;
      pool.nextIndex <= w * Pow2(k) && (w > 0 ==> (w - 1) * Pow2(k) < pool.nextIndex)
  {
    RecentRootIsStored(pool.poseidon.two, pool.leaves, |pool.leaves|);
    assert pool.leaves[..|pool.leaves|] == pool.leaves;
    ReduceCanonical(pool.leaves);
    assert LayerIs(tree.poseidon.two, tree.layers[0], k, tree.layers[k]);
    var w := |tree.layers[k]|;
    WidthIsCeiling(pool.nextIndex, k, w);
    if w > 0 {
      WidthIsCeiling(pool.nextIndex, k, w - 1);
    }
  }

  lemma ReduceCanonical(xs: seq<nat>)
    ensures ReduceAll(xs) == xs <==> forall x :: x in xs ==> x < FR
  {
    if forall x :: x in xs ==> x < FR {
      assert forall i :: 0 <= i < |xs| ==> xs[i] in xs;
    }
    if ReduceAll(xs) == xs {
      forall x | x in xs
        ensures x < FR
      {
        var i :| 0 <= i < |xs| && xs[i] == x;
        assert ReduceAll(xs)[i] < FR;
      }
    }
  }

  /** The account bytes describe a pool holding these leaves. */
  ghost predicate Describes(h: Compress, data: seq<Byte>, leaves: seq<Element>)
  {
    && RING_END <= |data|
    && U64At(data, OFF_NEXT_INDEX) == |leaves| <= SATURATION_THRESHOLD
    && U64At(data, OFF_CURRENT_ROOT_INDEX) == |leaves| % ROOT_HISTORY_SIZE
    && Slots(data) == Ring(h, leaves)
  }

  /** The account of every pool the program can hold is such bytes. */
  lemma EncodedPoolIsDescribed(pool: Pool, keyOf: Address -> Bytes32)
    requires pool.Valid()
    ensures Describes(pool.poseidon.two, Encode(RecordOf(pool, keyOf)), pool.leaves)
  {
    OffsetsFindFields(RecordOf(pool, keyOf));
    SlotsAreRing(RecordOf(pool, keyOf));
  }

  /** The root of the newest deposit, as anyone holding the account can read it. */
  function NewestRoot(data: seq<Byte>): nat
    requires RING_END <= |data| && U64At(data, OFF_CURRENT_ROOT_INDEX) < ROOT_HISTORY_SIZE
  {
    Slots(data)[U64At(data, OFF_CURRENT_ROOT_INDEX)]
  }

  lemma NewestRootIsCurrent(h: Compress, data: seq<Byte>, leaves: seq<Element>)
    requires Describes(h, data, leaves)
    ensures NewestRoot(data) == Root(h, leaves)
  {
    RecentRootIsStored(h, leaves, |leaves|);
    assert leaves[..|leaves|] == leaves;
  }

  /** No collision between the local tree and any recent on-chain tree it shares a root with, and the
    local root is not the zero marker of an unused ring slot. */
  ghost predicate NoClash(h: Compress, local: seq<Element>, onchain: seq<Element>) {
    && Root(h, local) != 0
    && forall m: nat :: RecentRoot(h, onchain, m, Root(h, local)) ==> !TreeClash(h, local, onchain[..m])
  }

  ghost predicate SamePadding(a: seq<Element>, b: seq<Element>) {
    forall j: nat :: j < TREE_CAPACITY ==> Padded(a, j) == Padded(b, j)
  }

  /** Soundness: a tree that passes verification has, modulo the field prime, the same zero-padded leaves
    as the chain had at some root still in the ring. */
  lemma VerifiedTreeIsRecent(h: Compress, local: seq<nat>, onchain: seq<Element>, data: seq<Byte>) returns (m: nat)
    requires Describes(h, data, onchain) && MatchesPool(h, local, data)
    requires NoClash(h, ReduceAll(local), onchain)
    ensures RecentRoot(h, onchain, m, Root(h, ReduceAll(local)))
    ensures SamePadding(ReduceAll(local), onchain[..m])
  {
    KnownExactlyInWindow(h, onchain, Root(h, ReduceAll(local)));
    m :| RecentRoot(h, onchain, m, Root(h, ReduceAll(local)));
    CapacityIsPow2();
    EqualRootsEqualLeaves(h, ReduceAll(local), onchain[..m]);
  }

  /** Exactly when a tree that passed verification holds the chain's leaves: its root must be the newest root,
    not merely one still in the ring, and every leaf must be canonical. With the first alone the lists agree
    modulo the prime. */
  lemma VerifiedTreeIsOnChain(h: Compress, local: seq<nat>, onchain: seq<Element>, data: seq<Byte>)
    requires Describes(h, data, onchain) && MatchesPool(h, local, data)
    requires !TreeClash(h, ReduceAll(local), onchain)
    ensures ReduceAll(local) == onchain <==> Root(h, ReduceAll(local)) == NewestRoot(data)
    ensures local == onchain <==> Root(h, ReduceAll(local)) == NewestRoot(data) && forall x :: x in local ==> x < FR
  {
    NewestRootIsCurrent(h, data, onchain);
    CapacityIsPow2();
    if Root(h, ReduceAll(local)) == Root(h, onchain) {
      EqualRootsEqualLeaves(h, ReduceAll(local), onchain);
    }
    ReduceCanonical(local);
    ReduceCanonical(onchain);
  }

  /** A local list without zero leaves cannot match an older root, so it has the newest. */
  lemma ZeroFreeTreeIsNewest(h: Compress, local: seq<nat>, onchain: seq<Element>, data: seq<Byte>)
    requires Describes(h, data, onchain) && MatchesPool(h, local, data)
    requires NoClash(h, ReduceAll(local), onchain)
    requires forall x :: x in local ==> Reduce(x) != 0
    ensures ReduceAll(local) == onchain && Root(h, ReduceAll(local)) == NewestRoot(data)
  {
    var es, n := ReduceAll(local), |onchain|;
    forall j | 0 <= j < n
      ensures es[j] != 0
    {
      assert local[j] in local;
    }
    var m := VerifiedTreeIsRecent(h, local, onchain, data);
    ZeroBeyondPrefix(es, onchain[..m]);
    assert onchain[..n] == onchain;
    assert forall j :: 0 <= j < n ==> Padded(es, j) == es[j] && Padded(onchain, j) == onchain[j];
    NewestRootIsCurrent(h, data, onchain);
  }

  lemma ZeroBeyondPrefix(a: seq<Element>, b: seq<Element>)
    requires SamePadding(a, b) && |a| <= TREE_CAPACITY
    ensures |b| < |a| ==> a[|b|] == 0
  {
    assert |b| < |a| ==> Padded(a, |b|) == Padded(b, |b|);
  }

  /** The exact list is not guaranteed: adding the prime to a leaf keeps every root, so a cached list that is
    not the chain's passes verification, and a search for the note at that leaf finds nothing. */
  lemma NonCanonicalLeafPasses(h: Compress, onchain: seq<Element>, i: nat, data: seq<Byte>)
    requires Describes(h, data, onchain) && i < |onchain|
    ensures var local: seq<nat> := onchain[..i] + [onchain[i] + FR] + onchain[i + 1..];
      && MatchesPool(h, local, data) && local != onchain && local[i] < WORD_LIMIT
      && ((forall j :: 0 <= j < |onchain| && j != i ==> onchain[j] != onchain[i]) ==> onchain[i] !in local)
  {
    var local: seq<nat> := onchain[..i] + [onchain[i] + FR] + onchain[i + 1..];
    assert local[i] == onchain[i] + FR;
    assert Reduce(onchain[i] + FR) == onchain[i];
    assert forall j :: 0 <= j < |onchain| && j != i ==> local[j] == onchain[j];
    assert ReduceAll(local) == onchain;
    CurrentRootIsKnown(h, onchain);
  }

  function ZeroTail(onchain: seq<Element>, k: nat): (local: seq<Element>)
    requires k <= |onchain|
    ensures |local| == |onchain|
  {
    onchain[..k] + seq(|onchain| - k, _ => 0)
  }

  lemma {:induction false} ZeroTailKeepsRoot(h: Compress, leaves: seq<Element>, zeros: nat)
    ensures Root(h, leaves + seq(zeros, _ => 0)) == Root(h, leaves)
  {
    if zeros == 0 {
      assert leaves + seq(zeros, _ => 0) == leaves;
    } else {
      ZeroTailKeepsRoot(h, leaves, zeros - 1);
      assert leaves + seq(zeros, _ => 0) == (leaves + seq(zeros - 1, _ => 0)) + [0];
      ZeroLeafIsInvisible(h, leaves + seq(zeros - 1, _ => 0), DEPTH, 0);
    }
  }

  lemma RecentTailPasses(h: Compress, onchain: seq<Element>, m: nat, data: seq<Byte>)
    requires Describes(h, data, onchain) && m <= |onchain| < m + ROOT_HISTORY_SIZE
    ensures Root(h, ZeroTail(onchain, m)) in Slots(data)
  {
    ZeroTailKeepsRoot(h, onchain[..m], |onchain| - m);
    RecentRootIsStored(h, onchain, m);
    assert Ring(h, onchain)[m % ROOT_HISTORY_SIZE] == Root(h, ZeroTail(onchain, m));
  }

  /** Nor is the list guaranteed modulo the prime: any of the last 255 leaves and all after it can be replaced
    by zeros. The result is canonical, has the right length and an older root, so it passes verification,
    and a search for the note at that leaf finds nothing. */
  lemma ZeroTailPasses(h: Compress, onchain: seq<Element>, k: nat, data: seq<Byte>)
    requires Describes(h, data, onchain) && k < |onchain| < k + ROOT_HISTORY_SIZE
    ensures var local := ZeroTail(onchain, k);
      && MatchesPool(h, local, data) && (forall x :: x in local ==> x < FR)
      && (onchain[k] != 0 ==> local != onchain)
      && (onchain[k] != 0 && (forall j :: 0 <= j < k ==> onchain[j] != onchain[k]) ==> onchain[k] !in local)
  {
    ReduceCanonical(ZeroTail(onchain, k));
    RecentTailPasses(h, onchain, k, data);
    assert ZeroTail(onchain, k)[k] == 0;
  }

  /** The first `m` on-chain leaves, one of the last 256 prefixes, followed by zeros. */
  ghost predicate IsRecentTail(es: seq<Element>, onchain: seq<Element>, m: nat) {
    m <= |onchain| < m + ROOT_HISTORY_SIZE && es == ZeroTail(onchain, m)
  }

  /** What verification lets through, exactly: modulo the prime, a recent prefix of the chain's leaves filled
    up with zeros. */
  lemma VerifiedExactlyRecentTails(h: Compress, local: seq<nat>, onchain: seq<Element>, data: seq<Byte>)
    requires Describes(h, data, onchain)
    requires NoClash(h, ReduceAll(local), onchain)
    ensures MatchesPool(h, local, data) <==> exists m: nat :: IsRecentTail(ReduceAll(local), onchain, m)
  {
    var es := ReduceAll(local);
    if MatchesPool(h, local, data) {
      var m := VerifiedTreeIsRecent(h, local, onchain, data);
      assert forall j :: 0 <= j < |es| ==> Padded(es, j) == es[j] && Padded(onchain[..m], j) == ZeroTail(onchain, m)[j];
      assert IsRecentTail(es, onchain, m);
    }
    if m: nat :| IsRecentTail(es, onchain, m) {
      RecentTailPasses(h, onchain, m, data);
    }
  }
}
