/** The on-chain pool account: the incremental Merkle tree and the ring of recent roots. */
module PoolState {
  import opened Field
  import opened MerkleSpec
  import opened ProgramErrors
  import opened Accounts
  import opened Words

  const ROOT_HISTORY_SIZE: nat := 256
  const SATURATION_THRESHOLD: nat := 950_000
  const TREE_CAPACITY: nat := 1_048_576

  /** The hash syscall on two 32-byte values: it refuses a value that is not below the field prime. */
  function HashWords(h: Compress, left: Word, right: Word): (r: Option<Element>)
    ensures r.Some? <==> left < FR && right < FR
  {
    if left < FR && right < FR then Some(h(left, right)) else None
  }

  // ---------------------------------------------------------------- the root ring

  /** The latest deposit count up to `n` that slot `j` stands for: the largest one congruent to `j`. */
  function SlotCount(n: nat, j: nat): (m: nat)
    requires j <= n
    ensures m <= n < m + ROOT_HISTORY_SIZE && (j < ROOT_HISTORY_SIZE ==> m % ROOT_HISTORY_SIZE == j)
  {
    var m := n - (n - j) % ROOT_HISTORY_SIZE;
    CongruentBelow(n, j, m);
    m
  }

  lemma CongruentBelow(n: nat, j: nat, m: nat)
    requires j <= n && m == n - (n - j) % ROOT_HISTORY_SIZE
    ensures 0 <= m <= n < m + ROOT_HISTORY_SIZE && (j < ROOT_HISTORY_SIZE ==> m % ROOT_HISTORY_SIZE == j)
  {
    assert m == j + (n - j) / ROOT_HISTORY_SIZE * ROOT_HISTORY_SIZE;
  }

  /** What slot `j` holds after the given deposits: the root after that many of them, or zero if the ring has
    not reached the slot yet. */
  function RingAt(h: Compress, leaves: seq<Element>, j: nat): Element {
    if j <= |leaves| then Root(h, leaves[..SlotCount(|leaves|, j)]) else 0
  }

  /** The root after `m` deposits, for `m` among the last 256 deposit counts. */
  ghost predicate RecentRoot(h: Compress, leaves: seq<Element>, m: nat, root: Word) {
    m <= |leaves| < m + ROOT_HISTORY_SIZE && Root(h, leaves[..m]) == root
  }

  /** The root after some deposit count still in the window. */
  ghost predicate InWindow(h: Compress, leaves: seq<Element>, root: Word) {
    exists m: nat :: RecentRoot(h, leaves, m, root)
  }

  /** A scan of the ring finds the root in some slot, and the root is not the unused-slot marker. */
  predicate KnownIn(ring: seq<Word>, root: Word) {
    root != 0 && root in ring
  }

  function Ring(h: Compress, leaves: seq<Element>): (ring: seq<Word>)
    ensures |ring| == ROOT_HISTORY_SIZE
  {
    seq(ROOT_HISTORY_SIZE, j requires 0 <= j < ROOT_HISTORY_SIZE => RingAt(h, leaves, j))
  }

  lemma OneCountPerWindow(n: nat, a: nat, b: nat)
    requires a <= n < a + ROOT_HISTORY_SIZE && b <= n < b + ROOT_HISTORY_SIZE
    requires a % ROOT_HISTORY_SIZE == b % ROOT_HISTORY_SIZE
    ensures a == b
  {}

  lemma RecentRootIsStored(h: Compress, leaves: seq<Element>, m: nat)
    requires m <= |leaves| < m + ROOT_HISTORY_SIZE
    ensures RingAt(h, leaves, m % ROOT_HISTORY_SIZE) == Root(h, leaves[..m])
  {
    var j := m % ROOT_HISTORY_SIZE;
    OneCountPerWindow(|leaves|, m, SlotCount(|leaves|, j));
  }

  lemma StoredRootIsRecent(h: Compress, leaves: seq<Element>, j: nat) returns (m: nat)
    requires j < ROOT_HISTORY_SIZE
    ensures RingAt(h, leaves, j) == 0 || (m % ROOT_HISTORY_SIZE == j && RecentRoot(h, leaves, m, RingAt(h, leaves, j)))
  {
    m := if j <= |leaves| then SlotCount(|leaves|, j) else 0;
  }

  /** The window theorem: after n deposits a non-zero root is known exactly when it is the root after
    k deposits for some k from max(0, n - 255) to n. */
  lemma KnownExactlyInWindow(h: Compress, leaves: seq<Element>, root: Word)
    ensures KnownIn(Ring(h, leaves), root) <==> root != 0 && InWindow(h, leaves, root)
  {
    var ring := Ring(h, leaves);
    if KnownIn(ring, root) {
      var j: nat :| j < |ring| && ring[j] == root;
      var m := StoredRootIsRecent(h, leaves, j);
    }
    if root != 0 && InWindow(h, leaves, root) {
      var m: nat :| RecentRoot(h, leaves, m, root);
      RecentRootIsStored(h, leaves, m);
      assert ring[m % ROOT_HISTORY_SIZE] == root;
    }
  }

  lemma CurrentRootIsKnown(h: Compress, leaves: seq<Element>)
    ensures Root(h, leaves) in Ring(h, leaves)
  {
    RecentRootIsStored(h, leaves, |leaves|);
    assert leaves[..|leaves|] == leaves;
    assert Ring(h, leaves)[|leaves| % ROOT_HISTORY_SIZE] == Root(h, leaves);
  }

  // ---------------------------------------------------------------- one insertion

  lemma ZeroAtTop(h: Compress, k: nat)
    requires k > 0
    ensures Zero(h, k) == h(Zero(h, k - 1), Zero(h, k - 1))
  {}

  lemma {:induction false} AncestorOfZero(k: nat)
    ensures Ancestor(0, k) == 0
  {
    if k > 0 { AncestorOfZero(k - 1); }
  }

  lemma CapacityIsPow2()
    ensures Pow2(DEPTH) == TREE_CAPACITY
  {
    assert Pow2(10) == 1024;
    assert Pow2(20) == 1024 * Pow2(10);
  }

  lemma LeafCountFits(n: nat)
    requires n < TREE_CAPACITY
    ensures Ancestor(n, DEPTH) == 0
  {
    CapacityIsPow2();
    AncestorBelow(n, 1, DEPTH);
  }

  /** One level of the insertion loop: the new node's sibling is an empty subtree on its right, or the
    complete subtree on its left that was there before. */
  lemma StepUp(h: Compress, leaves: seq<Element>, leaf: Element, k: nat)
    ensures var a := Ancestor(|leaves|, k);
      Node(h, leaves + [leaf], k + 1, Ancestor(|leaves|, k + 1)) ==
        if a % 2 == 0 then h(Node(h, leaves + [leaf], k, a), Zero(h, k))
        else h(Node(h, leaves, k, a - 1), Node(h, leaves + [leaf], k, a))
  {
    var a, grown := Ancestor(|leaves|, k), leaves + [leaf];
    NodeAbove(h, grown, k, a);
    assert Ancestor(|leaves|, k + 1) == a / 2;
    if a % 2 == 0 {
      WidthVersusAncestor(|leaves|, k);
      EmptySubtree(h, grown, k, a + 1);
    } else {
      AppendIsLocal(h, leaves, leaf, k, a - 1);
    }
  }

  /** `filled` after the loop has passed the levels below `i`: left children are stored, the rest kept. */
  ghost predicate StoredUpTo(h: Compress, leaves: seq<Element>, leaf: Element, before: seq<Word>, filled: seq<Word>,
                             i: nat)
  {
    && |before| == |filled| == DEPTH
    && forall k: nat :: k < DEPTH ==>
         filled[k] ==
           if k < i && Ancestor(|leaves|, k) % 2 == 0
           then Node(h, leaves + [leaf], k, Ancestor(|leaves|, k))
           else before[k]
  }

  /** What one level of the loop leaves in the entries, and what it hashes. */
  function StoredAt(filled: seq<Word>, i: nat, index: nat, current: Word): seq<Word>
    requires i < |filled|
  {
    if index % 2 == 0 then filled[i := current] else filled
  }

  function HashedAt(h: Compress, filled: seq<Word>, i: nat, index: nat, current: Word): Option<Element>
    requires i < |filled|
  {
    if index % 2 == 0 then HashWords(h, current, Zero(h, i)) else HashWords(h, filled[i], current)
  }

  /** It hashes the pair below the next node on the way up. */
  lemma HashIsNextNode(h: Compress, leaves: seq<Element>, leaf: Element, before: seq<Word>, filled: seq<Word>, i: nat,
                       current: Word)
    requires CompleteSubtrees(h, leaves, before) && StoredUpTo(h, leaves, leaf, before, filled, i) && i < DEPTH
    requires current == Node(h, leaves + [leaf], i, Ancestor(|leaves|, i))
    ensures HashedAt(h, filled, i, Ancestor(|leaves|, i), current)
         == Some(Node(h, leaves + [leaf], i + 1, Ancestor(|leaves|, i + 1)))
  {
    StepUp(h, leaves, leaf, i);
  }

  /** The step from level `i` to the next: a left child is stored, a right child leaves the entry alone. */
  lemma StoreOne(h: Compress, leaves: seq<Element>, leaf: Element, before: seq<Word>, filled: seq<Word>, i: nat)
    requires StoredUpTo(h, leaves, leaf, before, filled, i) && i < DEPTH
    ensures var a := Ancestor(|leaves|, i);
      StoredUpTo(h, leaves, leaf, before, StoredAt(filled, i, a, Node(h, leaves + [leaf], i, a)), i + 1)
  {}

  /** The kept invariant: whenever n >> k is odd, entry k is the complete left sibling at level k. */
  ghost predicate CompleteSubtrees(h: Compress, leaves: seq<Element>, filled: seq<Word>)
  {
    && |filled| == DEPTH
    && forall k: nat :: k < DEPTH && Ancestor(|leaves|, k) % 2 == 1 ==>
         filled[k] == Node(h, leaves, k, Ancestor(|leaves|, k) - 1)
  }

  lemma SubtreesStayComplete(h: Compress, leaves: seq<Element>, leaf: Element, before: seq<Word>, filled: seq<Word>)
    requires CompleteSubtrees(h, leaves, before)
    requires StoredUpTo(h, leaves, leaf, before, filled, DEPTH)
    ensures CompleteSubtrees(h, leaves + [leaf], filled)
  {
    forall k: nat | k < DEPTH && Ancestor(|leaves + [leaf]|, k) % 2 == 1
      ensures filled[k] == Node(h, leaves + [leaf], k, Ancestor(|leaves + [leaf]|, k) - 1)
    {
      SubtreeStays(h, leaves, leaf, k, Ancestor(|leaves|, k), Ancestor(|leaves + [leaf]|, k), before[k], filled[k]);
    }
  }

  /** The same for one level: the entry kept is still complete, or the one just stored has become it. */
  lemma SubtreeStays(h: Compress, leaves: seq<Element>, leaf: Element, k: nat, a: nat, next: nat, kept: Word,
                     entry: Word)
    requires a == Ancestor(|leaves|, k) && next == Ancestor(|leaves| + 1, k) && next % 2 == 1
    requires a % 2 == 1 ==> kept == Node(h, leaves, k, a - 1)
    requires entry == if a % 2 == 0 then Node(h, leaves + [leaf], k, a) else kept
    ensures entry == Node(h, leaves + [leaf], k, next - 1)
  {
    WidthVersusAncestor(|leaves|, k);
    if next == a {
      AppendIsLocal(h, leaves, leaf, k, a - 1);
    }
  }

  function InsertError(paused: bool, nextIndex: nat): ErrorCode {
    if paused then PoolPaused else if nextIndex >= SATURATION_THRESHOLD then PoolSaturated else PoseidonFailed
  }

  lemma RingAdvances(h: Compress, leaves: seq<Element>, leaf: Element)
    ensures Ring(h, leaves + [leaf])
         == Ring(h, leaves)[(|leaves| + 1) % ROOT_HISTORY_SIZE := Root(h, leaves + [leaf])]
  {
    forall j: nat | j < ROOT_HISTORY_SIZE
      ensures RingAt(h, leaves + [leaf], j)
           == if j == (|leaves| + 1) % ROOT_HISTORY_SIZE then Root(h, leaves + [leaf]) else RingAt(h, leaves, j)
    {
      SlotAdvances(h, leaves, leaf, j);
    }
  }

  /** One deposit changes one slot; the others stand for the count they stood for. */
  lemma SlotAdvances(h: Compress, leaves: seq<Element>, leaf: Element, j: nat)
    requires j < ROOT_HISTORY_SIZE
    ensures RingAt(h, leaves + [leaf], j)
         == if j == (|leaves| + 1) % ROOT_HISTORY_SIZE then Root(h, leaves + [leaf]) else RingAt(h, leaves, j)
  {
    var n, grown := |leaves|, leaves + [leaf];
    if j == (n + 1) % ROOT_HISTORY_SIZE {
      RecentRootIsStored(h, grown, n + 1);
      assert grown[..n + 1] == grown;
    } else if j <= n {
      OneCountPerWindow(n, SlotCount(n, j), SlotCount(n + 1, j));
      assert grown[..SlotCount(n, j)] == leaves[..SlotCount(n, j)];
    }
  }

  /** The root `initialize_pool` publishes: the hash of the two topmost empty subtrees. */
  function InitialRoot(h: Compress): Element {
    var topmost := DEPTH - 1;
    h(Zero(h, topmost), Zero(h, topmost))
  }

  lemma InitialRootIsEmpty(h: Compress, none: seq<Element>)
    requires none == []
    ensures InitialRoot(h) == Root(h, none)
  {
    EmptyTreeRoot(h);
    ZeroAtTop(h, DEPTH);
  }

  lemma EmptyPool(h: Compress, none: seq<Element>, ring: seq<Word>, filled: seq<Word>)
    requires none == []
    requires |ring| == ROOT_HISTORY_SIZE && |filled| == DEPTH
    requires ring[0] == InitialRoot(h)
    requires forall j :: 0 < j < ROOT_HISTORY_SIZE ==> ring[j] == 0
    ensures ring == Ring(h, none) && CompleteSubtrees(h, none, filled)
  {
    InitialRootIsEmpty(h, none);
    forall k: nat | k < DEPTH
      ensures Ancestor(0, k) == 0
    {
      AncestorOfZero(k);
    }
  }

  // ---------------------------------------------------------------- the account

  /** The fields `initialize_pool` fixes for the life of the pool. */
  datatype Config = Config(
    denomination: U64, version: Byte, admin: Address, treasury: Address, bump: Byte, vaultBump: Byte)

  /** The mutable part of the account, as the runtime saves it before an instruction. */
  datatype Image = Image(nextIndex: nat, currentRootIndex: nat, ring: seq<Word>, filled: seq<Word>)

  ghost predicate Depicts(h: Compress, image: Image, leaves: seq<Element>) {
    && image.nextIndex == |leaves| <= SATURATION_THRESHOLD
    && image.currentRootIndex == |leaves| % ROOT_HISTORY_SIZE
    && image.ring == Ring(h, leaves)
    && CompleteSubtrees(h, leaves, image.filled)
  }

  class Pool {
    const poseidon: Poseidon
    const config: Config
    var isPaused: bool
    var nextIndex: nat
    var currentRootIndex: nat
    const rootHistory: array<Word>
    const filledSubtrees: array<Word>

    /** Every leaf inserted so far, in order. */
    ghost var leaves: seq<Element>

    ghost predicate Valid()
      reads this, rootHistory, filledSubtrees
    {
      && rootHistory.Length == ROOT_HISTORY_SIZE
      && filledSubtrees.Length == DEPTH
      && rootHistory != filledSubtrees
      && Depicts(poseidon.two, Image(nextIndex, currentRootIndex, rootHistory[..], filledSubtrees[..]), leaves)
    }

    /** `initialize_pool` after its guards: an empty tree whose root sits in slot 0. */
    constructor (poseidon: Poseidon, config: Config)
      ensures Valid()
      ensures this.poseidon == poseidon && this.config == config
      ensures leaves == [] && !isPaused
      ensures fresh(rootHistory) && fresh(filledSubtrees)
    {
      this.poseidon := poseidon;
      this.config := config;
      isPaused := false;
      nextIndex := 0;
      currentRootIndex := 0;
      filledSubtrees := new Word[DEPTH](k => if k >= 0 then Zero(poseidon.two, k) else 0);
      rootHistory := new Word[ROOT_HISTORY_SIZE](_ => 0);
      leaves := seq(0, _ => 0);
      new;
      rootHistory[0] := InitialRoot(poseidon.two);
      EmptyPool(poseidon.two, leaves, rootHistory[..], filledSubtrees[..]);
    }

    /** Append a leaf. On success the returned root, stored in the next ring slot, is the root of the
      full padded tree over all leaves; on failure the tree the account describes is unchanged. */
    method Insert(leaf: Word) returns (r: Result<Element>)
      requires Valid()
      modifies this`nextIndex, this`currentRootIndex, this`leaves, rootHistory, filledSubtrees
      ensures Valid()
      ensures r.Ok? <==> !isPaused && old(nextIndex) < SATURATION_THRESHOLD && leaf < FR
      ensures r.Ok? ==> leaves == old(leaves) + [leaf as Element] && r.value == Root(poseidon.two, leaves)
      ensures r.Err? ==> leaves == old(leaves)
      ensures r.Err? ==> r.error == InsertError(isPaused, old(nextIndex))
    {
      if isPaused { return Err(PoolPaused); }
      if nextIndex >= SATURATION_THRESHOLD { return Err(PoolSaturated); }
      if nextIndex >= TREE_CAPACITY { return Err(TreeFull); }

      var climbed := Climb(leaf);
      if climbed.None? {
        return Err(PoseidonFailed);
      }
      ghost var before := leaves;
      var newRoot := climbed.value;
      Publish(newRoot);
      nextIndex := nextIndex + 1;
      leaves := leaves + [leaf as Element];
      RingAdvances(poseidon.two, before, leaf as Element);
      SubtreesStayComplete(poseidon.two, before, leaf as Element, old(filledSubtrees[..]), filledSubtrees[..]);
      r := Ok(newRoot);
    }

    /** The root goes into the ring's next slot. */
    method Publish(newRoot: Word)
      requires rootHistory.Length == ROOT_HISTORY_SIZE
      modifies this`currentRootIndex, rootHistory
      ensures currentRootIndex == (old(currentRootIndex) + 1) % ROOT_HISTORY_SIZE
      ensures rootHistory[..] == old(rootHistory[..])[currentRootIndex := newRoot]
    {
      ghost var before := rootHistory[..];
      var newRootIndex := (currentRootIndex + 1) % ROOT_HISTORY_SIZE;
      rootHistory[newRootIndex] := newRoot;
      currentRootIndex := newRootIndex;
      assert rootHistory[..] == before[newRootIndex := newRoot];
    }

    /** The loop of `insert`: hash from the new leaf to the top, storing each node that is a left child. */
    method Climb(leaf: Word) returns (top: Option<Element>)
      requires Valid() && nextIndex < TREE_CAPACITY
      modifies filledSubtrees
      ensures top.Some? <==> leaf < FR
      ensures top.Some? ==> top.value == Root(poseidon.two, leaves + [leaf as Element])
      ensures top.Some? ==>
        StoredUpTo(poseidon.two, leaves, leaf as Element, old(filledSubtrees[..]), filledSubtrees[..], DEPTH)
      ensures top.None? ==>
        forall k: nat :: k < DEPTH && Ancestor(nextIndex, k) % 2 == 1 ==> filledSubtrees[k] == old(filledSubtrees[k])
    {
      var currentIndex, current := nextIndex, leaf;
      ghost var filled := filledSubtrees[..];
      for i := 0 to DEPTH
        invariant currentIndex == Ancestor(nextIndex, i)
        invariant if i == 0 then current == leaf && filledSubtrees[..] == filled else leaf < FR
        invariant leaf < FR ==> current == Node(poseidon.two, leaves + [leaf as Element], i, currentIndex)
        invariant leaf < FR ==> StoredUpTo(poseidon.two, leaves, leaf as Element, filled, filledSubtrees[..], i)
      {
        ghost var now := filledSubtrees[..];
        if leaf < FR {
          StoreOne(poseidon.two, leaves, leaf as Element, filled, now, i);
          HashIsNextNode(poseidon.two, leaves, leaf as Element, filled, now, i, current);
        }
        var hashed := HashLevel(i, currentIndex, current);
        if hashed.None? {
          return None;
        }
        current := hashed.value;
        currentIndex := currentIndex / 2;
      }
      LeafCountFits(nextIndex);
      top := Some(current as Element);
    }

    /** One turn of that loop: store a left child, then hash the pair. */
    method HashLevel(i: nat, currentIndex: nat, current: Word) returns (hashed: Option<Element>)
      requires filledSubtrees.Length == DEPTH && i < DEPTH
      modifies filledSubtrees
      ensures filledSubtrees[..] == StoredAt(old(filledSubtrees[..]), i, currentIndex, current)
      ensures hashed == HashedAt(poseidon.two, old(filledSubtrees[..]), i, currentIndex, current)
    {
      ghost var now := filledSubtrees[..];
      var left, right;
      if currentIndex % 2 == 0 {
        filledSubtrees[i] := current;
        assert filledSubtrees[..] == now[i := current];
        left, right := current, Zero(poseidon.two, i);
      } else {
        left, right := filledSubtrees[i], current;
      }
      hashed := HashWords(poseidon.two, left, right);
    }

    /** What the runtime does to the account of a failed instruction. */
    method Restore(image: Image, ghost before: seq<Element>)
      requires rootHistory.Length == ROOT_HISTORY_SIZE && filledSubtrees.Length == DEPTH
      requires rootHistory != filledSubtrees
      requires Depicts(poseidon.two, image, before)
      modifies this`nextIndex, this`currentRootIndex, this`leaves, rootHistory, filledSubtrees
      ensures Valid() && leaves == before
    {
      forall i | 0 <= i < ROOT_HISTORY_SIZE { rootHistory[i] := image.ring[i]; }
      forall i | 0 <= i < DEPTH { filledSubtrees[i] := image.filled[i]; }
      nextIndex, currentRootIndex := image.nextIndex, image.currentRootIndex;
      leaves := before;
      assert rootHistory[..] == image.ring && filledSubtrees[..] == image.filled;
    }

    /** The struct scan of the ring. */
    method IsKnownRoot(root: Word) returns (known: bool)
      requires Valid()
      ensures known == KnownIn(rootHistory[..], root)
      ensures known == (root != 0 && InWindow(poseidon.two, leaves, root))
    {
      KnownExactlyInWindow(poseidon.two, leaves, root);
      if root == 0 { return false; }
      for i := 0 to ROOT_HISTORY_SIZE
        invariant root !in rootHistory[..i]
      {
        if rootHistory[i] == root { return true; }
      }
      assert rootHistory[..ROOT_HISTORY_SIZE] == rootHistory[..];
      return false;
    }
  }
}
