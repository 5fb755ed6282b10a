/** The specification both Merkle trees are measured against: a full binary tree over a list of
  leaves, padded with zero leaves, computed node by node with no caching.
*/
module MerkleSpec {
  import opened Field

  const DEPTH: nat := 20

  // ---------------------------------------------------------------- positions

  /** Index, at level `k`, of the ancestor of leaf `n`: n >> k. */
  function Ancestor(n: nat, k: nat): nat {
    if k == 0 then n else Ancestor(n, k - 1) / 2
  }

  /** Number of nodes at level `k` that have a leaf below them: n leaves halved k times, rounding up. */
  function Width(n: nat, k: nat): nat {
    if k == 0 then n else (Width(n, k - 1) + 1) / 2
  }

  function Pow2(k: nat): (p: nat)
    ensures p >= 1
  {
    if k == 0 then 1 else 2 * Pow2(k - 1)
  }

  lemma Regroup(m: nat, k: nat)
    requires k > 0
    ensures m * Pow2(k) == (2 * m) * Pow2(k - 1)
  {}

  lemma {:induction false} AncestorBelow(n: nat, m: nat, k: nat)
    ensures n < m * Pow2(k) <==> Ancestor(n, k) < m
    decreases k
  {
    if k > 0 {
      AncestorBelow(n, 2 * m, k - 1);
      Regroup(m, k);
      var a := Ancestor(n, k - 1);
      assert a < 2 * m <==> a / 2 < m;
    }
  }

  /** The level widths the client keeps are exactly the leaf count divided by 2^k, rounded up. */
  lemma {:induction false} WidthIsCeiling(n: nat, k: nat, m: nat)
    ensures Width(n, k) <= m <==> n <= m * Pow2(k)
    decreases k
  {
    if k > 0 {
      WidthIsCeiling(n, k - 1, 2 * m);
      Regroup(m, k);
      var w := Width(n, k - 1);
      assert w <= 2 * m <==> (w + 1) / 2 <= m;
    }
  }

  lemma {:induction false} WidthVersusAncestor(n: nat, k: nat)
    ensures Width(n + 1, k) == Ancestor(n, k) + 1
    ensures Ancestor(n, k) <= Width(n, k) <= Ancestor(n, k) + 1
    ensures Ancestor(n, k) <= Ancestor(n + 1, k) <= Ancestor(n, k) + 1
    ensures n > 0 ==> Width(n, k) > 0
  {
    if k > 0 {
      WidthVersusAncestor(n, k - 1);
    }
  }

  // ---------------------------------------------------------------- nodes

  function Zero(h: Compress, k: nat): Element {
    if k == 0 then 0 else h(Zero(h, k - 1), Zero(h, k - 1))
  }

  function Padded(leaves: seq<Element>, i: nat): Element {
    if i < |leaves| then leaves[i] else 0
  }

  function Node(h: Compress, leaves: seq<Element>, k: nat, i: nat): Element {
    if k == 0 then Padded(leaves, i)
    else h(Node(h, leaves, k - 1, 2 * i), Node(h, leaves, k - 1, 2 * i + 1))
  }

  function Root(h: Compress, leaves: seq<Element>): Element {
    Node(h, leaves, DEPTH, 0)
  }

  /** The node above a position, in terms of the position and its sibling. */
  lemma NodeAbove(h: Compress, leaves: seq<Element>, k: nat, a: nat)
    ensures a % 2 == 0 ==> Node(h, leaves, k + 1, a / 2) == h(Node(h, leaves, k, a), Node(h, leaves, k, a + 1))
    ensures a % 2 == 1 ==> Node(h, leaves, k + 1, a / 2) == h(Node(h, leaves, k, a - 1), Node(h, leaves, k, a))
  {
    assert a == 2 * (a / 2) + a % 2;
  }

  /** A subtree with no leaf in it has the precomputed empty value of its height. */
  lemma {:induction false} EmptySubtree(h: Compress, leaves: seq<Element>, k: nat, i: nat)
    requires Width(|leaves|, k) <= i
    ensures Node(h, leaves, k, i) == Zero(h, k)
    decreases k
  {
    if k > 0 {
      EmptySubtree(h, leaves, k - 1, 2 * i);
      EmptySubtree(h, leaves, k - 1, 2 * i + 1);
    }
  }

  lemma EmptyTreeRoot(h: Compress)
    ensures Root(h, []) == Zero(h, DEPTH)
  {
    WidthIsCeiling(0, DEPTH, 0);
    EmptySubtree(h, [], DEPTH, 0);
  }

  /** Appending a leaf changes only the nodes above it. */
  lemma {:induction false} AppendIsLocal(h: Compress, leaves: seq<Element>, leaf: Element, k: nat, i: nat)
    requires i != Ancestor(|leaves|, k)
    ensures Node(h, leaves + [leaf], k, i) == Node(h, leaves, k, i)
    decreases k
  {
    if k > 0 {
      AppendIsLocal(h, leaves, leaf, k - 1, 2 * i);
      AppendIsLocal(h, leaves, leaf, k - 1, 2 * i + 1);
    }
  }

  /** A zero leaf cannot be told from an empty slot: appending one leaves every node as it was. */
  lemma {:induction false} ZeroLeafIsInvisible(h: Compress, leaves: seq<Element>, k: nat, i: nat)
    ensures Node(h, leaves + [0], k, i) == Node(h, leaves, k, i)
    decreases k
  {
    if k > 0 {
      ZeroLeafIsInvisible(h, leaves, k - 1, 2 * i);
      ZeroLeafIsInvisible(h, leaves, k - 1, 2 * i + 1);
    }
  }

  // ---------------------------------------------------------------- binding

  /** The two trees hash different children to the same node at this position. */
  ghost predicate TreeClashAt(h: Compress, a: seq<Element>, b: seq<Element>, k: nat, i: nat) {
    && Node(h, a, k + 1, i) == Node(h, b, k + 1, i)
    && (Node(h, a, k, 2 * i) != Node(h, b, k, 2 * i) || Node(h, a, k, 2 * i + 1) != Node(h, b, k, 2 * i + 1))
  }

  /** A hash collision can be read off the two trees, at one position present in both. */
  ghost predicate TreeClash(h: Compress, a: seq<Element>, b: seq<Element>) {
    exists k: nat, i: nat :: k < DEPTH && TreeClashAt(h, a, b, k, i)
  }

  /** Equal nodes mean equal padded leaves underneath, or a collision inside the two trees. */
  lemma {:induction false} EqualNodesEqualLeaves(h: Compress, a: seq<Element>, b: seq<Element>, k: nat, i: nat, j: nat)
    requires k <= DEPTH
    requires Node(h, a, k, i) == Node(h, b, k, i)
    requires !TreeClash(h, a, b)
    requires Ancestor(j, k) == i
    ensures Padded(a, j) == Padded(b, j)
    decreases k
  {
    if k > 0 {
      assert !TreeClashAt(h, a, b, k - 1, i);
      EqualNodesEqualLeaves(h, a, b, k - 1, Ancestor(j, k - 1), j);
    }
  }

  lemma EqualRootsEqualLeaves(h: Compress, a: seq<Element>, b: seq<Element>)
    requires Root(h, a) == Root(h, b)
    requires !TreeClash(h, a, b)
    ensures forall j: nat :: j < Pow2(DEPTH) ==> Padded(a, j) == Padded(b, j)
    ensures |a| == |b| <= Pow2(DEPTH) ==> a == b
  {
    forall j: nat | j < Pow2(DEPTH)
      ensures Padded(a, j) == Padded(b, j)
    {
      AncestorBelow(j, 1, DEPTH);
      EqualNodesEqualLeaves(h, a, b, DEPTH, 0, j);
    }
    if |a| == |b| <= Pow2(DEPTH) {
      assert forall j :: 0 <= j < |a| ==> a[j] == Padded(a, j) && b[j] == Padded(b, j);
    }
  }

  // ---------------------------------------------------------------- paths

  /** The pair a path hashes at one level: bit false keeps the current node on the left. */
  function PathPair(x: Element, bit: bool, sibling: Element): (Element, Element) {
    if bit then (sibling, x) else (x, sibling)
  }

  /** The root a Merkle path leads to, as the circuit recomputes it. */
  function Fold(h: Compress, x: Element, bits: seq<bool>, siblings: seq<Element>): Element
    requires |bits| == |siblings|
    decreases |bits|
  {
    if bits == [] then x
    else
      var pair := PathPair(x, bits[0], siblings[0]);
      Fold(h, h(pair.0, pair.1), bits[1..], siblings[1..])
  }

  /** The leaf position a path's bits spell, least significant first. */
  function PathIndex(bits: seq<bool>): nat {
    if bits == [] then 0 else 2 * PathIndex(bits[1..]) + (if bits[0] then 1 else 0)
  }

  function SiblingOf(i: nat): nat {
    if i % 2 == 1 then i - 1 else i + 1
  }

  /** The honest path of leaf `i`, from level `k` up to level `top`. */
  function PathBits(i: nat, k: nat, top: nat): (bits: seq<bool>)
    requires k <= top
    ensures |bits| == top - k
    decreases top - k
  {
    if k == top then [] else [Ancestor(i, k) % 2 == 1] + PathBits(i, k + 1, top)
  }

  function PathSiblings(h: Compress, leaves: seq<Element>, i: nat, k: nat, top: nat): (siblings: seq<Element>)
    requires k <= top
    ensures |siblings| == top - k
    decreases top - k
  {
    if k == top then []
    else [Node(h, leaves, k, SiblingOf(Ancestor(i, k)))] + PathSiblings(h, leaves, i, k + 1, top)
  }

  lemma HonestPairIsChildren(h: Compress, leaves: seq<Element>, i: nat, k: nat)
    ensures var a := Ancestor(i, k);
      var pair := PathPair(Node(h, leaves, k, a), a % 2 == 1, Node(h, leaves, k, SiblingOf(a)));
      h(pair.0, pair.1) == Node(h, leaves, k + 1, Ancestor(i, k + 1))
  {
    NodeAbove(h, leaves, k, Ancestor(i, k));
  }

  /** Completeness: the honest path folds to the node above the leaf. */
  lemma {:induction false} HonestPathFolds(h: Compress, leaves: seq<Element>, i: nat, k: nat, top: nat)
    requires k <= top
    ensures Fold(h, Node(h, leaves, k, Ancestor(i, k)), PathBits(i, k, top), PathSiblings(h, leaves, i, k, top))
         == Node(h, leaves, top, Ancestor(i, top))
    decreases top - k
  {
    if k < top {
      HonestPathFolds(h, leaves, i, k + 1, top);
      HonestPairIsChildren(h, leaves, i, k);
    }
  }

  lemma HonestPathReachesTop(h: Compress, leaves: seq<Element>, i: nat, depth: nat)
    requires i < |leaves| && i < Pow2(depth)
    ensures Fold(h, leaves[i], PathBits(i, 0, depth), PathSiblings(h, leaves, i, 0, depth)) == Node(h, leaves, depth, 0)
  {
    assert Ancestor(i, depth) == 0 by {
      AncestorBelow(i, 1, depth);
    }
    var k := 0;
    assert Node(h, leaves, k, Ancestor(i, k)) == leaves[i];
    HonestPathFolds(h, leaves, i, k, depth);
  }

  /** Somewhere along the path, the path and the tree hash different pairs to the same node. */
  ghost predicate PathClash(h: Compress, leaves: seq<Element>, k: nat, x: Element, bits: seq<bool>,
                            siblings: seq<Element>)
    requires |bits| == |siblings|
    decreases |bits|
  {
    bits != [] &&
    var pair := PathPair(x, bits[0], siblings[0]);
    var i := PathIndex(bits[1..]);
    || (h(pair.0, pair.1) == Node(h, leaves, k + 1, i)
        && pair != (Node(h, leaves, k, 2 * i), Node(h, leaves, k, 2 * i + 1)))
    || PathClash(h, leaves, k + 1, h(pair.0, pair.1), bits[1..], siblings[1..])
  }

  /** Binding: a path that folds to the root carries the padded leaf at the position its bits spell,
    unless a collision can be read off the path and the tree. */
  lemma {:induction false} PathBindsNode(h: Compress, leaves: seq<Element>, k: nat, x: Element, bits: seq<bool>,
                                         siblings: seq<Element>)
    requires |bits| == |siblings|
    requires Fold(h, x, bits, siblings) == Node(h, leaves, k + |bits|, 0)
    requires !PathClash(h, leaves, k, x, bits, siblings)
    ensures x == Node(h, leaves, k, PathIndex(bits))
    decreases |bits|
  {
    if bits != [] {
      var pair := PathPair(x, bits[0], siblings[0]);
      PathBindsNode(h, leaves, k + 1, h(pair.0, pair.1), bits[1..], siblings[1..]);
    }
  }

  lemma PathBindsLeaf(h: Compress, leaves: seq<Element>, x: Element, bits: seq<bool>, siblings: seq<Element>)
    requires |bits| == |siblings| == DEPTH
    requires Fold(h, x, bits, siblings) == Root(h, leaves)
    requires !PathClash(h, leaves, 0, x, bits, siblings)
    ensures x == Padded(leaves, PathIndex(bits))
  {
    PathBindsNode(h, leaves, 0, x, bits, siblings);
  }
}
