/** The client library's Merkle tree: every computed node of every level is kept in a layer, and an
  insertion recomputes the nodes above the new leaf.

  The library's numbers are big integers and its hash reduces each input modulo the field prime, so
  layer 0 holds whatever was inserted while every higher layer holds field elements.
*/
module SdkTree {
  import opened Field
  import opened MerkleSpec

  /** Layer `k` of the tree over `leaves`: ceil(n / 2^k) nodes, each the one the specification gives. */
  ghost predicate LayerIs(h: Compress, leaves: seq<nat>, k: nat, layer: seq<nat>) {
    && |layer| == Width(|leaves|, k)
    && if k == 0 then layer == leaves
       else forall i: nat :: i < |layer| ==> layer[i] == Node(h, ReduceAll(leaves), k, i)
  }

  datatype MerkleProof = MerkleProof(pathElements: seq<nat>, pathBits: seq<bool>, root: nat, leafIndex: nat)

  class MerkleTree {
    const poseidon: Poseidon
    const depth: nat
    const zeros: seq<Element>
    var layers: seq<seq<nat>>

    ghost predicate Valid()
      reads this
    {
      && |zeros| == depth + 1
      && (forall k: nat :: k <= depth ==> zeros[k] == Zero(poseidon.two, k))
      && |layers| == depth + 1
      && (forall k: nat :: k <= depth ==> LayerIs(poseidon.two, layers[0], k, layers[k]))
    }

    function Leaves(): seq<nat>
      requires |layers| > 0
      reads this
    {
      layers[0]
    }

    constructor (poseidon: Poseidon, depth: nat)
      ensures Valid() && Leaves() == []
      ensures this.poseidon == poseidon && this.depth == depth
    {
      this.poseidon := poseidon;
      this.depth := depth;
      var built := BuildZeros(poseidon, depth);
      zeros := built;
      layers := seq(depth + 1, _ => []);
      new;
      forall k: nat | k <= depth
        ensures LayerIs(poseidon.two, layers[0], k, layers[k])
      {
        WidthIsCeiling(0, k, 0);
      }
    }

    static method BuildZeros(poseidon: Poseidon, depth: nat) returns (zeros: seq<Element>)
      ensures |zeros| == depth + 1
      ensures forall k: nat :: k <= depth ==> zeros[k] == Zero(poseidon.two, k)
    {
      zeros := [0];
      for i := 1 to depth + 1
        invariant |zeros| == i
        invariant forall k: nat :: k < i ==> zeros[k] == Zero(poseidon.two, k)
      {
        zeros := zeros + [poseidon.two(zeros[i - 1], zeros[i - 1])];
      }
    }

    /** The node at a position, the empty value of its level where nothing was stored. */
    function NodeAt(level: nat, index: nat): nat
      requires level < |layers| && level < |zeros|
      reads this
    {
      if index < |layers[level]| then layers[level][index] else zeros[level]
    }

    method Root() returns (root: nat)
      requires Valid()
      ensures Reduce(root) == Node(poseidon.two, ReduceAll(Leaves()), depth, 0)
      ensures root ==
        if depth == 0 && Leaves() != [] then Leaves()[0] else Node(poseidon.two, ReduceAll(Leaves()), depth, 0)
    {
      if |layers[0]| == 0 {
        WidthIsCeiling(0, depth, 0);
        EmptySubtree(poseidon.two, ReduceAll(Leaves()), depth, 0);
        return zeros[depth];
      }
      NodeIsSpecified(poseidon.two, Leaves(), depth, layers[depth], 0);
      return NodeAt(depth, 0);
    }

    /** Append a leaf and recompute its ancestors. Returns the leaf's index. */
    method Insert(leaf: nat) returns (index: nat)
      requires Valid()
      modifies this
      ensures Valid()
      ensures index == |old(Leaves())|
      ensures Leaves() == old(Leaves()) + [leaf]
    {
      ghost var before := layers;
      ghost var grown := layers[0] + [leaf];
      index := |layers[0]|;
      layers := layers[0 := layers[0] + [leaf]];
      var currentIndex := index;
      for level := 1 to depth + 1
        invariant |layers| == depth + 1
        invariant currentIndex == Ancestor(index, level - 1)
        invariant RebuiltBelow(poseidon.two, grown, level, layers)
        invariant layers[level..] == before[level..]
      {
        var parentIndex := currentIndex / 2;
        var parent := HashChildren(level, parentIndex, grown);
        assert layers[level] == layers[level..][0] == before[level];
        GrowLayer(poseidon.two, before[0], leaf, level, layers[level], parent);
        ghost var rebuilt := Stored(layers[level], parentIndex, parent);
        ReplaceLayer(poseidon.two, grown, level, layers, before, rebuilt);
        StoreNode(level, parentIndex, parent);
        currentIndex := parentIndex;
      }
    }

    /** The node above two nodes of the layer below. */
    method HashChildren(level: nat, parentIndex: nat, ghost leaves: seq<nat>) returns (parent: Element)
      requires 0 < level < |layers| && level <= |zeros| && zeros[level - 1] == Zero(poseidon.two, level - 1)
      requires LayerIs(poseidon.two, leaves, level - 1, layers[level - 1])
      ensures parent == Node(poseidon.two, ReduceAll(leaves), level, parentIndex)
    {
      var leftChild := NodeAt(level - 1, parentIndex * 2);
      var rightChild := NodeAt(level - 1, parentIndex * 2 + 1);
      parent := poseidon.two(Reduce(leftChild), Reduce(rightChild));
      ParentIsSpecified(poseidon.two, leaves, level - 1, layers[level - 1], parentIndex);
    }

    /** Overwrite a node of a layer, or push it when it is the layer's next one. */
    method StoreNode(level: nat, index: nat, node: nat)
      requires level < |layers| && index <= |layers[level]|
      modifies this
      ensures layers == old(layers)[level := Stored(old(layers[level]), index, node)]
    {
      var layer: seq<nat> := layers[level];
      if index < |layer| {
        layer := layer[index := node];
      } else {
        layer := layer + [node];
      }
      layers := layers[level := layer];
    }

    /** The Merkle path of a leaf; nothing for an index outside the tree. Within capacity it folds to
      the tree's own root. */
    method GetProof(leafIndex: int) returns (proof: Option<MerkleProof>)
      requires Valid()
      ensures proof.Some? <==> 0 <= leafIndex < |Leaves()|
      ensures proof.Some? ==>
        && proof.value.leafIndex == leafIndex
        && Reduce(proof.value.root) == Node(poseidon.two, ReduceAll(Leaves()), depth, 0)
        && (depth > 0 ==> proof.value.root < FR)
        && proof.value.pathBits == PathBits(leafIndex, 0, depth)
        && ReduceAll(proof.value.pathElements) == PathSiblings(poseidon.two, ReduceAll(Leaves()), leafIndex, 0, depth)
    {
      if leafIndex < 0 || leafIndex >= |layers[0]| {
        return None;
      }
      var pathElements: seq<nat>, pathBits := [], [];
      var currentIndex := leafIndex;
      ghost var es := ReduceAll(Leaves());
      for level := 0 to depth
        invariant currentIndex == Ancestor(leafIndex, level)
        invariant PathSoFar(poseidon.two, es, leafIndex, level, depth, pathBits, pathElements)
      {
        var isRight := currentIndex % 2 == 1;
        var siblingIndex := if isRight then currentIndex - 1 else currentIndex + 1;
        var sibling := NodeAt(level, siblingIndex);
        NodeIsSpecified(poseidon.two, Leaves(), level, layers[level], siblingIndex);
        ExtendPath(poseidon.two, es, leafIndex, level, depth, pathBits, pathElements, isRight, sibling);
        pathBits := pathBits + [isRight];
        pathElements := pathElements + [sibling];
        currentIndex := currentIndex / 2;
      }
      var root := Root();
      proof := Some(MerkleProof(pathElements, pathBits, root, leafIndex));
    }

    /** The first index at which a leaf value appears, or -1. */
    method FindLeaf(leaf: nat) returns (index: int)
      requires Valid()
      ensures index == -1 ==> leaf !in Leaves()
      ensures index != -1 ==> 0 <= index < |Leaves()| && Leaves()[index] == leaf && leaf !in Leaves()[..index]
    {
      for i := 0 to |layers[0]|
        invariant leaf !in Leaves()[..i]
      {
        if layers[0][i] == leaf { return i; }
      }
      return -1;
    }
  }

  /** Reading a correct layer, with the level's empty value beyond its end, gives the specified node. */
  lemma NodeIsSpecified(h: Compress, leaves: seq<nat>, k: nat, layer: seq<nat>, i: nat)
    requires LayerIs(h, leaves, k, layer)
    ensures var node := if i < |layer| then layer[i] else Zero(h, k);
      Reduce(node) == Node(h, ReduceAll(leaves), k, i) && (k > 0 ==> node == Node(h, ReduceAll(leaves), k, i))
  {
    if i >= |layer| {
      EmptySubtree(h, ReduceAll(leaves), k, i);
    }
  }

  ghost function Stored(layer: seq<nat>, index: nat, node: nat): seq<nat>
    requires index <= |layer|
  {
    if index < |layer| then layer[index := node] else layer + [node]
  }

  ghost predicate RebuiltBelow(h: Compress, leaves: seq<nat>, level: nat, layers: seq<seq<nat>>) {
    && 0 < level <= |layers| && layers[0] == leaves
    && forall k: nat :: k < level ==> LayerIs(h, leaves, k, layers[k])
  }

  /** Putting the rebuilt layer in place moves the boundary up by one. */
  lemma ReplaceLayer(h: Compress, leaves: seq<nat>, level: nat, layers: seq<seq<nat>>, before: seq<seq<nat>>,
                     layer: seq<nat>)
    requires RebuiltBelow(h, leaves, level, layers)
    requires level < |layers| == |before| && layers[level..] == before[level..]
    requires LayerIs(h, leaves, level, layer)
    ensures RebuiltBelow(h, leaves, level + 1, layers[level := layer])
    ensures layers[level := layer][level + 1..] == before[level + 1..]
  {
    assert layers[level := layer][level + 1..] == layers[level..][1..];
    assert before[level + 1..] == before[level..][1..];
  }

  lemma ParentIsSpecified(h: Compress, leaves: seq<nat>, k: nat, layer: seq<nat>, i: nat)
    requires LayerIs(h, leaves, k, layer)
    ensures var left := if 2 * i < |layer| then layer[2 * i] else Zero(h, k);
      var right := if 2 * i + 1 < |layer| then layer[2 * i + 1] else Zero(h, k);
      h(Reduce(left), Reduce(right)) == Node(h, ReduceAll(leaves), k + 1, i)
  {
    NodeIsSpecified(h, leaves, k, layer, 2 * i);
    NodeIsSpecified(h, leaves, k, layer, 2 * i + 1);
  }

  /** The part of the path below `level`: what is still to come completes it. */
  ghost predicate PathSoFar(h: Compress, es: seq<Element>, i: nat, level: nat, depth: nat, bits: seq<bool>,
                            elements: seq<nat>)
    requires level <= depth
  {
    && bits + PathBits(i, level, depth) == PathBits(i, 0, depth)
    && ReduceAll(elements) + PathSiblings(h, es, i, level, depth) == PathSiblings(h, es, i, 0, depth)
  }

  lemma ExtendPath(h: Compress, es: seq<Element>, i: nat, level: nat, depth: nat,
                   bits: seq<bool>, elements: seq<nat>, bit: bool, sibling: nat)
    requires level < depth
    requires PathSoFar(h, es, i, level, depth, bits, elements)
    requires bit == (Ancestor(i, level) % 2 == 1)
    requires Reduce(sibling) == Node(h, es, level, SiblingOf(Ancestor(i, level)))
    ensures PathSoFar(h, es, i, level + 1, depth, bits + [bit], elements + [sibling])
  {
    assert ReduceAll(elements + [sibling]) == ReduceAll(elements) + [Reduce(sibling)];
  }

  /** A proof the tree gives, within capacity, folds from the leaf to the tree's root. */
  lemma ProofFoldsToRoot(h: Compress, leaves: seq<nat>, proof: MerkleProof, depth: nat)
    requires proof.leafIndex < |leaves| && proof.leafIndex < Pow2(depth)
    requires proof.pathBits == PathBits(proof.leafIndex, 0, depth)
    requires ReduceAll(proof.pathElements) == PathSiblings(h, ReduceAll(leaves), proof.leafIndex, 0, depth)
    ensures Fold(h, Reduce(leaves[proof.leafIndex]), proof.pathBits, ReduceAll(proof.pathElements))
         == Node(h, ReduceAll(leaves), depth, 0)
  {
    HonestPathReachesTop(h, ReduceAll(leaves), proof.leafIndex, depth);
  }

  /** Replacing or appending the new leaf's ancestor keeps a layer correct for the longer list. */
  lemma GrowLayer(h: Compress, leaves: seq<nat>, leaf: nat, k: nat, layer: seq<nat>, node: nat)
    requires k > 0 && LayerIs(h, leaves, k, layer)
    requires node == Node(h, ReduceAll(leaves + [leaf]), k, Ancestor(|leaves|, k))
    ensures Ancestor(|leaves|, k) <= |layer|
    ensures LayerIs(h, leaves + [leaf], k, Stored(layer, Ancestor(|leaves|, k), node))
  {
    WidthVersusAncestor(|leaves|, k);
    var a := Ancestor(|leaves|, k);
    var grown := Stored(layer, a, node);
    assert |grown| == a + 1 == Width(|leaves + [leaf]|, k);
    forall i: nat | i < |grown|
      ensures grown[i] == Node(h, ReduceAll(leaves + [leaf]), k, i)
    {
      if i < a { OldNodeStays(h, leaves, leaf, k, i); }
    }
  }

  lemma OldNodeStays(h: Compress, leaves: seq<nat>, leaf: nat, k: nat, i: nat)
    requires i != Ancestor(|leaves|, k)
    ensures Node(h, ReduceAll(leaves + [leaf]), k, i) == Node(h, ReduceAll(leaves), k, i)
  {
    assert ReduceAll(leaves + [leaf]) == ReduceAll(leaves) + [Reduce(leaf)];
    AppendIsLocal(h, ReduceAll(leaves), Reduce(leaf), k, i);
  }
}
