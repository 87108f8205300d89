/** The claimable-account tree: building it, proving a leaf, and checking a proof. */
module Merkle {
  import opened Common
  import opened Sequences

  datatype ClaimableLeaf = ClaimableLeaf(pubkey: Pubkey, lamports: u64)

  /** The hash function as the tree uses it: one image of leaves, one of pairs, and the default
      value. The two domain bytes of the source are what keeps `leaf` and `node` apart. */
  datatype Hasher<!H> = Hasher(leaf: ClaimableLeaf -> H, node: (H, H) -> H, zero: H)

  function ByPubkey(): (ClaimableLeaf, ClaimableLeaf) -> bool {
    (a: ClaimableLeaf, b: ClaimableLeaf) => a.pubkey <= b.pubkey
  }

  function SortLeaves(leaves: seq<ClaimableLeaf>): seq<ClaimableLeaf> {
    SortBy(leaves, ByPubkey())
  }

  function LeafLayer<H>(hs: Hasher<H>, leaves: seq<ClaimableLeaf>): (layer: seq<H>)
    ensures |layer| == |leaves|
  {
    seq(|leaves|, i requires 0 <= i < |leaves| => hs.leaf(leaves[i]))
  }

  /** The parents of a layer; the last node of an odd layer is paired with itself. */
  function NextLayer<H>(hs: Hasher<H>, layer: seq<H>): (next: seq<H>)
    ensures |next| == (|layer| + 1) / 2
  {
    seq((|layer| + 1) / 2, j requires 0 <= j < (|layer| + 1) / 2 =>
      hs.node(layer[2 * j], if 2 * j + 1 < |layer| then layer[2 * j + 1] else layer[2 * j]))
  }

  function RootOf<H>(hs: Hasher<H>, layer: seq<H>): H
    requires layer != []
    decreases |layer|
  {
    if |layer| == 1 then layer[0] else RootOf(hs, NextLayer(hs, layer))
  }

  function LayersOf<H>(hs: Hasher<H>, layer: seq<H>): seq<seq<H>>
    requires layer != []
    decreases |layer|
  {
    if |layer| == 1 then [layer] else [layer] + LayersOf(hs, NextLayer(hs, layer))
  }

  function Sibling<H>(layer: seq<H>, i: nat): H
    requires i < |layer|
  {
    var s := if i % 2 == 0 then i + 1 else i - 1;
    if s < |layer| then layer[s] else layer[i]
  }

  /** The siblings on the way from position i of a layer to the root. */
  function ProofOf<H>(hs: Hasher<H>, layer: seq<H>, i: nat): seq<H>
    requires i < |layer|
    decreases |layer|
  {
    if |layer| == 1 then [] else [Sibling(layer, i)] + ProofOf(hs, NextLayer(hs, layer), i / 2)
  }

  function Combine<H>(hs: Hasher<H>, h: H, sibling: H, i: nat): H {
    if i % 2 == 0 then hs.node(h, sibling) else hs.node(sibling, h)
  }

  /** The hash reached by climbing from h with the given siblings. */
  function Climb<H>(hs: Hasher<H>, h: H, i: nat, proof: seq<H>): H
    decreases |proof|
  {
    if proof == [] then h else Climb(hs, Combine(hs, h, proof[0], i), i / 2, proof[1..])
  }

  datatype MerkleTreeWithLayers<H> =
    MerkleTreeWithLayers(root: H, leafCount: nat, leaves: seq<ClaimableLeaf>, layers: seq<seq<H>>)

  function Built<H>(hs: Hasher<H>, leaves: seq<ClaimableLeaf>): (tree: MerkleTreeWithLayers<H>)
    ensures |tree.leaves| == tree.leafCount == |leaves|
  {
    if leaves == [] then MerkleTreeWithLayers(hs.zero, 0, [], [])
    else
      SortByLength(leaves);
      var sorted := SortLeaves(leaves);
      var layer := LeafLayer(hs, sorted);
      MerkleTreeWithLayers(RootOf(hs, layer), |leaves|, sorted, LayersOf(hs, layer))
  }

  lemma ByPubkeyIsPreorder()
    ensures TotalPreorder(ByPubkey())
  {
  }

  lemma SortByLength(leaves: seq<ClaimableLeaf>)
    ensures |SortLeaves(leaves)| == |leaves|
  {
    ByPubkeyIsPreorder();
    SortBySorts(leaves, ByPubkey());
  }

  /** Each layer holds the parents of the one below, and only the last has a single node. */
  lemma {:induction false} LayersChain<H>(hs: Hasher<H>, layer: seq<H>)
    requires layer != []
    ensures var ls := LayersOf(hs, layer);
      && ls != [] && ls[0] == layer
      && (forall k :: 0 <= k < |ls| - 1 ==> |ls[k]| > 1 && ls[k + 1] == NextLayer(hs, ls[k]))
      && ls[|ls| - 1] == [RootOf(hs, layer)]
    decreases |layer|
  {
    if |layer| > 1 {
      LayersChain(hs, NextLayer(hs, layer));
    }
  }

  method BuildNextLayer<H>(hs: Hasher<H>, layer: seq<H>) returns (next: seq<H>)
    ensures next == NextLayer(hs, layer)
  {
    next := [];
    while 2 * |next| < |layer|
      invariant |next| <= (|layer| + 1) / 2
      invariant next == NextLayer(hs, layer)[..|next|]
    {
      var chunk := layer[2 * |next|..Min(2 * |next| + 2, |layer|)];
      var combined := if |chunk| == 2 then hs.node(chunk[0], chunk[1]) else hs.node(chunk[0], chunk[0]);
      assert combined == NextLayer(hs, layer)[|next|];
      next := next + [combined];
    }
  }

  lemma LayersStep<H>(hs: Hasher<H>, below: seq<seq<H>>, top: seq<H>)
    requires |top| > 1
    ensures below + LayersOf(hs, top) == below + [top] + LayersOf(hs, NextLayer(hs, top))
  {
  }

  method Build<H>(hs: Hasher<H>, input: seq<ClaimableLeaf>) returns (tree: MerkleTreeWithLayers<H>)
    ensures tree == Built(hs, input)
  {
    if input == [] {
      return MerkleTreeWithLayers(hs.zero, 0, [], []);
    }
    var leaves := SortLeaves(input);
    SortByLength(input);
    var layers := [LeafLayer(hs, leaves)];
    ghost var below: seq<seq<H>>, bottom := [], LeafLayer(hs, leaves);
    while |layers[|layers| - 1]| > 1
      invariant layers != [] && layers[|layers| - 1] != []
      invariant layers == below + [layers[|layers| - 1]]
      invariant below + LayersOf(hs, layers[|layers| - 1]) == LayersOf(hs, bottom)
      decreases |layers[|layers| - 1]|
    {
      var next := BuildNextLayer(hs, layers[|layers| - 1]);
      LayersStep(hs, below, layers[|layers| - 1]);
      below := layers;
      layers := layers + [next];
    }
    LayersChain(hs, bottom);
    tree := MerkleTreeWithLayers(layers[|layers| - 1][0], |leaves|, leaves, layers);
  }

  /** The proof for one leaf of a built tree. */
  method Proof<H>(hs: Hasher<H>, ghost input: seq<ClaimableLeaf>, tree: MerkleTreeWithLayers<H>, leafIndex: nat)
    returns (proof: seq<H>)
    requires tree == Built(hs, input) && leafIndex < tree.leafCount
    ensures proof == ProofOf(hs, LeafLayer(hs, tree.leaves), leafIndex)
  {
    proof := [];
    var idx: nat := leafIndex;
    ghost var bottom := LeafLayer(hs, tree.leaves);
    assert tree.layers == LayersOf(hs, bottom);
    LayersChain(hs, bottom);
    for k := 0 to |tree.layers| - 1
      invariant idx < |tree.layers[k]|
      invariant proof + ProofOf(hs, tree.layers[k], idx) == ProofOf(hs, bottom, leafIndex)
    {
      var layer := tree.layers[k];
      var siblingIdx := if idx % 2 == 0 then idx + 1 else idx - 1;
      var sibling := if siblingIdx < |layer| then layer[siblingIdx] else layer[idx];
      assert ProofOf(hs, layer, idx) == [sibling] + ProofOf(hs, tree.layers[k + 1], idx / 2);
      proof := proof + [sibling];
      idx := idx / 2;
    }
  }

  method Verify<H(==)>(hs: Hasher<H>, leaf: ClaimableLeaf, leafIndex: nat, proof: seq<H>, root: H)
    returns (ok: bool)
    ensures ok <==> Climb(hs, hs.leaf(leaf), leafIndex, proof) == root
  {
    var h, idx := hs.leaf(leaf), leafIndex;
    for k := 0 to |proof|
      invariant Climb(hs, h, idx, proof[k..]) == Climb(hs, hs.leaf(leaf), leafIndex, proof)
    {
      assert proof[k..][1..] == proof[k + 1..];
      h := if idx % 2 == 0 then hs.node(h, proof[k]) else hs.node(proof[k], h);
      idx := idx / 2;
    }
    ok := h == root;
  }
}
