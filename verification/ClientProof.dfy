/** The browser client's port of the tree: roots, proofs with packed side flags, and the check
    a client makes before it submits. */
module ClientProof {
  import opened Common
  import opened Arithmetic
  import opened Sequences
  import opened Bits
  import opened Merkle
  import opened MerkleLaws

  // ---------- packed flags ----------

  predicate BitIsSet(bytes: seq<u8>, i: nat) {
    i / 8 < |bytes| && Bit(bytes[i / 8], i % 8)
  }

  /** The packed form of a list of flags: bit i holds flag i and the padding is clear. */
  ghost predicate IsPacking(bytes: seq<u8>, bits: seq<bool>) {
    && |bytes| == (|bits| + 7) / 8
    && forall i :: 0 <= i < 8 * |bytes| ==> (BitIsSet(bytes, i) <==> i < |bits| && bits[i])
  }

  lemma ByteIsBelow256()
    ensures Pow2(8) == 256
  {
    assert Pow2(4) == 16;
  }

  lemma {:induction false} Pow2Grows(k: nat, n: nat)
    requires k < n
    ensures Pow2(k) < Pow2(n)
  {
    if k < n - 1 {
      Pow2Grows(k, n - 1);
    }
  }

  method PackBits(bits: seq<bool>) returns (packed: seq<u8>)
    ensures IsPacking(packed, bits)
  {
    var out := new u8[(|bits| + 7) / 8](_ => 0);
    forall i: nat | i < 8 {
      BitOfZero(i);
    }
    for i := 0 to |bits|
      invariant forall k :: 0 <= k < 8 * out.Length ==> (BitIsSet(out[..], k) <==> k < i && bits[k])
    {
      if bits[i] {
        ghost var before := out[..];
        ByteIsBelow256();
        Pow2Grows(i % 8, 8);
        OrBound(out[i / 8], Pow2(i % 8), 8);
        out[i / 8] := Or(out[i / 8], Pow2(i % 8));
        forall k | 0 <= k < 8 * out.Length
          ensures BitIsSet(out[..], k) <==> BitIsSet(before, k) || k == i
        {
          BitOfOr(before[i / 8], Pow2(i % 8), k % 8);
          BitOfPow2(i % 8, k % 8);
        }
      }
    }
    packed := out[..];
  }

  /** Flags have only one packed form. */
  lemma PackingUnique(a: seq<u8>, b: seq<u8>, bits: seq<bool>)
    requires IsPacking(a, bits) && IsPacking(b, bits)
    ensures a == b
  {
    ByteIsBelow256();
    forall n | 0 <= n < |a| ensures a[n] == b[n] {
      forall k | 0 <= k < 8 ensures Bit(a[n], k) == Bit(b[n], k) {
        assert BitIsSet(a, 8 * n + k) == BitIsSet(b, 8 * n + k);
      }
      SameBits(a[n], b[n], 8);
    }
  }

  /** The flags from position `from` on, clear beyond the end. */
  function FlagsFrom(bits: seq<bool>, from: nat): nat -> bool {
    (k: nat) => from + k < |bits| && bits[from + k]
  }

  /** The bytes in numbers: flag 8k + j is worth 2^j in byte k, so the first flag is the least. */
  lemma PackedBytes(packed: seq<u8>, bits: seq<bool>, k: nat)
    requires IsPacking(packed, bits) && k < |packed|
    ensures packed[k] == FlagSum(FlagsFrom(bits, 8 * k), 8)
  {
    ByteIsBelow256();
    forall j: nat | j < 8 ensures Bit(packed[k], j) <==> FlagsFrom(bits, 8 * k)(j) {
      PackedBit(packed, bits, k, j);
    }
    SumOfFlags(packed[k], FlagsFrom(bits, 8 * k), 8);
  }

  lemma PackedBit(packed: seq<u8>, bits: seq<bool>, k: nat, j: nat)
    requires IsPacking(packed, bits) && k < |packed| && j < 8
    ensures Bit(packed[k], j) <==> FlagsFrom(bits, 8 * k)(j)
  {
    assert (8 * k + j) / 8 == k && (8 * k + j) % 8 == j;
    assert BitIsSet(packed, 8 * k + j) == Bit(packed[k], j);
  }

  lemma {:induction false} SumOfFlags(x: nat, flags: nat -> bool, n: nat)
    requires x < Pow2(n) && forall j: nat :: j < n ==> (Bit(x, j) <==> flags(j))
    ensures x == FlagSum(flags, n)
  {
    LowBits(x, flags, n);
    UniqueRemainder(x, Pow2(n), 0, x);
  }

  /** Which siblings lie to the right on the way up from index i. */
  function RightFlags(i: nat, n: nat): (bits: seq<bool>)
    ensures |bits| == n
  {
    if n == 0 then [] else [i % 2 == 0] + RightFlags(i / 2, n - 1)
  }

  /** At level k the sibling is on the right exactly when bit k of the index is clear. */
  lemma {:induction false} RightFlagsAt(i: nat, n: nat, k: nat)
    requires k < n
    ensures RightFlags(i, n)[k] <==> i / Pow2(k) % 2 == 0
  {
    BitIsParity(i, k);
    RightFlagsBit(i, n, k);
  }

  lemma {:induction false} RightFlagsBit(i: nat, n: nat, k: nat)
    requires k < n
    ensures RightFlags(i, n)[k] <==> !Bit(i, k)
  {
    if k > 0 {
      RightFlagsBit(i / 2, n - 1, k - 1);
    }
  }

  method DeriveProofFlagsFromLeafIndex(leafIndex: nat, proofLen: nat) returns (packed: seq<u8>)
    ensures IsPacking(packed, RightFlags(leafIndex, proofLen))
  {
    var bits: seq<bool> := [];
    var idx := leafIndex;
    for i := 0 to proofLen
      invariant bits + RightFlags(idx, proofLen - i) == RightFlags(leafIndex, proofLen)
    {
      bits := bits + [idx % 2 == 0];
      idx := idx / 2;
    }
    assert bits == RightFlags(leafIndex, proofLen);
    packed := PackBits(bits);
  }

  // ---------- proofs ----------

  datatype InclusionProof<H> =
    InclusionProof(pubkey: Pubkey, lamports: u64, proof: seq<H>, proofFlags: seq<u8>, root: H)

  method BuildMerkleRoot<H>(hs: Hasher<H>, leaves: seq<ClaimableLeaf>) returns (root: H)
    ensures root == Built(hs, leaves).root
  {
    if leaves == [] {
      return hs.zero;
    }
    SortByLength(leaves);
    var layer := LeafLayer(hs, SortLeaves(leaves));
    while |layer| > 1
      invariant layer != [] && RootOf(hs, layer) == Built(hs, leaves).root
      decreases |layer|
    {
      layer := BuildNextLayer(hs, layer);
    }
    root := layer[0];
  }

  /** The position of the first leaf with the given key in the sorted list. */
  ghost predicate FoundAt(sorted: seq<ClaimableLeaf>, target: Pubkey, n: nat) {
    && n < |sorted| && sorted[n].pubkey == target
    && forall k :: 0 <= k < n ==> sorted[k].pubkey != target
  }

  /** What a proof for `target` must consist of. */
  ghost predicate Proves<H>(hs: Hasher<H>, leaves: seq<ClaimableLeaf>, target: Pubkey, n: nat, p: InclusionProof<H>) {
    var sorted := SortLeaves(leaves);
    && leaves != [] && FoundAt(sorted, target, n)
    && p.pubkey == target && p.lamports == sorted[n].lamports
    && p.proof == ProofOf(hs, LeafLayer(hs, sorted), n)
    && IsPacking(p.proofFlags, RightFlags(n, |p.proof|))
    && p.root == Built(hs, leaves).root
  }

  method BuildInclusionProof<H>(hs: Hasher<H>, leaves: seq<ClaimableLeaf>, target: Pubkey)
    returns (result: Option<InclusionProof<H>>, ghost index: nat)
    ensures result.None? <==> forall l :: l in leaves ==> l.pubkey != target
    ensures result.Some? ==> Proves(hs, leaves, target, index, result.value)
  {
    index := 0;
    if leaves == [] {
      return None, 0;
    }
    var sorted := SortLeaves(leaves);
    SortByLength(leaves);
    ByPubkeyIsPreorder();
    SortByMembers(leaves, ByPubkey());
    var targetIndex := 0;
    while targetIndex < |sorted| && sorted[targetIndex].pubkey != target
      invariant targetIndex <= |sorted|
      invariant forall k :: 0 <= k < targetIndex ==> sorted[k].pubkey != target
    {
      targetIndex := targetIndex + 1;
    }
    if targetIndex == |sorted| {
      return None, 0;
    }
    index := targetIndex;
    assert sorted[targetIndex] in leaves;

    var proof, flags, root := WalkUp(hs, LeafLayer(hs, sorted), targetIndex);
    var packed := PackBits(flags);
    result := Some(InclusionProof(target, sorted[targetIndex].lamports, proof, packed, root));
  }

  /** The loop has climbed from `target` in `bottom` to `idx` in `layer`. */
  ghost predicate Walking<H>(hs: Hasher<H>, bottom: seq<H>, target: nat,
                             layer: seq<H>, idx: nat, proof: seq<H>, flags: seq<bool>)
    requires target < |bottom|
  {
    && idx < |layer|
    && RootOf(hs, layer) == RootOf(hs, bottom)
    && proof + ProofOf(hs, layer, idx) == ProofOf(hs, bottom, target)
    && flags + RightFlags(idx, |ProofOf(hs, layer, idx)|) == RightFlags(target, |ProofOf(hs, bottom, target)|)
  }

  lemma WalkStep<H>(hs: Hasher<H>, bottom: seq<H>, target: nat,
                    layer: seq<H>, idx: nat, proof: seq<H>, flags: seq<bool>)
    requires target < |bottom| && |layer| > 1
    requires Walking(hs, bottom, target, layer, idx, proof, flags)
    ensures Walking(hs, bottom, target, NextLayer(hs, layer), idx / 2,
                    proof + [Sibling(layer, idx)], flags + [idx % 2 == 0])
  {
    var rest := ProofOf(hs, NextLayer(hs, layer), idx / 2);
    assert ProofOf(hs, layer, idx) == [Sibling(layer, idx)] + rest;
    SplitHead(proof, Sibling(layer, idx), rest);
    FlagsStep(flags, idx, |rest|);
  }

  lemma FlagsStep(done: seq<bool>, idx: nat, n: nat)
    ensures done + RightFlags(idx, 1 + n) == done + [idx % 2 == 0] + RightFlags(idx / 2, n)
  {
    SplitHead(done, idx % 2 == 0, RightFlags(idx / 2, n));
  }

  lemma WalkEnd<H>(hs: Hasher<H>, bottom: seq<H>, target: nat,
                   layer: seq<H>, idx: nat, proof: seq<H>, flags: seq<bool>)
    requires target < |bottom| && |layer| == 1
    requires Walking(hs, bottom, target, layer, idx, proof, flags)
    ensures proof == ProofOf(hs, bottom, target) && flags == RightFlags(target, |proof|)
    ensures layer[0] == RootOf(hs, bottom)
  {
    assert flags + [] == flags && proof + [] == proof;
  }

  lemma SplitHead<T>(done: seq<T>, head: T, tail: seq<T>)
    ensures done + ([head] + tail) == done + [head] + tail
  {
  }

  /** An odd index looks left, an even one right, or at itself when nothing is there. */
  method TakeSibling<H>(layer: seq<H>, idx: nat) returns (sibling: H, siblingOnRight: bool)
    requires idx < |layer|
    ensures sibling == Sibling(layer, idx) && siblingOnRight == (idx % 2 == 0)
  {
    var siblingIdx: nat := idx;
    siblingOnRight := true;
    if idx % 2 == 0 {
      if idx + 1 < |layer| {
        siblingIdx := idx + 1;
      }
    } else {
      siblingIdx, siblingOnRight := idx - 1, false;
    }
    sibling := layer[siblingIdx];
  }

  /** The layer-by-layer loop: it collects siblings and sides while it reduces the layer. */
  method WalkUp<H>(hs: Hasher<H>, leafLayer: seq<H>, targetIndex: nat)
    returns (proof: seq<H>, flags: seq<bool>, root: H)
    requires targetIndex < |leafLayer|
    ensures proof == ProofOf(hs, leafLayer, targetIndex)
    ensures flags == RightFlags(targetIndex, |proof|)
    ensures root == RootOf(hs, leafLayer)
  {
    var layer := leafLayer;
    var idx: nat := targetIndex;
    proof, flags := [], [];
    while |layer| > 1
      invariant Walking(hs, leafLayer, targetIndex, layer, idx, proof, flags)
      decreases |layer|
    {
      WalkStep(hs, leafLayer, targetIndex, layer, idx, proof, flags);
      var sibling, siblingOnRight := TakeSibling(layer, idx);
      proof := proof + [sibling];
      flags := flags + [siblingOnRight];
      layer := BuildNextLayer(hs, layer);
      idx := idx / 2;
    }
    WalkEnd(hs, leafLayer, targetIndex, layer, idx, proof, flags);
    root := layer[0];
  }

  /** Climbing with explicit side flags, from flag k on. */
  function ClimbFlags<H>(hs: Hasher<H>, h: H, proof: seq<H>, flags: seq<u8>, k: nat): H
    requires k <= |proof|
    decreases |proof| - k
  {
    if k == |proof| then h
    else
      var up := if BitIsSet(flags, k) then hs.node(h, proof[k]) else hs.node(proof[k], h);
      ClimbFlags(hs, up, proof, flags, k + 1)
  }

  method RecomputeRoot<H>(hs: Hasher<H>, p: InclusionProof<H>) returns (running: H)
    ensures running == ClimbFlags(hs, hs.leaf(ClaimableLeaf(p.pubkey, p.lamports)), p.proof, p.proofFlags, 0)
  {
    running := hs.leaf(ClaimableLeaf(p.pubkey, p.lamports));
    for i := 0 to |p.proof|
      invariant ClimbFlags(hs, running, p.proof, p.proofFlags, i)
             == ClimbFlags(hs, hs.leaf(ClaimableLeaf(p.pubkey, p.lamports)), p.proof, p.proofFlags, 0)
    {
      var sibling := p.proof[i];
      if BitIsSet(p.proofFlags, i) {
        running := hs.node(running, sibling);
      } else {
        running := hs.node(sibling, running);
      }
    }
  }

  // ---------- the two implementations agree ----------

  lemma {:induction false} FlagsGiveSides<H>(hs: Hasher<H>, h: H, i: nat, proof: seq<H>, flags: seq<u8>, k: nat)
    requires k <= |proof|
    requires forall n :: k <= n < |proof| ==> (BitIsSet(flags, n) <==> RightFlags(i, |proof| - k)[n - k])
    ensures ClimbFlags(hs, h, proof, flags, k) == Climb(hs, h, i, proof[k..])
    decreases |proof| - k
  {
    if k < |proof| {
      var rest := RightFlags(i / 2, |proof| - k - 1);
      assert RightFlags(i, |proof| - k) == [i % 2 == 0] + rest;
      assert BitIsSet(flags, k) <==> RightFlags(i, |proof| - k)[0];
      forall n | k + 1 <= n < |proof| ensures BitIsSet(flags, n) <==> rest[n - k - 1] {
        assert RightFlags(i, |proof| - k)[n - k] == rest[n - k - 1];
      }
      FlagsGiveSides(hs, Combine(hs, h, proof[k], i), i / 2, proof, flags, k + 1);
      assert proof[k..][1..] == proof[k + 1..] && proof[k..][0] == proof[k];
    }
  }

  /** For any hash: the client's proof of a leaf has the siblings that the genesis builder emits
      for that leaf's sorted index, its flags are those derived from the index alone, and
      recomputing it gives the root that both implementations build. */
  lemma ClientMatchesGenesis<H>(
    hs: Hasher<H>, leaves: seq<ClaimableLeaf>, target: Pubkey, n: nat, p: InclusionProof<H>, derived: seq<u8>)
    requires Proves(hs, leaves, target, n, p)
    requires IsPacking(derived, RightFlags(n, |p.proof|))
    ensures var t := Built(hs, leaves);
      && n < t.leafCount && t.leaves[n] == ClaimableLeaf(p.pubkey, p.lamports)
      && p.proof == ProofOf(hs, LeafLayer(hs, t.leaves), n)
      && p.proofFlags == derived
      && ClimbFlags(hs, hs.leaf(t.leaves[n]), p.proof, p.proofFlags, 0) == t.root
      && Climb(hs, hs.leaf(t.leaves[n]), n, p.proof) == t.root
  {
    SortByLength(leaves);
    PackingUnique(p.proofFlags, derived, RightFlags(n, |p.proof|));
    LayerRecomputes(hs, LeafLayer(hs, SortLeaves(leaves)), n, p.proofFlags);
  }

  lemma LayerRecomputes<H>(hs: Hasher<H>, layer: seq<H>, n: nat, flags: seq<u8>)
    requires n < |layer| && IsPacking(flags, RightFlags(n, |ProofOf(hs, layer, n)|))
    ensures var proof := ProofOf(hs, layer, n);
      && ClimbFlags(hs, layer[n], proof, flags, 0) == RootOf(hs, layer)
      && Climb(hs, layer[n], n, proof) == RootOf(hs, layer)
  {
    var proof := ProofOf(hs, layer, n);
    assert ClimbFlags(hs, layer[n], proof, flags, 0) == Climb(hs, layer[n], n, proof) by {
      FlagsGiveSides(hs, layer[n], n, proof, flags, 0);
      assert proof[0..] == proof;
    }
    ClimbReachesRoot(hs, layer, n);
  }
}
