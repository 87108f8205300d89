/** Completeness of the tree for any hash function, and what a collision-free one binds. */
module MerkleLaws {
  import opened Common
  import opened Sequences
  import opened Bits
  import opened Merkle

  // ---------- completeness, for any hash function ----------

  lemma ParentOf<H>(hs: Hasher<H>, layer: seq<H>, i: nat)
    requires i < |layer|
    ensures NextLayer(hs, layer)[i / 2] == Combine(hs, layer[i], Sibling(layer, i), i)
  {
  }

  lemma {:induction false} ClimbReachesRoot<H>(hs: Hasher<H>, layer: seq<H>, i: nat)
    requires i < |layer|
    ensures Climb(hs, layer[i], i, ProofOf(hs, layer, i)) == RootOf(hs, layer)
    decreases |layer|
  {
    if |layer| > 1 {
      ParentOf(hs, layer, i);
      ClimbReachesRoot(hs, NextLayer(hs, layer), i / 2);
      assert ProofOf(hs, layer, i)[1..] == ProofOf(hs, NextLayer(hs, layer), i / 2);
    }
  }


  /** The length of a proof is the base-2 logarithm of the leaf count, rounded up. */
  lemma {:induction false} ProofLength<H>(hs: Hasher<H>, layer: seq<H>, i: nat)
    requires i < |layer|
    ensures var d := |ProofOf(hs, layer, i)|;
      |layer| <= Pow2(d) && (d > 0 ==> Pow2(d - 1) < |layer|)
    decreases |layer|
  {
    if |layer| > 1 {
      var above := ProofOf(hs, NextLayer(hs, layer), i / 2);
      ProofLength(hs, NextLayer(hs, layer), i / 2);
      assert |ProofOf(hs, layer, i)| == 1 + |above|;
      assert Pow2(1 + |above|) == 2 * Pow2(|above|);
      assert |above| == 0 ==> |NextLayer(hs, layer)| <= 1;
    }
  }

  /** Every leaf of every non-empty tree has a proof that verifies, odd layers included, and its
      length is the logarithm of the leaf count. */
  lemma Completeness<H>(hs: Hasher<H>, input: seq<ClaimableLeaf>, i: nat)
    requires i < |input|
    ensures var t := Built(hs, input);
      && i < |t.leaves|
      && Climb(hs, hs.leaf(t.leaves[i]), i, ProofOf(hs, LeafLayer(hs, t.leaves), i)) == t.root
      && var d := |ProofOf(hs, LeafLayer(hs, t.leaves), i)|;
         |input| <= Pow2(d) && (d > 0 ==> Pow2(d - 1) < |input|)
  {
    SortByLength(input);
    var layer := LeafLayer(hs, Built(hs, input).leaves);
    ClimbReachesRoot(hs, layer, i);
    ProofLength(hs, layer, i);
  }

  ghost predicate DistinctPubkeys(leaves: seq<ClaimableLeaf>) {
    forall i, j :: i in leaves && j in leaves && i.pubkey == j.pubkey ==> i == j
  }

  /** With one leaf per pubkey, the tree does not depend on the order of the snapshot. */
  lemma BuildIgnoresOrder<H>(hs: Hasher<H>, a: seq<ClaimableLeaf>, b: seq<ClaimableLeaf>)
    requires multiset(a) == multiset(b) && DistinctPubkeys(a)
    ensures Built(hs, a) == Built(hs, b)
  {
    assert |multiset(a)| == |multiset(b)|;
    ByPubkeyIsPreorder();
    SortBySorts(a, ByPubkey());
    SortBySorts(b, ByPubkey());
    SortByMembers(a, ByPubkey());
    SortedUnique(SortLeaves(a), SortLeaves(b), ByPubkey());
  }

  // ---------- the collision-free hash ----------

  /** Digests of a hash without collisions: terms, equal only when built alike. */
  datatype Digest = ZeroDigest | LeafDigest(leaf: ClaimableLeaf) | NodeDigest(left: Digest, right: Digest)

  function Free(): Hasher<Digest> {
    Hasher((l: ClaimableLeaf) => LeafDigest(l), (a: Digest, b: Digest) => NodeDigest(a, b), ZeroDigest)
  }

  /** The height of a full binary tree over leaf digests; anything else has height -1. */
  function Height(t: Digest): int {
    match t
    case ZeroDigest => -1
    case LeafDigest(_) => 0
    case NodeDigest(l, r) => if 0 <= Height(l) == Height(r) then 1 + Height(l) else -1
  }

  ghost predicate Level(layer: seq<Digest>, h: nat) {
    forall i :: 0 <= i < |layer| ==> Height(layer[i]) == h
  }

  function Depth(n: nat): nat
    requires n > 0
  {
    if n == 1 then 0 else 1 + Depth((n + 1) / 2)
  }

  lemma NextLevel(layer: seq<Digest>, h: nat)
    requires Level(layer, h)
    ensures Level(NextLayer(Free(), layer), h + 1)
  {
  }

  lemma {:induction false} RootHeight(layer: seq<Digest>, h: nat)
    requires layer != [] && Level(layer, h)
    ensures Height(RootOf(Free(), layer)) == h + Depth(|layer|)
    decreases |layer|
  {
    if |layer| > 1 {
      NextLevel(layer, h);
      RootHeight(NextLayer(Free(), layer), h + 1);
    }
  }

  // ---------- the order of the leaves ----------

  function HasKey(k: Pubkey): ClaimableLeaf -> bool {
    (l: ClaimableLeaf) => l.pubkey == k
  }

  function KeyBelow(k: Pubkey): ClaimableLeaf -> bool {
    (l: ClaimableLeaf) => l.pubkey < k
  }

  /** A tree keeps its leaves by ascending pubkey, equal ones in their order of arrival; no leaves at
      all give the default root. */
  lemma LeavesByKey<H>(hs: Hasher<H>, leaves: seq<ClaimableLeaf>)
    ensures var t := Built(hs, leaves).leaves;
      && multiset(t) == multiset(leaves)
      && (forall i, j :: 0 <= i < j < |t| ==> t[i].pubkey <= t[j].pubkey)
      && (forall k: Pubkey :: Filter(t, HasKey(k)) == Filter(leaves, HasKey(k)))
    ensures leaves == [] ==> Built(hs, leaves).root == hs.zero
  {
    ByPubkeyIsPreorder();
    SortBySorts(leaves, ByPubkey());
    var t := Built(hs, leaves).leaves;
    assert t == SortLeaves(leaves);
    forall i, j | 0 <= i < j < |t| ensures t[i].pubkey <= t[j].pubkey {
      assert ByPubkey()(t[i], t[j]);
    }
    forall k: Pubkey ensures Filter(t, HasKey(k)) == Filter(leaves, HasKey(k)) {
      var ties := TiesWith(ClaimableLeaf(k, 0), ByPubkey());
      SortByStable(leaves, ByPubkey(), ClaimableLeaf(k, 0));
      FilterAlike(t, HasKey(k), ties);
      FilterAlike(leaves, HasKey(k), ties);
    }
  }

  /** With distinct pubkeys, the index of a leaf is the number of smaller pubkeys. */
  lemma IndexCountsSmaller<H>(hs: Hasher<H>, leaves: seq<ClaimableLeaf>, i: nat)
    requires forall i, j :: 0 <= i < j < |leaves| ==> leaves[i].pubkey != leaves[j].pubkey
    requires i < |leaves|
    ensures var t := Built(hs, leaves).leaves;
      |t| == |leaves| && |Filter(leaves, KeyBelow(t[i].pubkey))| == i
  {
    LeavesByKey(hs, leaves);
    var t := Built(hs, leaves).leaves;
    SameCount(leaves, t, KeyBelow(0));
    KeysStayDistinct(leaves, t);
    BelowInAscending(t, i);
    SameCount(leaves, t, KeyBelow(t[i].pubkey));
  }

  lemma SameCount<T>(a: seq<T>, b: seq<T>, p: T -> bool)
    requires multiset(a) == multiset(b)
    ensures |a| == |b| && |Filter(a, p)| == |Filter(b, p)|
  {
    FilterPermuted(a, b, p);
    assert |multiset(a)| == |multiset(b)|;
    assert |multiset(Filter(a, p))| == |multiset(Filter(b, p))|;
  }

  lemma {:induction false} BelowInAscending(t: seq<ClaimableLeaf>, i: nat)
    requires i < |t| && forall i, j :: 0 <= i < j < |t| ==> t[i].pubkey <= t[j].pubkey && t[i].pubkey != t[j].pubkey
    ensures Filter(t, KeyBelow(t[i].pubkey)) == t[..i]
  {
    var p := KeyBelow(t[i].pubkey);
    var low, high := t[..i], t[i..];
    assert Filter(low, p) == low by { FilterAll(low, p); }
    assert Filter(high, p) == [] by { FilterNone(high, p); }
    FilterAppend(low, high, p);
    assert t == low + high;
  }

  lemma KeysStayDistinct(a: seq<ClaimableLeaf>, b: seq<ClaimableLeaf>)
    requires forall i, j :: 0 <= i < j < |a| ==> a[i].pubkey != a[j].pubkey
    requires multiset(a) == multiset(b)
    ensures forall i, j :: 0 <= i < j < |b| ==> b[i].pubkey != b[j].pubkey
  {
    DistinctPermuted(a, b);
    forall i, j | 0 <= i < j < |b| ensures b[i].pubkey != b[j].pubkey {
      assert b[i] in multiset(b) && b[j] in multiset(b);
      assert b[i] in a && b[j] in a;
    }
  }

  // ---------- when two roots agree ----------

  /** The leaf that the low bits of any index lead to: a step to the right of a self-paired node
      stays on it. */
  function EffectiveIndex(n: nat, i: nat): (e: nat)
    requires n > 0
    ensures e < n
    decreases n
  {
    if n == 1 then 0
    else Min(2 * EffectiveIndex((n + 1) / 2, i / 2) + i % 2, n - 1)
  }

  lemma {:induction false} EffectiveInRange(n: nat, i: nat)
    requires i < n
    ensures EffectiveIndex(n, i) == i
    decreases n
  {
    if n > 1 {
      EffectiveInRange((n + 1) / 2, i / 2);
    }
  }

  lemma {:induction false} ChildIndex(n: nat, i: nat)
    requires n > 1
    ensures var e := EffectiveIndex((n + 1) / 2, i);
      EffectiveIndex(n, 2 * i) == 2 * e && EffectiveIndex(n, 2 * i + 1) == Min(2 * e + 1, n - 1)
  {
    assert 2 * i / 2 == i && (2 * i + 1) / 2 == i;
  }

  /** The element that the low bits of an index lead to. */
  function At<T>(s: seq<T>, i: nat): T
    requires s != []
  {
    s[EffectiveIndex(|s|, i)]
  }

  lemma ChildrenOf(layer: seq<Digest>, e: nat)
    requires |layer| > 1 && e < (|layer| + 1) / 2
    ensures NextLayer(Free(), layer)[e] == NodeDigest(layer[2 * e], layer[Min(2 * e + 1, |layer| - 1)])
  {
  }

  /** A parent's two children, found from any index that leads to it. */
  lemma {:induction false} ChildrenAt(layer: seq<Digest>, i: nat)
    requires |layer| > 1
    ensures At(NextLayer(Free(), layer), i) == NodeDigest(At(layer, 2 * i), At(layer, 2 * i + 1))
  {
    var e := EffectiveIndex((|layer| + 1) / 2, i);
    ChildrenOf(layer, e);
    ChildIndex(|layer|, i);
  }

  /** The same elements are met wherever the bits of an index lead. */
  ghost predicate Alike<T>(a: seq<T>, b: seq<T>)
    requires a != [] && b != []
  {
    && Depth(|a|) == Depth(|b|)
    && forall i: nat :: At(a, i) == At(b, i)
  }

  lemma {:induction false} ParentsAlike(a: seq<Digest>, b: seq<Digest>)
    requires |a| > 1 && |b| > 1 && Alike(a, b)
    ensures Alike(NextLayer(Free(), a), NextLayer(Free(), b))
  {
    var na, nb := NextLayer(Free(), a), NextLayer(Free(), b);
    forall i: nat ensures At(na, i) == At(nb, i) {
      ChildrenAt(a, i);
      ChildrenAt(b, i);
    }
  }

  lemma {:induction false} ChildrenAlike(a: seq<Digest>, b: seq<Digest>)
    requires |a| > 1 && |b| > 1 && Alike(NextLayer(Free(), a), NextLayer(Free(), b))
    ensures Alike(a, b)
  {
    var na, nb := NextLayer(Free(), a), NextLayer(Free(), b);
    forall i: nat ensures At(a, i) == At(b, i) {
      ChildrenAt(a, i / 2);
      ChildrenAt(b, i / 2);
      assert At(na, i / 2) == At(nb, i / 2);
      assert i == 2 * (i / 2) || i == 2 * (i / 2) + 1;
    }
  }

  lemma {:induction false} LayersAgreeIff(a: seq<Digest>, b: seq<Digest>, h: nat)
    requires a != [] && b != [] && Level(a, h) && Level(b, h)
    ensures RootOf(Free(), a) == RootOf(Free(), b) <==> Alike(a, b)
    decreases |a|
  {
    RootHeight(a, h);
    RootHeight(b, h);
    if |a| > 1 && |b| > 1 {
      NextLevel(a, h);
      NextLevel(b, h);
      LayersAgreeIff(NextLayer(Free(), a), NextLayer(Free(), b), h + 1);
      if Alike(a, b) { ParentsAlike(a, b); }
      if Alike(NextLayer(Free(), a), NextLayer(Free(), b)) { ChildrenAlike(a, b); }
    } else if |a| == 1 && |b| == 1 {
      assert At(a, 0) == a[0] && At(b, 0) == b[0];
    } else {
      assert Depth(|a|) != Depth(|b|);
    }
  }

  /** Exactly when two leaf collections have the same root, repeated leaves included: both are empty,
      or both trees are equally deep and meet the same leaves wherever the bits of an index lead. */
  lemma RootsAgreeIff(a: seq<ClaimableLeaf>, b: seq<ClaimableLeaf>)
    ensures |SortLeaves(a)| == |a| && |SortLeaves(b)| == |b|
    ensures Built(Free(), a).root == Built(Free(), b).root
       <==> (a == [] && b == []) || (a != [] && b != [] && Alike(SortLeaves(a), SortLeaves(b)))
  {
    SortByLength(a);
    SortByLength(b);
    var sa, sb := SortLeaves(a), SortLeaves(b);
    var la, lb := LeafLayer(Free(), sa), LeafLayer(Free(), sb);
    if a != [] { RootHeight(la, 0); }
    if b != [] { RootHeight(lb, 0); }
    if a != [] && b != [] {
      LayersAgreeIff(la, lb, 0);
      LeavesAlike(sa, sb);
    }
  }

  lemma LeavesAlike(a: seq<ClaimableLeaf>, b: seq<ClaimableLeaf>)
    requires a != [] && b != []
    ensures Alike(LeafLayer(Free(), a), LeafLayer(Free(), b)) <==> Alike(a, b)
  {
    var la, lb := LeafLayer(Free(), a), LeafLayer(Free(), b);
    forall i: nat ensures At(la, i) == At(lb, i) <==> At(a, i) == At(b, i) {
      assert At(la, i).leaf == At(a, i) && At(lb, i).leaf == At(b, i);
    }
  }

  // ---------- binding ----------

  ghost predicate Distinct<T>(s: seq<T>) {
    forall i, j :: 0 <= i < j < |s| ==> s[i] != s[j]
  }

  /** Without repetitions, only equal sequences are alike. */
  lemma AlikeDistinct<T>(a: seq<T>, b: seq<T>)
    requires a != [] && b != [] && Alike(a, b) && Distinct(a) && Distinct(b)
    ensures a == b
  {
    forall i | 0 <= i < Min(|a|, |b|) ensures a[i] == b[i] {
      EffectiveInRange(|a|, i);
      EffectiveInRange(|b|, i);
      assert At(a, i) == At(b, i);
    }
    var n := Min(|a|, |b|);
    assert At(a, n) == At(b, n);
    if |a| < |b| {
      EffectiveInRange(|b|, n);
    } else if |b| < |a| {
      EffectiveInRange(|a|, n);
    }
  }

  lemma DistinctPermuted<T>(a: seq<T>, b: seq<T>)
    requires multiset(a) == multiset(b) && Distinct(a)
    ensures Distinct(b)
  {
    if i, j :| 0 <= i < j < |b| && b[i] == b[j] {
      assert b == b[..i] + [b[i]] + b[i + 1..j] + [b[j]] + b[j + 1..];
      var k, l := Repeated(a, b[i]);
      assert false;
    }
  }

  lemma {:induction false} Repeated<T>(s: seq<T>, x: T) returns (i: nat, j: nat)
    requires multiset(s)[x] >= 2
    ensures i < j < |s| && s[i] == s[j] == x
  {
    assert s == [s[0]] + s[1..];
    if s[0] == x {
      assert x in multiset(s[1..]);
      var k :| 0 <= k < |s[1..]| && s[1..][k] == x;
      i, j := 0, k + 1;
    } else {
      i, j := Repeated(s[1..], x);
      i, j := i + 1, j + 1;
    }
  }

  /** The root commits to the leaves: two duplicate-free leaf collections with the same root hold
      the same leaves, although odd nodes are paired with themselves. */
  lemma Binding(a: seq<ClaimableLeaf>, b: seq<ClaimableLeaf>)
    requires Distinct(a) && Distinct(b)
    requires Built(Free(), a).root == Built(Free(), b).root
    ensures multiset(a) == multiset(b)
  {
    RootsAgreeIff(a, b);
    SortedDistinct(a);
    SortedDistinct(b);
    if a != [] {
      AlikeDistinct(SortLeaves(a), SortLeaves(b));
    }
  }

  lemma SortedDistinct(a: seq<ClaimableLeaf>)
    requires Distinct(a)
    ensures |SortLeaves(a)| == |a| && multiset(SortLeaves(a)) == multiset(a)
    ensures Distinct(SortLeaves(a))
  {
    ByPubkeyIsPreorder();
    SortBySorts(a, ByPubkey());
    DistinctPermuted(a, SortLeaves(a));
  }

  lemma InsertBeforeLast<T>(x: T, s: seq<T>, last: T, leq: (T, T) -> bool)
    requires leq(x, last)
    ensures Insert(x, s + [last], leq) == Insert(x, s, leq) + [last]
  {
    if s == [] {
    } else if !leq(x, s[0]) {
      InsertBeforeLast(x, s[1..], last, leq);
      assert (s + [last])[1..] == s[1..] + [last];
    } else {
      assert [x] + (s + [last]) == [x] + s + [last];
    }
  }

  /** A stable sort leaves a last element that is nowhere exceeded last. */
  lemma {:induction false} SortKeepsLast<T>(s: seq<T>, last: T, leq: (T, T) -> bool)
    requires forall x :: x in s ==> leq(x, last)
    ensures SortBy(s + [last], leq) == SortBy(s, leq) + [last]
  {
    if s == [] {
      assert s + [last] == [last] && SortBy([last][1..], leq) == [];
    } else {
      SortKeepsLast(s[1..], last, leq);
      assert (s + [last])[1..] == s[1..] + [last];
      InsertBeforeLast(s[0], SortBy(s[1..], leq), last, leq);
    }
  }

  lemma RepeatedLastAlike<T>(s: seq<T>)
    requires |s| > 1 && |s| % 2 == 1
    ensures Alike(s, s + [s[|s| - 1]])
  {
    var n, t := |s|, s + [s[|s| - 1]];
    assert (n + 1) / 2 == (n + 2) / 2;
    forall i: nat ensures At(s, i) == At(t, i) {
      var e := 2 * EffectiveIndex((n + 1) / 2, i / 2) + i % 2;
      assert EffectiveIndex(n, i) == Min(e, n - 1) && EffectiveIndex(n + 1, i) == Min(e, n);
    }
  }

  /** Without duplicate-freedom the root does not bind: repeating the last leaf of any tree of an odd
      number of leaves, more than one, leaves its root unchanged. */
  lemma DuplicateKeepsRoot(a: seq<ClaimableLeaf>)
    requires |a| > 1 && |a| % 2 == 1
    ensures |SortLeaves(a)| == |a|
    ensures var last := SortLeaves(a)[|a| - 1];
      Built(Free(), a + [last]).root == Built(Free(), a).root
  {
    ByPubkeyIsPreorder();
    SortBySorts(a, ByPubkey());
    var sa := SortLeaves(a);
    var last := sa[|a| - 1];
    forall x | x in a ensures ByPubkey()(x, last) {
      SortByMembers(a, ByPubkey());
      var k :| 0 <= k < |sa| && sa[k] == x;
    }
    SortKeepsLast(a, last, ByPubkey());
    RepeatedLastAlike(sa);
    RootsAgreeIff(a, a + [last]);
  }

  // ---------- what verify accepts ----------

  lemma {:induction false} ClimbHeight(x: Digest, i: nat, proof: seq<Digest>)
    requires Height(Climb(Free(), x, i, proof)) >= 0
    ensures Height(Climb(Free(), x, i, proof)) == Height(x) + |proof|
    ensures Height(x) >= 0
    decreases |proof|
  {
    if proof != [] {
      ClimbHeight(Combine(Free(), x, proof[0], i), i / 2, proof[1..]);
    }
  }

  lemma EffectiveParent(layer: seq<Digest>, i: nat)
    requires |layer| > 1
    ensures var e := EffectiveIndex(|layer|, i);
      var next := NextLayer(Free(), layer);
      && e / 2 == EffectiveIndex(|next|, i / 2)
      && next[e / 2] == Combine(Free(), layer[e], Sibling(layer, e), i)
  {
    var e := EffectiveIndex(|layer|, i);
    ParentOf(Free(), layer, e);
  }

  lemma {:induction false} ClimbAccepts(layer: seq<Digest>, i: nat, x: Digest, proof: seq<Digest>)
    requires layer != [] && |proof| == Depth(|layer|)
    ensures var e := EffectiveIndex(|layer|, i);
      Climb(Free(), x, i, proof) == RootOf(Free(), layer)
      <==> x == layer[e] && proof == ProofOf(Free(), layer, e)
    decreases |layer|
  {
    if |layer| > 1 {
      var e, next := EffectiveIndex(|layer|, i), NextLayer(Free(), layer);
      EffectiveParent(layer, i);
      ClimbAccepts(next, i / 2, Combine(Free(), x, proof[0], i), proof[1..]);
      CombineInjective(x, proof[0], layer[e], Sibling(layer, e), i);
      ConsEqual(proof, Sibling(layer, e), ProofOf(Free(), next, e / 2));
    }
  }

  lemma ConsEqual<T>(s: seq<T>, head: T, tail: seq<T>)
    requires s != []
    ensures s == [head] + tail <==> s[0] == head && s[1..] == tail
  {
    assert s == [s[0]] + s[1..];
  }

  lemma CombineInjective(x: Digest, s: Digest, y: Digest, t: Digest, i: nat)
    ensures Combine(Free(), x, s, i) == Combine(Free(), y, t, i) <==> x == y && s == t
  {
  }

  lemma {:induction false} ProofDepth<H>(hs: Hasher<H>, layer: seq<H>, i: nat)
    requires i < |layer|
    ensures |ProofOf(hs, layer, i)| == Depth(|layer|)
    decreases |layer|
  {
    if |layer| > 1 {
      ProofDepth(hs, NextLayer(hs, layer), i / 2);
    }
  }

  /** For any leaf, any index and a proof of any length: `verify` accepts exactly the leaf that
      the index leads to, with exactly that leaf's own proof. An index below the leaf count leads
      to itself; an empty tree accepts nothing. */
  lemma VerifyAcceptsExactly(input: seq<ClaimableLeaf>, leaf: ClaimableLeaf, i: nat, proof: seq<Digest>)
    ensures var t := Built(Free(), input);
      var accepted := Climb(Free(), LeafDigest(leaf), i, proof) == t.root;
      if input == [] then !accepted
      else
        var e := EffectiveIndex(|input|, i);
        && |t.leaves| == |input|
        && (i < |input| ==> e == i)
        && (accepted <==> leaf == t.leaves[e] && proof == ProofOf(Free(), LeafLayer(Free(), t.leaves), e))
  {
    var t := Built(Free(), input);
    if input == [] {
      ClimbNotZero(LeafDigest(leaf), i, proof);
    } else {
      if i < |input| {
        EffectiveInRange(|input|, i);
      }
      LayerAccepts(LeafLayer(Free(), t.leaves), i, LeafDigest(leaf), proof);
    }
  }

  lemma LayerAccepts(layer: seq<Digest>, i: nat, x: Digest, proof: seq<Digest>)
    requires layer != [] && Level(layer, 0) && x.LeafDigest?
    ensures var e := EffectiveIndex(|layer|, i);
      Climb(Free(), x, i, proof) == RootOf(Free(), layer)
      <==> x == layer[e] && proof == ProofOf(Free(), layer, e)
  {
    if |proof| == Depth(|layer|) {
      ClimbAccepts(layer, i, x, proof);
    } else {
      ProofDepth(Free(), layer, EffectiveIndex(|layer|, i));
      RootHeight(layer, 0);
      if Climb(Free(), x, i, proof) == RootOf(Free(), layer) {
        ClimbHeight(x, i, proof);
        assert false;
      }
    }
  }

  lemma {:induction false} ClimbNotZero(x: Digest, i: nat, proof: seq<Digest>)
    requires x != ZeroDigest
    ensures Climb(Free(), x, i, proof) != ZeroDigest
    decreases |proof|
  {
    if proof != [] {
      ClimbNotZero(Combine(Free(), x, proof[0], i), i / 2, proof[1..]);
    }
  }
}
