/** Staging a proof in a buffer through chunked writes. */
module Staging {
  import opened Common
  import opened Arithmetic
  import opened Sequences
  import opened Merkle
  import opened ClientProof

  const DIGEST_LEN: nat := 32

  /** A digest as the wire sees it. */
  type Bytes32 = s: seq<u8> | |s| == 32 witness seq(DIGEST_LEN, _ => 0)

  datatype Chunk = Chunk(offset: nat, bytes: seq<u8>)

  datatype Plan = Plan(totalLen: nat, chunks: seq<Chunk>)

  function Flatten(proof: seq<seq<u8>>): seq<u8> {
    if proof == [] then [] else proof[0] + Flatten(proof[1..])
  }

  /** The consecutive pieces of `flat` from `off` on, all of size `size` but perhaps the last. */
  function Pieces(flat: seq<u8>, size: nat, off: nat): seq<Chunk>
    decreases |flat| - off
  {
    if off >= |flat| || size == 0 then []
    else [Chunk(off, flat[off..Min(off + size, |flat|)])] + Pieces(flat, size, off + size)
  }

  lemma {:induction false} FlattenAppend(a: seq<seq<u8>>, b: seq<seq<u8>>)
    ensures Flatten(a + b) == Flatten(a) + Flatten(b)
  {
    if a == [] {
      assert a + b == b;
    } else {
      FlattenAppend(a[1..], b);
      assert (a + b)[0] == a[0] && (a + b)[1..] == a[1..] + b;
      Regroup(a[0], Flatten(a[1..]), Flatten(b));
    }
  }

  lemma {:induction false} FlattenDigests(proof: seq<seq<u8>>)
    requires forall s :: s in proof ==> |s| == DIGEST_LEN
    ensures |Flatten(proof)| == DIGEST_LEN * |proof|
    ensures forall i :: 0 <= i < |proof| ==>
              Flatten(proof)[DIGEST_LEN * i..DIGEST_LEN * i + DIGEST_LEN] == proof[i]
  {
    if proof != [] {
      FlattenDigests(proof[1..]);
      var rest := Flatten(proof[1..]);
      forall i | 0 <= i < |proof|
        ensures Flatten(proof)[DIGEST_LEN * i..DIGEST_LEN * i + DIGEST_LEN] == proof[i]
      {
        if i > 0 {
          Beyond(proof[0], rest, DIGEST_LEN * (i - 1));
          assert rest[DIGEST_LEN * (i - 1)..DIGEST_LEN * (i - 1) + DIGEST_LEN] == proof[1..][i - 1];
        }
      }
    }
  }

  lemma Beyond(first: seq<u8>, rest: seq<u8>, at: nat)
    requires |first| == DIGEST_LEN && at + DIGEST_LEN <= |rest|
    ensures (first + rest)[DIGEST_LEN + at..DIGEST_LEN + at + DIGEST_LEN] == rest[at..at + DIGEST_LEN]
  {
  }

  ghost predicate AllDigests(proof: seq<seq<u8>>) {
    forall s :: s in proof ==> |s| == 32
  }

  /** Fails with the position of the first sibling that is not 32 bytes long. A chunk size of
      zero never ends in the source unless it fails so or there is nothing to write. */
  method PlanProofBufferWrites(proof: seq<seq<u8>>, chunkSize: nat) returns (plan: Result<Plan, nat>)
    requires chunkSize == 0 && AllDigests(proof) ==> proof == []
    ensures plan.Ok? <==> AllDigests(proof)
    ensures plan.Err? ==> plan.error < |proof| && |proof[plan.error]| != 32 && AllDigests(proof[..plan.error])
    ensures plan.Ok? ==> plan.value == Plan(|Flatten(proof)|, Pieces(Flatten(proof), chunkSize, 0))
  {
    var good, flat := FlattenProof(proof);
    if good < |proof| {
      assert proof[good] in proof;
      return Err(good);
    }
    assert proof[..|proof|] == proof;
    var chunks := Slice(flat, chunkSize);
    plan := Ok(Plan(flat.Length, chunks));
  }

  /** Copies the siblings one after another, up to the first of a wrong length. */
  method FlattenProof(proof: seq<seq<u8>>) returns (good: nat, flat: array<u8>)
    ensures good <= |proof| && AllDigests(proof[..good])
    ensures good < |proof| ==> |proof[good]| != DIGEST_LEN
    ensures good == |proof| ==> flat[..] == Flatten(proof)
  {
    flat := new u8[|proof| * DIGEST_LEN](_ => 0);
    for i := 0 to |proof|
      invariant AllDigests(proof[..i])
      invariant flat[..i * DIGEST_LEN] == Flatten(proof[..i])
    {
      if |proof[i]| != DIGEST_LEN {
        return i, flat;
      }
      assert proof[..i + 1] == proof[..i] + [proof[i]];
      FlattenAppend(proof[..i], [proof[i]]);
      assert Flatten([proof[i]]) == proof[i];
      SetRange(flat, proof[i], i * DIGEST_LEN);
    }
    assert proof[..|proof|] == proof;
    good := |proof|;
    assert flat[..] == flat[..|proof| * DIGEST_LEN];
  }

  /** `flat.set(bytes, off)`. */
  method SetRange(flat: array<u8>, bytes: seq<u8>, off: nat)
    requires off + |bytes| <= flat.Length
    modifies flat
    ensures flat[..off + |bytes|] == old(flat[..off]) + bytes
    ensures flat[off + |bytes|..] == old(flat[off + |bytes|..])
  {
    forall k | 0 <= k < |bytes| {
      flat[off + k] := bytes[k];
    }
  }

  method Slice(flat: array<u8>, chunkSize: nat) returns (chunks: seq<Chunk>)
    requires chunkSize > 0 || flat.Length == 0
    ensures chunks == Pieces(flat[..], chunkSize, 0)
  {
    chunks := [];
    var off := 0;
    ghost var bytes := flat[..];
    ghost var all := Pieces(bytes, chunkSize, 0);
    while off < flat.Length
      invariant chunks + Pieces(bytes, chunkSize, off) == all
      decreases flat.Length - off
    {
      var end := Min(off + chunkSize, flat.Length);
      PiecesStep(bytes, chunkSize, off, chunks);
      var chunk := Chunk(off, flat[off..end]);
      assert chunk == Chunk(off, bytes[off..end]);
      chunks := chunks + [chunk];
      off := off + chunkSize;
    }
  }

  lemma PiecesStep(flat: seq<u8>, size: nat, off: nat, done: seq<Chunk>)
    requires size > 0 && off < |flat|
    ensures done + Pieces(flat, size, off)
         == done + [Chunk(off, flat[off..Min(off + size, |flat|)])] + Pieces(flat, size, off + size)
  {
    Regroup(done, [Chunk(off, flat[off..Min(off + size, |flat|)])], Pieces(flat, size, off + size));
  }

  lemma {:induction false} PiecesCount(flat: seq<u8>, size: nat, off: nat)
    requires size > 0 && off <= |flat|
    ensures |Pieces(flat, size, off)| == (|flat| - off + size - 1) / size
    decreases |flat| - off
  {
    if off + size < |flat| {
      PiecesCount(flat, size, off + size);
      OneMorePiece(|flat| - off - size + size - 1, size);
    } else if off < |flat| {
      assert Pieces(flat, size, off + size) == [];
      UniqueRemainder(|flat| - off + size - 1, size, 1, |flat| - off - 1);
    } else {
      UniqueRemainder(size - 1, size, 0, size - 1);
    }
  }

  lemma {:induction false} PieceAt(flat: seq<u8>, size: nat, off: nat, k: nat)
    requires size > 0 && k < |Pieces(flat, size, off)|
    ensures off + k * size < |flat|
    ensures Pieces(flat, size, off)[k] == Chunk(off + k * size, flat[off + k * size..Min(off + k * size + size, |flat|)])
    decreases k
  {
    if k > 0 {
      assert (k - 1) * size + size == k * size;
      PieceAt(flat, size, off + size, k - 1);
    }
  }

  /** How many chunks a plan has, and where each one lies: all of the chunk size but perhaps the last. */
  lemma PlannedChunks(flat: seq<u8>, size: nat)
    requires size > 0
    ensures var chunks := Pieces(flat, size, 0);
      && |chunks| == (|flat| + size - 1) / size
      && forall k :: 0 <= k < |chunks| ==>
           k * size < |flat| && chunks[k] == Chunk(k * size, flat[k * size..Min(k * size + size, |flat|)])
  {
    PiecesCount(flat, size, 0);
    var chunks := Pieces(flat, size, 0);
    forall k | 0 <= k < |chunks|
      ensures k * size < |flat| && chunks[k] == Chunk(k * size, flat[k * size..Min(k * size + size, |flat|)])
    {
      PieceAt(flat, size, 0, k);
    }
  }

  lemma OneMorePiece(n: nat, size: nat)
    requires size > 0
    ensures (n + size) / size == n / size + 1
  {
    var q, r := DivMod(n, size);
    UniqueRemainder(n + size, size, q + 1, r);
  }

  // ---------- writing the chunks ----------

  function Write(buffer: seq<u8>, c: Chunk): (r: seq<u8>)
    requires c.offset + |c.bytes| <= |buffer|
    ensures |r| == |buffer|
  {
    buffer[..c.offset] + c.bytes + buffer[c.offset + |c.bytes|..]
  }

  ghost predicate Fits(writes: seq<Chunk>, len: nat) {
    forall c :: c in writes ==> c.offset + |c.bytes| <= len
  }

  function WriteAll(buffer: seq<u8>, writes: seq<Chunk>): (r: seq<u8>)
    requires Fits(writes, |buffer|)
    ensures |r| == |buffer|
    decreases |writes|
  {
    if writes == [] then buffer
    else
      assert writes[0] in writes;
      WriteAll(Write(buffer, writes[0]), writes[1..])
  }

  ghost predicate Covers(c: Chunk, p: nat) {
    c.offset <= p < c.offset + |c.bytes|
  }

  ghost predicate IsPieceOf(c: Chunk, flat: seq<u8>) {
    c.offset + |c.bytes| <= |flat| && c.bytes == flat[c.offset..c.offset + |c.bytes|]
  }

  ghost predicate Covered(writes: seq<Chunk>, p: nat) {
    exists k :: 0 <= k < |writes| && Covers(writes[k], p)
  }

  lemma CoveredCons(c: Chunk, rest: seq<Chunk>, p: nat)
    ensures Covered([c] + rest, p) <==> Covers(c, p) || Covered(rest, p)
  {
    var all := [c] + rest;
    if Covers(c, p) {
      assert Covers(all[0], p);
    }
    if Covered(rest, p) {
      var k :| 0 <= k < |rest| && Covers(rest[k], p);
      assert Covers(all[k + 1], p);
    }
    if Covered(all, p) {
      var k :| 0 <= k < |all| && Covers(all[k], p);
      assert k > 0 ==> all[k] == rest[k - 1];
    }
  }

  lemma {:induction false} PiecesCover(flat: seq<u8>, size: nat, off: nat)
    requires size > 0
    ensures forall c :: c in Pieces(flat, size, off) ==> IsPieceOf(c, flat)
    ensures forall p :: off <= p < |flat| ==> Covered(Pieces(flat, size, off), p)
    decreases |flat| - off
  {
    if off < |flat| {
      PiecesCover(flat, size, off + size);
      var first, rest := Chunk(off, flat[off..Min(off + size, |flat|)]), Pieces(flat, size, off + size);
      forall p | off <= p < |flat| ensures Covered(Pieces(flat, size, off), p) {
        CoveredCons(first, rest, p);
      }
    }
  }

  lemma WriteAt(buffer: seq<u8>, c: Chunk, flat: seq<u8>, p: nat)
    requires |buffer| == |flat| && IsPieceOf(c, flat) && p < |flat|
    ensures Write(buffer, c)[p] == if Covers(c, p) then flat[p] else buffer[p]
  {
  }

  /** After any writes of pieces, the written positions are right and the others untouched. */
  lemma {:induction false} WriteAllAt(buffer: seq<u8>, writes: seq<Chunk>, flat: seq<u8>, p: nat)
    requires |buffer| == |flat| && p < |flat|
    requires forall c :: c in writes ==> IsPieceOf(c, flat)
    ensures Fits(writes, |buffer|)
    ensures WriteAll(buffer, writes)[p] == if Covered(writes, p) then flat[p] else buffer[p]
    decreases |writes|
  {
    if writes != [] {
      assert writes[0] in writes;
      WriteAt(buffer, writes[0], flat, p);
      WriteAllAt(Write(buffer, writes[0]), writes[1..], flat, p);
      assert writes == [writes[0]] + writes[1..];
      CoveredCons(writes[0], writes[1..], p);
    }
  }

  /** Chunks written in any order, with any repeats, over any initial content leave exactly the
      proof in the buffer. */
  lemma StagedInAnyOrder(flat: seq<u8>, size: nat, buffer: seq<u8>, writes: seq<Chunk>)
    requires size > 0 && |buffer| == |flat|
    requires forall c :: c in writes <==> c in Pieces(flat, size, 0)
    ensures Fits(writes, |buffer|) && WriteAll(buffer, writes) == flat
  {
    PiecesCover(flat, size, 0);
    forall p | 0 <= p < |flat| ensures WriteAll(buffer, writes)[p] == flat[p] {
      WriteAllAt(buffer, writes, flat, p);
      var pieces := Pieces(flat, size, 0);
      assert Covered(pieces, p);
      var k :| 0 <= k < |pieces| && Covers(pieces[k], p);
      assert pieces[k] in writes;
      var j :| 0 <= j < |writes| && writes[j] == pieces[k];
      assert Covers(writes[j], p);
    }
  }

  /** The siblings read back from a buffer, 32 bytes each. */
  function ReadBack(buffer: seq<u8>, n: nat): seq<Bytes32>
    requires |buffer| == DIGEST_LEN * n
  {
    seq(n, i requires 0 <= i < n => buffer[DIGEST_LEN * i..DIGEST_LEN * i + DIGEST_LEN])
  }

  lemma ReadsBack(proof: seq<Bytes32>, size: nat, buffer: seq<u8>, writes: seq<Chunk>)
    requires size > 0 && |buffer| == DIGEST_LEN * |proof|
    requires forall c :: c in writes <==> c in Pieces(Flatten(proof), size, 0)
    ensures Fits(writes, |buffer|)
    ensures ReadBack(WriteAll(buffer, writes), |proof|) == proof
  {
    FlattenDigests(proof);
    StagedInAnyOrder(Flatten(proof), size, buffer, writes);
  }

  /** From the leaf list to the chain and back: a client proof, staged in chunks of any size that
      are written in any order with repeats, reads back as a proof that recomputes to the root. */
  lemma StagedProofRecomputes(
    hs: Hasher<Bytes32>, leaves: seq<ClaimableLeaf>, target: Pubkey, n: nat, p: InclusionProof<Bytes32>,
    size: nat, buffer: seq<u8>, writes: seq<Chunk>)
    requires Proves(hs, leaves, target, n, p)
    requires size > 0 && |buffer| == DIGEST_LEN * |p.proof|
    requires forall c :: c in writes <==> c in Pieces(Flatten(p.proof), size, 0)
    ensures Fits(writes, |buffer|)
    ensures var siblings := ReadBack(WriteAll(buffer, writes), |p.proof|);
      && siblings == p.proof
      && ClimbFlags(hs, hs.leaf(ClaimableLeaf(p.pubkey, p.lamports)), siblings, p.proofFlags, 0)
         == Built(hs, leaves).root
  {
    ReadsBack(p.proof, size, buffer, writes);
    ClientMatchesGenesis(hs, leaves, target, n, p, p.proofFlags);
  }
}
