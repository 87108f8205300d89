/** The genesis fold: partition of the snapshot, treasury accumulation and the claimable root. */
module Genesis {
  import opened Common
  import opened Sequences
  import opened Merkle
  import opened MerkleLaws

  datatype Account = Account(pubkey: Pubkey, owner: Pubkey, dataLen: nat, lamports: u64)

  /** The System program's address is 32 zero bytes. */
  const SYSTEM_PROGRAM_ID: Pubkey := 0

  function Claimable(): Account -> bool {
    (a: Account) => a.owner == SYSTEM_PROGRAM_ID && a.dataLen == 0
  }

  function NotClaimable(): Account -> bool {
    (a: Account) => !Claimable()(a)
  }

  function LeafOf(a: Account): ClaimableLeaf {
    ClaimableLeaf(a.pubkey, a.lamports)
  }

  function Leaves(accounts: seq<Account>): seq<ClaimableLeaf> {
    if accounts == [] then []
    else (if Claimable()(accounts[0]) then [LeafOf(accounts[0])] else []) + Leaves(accounts[1..])
  }

  function Lamports(): Account -> nat {
    (a: Account) => a.lamports
  }

  function LeafLamports(): ClaimableLeaf -> nat {
    (l: ClaimableLeaf) => l.lamports
  }

  class Treasury {
    var totalLamports: u128
    var accountCount: u64

    constructor ()
      ensures totalLamports == 0 && accountCount == 0
    {
      totalLamports, accountCount := 0, 0;
    }

    method Credit(lamports: u64)
      modifies this
      ensures totalLamports == Min(old(totalLamports) + lamports, U128_SIZE - 1)
      ensures accountCount == Min(old(accountCount) + 1, U64_MAX)
    {
      totalLamports := Min(totalLamports + lamports, U128_SIZE - 1);
      accountCount := Min(accountCount + 1, U64_MAX);
    }

    /** The whole total when a balance can hold it, else the largest balance. */
    method LamportsForPda() returns (r: u64)
      ensures r <= totalLamports
      ensures r == totalLamports <==> totalLamports <= U64_MAX
      ensures r < totalLamports ==> r == U64_MAX
    {
      r := Min(totalLamports, U64_MAX);
    }
  }

  /** The treasury totals of a snapshot, saturating at the widths of the two counters. */
  function TreasuryTotal(accounts: seq<Account>): u128 {
    Min(Sum(Filter(accounts, NotClaimable()), Lamports()), U128_SIZE - 1)
  }

  function TreasuryCount(accounts: seq<Account>): u64 {
    Min(|Filter(accounts, NotClaimable())|, U64_MAX)
  }

  ghost predicate Holds(t: Treasury, accounts: seq<Account>)
    reads t
  {
    t.totalLamports == TreasuryTotal(accounts) && t.accountCount == TreasuryCount(accounts)
  }

  /** Saturating one account at a time is saturating the sum. */
  lemma CreditStep(accounts: seq<Account>, a: Account)
    ensures Claimable()(a) ==>
      TreasuryTotal(accounts + [a]) == TreasuryTotal(accounts) && TreasuryCount(accounts + [a]) == TreasuryCount(accounts)
    ensures !Claimable()(a) ==>
      && TreasuryTotal(accounts + [a]) == Min(TreasuryTotal(accounts) + a.lamports, U128_SIZE - 1)
      && TreasuryCount(accounts + [a]) == Min(TreasuryCount(accounts) + 1, U64_MAX)
  {
    FilterPush(accounts, a, NotClaimable());
    SumPush(Filter(accounts, NotClaimable()), a, Lamports());
    if Claimable()(a) {
      assert Filter(accounts + [a], NotClaimable()) == Filter(accounts, NotClaimable());
    }
  }

  lemma {:induction false} LeavesAppend(a: seq<Account>, b: seq<Account>)
    ensures Leaves(a + b) == Leaves(a) + Leaves(b)
  {
    if a == [] {
      assert a + b == b;
    } else {
      LeavesAppend(a[1..], b);
      assert (a + b)[0] == a[0] && (a + b)[1..] == a[1..] + b;
      Regroup(if Claimable()(a[0]) then [LeafOf(a[0])] else [], Leaves(a[1..]), Leaves(b));
    }
  }

  /** One more account: owned by the System program and without data it is claimable, and becomes the
      last leaf; else it adds to the treasury, whose counters stop at their widths. */
  lemma OneMoreAccount(accounts: seq<Account>, a: Account)
    ensures Leaves([]) == [] && TreasuryTotal([]) == 0 && TreasuryCount([]) == 0
    ensures var more := accounts + [a];
      if a.owner == 0 && a.dataLen == 0 then
        && Leaves(more) == Leaves(accounts) + [ClaimableLeaf(a.pubkey, a.lamports)]
        && TreasuryTotal(more) == TreasuryTotal(accounts) && TreasuryCount(more) == TreasuryCount(accounts)
      else
        && Leaves(more) == Leaves(accounts)
        && TreasuryTotal(more) == Min(TreasuryTotal(accounts) + a.lamports, U128_SIZE - 1)
        && TreasuryCount(more) == Min(TreasuryCount(accounts) + 1, U64_MAX)
  {
    CreditStep(accounts, a);
    LeavesAppend(accounts, [a]);
    assert Leaves([a]) == if Claimable()(a) then [LeafOf(a)] else [];
  }

  method PartitionAccounts(accounts: seq<Account>) returns (claimable: seq<ClaimableLeaf>, treasury: Treasury)
    ensures claimable == Leaves(accounts)
    ensures fresh(treasury) && Holds(treasury, accounts)
  {
    claimable := [];
    treasury := new Treasury();
    for i := 0 to |accounts|
      invariant claimable == Leaves(accounts[..i])
      invariant fresh(treasury) && Holds(treasury, accounts[..i])
    {
      var account := accounts[i];
      assert accounts[..i + 1] == accounts[..i] + [account];
      OneMoreAccount(accounts[..i], account);
      if account.owner == SYSTEM_PROGRAM_ID && account.dataLen == 0 {
        claimable := claimable + [ClaimableLeaf(account.pubkey, account.lamports)];
      } else {
        treasury.Credit(account.lamports);
      }
    }
    assert accounts[..|accounts|] == accounts;
  }

  /** The root and count of the output; the fee governor and inflation flag are constants. */
  method BuildGenesis<H>(hs: Hasher<H>, accounts: seq<Account>)
    returns (claimableRoot: H, claimableCount: nat, treasury: Treasury)
    ensures claimableRoot == Built(hs, Leaves(accounts)).root && claimableCount == |Leaves(accounts)|
    ensures fresh(treasury) && Holds(treasury, accounts)
  {
    var claimable;
    claimable, treasury := PartitionAccounts(accounts);
    claimableCount := |claimable|;
    var tree := Build(hs, claimable);
    claimableRoot := tree.root;
  }

  method BuildGenesisWithTree<H>(hs: Hasher<H>, accounts: seq<Account>)
    returns (claimableRoot: H, claimableCount: nat, treasury: Treasury, tree: MerkleTreeWithLayers<H>)
    ensures tree == Built(hs, Leaves(accounts))
    ensures claimableRoot == Built(hs, Leaves(accounts)).root && claimableCount == |Leaves(accounts)|
    ensures fresh(treasury) && Holds(treasury, accounts)
  {
    var claimable;
    claimable, treasury := PartitionAccounts(accounts);
    claimableCount := |claimable|;
    tree := Build(hs, claimable);
    claimableRoot := tree.root;
  }

  // ---------- conservation ----------

  lemma {:induction false} PartitionSplits(accounts: seq<Account>)
    ensures Sum(Leaves(accounts), LeafLamports()) + Sum(Filter(accounts, NotClaimable()), Lamports())
         == Sum(accounts, Lamports())
    ensures |Leaves(accounts)| + |Filter(accounts, NotClaimable())| == |accounts|
    ensures Sum(accounts, Lamports()) <= |accounts| * U64_MAX
  {
    if accounts != [] {
      PartitionSplits(accounts[1..]);
      var a := accounts[0];
      SumAppend(if Claimable()(a) then [LeafOf(a)] else [], Leaves(accounts[1..]), LeafLamports());
      SumAppend(if Claimable()(a) then [] else [a], Filter(accounts[1..], NotClaimable()), Lamports());
    }
  }

  /** Up to 2^64 accounts no counter saturates the total: claimable lamports and treasury total
      add up to the whole snapshot, and every account is counted once below 2^64. */
  lemma GenesisConserves(accounts: seq<Account>, t: Treasury)
    requires Holds(t, accounts) && |accounts| <= U64_SIZE
    ensures Sum(Leaves(accounts), LeafLamports()) + t.totalLamports == Sum(accounts, Lamports())
    ensures |accounts| < U64_SIZE ==> |Leaves(accounts)| + t.accountCount == |accounts|
  {
    NothingSaturates(accounts);
    PartitionSplits(accounts);
  }

  lemma NothingSaturates(accounts: seq<Account>)
    requires |accounts| <= U64_SIZE
    ensures TreasuryTotal(accounts) == Sum(Filter(accounts, NotClaimable()), Lamports())
  {
    PartitionSplits(accounts);
    assert |accounts| * U64_MAX <= U64_SIZE * U64_MAX < U128_SIZE;
  }

  /** Crediting the clamped total to the treasury account loses nothing exactly when the total
      fits 64 bits. */
  lemma PdaConservesIff(accounts: seq<Account>, t: Treasury)
    requires Holds(t, accounts) && |accounts| <= U64_SIZE
    ensures Sum(Leaves(accounts), LeafLamports()) + Min(t.totalLamports, U64_MAX) == Sum(accounts, Lamports())
       <==> Sum(Filter(accounts, NotClaimable()), Lamports()) <= U64_MAX
  {
    GenesisConserves(accounts, t);
    PartitionSplits(accounts);
  }

  // ---------- determinism ----------

  lemma {:induction false} LeavesWithout(s: seq<Account>, k: nat)
    requires k < |s|
    ensures multiset(Leaves(s))
         == multiset(Leaves(Without(s, k))) + (if Claimable()(s[k]) then multiset{LeafOf(s[k])} else multiset{})
  {
    assert s == s[..k] + ([s[k]] + s[k + 1..]);
    LeavesAppend(s[..k], [s[k]] + s[k + 1..]);
    LeavesAppend([s[k]], s[k + 1..]);
    LeavesAppend(s[..k], s[k + 1..]);
  }

  lemma {:induction false} LeavesPermuted(a: seq<Account>, b: seq<Account>)
    requires multiset(a) == multiset(b)
    ensures multiset(Leaves(a)) == multiset(Leaves(b))
  {
    if a == [] {
      assert |multiset(b)| == 0;
    } else {
      var k := Uncons(a, b);
      LeavesPermuted(a[1..], Without(b, k));
      LeavesWithout(b, k);
    }
  }

  lemma {:induction false} LeafMembers(accounts: seq<Account>, l: ClaimableLeaf)
    ensures l in Leaves(accounts) <==> exists a :: a in accounts && Claimable()(a) && LeafOf(a) == l
  {
    if accounts != [] {
      LeafMembers(accounts[1..], l);
      assert accounts == [accounts[0]] + accounts[1..];
    }
  }

  /** Any order of a snapshot with one account per pubkey gives the same tree, root, count and
      treasury. */
  lemma GenesisIgnoresOrder<H>(hs: Hasher<H>, a: seq<Account>, b: seq<Account>, t: Treasury, u: Treasury)
    requires multiset(a) == multiset(b)
    requires forall x, y :: x in a && y in a && x.pubkey == y.pubkey ==> x == y
    requires Holds(t, a) && Holds(u, b)
    ensures Built(hs, Leaves(a)) == Built(hs, Leaves(b)) && |Leaves(a)| == |Leaves(b)|
    ensures t.totalLamports == u.totalLamports && t.accountCount == u.accountCount
  {
    LeavesPermuted(a, b);
    assert |multiset(Leaves(a))| == |multiset(Leaves(b))|;
    forall l, m | l in Leaves(a) && m in Leaves(a) && l.pubkey == m.pubkey ensures l == m {
      LeafMembers(a, l);
      LeafMembers(a, m);
    }
    BuildIgnoresOrder(hs, Leaves(a), Leaves(b));
    FilterPermuted(a, b, NotClaimable());
    SumPermuted(Filter(a, NotClaimable()), Filter(b, NotClaimable()), Lamports());
    assert |multiset(Filter(a, NotClaimable()))| == |multiset(Filter(b, NotClaimable()))|;
  }

  // ---------- what the root admits ----------

  /** Some index and proof of a leaf verify against the genesis root exactly when the snapshot has
      a claimable account with that pubkey and balance. */
  lemma RootAdmitsClaimables(accounts: seq<Account>, leaf: ClaimableLeaf)
    ensures (exists i: nat, proof: seq<Digest> ::
               Climb(Free(), LeafDigest(leaf), i, proof) == Built(Free(), Leaves(accounts)).root)
       <==> exists a :: a in accounts && a.owner == 0 && a.dataLen == 0
                        && a.pubkey == leaf.pubkey && a.lamports == leaf.lamports
  {
    var leaves := Leaves(accounts);
    LeafMembers(accounts, leaf);
    ByPubkeyIsPreorder();
    SortByMembers(leaves, ByPubkey());
    if i: nat, proof: seq<Digest> :| Climb(Free(), LeafDigest(leaf), i, proof) == Built(Free(), leaves).root {
      VerifyAcceptsExactly(leaves, leaf, i, proof);
    }
    if leaf in leaves {
      assert leaf in SortLeaves(leaves);
      var n :| 0 <= n < |SortLeaves(leaves)| && SortLeaves(leaves)[n] == leaf;
      SortByLength(leaves);
      Completeness(Free(), leaves, n);
    }
  }
}
