/** Replaying a slot: when every order of arrival gives the same results. */
module SlotReplay {
  import opened Common
  import opened Sequences
  import opened Matcher
  import opened Replay
  import opened Batch

  lemma NoneMissing(a: seq<PairKey>, b: seq<PairKey>)
    requires forall k :: k in a <==> k in b
    ensures b != [] ==> a != []
  {
    if b != [] {
      assert b[0] in a;
    }
  }

  lemma {:induction false} AscendingUnique(a: seq<PairKey>, b: seq<PairKey>)
    requires forall i, j :: 0 <= i < j < |a| ==> Before(a[i], a[j])
    requires forall i, j :: 0 <= i < j < |b| ==> Before(b[i], b[j])
    requires forall k :: k in a <==> k in b
    ensures a == b
  {
    NoneMissing(a, b);
    NoneMissing(b, a);
    if a != [] {
      assert a[0] in b && b[0] in a;
      assert a[0] == b[0];
      forall k ensures k in a[1..] <==> k in b[1..] {
        if k in a[1..] { assert k in a && k in b; }
        if k in b[1..] { assert k in b && k in a; }
      }
      AscendingUnique(a[1..], b[1..]);
    }
  }

  function Keys(out: seq<ClearingResult>): (r: seq<PairKey>)
    ensures |r| == |out| && forall n :: 0 <= n < |out| ==> r[n] == ResultKey(out[n])
  {
    seq(|out|, n requires 0 <= n < |out| => ResultKey(out[n]))
  }

  ghost predicate Occurs(k: PairKey, intents: seq<SwapIntent>, quotes: set<Pubkey>) {
    exists i :: i in intents && KeyOf(i, quotes) == k
  }

  lemma KeysOfBatch(intents: seq<SwapIntent>, quotes: set<Pubkey>, amm: Amm, out: seq<ClearingResult>, k: PairKey)
    requires IsBatch(intents, quotes, amm, out)
    ensures k in Keys(out) <==> Occurs(k, intents, quotes)
  {
    if k in Keys(out) {
      var n :| 0 <= n < |Keys(out)| && Keys(out)[n] == k;
      assert out[n] in out;
      FilterMembers(intents, InGroup(k, quotes));
      assert Group(k, intents, quotes)[0] in Group(k, intents, quotes);
    }
    if Occurs(k, intents, quotes) {
      var r :| r in out && ResultKey(r) == k;
      var n :| 0 <= n < |out| && out[n] == r;
      assert Keys(out)[n] == k;
    }
  }

  lemma OccursPermuted(k: PairKey, a: seq<SwapIntent>, b: seq<SwapIntent>, quotes: set<Pubkey>)
    requires multiset(a) == multiset(b) && Occurs(k, a, quotes)
    ensures Occurs(k, b, quotes)
  {
    var i :| i in a && KeyOf(i, quotes) == k;
    assert i in multiset(b);
  }

  lemma BatchKeysAgree(
    a: seq<SwapIntent>, b: seq<SwapIntent>, quotes: set<Pubkey>, amm: Amm,
    outA: seq<ClearingResult>, outB: seq<ClearingResult>)
    requires multiset(a) == multiset(b)
    requires IsBatch(a, quotes, amm, outA) && IsBatch(b, quotes, amm, outB)
    ensures |outA| == |outB| && forall n :: 0 <= n < |outA| ==> ResultKey(outA[n]) == ResultKey(outB[n])
  {
    assert Keys(outA) == Keys(outB) by {
      forall k ensures k in Keys(outA) <==> k in Keys(outB) {
        KeysOfBatch(a, quotes, amm, outA, k);
        KeysOfBatch(b, quotes, amm, outB, k);
        if Occurs(k, a, quotes) { OccursPermuted(k, a, b, quotes); }
        if Occurs(k, b, quotes) { OccursPermuted(k, b, a, quotes); }
      }
      AscendingUnique(Keys(outA), Keys(outB));
    }
    assert forall n :: 0 <= n < |outA| ==> Keys(outA)[n] == Keys(outB)[n];
  }

  /** Validators that replay the same intents in any order agree on the pairs, their order, the
      clearing prices, the matches, and the residuals up to `min_out` and `nonce`; and on every
      byte when no two different intents of one direction share amount and signer. */
  lemma BatchReplay(
    a: seq<SwapIntent>, b: seq<SwapIntent>, quotes: set<Pubkey>, amm: Amm,
    outA: seq<ClearingResult>, outB: seq<ClearingResult>)
    requires multiset(a) == multiset(b)
    requires IsBatch(a, quotes, amm, outA) && IsBatch(b, quotes, amm, outB)
    ensures |outA| == |outB|
    ensures forall n :: 0 <= n < |outA| ==> EraseResult(outA[n]) == EraseResult(outB[n])
    ensures DistinctKeys(a) ==> outA == outB
  {
    BatchKeysAgree(a, b, quotes, amm, outA, outB);
    forall n | 0 <= n < |outA|
      ensures EraseResult(outA[n]) == EraseResult(outB[n])
      ensures DistinctKeys(a) ==> outA[n] == outB[n]
    {
      var key := ResultKey(outA[n]);
      assert outA[n] in outA && outB[n] in outB;
      var ga, gb := Group(key, a, quotes), Group(key, b, quotes);
      FilterPermuted(a, b, InGroup(key, quotes));
      ReplayUpToTies(key.0, key.1, ga, gb, amm);
      if DistinctKeys(a) {
        FilterMembers(a, InGroup(key, quotes));
        DistinctKeysReplay(key.0, key.1, ga, gb, amm);
      }
    }
  }

  /** The output of a slot is determined by its intents. */
  lemma BatchUnique(
    a: seq<SwapIntent>, quotes: set<Pubkey>, amm: Amm, outA: seq<ClearingResult>, outB: seq<ClearingResult>)
    requires IsBatch(a, quotes, amm, outA) && IsBatch(a, quotes, amm, outB)
    ensures outA == outB
  {
    BatchKeysAgree(a, a, quotes, amm, outA, outB);
    forall n | 0 <= n < |outA| ensures outA[n] == outB[n] {
      assert outA[n] in outA && outB[n] in outB;
    }
  }

  // ---------- exactly when a replay is identical ----------

  /** In every group of the slot, no intent handed back whole ties with a different one. */
  ghost predicate SlotTieFree(intents: seq<SwapIntent>, quotes: set<Pubkey>, amm: Amm) {
    forall k: PairKey :: Occurs(k, intents, quotes) ==>
      ResidualTieFree(k.0, k.1, Group(k, intents, quotes), amm)
  }

  /** Any output of any order of the slot is `out`. */
  ghost predicate ReplaysAs(
    intents: seq<SwapIntent>, quotes: set<Pubkey>, amm: Amm, out: seq<ClearingResult>)
  {
    forall b: seq<SwapIntent>, other: seq<ClearingResult> ::
      multiset(b) == multiset(intents) && IsBatch(b, quotes, amm, other) ==> other == out
  }

  lemma TieFreeSlotReplays(
    a: seq<SwapIntent>, b: seq<SwapIntent>, quotes: set<Pubkey>, amm: Amm,
    outA: seq<ClearingResult>, outB: seq<ClearingResult>)
    requires multiset(a) == multiset(b) && SlotTieFree(a, quotes, amm)
    requires IsBatch(a, quotes, amm, outA) && IsBatch(b, quotes, amm, outB)
    ensures outA == outB
  {
    BatchKeysAgree(a, b, quotes, amm, outA, outB);
    forall n | 0 <= n < |outA| ensures outA[n] == outB[n] {
      var key := ResultKey(outA[n]);
      assert outA[n] in outA && outB[n] in outB;
      KeysOfBatch(a, quotes, amm, outA, key);
      assert Keys(outA)[n] == key;
      FilterPermuted(a, b, InGroup(key, quotes));
      TieFreeReplay(key.0, key.1, Group(key, a, quotes), Group(key, b, quotes), amm);
    }
  }

  /** The slot with one group arriving first, in another order. */
  function Regrouped(a: seq<SwapIntent>, key: PairKey, g: seq<SwapIntent>, quotes: set<Pubkey>): seq<SwapIntent> {
    g + Filter(a, OutOfGroup(key, quotes))
  }

  function OutOfGroup(key: PairKey, quotes: set<Pubkey>): SwapIntent -> bool {
    (i: SwapIntent) => KeyOf(i, quotes) != key
  }

  lemma {:induction false} FilterTwice<T>(s: seq<T>, p: T -> bool, q: T -> bool)
    requires forall x :: x in s && q(x) ==> p(x)
    ensures Filter(Filter(s, p), q) == Filter(s, q)
  {
    if s != [] {
      FilterTwice(s[1..], p, q);
      FilterAppend(if p(s[0]) then [s[0]] else [], Filter(s[1..], p), q);
    }
  }

  lemma {:induction false} SplitMembers<T>(s: seq<T>, p: T -> bool, q: T -> bool)
    requires forall x :: x in s ==> p(x) != q(x)
    ensures multiset(s) == multiset(Filter(s, p)) + multiset(Filter(s, q))
  {
    if s != [] {
      SplitMembers(s[1..], p, q);
      assert s == [s[0]] + s[1..];
    }
  }

  lemma StillInGroup(a: seq<SwapIntent>, key: PairKey, g: seq<SwapIntent>, quotes: set<Pubkey>)
    requires multiset(g) == multiset(Group(key, a, quotes))
    ensures forall i :: i in g ==> KeyOf(i, quotes) == key
  {
    FilterMembers(a, InGroup(key, quotes));
    forall i | i in g ensures KeyOf(i, quotes) == key {
      assert i in multiset(g) && i in multiset(Group(key, a, quotes));
      assert i in Group(key, a, quotes);
    }
  }

  lemma RegroupedGroups(a: seq<SwapIntent>, key: PairKey, g: seq<SwapIntent>, quotes: set<Pubkey>, k: PairKey)
    requires multiset(g) == multiset(Group(key, a, quotes))
    ensures Group(k, Regrouped(a, key, g, quotes), quotes) == if k == key then g else Group(k, a, quotes)
  {
    var rest := Filter(a, OutOfGroup(key, quotes));
    FilterMembers(a, OutOfGroup(key, quotes));
    StillInGroup(a, key, g, quotes);
    FilterAppend(g, rest, InGroup(k, quotes));
    if k == key {
      FilterAll(g, InGroup(k, quotes));
      FilterNone(rest, InGroup(k, quotes));
    } else {
      FilterNone(g, InGroup(k, quotes));
      FilterTwice(a, OutOfGroup(key, quotes), InGroup(k, quotes));
    }
  }

  lemma RegroupedPermutes(a: seq<SwapIntent>, key: PairKey, g: seq<SwapIntent>, quotes: set<Pubkey>)
    requires multiset(g) == multiset(Group(key, a, quotes))
    ensures multiset(Regrouped(a, key, g, quotes)) == multiset(a)
  {
    SplitMembers(a, InGroup(key, quotes), OutOfGroup(key, quotes));
  }

  lemma RegroupedPresent(
    a: seq<SwapIntent>, quotes: set<Pubkey>, amm: Amm, out: seq<ClearingResult>, other: seq<ClearingResult>, i: SwapIntent)
    requires IsBatch(a, quotes, amm, out) && i in a
    requires |other| == |out| && forall m :: 0 <= m < |out| ==> ResultKey(other[m]) == ResultKey(out[m])
    ensures Present(KeyOf(i, quotes), other)
  {
    assert Present(KeyOf(i, quotes), out);
    var r :| r in out && ResultKey(r) == KeyOf(i, quotes);
    var m :| 0 <= m < |out| && out[m] == r;
    assert other[m] in other;
  }

  lemma RegroupedResult(
    a: seq<SwapIntent>, quotes: set<Pubkey>, amm: Amm, out: seq<ClearingResult>, n: nat, g: seq<SwapIntent>, m: nat)
    requires IsBatch(a, quotes, amm, out) && n < |out| && m < |out|
    requires multiset(g) == multiset(Group(ResultKey(out[n]), a, quotes))
    ensures var key := ResultKey(out[n]);
      var r := out[n := Cleared(key.0, key.1, g, amm)][m];
      ResultKey(r) == ResultKey(out[m]) && IsClearing(Regrouped(a, key, g, quotes), quotes, amm, r)
  {
    var key := ResultKey(out[n]);
    assert out[m] in out && out[n] in out;
    RegroupedGroups(a, key, g, quotes, ResultKey(out[m]));
    if m == n {
      assert |multiset(g)| == |multiset(Group(key, a, quotes))|;
    } else {
      assert m < n ==> Before(ResultKey(out[m]), ResultKey(out[n]));
      assert n < m ==> Before(ResultKey(out[n]), ResultKey(out[m]));
    }
  }

  /** The output of the regrouped slot differs from the slot's in one result only. */
  lemma RegroupedBatch(
    a: seq<SwapIntent>, quotes: set<Pubkey>, amm: Amm, out: seq<ClearingResult>, n: nat, g: seq<SwapIntent>)
    requires IsBatch(a, quotes, amm, out) && n < |out|
    requires multiset(g) == multiset(Group(ResultKey(out[n]), a, quotes))
    ensures var key := ResultKey(out[n]);
      IsBatch(Regrouped(a, key, g, quotes), quotes, amm, out[n := Cleared(key.0, key.1, g, amm)])
  {
    var key := ResultKey(out[n]);
    var b, other := Regrouped(a, key, g, quotes), out[n := Cleared(key.0, key.1, g, amm)];
    RegroupedPermutes(a, key, g, quotes);
    forall m | 0 <= m < |other|
      ensures ResultKey(other[m]) == ResultKey(out[m]) && IsClearing(b, quotes, amm, other[m])
    {
      RegroupedResult(a, quotes, amm, out, n, g, m);
    }
    forall i | i in b ensures Present(KeyOf(i, quotes), other) {
      assert i in multiset(b) && i in multiset(a);
      RegroupedPresent(a, quotes, amm, out, other, i);
    }
  }

  /** A tie with a whole intent in any group lets some other order of the slot be told apart. */
  lemma SlotTiesShow(a: seq<SwapIntent>, quotes: set<Pubkey>, amm: Amm, out: seq<ClearingResult>)
    returns (b: seq<SwapIntent>, other: seq<ClearingResult>)
    requires IsBatch(a, quotes, amm, out) && !SlotTieFree(a, quotes, amm)
    ensures multiset(b) == multiset(a) && IsBatch(b, quotes, amm, other) && other != out
  {
    var key: PairKey :| Occurs(key, a, quotes) && !ResidualTieFree(key.0, key.1, Group(key, a, quotes), amm);
    KeysOfBatch(a, quotes, amm, out, key);
    var n :| 0 <= n < |Keys(out)| && Keys(out)[n] == key;
    Grouped(key, a, quotes);
    var g := TiesShow(key.0, key.1, Group(key, a, quotes), amm);
    b, other := Regrouped(a, key, g, quotes), out[n := Cleared(key.0, key.1, g, amm)];
    RegroupedPermutes(a, key, g, quotes);
    RegroupedBatch(a, quotes, amm, out, n, g);
    assert out[n] in out && other[n] != out[n];
  }

  /** The promise that every replay of a slot gives the same bytes holds exactly when, in every group,
      no intent handed back whole ties with a different one on direction, amount and signer. */
  lemma SlotReplaysIff(a: seq<SwapIntent>, quotes: set<Pubkey>, amm: Amm, out: seq<ClearingResult>)
    requires IsBatch(a, quotes, amm, out)
    ensures ReplaysAs(a, quotes, amm, out) <==> SlotTieFree(a, quotes, amm)
  {
    if SlotTieFree(a, quotes, amm) {
      forall b: seq<SwapIntent>, other: seq<ClearingResult> |
        multiset(b) == multiset(a) && IsBatch(b, quotes, amm, other)
        ensures other == out
      {
        TieFreeSlotReplays(a, b, quotes, amm, out, other);
      }
    } else {
      var b, other := SlotTiesShow(a, quotes, amm, out);
    }
  }

  // ---------- tied intents, and a condition on the intents alone ----------

  /** Different intents that the sort cannot tell apart. */
  ghost predicate Tied(x: SwapIntent, y: SwapIntent) {
    x != y && Erase(x) == Erase(y)
  }

  /** Of two tied intents alone in their group, the later arrival comes back whole and last. */
  lemma TiedPairResidual(base: Pubkey, quote: Pubkey, x: SwapIntent, y: SwapIntent, amm: Amm)
    requires Erase(x) == Erase(y) && (IsBuy(base, quote)(x) || IsSell(base, quote)(x))
    ensures var r := Cleared(base, quote, [x, y], amm).residual;
      r != [] && r[|r| - 1] == y
  {
    assert BySize()(x, y);
    if IsBuy(base, quote)(x) {
      SortedArrival(base, quote, [x, y], []);
      assert [x, y] + [] == [x, y];
      BuysOnly(x, y, PairMarket(base, quote, [x, y], amm));
    } else {
      SortedArrival(base, quote, [], [x, y]);
      assert [] + [x, y] == [x, y];
      assert FinalBook(base, quote, [x, y], amm) == Opening([], [x, y]);
    }
  }

  lemma BuysOnly(x: SwapIntent, y: SwapIntent, mk: Market)
    ensures var b := Run(Opening([x, y], []), mk);
      b.Owned() && b.buys == [y] && b.sells == [] && b.sellRem == 0
  {
    var c := TakeBuy(Opening([x, y], []));
    assert c.buys == [x, y][1..] == [y];
  }

  /** The output of a slot whose intents are all of one pair. */
  lemma OneGroupBatch(a: seq<SwapIntent>, key: PairKey, quotes: set<Pubkey>, amm: Amm)
    requires a != [] && forall i :: i in a ==> KeyOf(i, quotes) == key
    ensures IsBatch(a, quotes, amm, [Cleared(key.0, key.1, a, amm)])
  {
    var r := Cleared(key.0, key.1, a, amm);
    FilterAll(a, InGroup(key, quotes));
    assert r in [r] && ResultKey(r) == key;
  }

  /** The intent that the first result returns last. */
  function Latest(out: seq<ClearingResult>): SwapIntent
    requires out != [] && out[0].residual != []
  {
    out[0].residual[|out[0].residual| - 1]
  }

  /** For any venue, any two different intents of one direction with equal amount and signer make a
      slot whose two orders of arrival give different results, against the documented promise. */
  lemma ReplayCanDiffer(x: SwapIntent, y: SwapIntent, quotes: set<Pubkey>, amm: Amm)
    returns (outX: seq<ClearingResult>, outY: seq<ClearingResult>)
    requires Tied(x, y)
    ensures multiset([x, y]) == multiset([y, x])
    ensures IsBatch([x, y], quotes, amm, outX) && IsBatch([y, x], quotes, amm, outY)
    ensures outX != outY
  {
    assert multiset([x, y]) == multiset{x, y} == multiset([y, x]);
    var key := KeyOf(x, quotes);
    SamePairSameKey(x, y, quotes);
    outX := TiedPairBatch(x, y, key, quotes, amm);
    outY := TiedPairBatch(y, x, key, quotes, amm);
    assert Latest(outX) == y && Latest(outY) == x;
  }

  lemma TiedPairBatch(x: SwapIntent, y: SwapIntent, key: PairKey, quotes: set<Pubkey>, amm: Amm)
    returns (out: seq<ClearingResult>)
    requires Erase(x) == Erase(y) && KeyOf(x, quotes) == key && KeyOf(y, quotes) == key
    ensures IsBatch([x, y], quotes, amm, out)
    ensures out != [] && out[0].residual != [] && Latest(out) == y
  {
    out := [Cleared(key.0, key.1, [x, y], amm)];
    OneGroupBatch([x, y], key, quotes, amm);
    SamePairSameKey(x, x, quotes);
    TiedPairResidual(key.0, key.1, x, y, amm);
  }

  /** Every slot made of some of these intents gives one result in all its orders. */
  ghost predicate EverySubslotReplays(a: seq<SwapIntent>, quotes: set<Pubkey>, amm: Amm) {
    forall s: seq<SwapIntent>, out: seq<ClearingResult> ::
      multiset(s) <= multiset(a) && IsBatch(s, quotes, amm, out) ==> ReplaysAs(s, quotes, amm, out)
  }

  lemma DistinctSubslot(a: seq<SwapIntent>, s: seq<SwapIntent>)
    requires DistinctKeys(a) && multiset(s) <= multiset(a)
    ensures DistinctKeys(s)
  {
    forall i | i in s ensures i in a {
      assert i in multiset(s) && i in multiset(a);
    }
  }

  /** Whatever the venue, every slot made of some of these intents replays to one result exactly when
      no two different ones tie; so this check, on the intents alone, is tight. */
  lemma DistinctKeysIff(a: seq<SwapIntent>, quotes: set<Pubkey>, amm: Amm)
    ensures DistinctKeys(a) <==> EverySubslotReplays(a, quotes, amm)
  {
    if DistinctKeys(a) {
      forall s: seq<SwapIntent>, out: seq<ClearingResult>, b: seq<SwapIntent>, other: seq<ClearingResult> |
        multiset(s) <= multiset(a) && IsBatch(s, quotes, amm, out)
        && multiset(b) == multiset(s) && IsBatch(b, quotes, amm, other)
        ensures other == out
      {
        DistinctSubslot(a, s);
        BatchReplay(s, b, quotes, amm, out, other);
      }
    } else {
      var x, y :| x in a && y in a && Tied(x, y);
      var outX, outY := ReplayCanDiffer(x, y, quotes, amm);
      assert x in multiset(a) && y in multiset(a);
      assert multiset([x, y]) <= multiset(a);
      assert !ReplaysAs([x, y], quotes, amm, outX);
    }
  }
}
