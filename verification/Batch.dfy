/** One slot: grouping the intents by pair and clearing every group. */
module Batch {
  import opened Common
  import opened Sequences
  import opened Matcher
  import opened MatcherLaws

  type PairKey = (Pubkey, Pubkey)

  function KeyOf(i: SwapIntent, quotes: set<Pubkey>): PairKey {
    ClassifyPair(i.inMint, i.outMint, quotes)
  }

  function InGroup(key: PairKey, quotes: set<Pubkey>): SwapIntent -> bool {
    (i: SwapIntent) => KeyOf(i, quotes) == key
  }

  function Group(key: PairKey, intents: seq<SwapIntent>, quotes: set<Pubkey>): seq<SwapIntent> {
    Filter(intents, InGroup(key, quotes))
  }

  /** The order of a map keyed by (base, quote). */
  predicate Before(a: PairKey, b: PairKey) {
    a.0 < b.0 || (a.0 == b.0 && a.1 < b.1)
  }

  function ResultKey(r: ClearingResult): PairKey {
    (r.baseMint, r.quoteMint)
  }

  ghost predicate Present(k: PairKey, out: seq<ClearingResult>) {
    exists r :: r in out && ResultKey(r) == k
  }

  /** By strictly ascending (base, quote). */
  ghost predicate Ordered(out: seq<ClearingResult>) {
    forall i, j :: 0 <= i < j < |out| ==> Before(ResultKey(out[i]), ResultKey(out[j]))
  }

  /** The clearing of all the intents of one pair that occurs. */
  ghost predicate IsClearing(intents: seq<SwapIntent>, quotes: set<Pubkey>, amm: Amm, r: ClearingResult) {
    var g := Group(ResultKey(r), intents, quotes);
    g != [] && r == Cleared(r.baseMint, r.quoteMint, g, amm)
  }

  /** The output of a slot: one result for each pair that occurs, by ascending (base, quote), and
      each the clearing of exactly the intents of its pair. */
  ghost predicate IsBatch(intents: seq<SwapIntent>, quotes: set<Pubkey>, amm: Amm, out: seq<ClearingResult>) {
    && Ordered(out)
    && (forall i :: i in intents ==> Present(KeyOf(i, quotes), out))
    && (forall r :: r in out ==> IsClearing(intents, quotes, amm, r))
  }

  lemma {:induction false} LeastKey(keys: set<PairKey>) returns (least: PairKey)
    requires keys != {}
    ensures least in keys && forall k :: k in keys ==> !Before(k, least)
    decreases |keys|
  {
    least :| least in keys;
    var rest := keys - {least};
    assert keys == rest + {least};
    if rest != {} {
      var other := LeastKey(rest);
      if Before(other, least) {
        least := other;
      }
    }
  }

  ghost predicate IsGrouping(groups: map<PairKey, seq<SwapIntent>>, intents: seq<SwapIntent>, quotes: set<Pubkey>) {
    && (forall i :: i in intents ==> KeyOf(i, quotes) in groups)
    && (forall k :: k in groups ==> groups[k] == Group(k, intents, quotes) && groups[k] != [])
    && (forall k :: k !in groups ==> Group(k, intents, quotes) == [])
  }

  function AddTo(groups: map<PairKey, seq<SwapIntent>>, key: PairKey, i: SwapIntent): map<PairKey, seq<SwapIntent>> {
    groups[key := (if key in groups then groups[key] else []) + [i]]
  }

  lemma GroupingPush(groups: map<PairKey, seq<SwapIntent>>, intents: seq<SwapIntent>, i: SwapIntent, quotes: set<Pubkey>)
    requires IsGrouping(groups, intents, quotes)
    ensures IsGrouping(AddTo(groups, KeyOf(i, quotes), i), intents + [i], quotes)
  {
    var key, more := KeyOf(i, quotes), AddTo(groups, KeyOf(i, quotes), i);
    forall k
      ensures k in more ==> more[k] == Group(k, intents + [i], quotes) && more[k] != []
      ensures k !in more ==> Group(k, intents + [i], quotes) == []
    {
      FilterPush(intents, i, InGroup(k, quotes));
    }
  }

  method GroupIntents(intents: seq<SwapIntent>, quotes: set<Pubkey>)
    returns (groups: map<PairKey, seq<SwapIntent>>)
    ensures IsGrouping(groups, intents, quotes)
  {
    groups := map[];
    for n := 0 to |intents|
      invariant IsGrouping(groups, intents[..n], quotes)
    {
      GroupingPush(groups, intents[..n], intents[n], quotes);
      assert intents[..n + 1] == intents[..n] + [intents[n]];
      groups := AddTo(groups, KeyOf(intents[n], quotes), intents[n]);
    }
    assert intents[..|intents|] == intents;
  }

  lemma PresentPush(k: PairKey, out: seq<ClearingResult>, r: ClearingResult)
    requires Present(k, out) || ResultKey(r) == k
    ensures Present(k, out + [r])
  {
    if Present(k, out) {
      var q :| q in out && ResultKey(q) == k;
      assert q in out + [r];
    } else {
      assert r in out + [r];
    }
  }

  /** The results so far, when the groups of the keys in `left` are still to be cleared. */
  ghost predicate Underway(
    groups: map<PairKey, seq<SwapIntent>>, left: set<PairKey>, amm: Amm, out: seq<ClearingResult>)
  {
    && left <= groups.Keys
    && (forall r, k :: r in out && k in left ==> Before(ResultKey(r), k))
    && Ordered(out)
    && (forall k :: k in groups && k !in left ==> Present(k, out))
    && (forall r :: r in out ==> IsClearingOf(groups, amm, r))
  }

  ghost predicate IsClearingOf(groups: map<PairKey, seq<SwapIntent>>, amm: Amm, r: ClearingResult) {
    ResultKey(r) in groups && r == Cleared(r.baseMint, r.quoteMint, groups[ResultKey(r)], amm)
  }

  lemma OrderedPush(out: seq<ClearingResult>, r: ClearingResult)
    requires Ordered(out) && forall q :: q in out ==> Before(ResultKey(q), ResultKey(r))
    ensures Ordered(out + [r])
  {
  }

  lemma UnderwayPush(
    groups: map<PairKey, seq<SwapIntent>>, left: set<PairKey>, amm: Amm, out: seq<ClearingResult>,
    key: PairKey, r: ClearingResult)
    requires Underway(groups, left, amm, out)
    requires key in left && forall k :: k in left ==> !Before(k, key)
    requires ResultKey(r) == key && IsClearingOf(groups, amm, r)
    ensures Underway(groups, left - {key}, amm, out + [r])
  {
    OrderedPush(out, r);
    forall k | k in groups && k !in left - {key} ensures Present(k, out + [r]) {
      PresentPush(k, out, r);
    }
    forall q | q in out + [r]
      ensures IsClearingOf(groups, amm, q) && (q in out || q == r)
    {
    }
    forall k | k in left - {key} ensures Before(key, k) {
      assert !Before(k, key);
    }
  }

  lemma AllCleared(
    groups: map<PairKey, seq<SwapIntent>>, intents: seq<SwapIntent>, quotes: set<Pubkey>, amm: Amm,
    out: seq<ClearingResult>)
    requires IsGrouping(groups, intents, quotes) && Underway(groups, {}, amm, out)
    ensures IsBatch(intents, quotes, amm, out)
  {
    forall r | r in out ensures IsClearing(intents, quotes, amm, r) {
      assert IsClearingOf(groups, amm, r);
    }
  }

  method BatchMatch(intents: seq<SwapIntent>, quotes: set<Pubkey>, amm: Amm) returns (out: seq<ClearingResult>)
    ensures IsBatch(intents, quotes, amm, out)
  {
    var groups := GroupIntents(intents, quotes);
    out := [];
    var left := groups.Keys;
    while left != {}
      invariant Underway(groups, left, amm, out)
      decreases |left|
    {
      ghost var least := LeastKey(left);
      var key :| key in left && forall k :: k in left ==> !Before(k, key);
      var result := ClearPair(key.0, key.1, groups[key], amm);
      assert IsClearingOf(groups, amm, result.value);
      UnderwayPush(groups, left, amm, out, key, result.value);
      out := out + [result.value];
      left := left - {key};
    }
    AllCleared(groups, intents, quotes, amm, out);
  }

  // ---------- no intent is lost, and both directions meet ----------

  lemma Grouped(key: PairKey, intents: seq<SwapIntent>, quotes: set<Pubkey>)
    ensures forall i :: i in Group(key, intents, quotes) ==>
              IsBuy(key.0, key.1)(i) || IsSell(key.0, key.1)(i)
  {
    FilterMembers(intents, InGroup(key, quotes));
  }

  /** The same mint pair, traded in either direction. */
  predicate SamePair(i: SwapIntent, j: SwapIntent) {
    || (j.inMint == i.inMint && j.outMint == i.outMint)
    || (j.inMint == i.outMint && j.outMint == i.inMint)
  }

  /** Every intent is cleared in exactly one result, as a buy or a sell of it, and so is every
      intent for the opposite direction of the same pair. */
  lemma OneResultEach(intents: seq<SwapIntent>, quotes: set<Pubkey>, amm: Amm, out: seq<ClearingResult>, i: SwapIntent)
    returns (n: nat)
    requires IsBatch(intents, quotes, amm, out) && i in intents
    ensures n < |out| && ResultKey(out[n]) == KeyOf(i, quotes)
    ensures IsBuy(out[n].baseMint, out[n].quoteMint)(i) || IsSell(out[n].baseMint, out[n].quoteMint)(i)
    ensures forall j, m :: j in intents && SamePair(i, j) && 0 <= m < |out| ==>
              (j in Group(ResultKey(out[m]), intents, quotes) <==> m == n)
  {
    assert Present(KeyOf(i, quotes), out);
    var r :| r in out && ResultKey(r) == KeyOf(i, quotes);
    n :| 0 <= n < |out| && out[n] == r;
    forall j, m | j in intents && SamePair(i, j) && 0 <= m < |out|
      ensures j in Group(ResultKey(out[m]), intents, quotes) <==> m == n
    {
      SamePairSameKey(i, j, quotes);
      FilterMembers(intents, InGroup(ResultKey(out[m]), quotes));
      assert m < n ==> Before(ResultKey(out[m]), ResultKey(out[n]));
      assert n < m ==> Before(ResultKey(out[n]), ResultKey(out[m]));
    }
  }

  lemma SamePairSameKey(i: SwapIntent, j: SwapIntent, quotes: set<Pubkey>)
    ensures SamePair(i, j) ==> KeyOf(i, quotes) == KeyOf(j, quotes)
    ensures IsBuy(KeyOf(i, quotes).0, KeyOf(i, quotes).1)(i) || IsSell(KeyOf(i, quotes).0, KeyOf(i, quotes).1)(i)
  {
  }

  // ---------- conservation over the slot ----------

  /** What a result takes from, or returns to, the chosen accounts. */
  ghost function Settled(f: Accounts): ClearingResult -> nat {
    (r: ClearingResult) => Sum(r.matches, Paid(f, r.baseMint, r.quoteMint)) + Sum(r.residual, Input(f))
  }

  function InGroups(out: seq<ClearingResult>, quotes: set<Pubkey>): SwapIntent -> bool {
    (i: SwapIntent) => exists n :: 0 <= n < |out| && ResultKey(out[n]) == KeyOf(i, quotes)
  }

  lemma ResultConserves(intents: seq<SwapIntent>, quotes: set<Pubkey>, amm: Amm, r: ClearingResult, f: Accounts)
    requires IsClearing(intents, quotes, amm, r)
    ensures Settled(f)(r) == Sum(Filter(intents, InGroup(ResultKey(r), quotes)), Input(f))
  {
    var key := ResultKey(r);
    Grouped(key, intents, quotes);
    ClearedConserves(key.0, key.1, Group(key, intents, quotes), amm, f);
  }

  lemma {:induction false} GroupsConserve(
    intents: seq<SwapIntent>, quotes: set<Pubkey>, amm: Amm, out: seq<ClearingResult>, f: Accounts)
    requires Ordered(out)
    requires forall r :: r in out ==> IsClearing(intents, quotes, amm, r)
    ensures Sum(out, Settled(f)) == Sum(Filter(intents, InGroups(out, quotes)), Input(f))
  {
    if out == [] {
      FilterNone(intents, InGroups(out, quotes));
    } else {
      var key, rest := ResultKey(out[0]), out[1..];
      GroupsConserve(intents, quotes, amm, rest, f);
      ResultConserves(intents, quotes, amm, out[0], f);
      forall i | i in intents
        ensures InGroups(out, quotes)(i) == (InGroup(key, quotes)(i) || InGroups(rest, quotes)(i))
        ensures !(InGroup(key, quotes)(i) && InGroups(rest, quotes)(i))
      {
        InGroupsStep(out, quotes, i);
      }
      SumUnion(intents, InGroup(key, quotes), InGroups(rest, quotes), InGroups(out, quotes), Input(f));
    }
  }

  lemma InGroupsStep(out: seq<ClearingResult>, quotes: set<Pubkey>, i: SwapIntent)
    requires out != []
    requires Ordered(out)
    ensures InGroups(out, quotes)(i) == (InGroup(ResultKey(out[0]), quotes)(i) || InGroups(out[1..], quotes)(i))
    ensures !(InGroup(ResultKey(out[0]), quotes)(i) && InGroups(out[1..], quotes)(i))
  {
    if InGroups(out[1..], quotes)(i) {
      var n :| 0 <= n < |out[1..]| && ResultKey(out[1..][n]) == KeyOf(i, quotes);
      assert out[n + 1] == out[1..][n];
    }
    if InGroups(out, quotes)(i) {
      var n :| 0 <= n < |out| && ResultKey(out[n]) == KeyOf(i, quotes);
      assert n > 0 ==> out[1..][n - 1] == out[n];
    }
  }

  /** Over the whole slot and for any choice of accounts, matches and residuals together account
      for exactly the amounts the intents put in. */
  lemma BatchConserves(
    intents: seq<SwapIntent>, quotes: set<Pubkey>, amm: Amm, out: seq<ClearingResult>, f: Accounts)
    requires IsBatch(intents, quotes, amm, out)
    ensures Sum(out, Settled(f)) == Sum(intents, Input(f))
  {
    GroupsConserve(intents, quotes, amm, out, f);
    forall i | i in intents ensures InGroups(out, quotes)(i) {
      var r :| r in out && ResultKey(r) == KeyOf(i, quotes);
      var n :| 0 <= n < |out| && out[n] == r;
    }
    FilterAll(intents, InGroups(out, quotes));
  }

  // ---------- which mint is the base ----------

  /** Of the two mints of a result, the only registered quote is the quote; where both or neither are
      registered, the smaller mint is the base. Results come by ascending base, then ascending quote. */
  lemma PairsOriented(intents: seq<SwapIntent>, quotes: set<Pubkey>, amm: Amm, out: seq<ClearingResult>)
    requires IsBatch(intents, quotes, amm, out)
    ensures forall r :: r in out ==>
      if (r.baseMint in quotes) != (r.quoteMint in quotes) then r.quoteMint in quotes
      else r.baseMint <= r.quoteMint
    ensures forall m, n :: 0 <= m < n < |out| ==>
      out[m].baseMint < out[n].baseMint
      || (out[m].baseMint == out[n].baseMint && out[m].quoteMint < out[n].quoteMint)
  {
    forall r | r in out
      ensures if (r.baseMint in quotes) != (r.quoteMint in quotes) then r.quoteMint in quotes
              else r.baseMint <= r.quoteMint
    {
      var g := Group(ResultKey(r), intents, quotes);
      assert IsClearing(intents, quotes, amm, r);
      FilterMembers(intents, InGroup(ResultKey(r), quotes));
      assert g[0] in g;
      KeyOriented(g[0], quotes);
    }
    forall m, n | 0 <= m < n < |out|
      ensures out[m].baseMint < out[n].baseMint
           || (out[m].baseMint == out[n].baseMint && out[m].quoteMint < out[n].quoteMint)
    {
      assert Before(ResultKey(out[m]), ResultKey(out[n]));
    }
  }

  lemma KeyOriented(i: SwapIntent, quotes: set<Pubkey>)
    ensures var key := KeyOf(i, quotes);
      if (key.0 in quotes) != (key.1 in quotes) then key.1 in quotes else key.0 <= key.1
  {
  }
}
