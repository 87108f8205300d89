/** In which order the two sides of a group are filled, intent by intent. */
module FillOrder {
  import opened Common
  import opened Sequences
  import opened Matcher
  import opened MatcherLaws

  /** For each match, the positions of its buy and its sell in the sorted sides; for each leftover
      buy, the position of the buy it is left from. */
  datatype Trace = Trace(served: seq<nat>, sold: seq<nat>, shelved: seq<nat>)

  /** Items that belong, in order, to the first n intents of a side: item t to the intent at pos[t]. */
  ghost predicate Follows<T>(items: seq<T>, pos: seq<nat>, side: seq<SwapIntent>, n: nat, owner: T -> Pubkey) {
    && |pos| == |items| && n <= |side|
    && (forall t :: 0 <= t < |pos| ==> pos[t] < n && owner(items[t]) == side[pos[t]].signer)
    && (forall s, t :: 0 <= s < t < |pos| ==> pos[s] <= pos[t])
  }

  ghost predicate Ascending(pos: seq<nat>) {
    forall s, t :: 0 <= s < t < |pos| ==> pos[s] < pos[t]
  }

  function Buyer(): Match -> Pubkey {
    (m: Match) => m.buyer
  }

  function Seller(): Match -> Pubkey {
    (m: Match) => m.seller
  }

  function Signer(): SwapIntent -> Pubkey {
    (i: SwapIntent) => i.signer
  }

  /** The total weight of the items that belong to position j. */
  function Share<T>(items: seq<T>, pos: seq<nat>, j: nat, w: T -> nat): nat
    requires |pos| == |items|
  {
    if items == [] then 0
    else
      var last := |items| - 1;
      Share(items[..last], pos[..last], j, w) + (if pos[last] == j then w(items[last]) else 0)
  }

  lemma SharePush<T>(items: seq<T>, pos: seq<nat>, x: T, p: nat, j: nat, w: T -> nat)
    requires |pos| == |items|
    ensures Share(items + [x], pos + [p], j, w) == Share(items, pos, j, w) + (if p == j then w(x) else 0)
  {
    assert (items + [x])[..|items|] == items && (pos + [p])[..|items|] == pos;
  }

  lemma {:induction false} ShareNone<T>(items: seq<T>, pos: seq<nat>, j: nat, w: T -> nat)
    requires |pos| == |items| && forall t :: 0 <= t < |pos| ==> pos[t] != j
    ensures Share(items, pos, j, w) == 0
  {
    if items != [] {
      ShareNone(items[..|items| - 1], pos[..|items| - 1], j, w);
    }
  }

  lemma {:induction false} ShareAtLeast<T>(items: seq<T>, pos: seq<nat>, t: nat, w: T -> nat)
    requires |pos| == |items| && t < |items|
    ensures w(items[t]) <= Share(items, pos, pos[t], w)
  {
    if t < |items| - 1 {
      ShareAtLeast(items[..|items| - 1], pos[..|items| - 1], t, w);
    }
  }

  lemma FollowsPush<T>(
    items: seq<T>, pos: seq<nat>, side: seq<SwapIntent>, n: nat, owner: T -> Pubkey, x: T)
    requires 0 < n && Follows(items, pos, side, n, owner) && owner(x) == side[n - 1].signer
    ensures Follows(items + [x], pos + [n - 1], side, n, owner)
  {
  }

  // ---------- the sell side ----------

  /** Each sell taken so far is traded by its own matches but for the current remainder. */
  ghost predicate SellsTraced(b: Book, sells: seq<SwapIntent>, sold: seq<nat>) {
    && |b.sells| <= |sells|
    && var n := |sells| - |b.sells|;
       && Follows(b.matches, sold, sells, n, Seller())
       && forall j :: 0 <= j < n ==>
            Share(b.matches, sold, j, BaseOf()) + (if j == n - 1 then b.sellRem else 0) == sells[j].inAmount
  }

  lemma TakeSellTraced(b: Book, sells: seq<SwapIntent>, sold: seq<nat>)
    requires SellsTraced(b, sells, sold) && TakenInOrder(b.sells, b.sellRem, b.seller, sells)
    requires b.sellRem == 0 ==> b.sells != []
    ensures SellsTraced(TakeSell(b), sells, sold)
  {
    if b.sellRem == 0 {
      ShareNone(b.matches, sold, |sells| - |b.sells|, BaseOf());
    }
  }

  /** One more match, or none. */
  lemma CrossSellsTraced(b: Book, mk: Market, sells: seq<SwapIntent>, sold: seq<nat>) returns (sold': seq<nat>)
    requires SellsTraced(b, sells, sold) && TakenInOrder(b.sells, b.sellRem, b.seller, sells)
    requires b.buyer.Some? && b.seller.Some?
    ensures SellsTraced(Cross(b, mk), sells, sold')
  {
    CrossOutcome(b, mk);
    var m, n := Crossing(b, mk.price), |sells| - |b.sells|;
    sold' := sold;
    if m.baseAmount > 0 {
      sold' := sold + [n - 1];
      FollowsPush(b.matches, sold, sells, n, Seller(), m);
      forall j | 0 <= j < n
        ensures Share(b.matches + [m], sold', j, BaseOf())
             == Share(b.matches, sold, j, BaseOf()) + (if j == n - 1 then m.baseAmount else 0)
      {
        SharePush(b.matches, sold, m, n - 1, j, BaseOf());
      }
    }
  }

  // ---------- the buy side ----------

  /** Each buy taken so far is spent by its own matches and its own leftover, but for the current
      remainder, and nobody is served after a buyer whose leftover could still trade. */
  ghost predicate BuysTraced(b: Book, mk: Market, buys: seq<SwapIntent>, tr: Trace) {
    && |b.buys| <= |buys|
    && var n := |buys| - |b.buys|;
       && Follows(b.matches, tr.served, buys, n, Buyer())
       && Follows(b.residual, tr.shelved, buys, n, Signer()) && Ascending(tr.shelved)
       && (forall j :: 0 <= j < n ==>
             Share(b.matches, tr.served, j, QuoteOf()) + Share(b.residual, tr.shelved, j, Amount())
             + (if j == n - 1 then b.buyRem else 0) == buys[j].inAmount)
       && NoneServedAfter(b, mk, tr)
  }

  ghost predicate NoneServedAfter(b: Book, mk: Market, tr: Trace)
    requires |tr.shelved| == |b.residual|
  {
    forall t, u :: 0 <= t < |tr.shelved| && 0 <= u < |tr.served| && !Dust(b.residual[t].inAmount, mk.price) ==>
      tr.served[u] <= tr.shelved[t]
  }

  ghost predicate AllDust(b: Book, mk: Market) {
    forall i :: i in b.residual ==> Dust(i.inAmount, mk.price)
  }

  /** The n-th buy is being served: nothing is left over from it yet. */
  ghost predicate Serving(b: Book, buys: seq<SwapIntent>, tr: Trace) {
    var n := |buys| - |b.buys|;
    && 0 < n && b.buyer == Some(buys[n - 1].signer)
    && forall t :: 0 <= t < |tr.shelved| ==> tr.shelved[t] < n - 1
  }

  /** Between turns of the loop. */
  ghost predicate BuysResting(b: Book, mk: Market, buys: seq<SwapIntent>, tr: Trace) {
    && BuysTraced(b, mk, buys, tr)
    && (b.buyRem > 0 ==> Serving(b, buys, tr) && AllDust(b, mk))
  }

  lemma TakeBuyTraced(b: Book, mk: Market, buys: seq<SwapIntent>, tr: Trace)
    requires BuysResting(b, mk, buys, tr) && TakenInOrder(b.buys, b.buyRem, b.buyer, buys)
    requires b.buyRem == 0 ==> b.buys != []
    ensures BuysTraced(TakeBuy(b), mk, buys, tr) && Serving(TakeBuy(b), buys, tr)
  {
    if b.buyRem == 0 {
      var n := |buys| - |b.buys|;
      ShareNone(b.matches, tr.served, n, QuoteOf());
      ShareNone(b.residual, tr.shelved, n, Amount());
    }
  }

  lemma ShelveTraced(b: Book, mk: Market, buys: seq<SwapIntent>, tr: Trace) returns (tr': Trace)
    requires BuysTraced(b, mk, buys, tr) && Serving(b, buys, tr)
    ensures tr'.sold == tr.sold && BuysResting(ShelveBuyer(b, mk), mk, buys, tr')
  {
    var n := |buys| - |b.buys|;
    var left := Leftover(b.buyer.value, mk.quote, b.buyRem, mk.base);
    tr' := tr.(shelved := tr.shelved + [n - 1]);
    FollowsPush(b.residual, tr.shelved, buys, n, Signer(), left);
    forall j | 0 <= j < n
      ensures Share(b.residual + [left], tr'.shelved, j, Amount())
           == Share(b.residual, tr.shelved, j, Amount()) + (if j == n - 1 then b.buyRem else 0)
    {
      SharePush(b.residual, tr.shelved, left, n - 1, j, Amount());
    }
  }

  lemma CrossBuysTraced(b: Book, mk: Market, buys: seq<SwapIntent>, tr: Trace) returns (tr': Trace)
    requires BuysTraced(b, mk, buys, tr) && Serving(b, buys, tr)
    requires b.buyer.Some? && b.seller.Some?
    requires b.sellRem > 0 ==> AllDust(b, mk)
    ensures tr'.sold == tr.sold && BuysResting(Cross(b, mk), mk, buys, tr')
  {
    CrossOutcome(b, mk);
    var m, n := Crossing(b, mk.price), |buys| - |b.buys|;
    if m.baseAmount == 0 {
      tr' := ShelveTraced(b, mk, buys, tr);
    } else {
      tr' := MatchTraced(b, mk, buys, tr, m);
      assert Cross(b, mk) == AddMatch(b, m);
    }
  }

  function AddMatch(b: Book, m: Match): Book
    requires m.quoteAmount <= b.buyRem && m.baseAmount <= b.sellRem
  {
    b.(matches := b.matches + [m], buyRem := b.buyRem - m.quoteAmount, sellRem := b.sellRem - m.baseAmount)
  }

  lemma MatchTraced(b: Book, mk: Market, buys: seq<SwapIntent>, tr: Trace, m: Match) returns (tr': Trace)
    requires BuysTraced(b, mk, buys, tr) && Serving(b, buys, tr) && AllDust(b, mk)
    requires m.quoteAmount <= b.buyRem && m.baseAmount <= b.sellRem && Some(m.buyer) == b.buyer
    ensures tr'.sold == tr.sold && BuysResting(AddMatch(b, m), mk, buys, tr')
  {
    var n := |buys| - |b.buys|;
    tr' := tr.(served := tr.served + [n - 1]);
    FollowsPush(b.matches, tr.served, buys, n, Buyer(), m);
    forall j | 0 <= j < n
      ensures Share(b.matches + [m], tr'.served, j, QuoteOf())
           == Share(b.matches, tr.served, j, QuoteOf()) + (if j == n - 1 then m.quoteAmount else 0)
    {
      SharePush(b.matches, tr.served, m, n - 1, j, QuoteOf());
    }
    assert forall t :: 0 <= t < |b.residual| ==> b.residual[t] in b.residual;
  }

  // ---------- whole runs ----------

  ghost predicate Traced(b: Book, mk: Market, buys: seq<SwapIntent>, sells: seq<SwapIntent>, tr: Trace) {
    SellsTraced(b, sells, tr.sold) && BuysResting(b, mk, buys, tr)
  }

  /** A sell that is still positive keeps every leftover so far dust. */
  lemma SellTurnTraced(c: Book, mk: Market, buys: seq<SwapIntent>, sells: seq<SwapIntent>, sold: seq<nat>)
    requires Inv(c, mk, buys, sells) && Sorted(sells, BySize()) && SellsTraced(c, sells, sold)
    requires c.sellRem == 0 ==> c.sells != []
    ensures var d := TakeSell(c);
      && SellsTraced(d, sells, sold) && TakenInOrder(d.sells, d.sellRem, d.seller, sells)
      && d.seller.Some? && (d.sellRem > 0 ==> AllDust(d, mk))
  {
    TakeSellKeeps(c, mk, buys, sells);
    TakeSellTraced(c, sells, sold);
  }

  lemma SoldTurn(c: Book, mk: Market, buys: seq<SwapIntent>, sells: seq<SwapIntent>, sold: seq<nat>)
    returns (sold': seq<nat>)
    requires Inv(c, mk, buys, sells) && Sorted(sells, BySize()) && SellsTraced(c, sells, sold)
    requires c.buyer.Some? && (c.sellRem == 0 ==> c.sells != [])
    ensures SellsTraced(Cross(TakeSell(c), mk), sells, sold')
  {
    SellTurnTraced(c, mk, buys, sells, sold);
    sold' := CrossSellsTraced(TakeSell(c), mk, sells, sold);
  }

  /** Taking a sell does not touch the buy side, nor taking a buy the sell side. */
  lemma OtherSide(b: Book, mk: Market, buys: seq<SwapIntent>, sells: seq<SwapIntent>, tr: Trace)
    ensures b.sellRem != 0 || b.sells != [] ==>
      && (BuysTraced(b, mk, buys, tr) ==> BuysTraced(TakeSell(b), mk, buys, tr))
      && (Serving(b, buys, tr) ==> Serving(TakeSell(b), buys, tr))
    ensures b.buyRem != 0 || b.buys != [] ==>
      (SellsTraced(b, sells, tr.sold) ==> SellsTraced(TakeBuy(b), sells, tr.sold))
  {
  }

  lemma BoughtTurn(c: Book, mk: Market, buys: seq<SwapIntent>, sells: seq<SwapIntent>, tr: Trace)
    returns (tr': Trace)
    requires Inv(c, mk, buys, sells) && Sorted(sells, BySize()) && SellsTraced(c, sells, tr.sold)
    requires BuysTraced(c, mk, buys, tr) && Serving(c, buys, tr)
    requires c.sellRem == 0 ==> c.sells != []
    ensures BuysResting(Cross(TakeSell(c), mk), mk, buys, tr')
  {
    SellTurnTraced(c, mk, buys, sells, tr.sold);
    OtherSide(c, mk, buys, sells, tr);
    tr' := CrossBuysTraced(TakeSell(c), mk, buys, tr);
  }

  lemma CrossTraced(c: Book, mk: Market, buys: seq<SwapIntent>, sells: seq<SwapIntent>, tr: Trace)
    returns (tr': Trace)
    requires Inv(c, mk, buys, sells) && Sorted(sells, BySize()) && SellsTraced(c, sells, tr.sold)
    requires BuysTraced(c, mk, buys, tr) && Serving(c, buys, tr)
    requires c.sellRem == 0 ==> c.sells != []
    ensures Traced(Cross(TakeSell(c), mk), mk, buys, sells, tr')
  {
    var bought := BoughtTurn(c, mk, buys, sells, tr);
    var sold := SoldTurn(c, mk, buys, sells, tr.sold);
    tr' := WithSold(Cross(TakeSell(c), mk), mk, buys, sells, bought, sold);
  }

  /** The sell positions are traced independently of the buy positions. */
  lemma WithSold(b: Book, mk: Market, buys: seq<SwapIntent>, sells: seq<SwapIntent>, bought: Trace, sold: seq<nat>)
    returns (tr: Trace)
    requires BuysResting(b, mk, buys, bought) && SellsTraced(b, sells, sold)
    ensures Traced(b, mk, buys, sells, tr)
  {
    tr := bought.(sold := sold);
  }

  lemma {:induction false} StepTraced(b: Book, mk: Market, buys: seq<SwapIntent>, sells: seq<SwapIntent>, tr: Trace)
    returns (tr': Trace)
    requires Inv(b, mk, buys, sells) && Sorted(sells, BySize()) && Traced(b, mk, buys, sells, tr)
    ensures Traced(Step(b, mk).book, mk, buys, sells, tr')
  {
    tr' := tr;
    if b.buyRem != 0 || b.buys != [] {
      TakeBuyTraced(b, mk, buys, tr);
      TakeBuyKeeps(b, mk, buys, sells);
      var c := TakeBuy(b);
      OtherSide(b, mk, buys, sells, tr);
      if c.sellRem != 0 || c.sells != [] {
        tr' := CrossTraced(c, mk, buys, sells, tr);
      } else if c.buyRem > 0 {
        tr' := ShelveTraced(c, mk, buys, tr);
      }
    }
  }

  lemma {:induction false} RunTraced(b: Book, mk: Market, buys: seq<SwapIntent>, sells: seq<SwapIntent>, tr: Trace)
    returns (tr': Trace)
    requires Inv(b, mk, buys, sells) && Sorted(sells, BySize()) && Traced(b, mk, buys, sells, tr)
    ensures Traced(Run(b, mk), mk, buys, sells, tr')
    decreases |b.buys| + |b.sells|, b.buyRem
  {
    tr' := StepTraced(b, mk, buys, sells, tr);
    if Step(b, mk).More? {
      StepKeeps(b, mk, buys, sells);
      StepAdvances(b, mk);
      tr' := RunTraced(Step(b, mk).book, mk, buys, sells, tr');
    }
  }

  // ---------- the two sides ----------

  function Ranked(amount: u64, signer: Pubkey): SwapIntent -> bool {
    (i: SwapIntent) => i.inAmount == amount && i.signer == signer
  }

  function RankedIn(amount: u64, signer: Pubkey, inMint: Pubkey, outMint: Pubkey): SwapIntent -> bool {
    (i: SwapIntent) => i.inAmount == amount && i.signer == signer && i.inMint == inMint && i.outMint == outMint
  }

  /** Exactly the intents of one direction: by descending amount, then by ascending signer, then in
      their order of arrival. */
  ghost predicate IsSide(side: seq<SwapIntent>, intents: seq<SwapIntent>, inMint: Pubkey, outMint: Pubkey) {
    && (forall i: SwapIntent :: multiset(side)[i]
          == if i.inMint == inMint && i.outMint == outMint then multiset(intents)[i] else 0)
    && (forall i, j :: 0 <= i < j < |side| ==>
          || side[i].inAmount > side[j].inAmount
          || (side[i].inAmount == side[j].inAmount && side[i].signer <= side[j].signer))
    && (forall amount: u64, signer: Pubkey ::
          Filter(side, Ranked(amount, signer)) == Filter(intents, RankedIn(amount, signer, inMint, outMint)))
  }

  lemma {:induction false} FilterCount<T>(s: seq<T>, p: T -> bool, x: T)
    ensures multiset(Filter(s, p))[x] == if p(x) then multiset(s)[x] else 0
  {
    if s != [] {
      FilterCount(s[1..], p, x);
      assert s == [s[0]] + s[1..];
    }
  }

  lemma {:induction false} FilterBoth<T>(s: seq<T>, p: T -> bool, q: T -> bool, both: T -> bool)
    requires forall x :: x in s ==> both(x) == (p(x) && q(x))
    ensures Filter(Filter(s, p), q) == Filter(s, both)
  {
    if s != [] {
      FilterBoth(s[1..], p, q, both);
      FilterAppend(if p(s[0]) then [s[0]] else [], Filter(s[1..], p), q);
    }
  }

  lemma SortedSide(intents: seq<SwapIntent>, p: SwapIntent -> bool, inMint: Pubkey, outMint: Pubkey)
    requires forall i: SwapIntent :: p(i) <==> i.inMint == inMint && i.outMint == outMint
    ensures IsSide(SortBy(Filter(intents, p), BySize()), intents, inMint, outMint)
  {
    var picked := Filter(intents, p);
    var side := SortBy(picked, BySize());
    BySizeIsPreorder();
    SortBySorts(picked, BySize());
    forall i: SwapIntent ensures multiset(side)[i]
      == if i.inMint == inMint && i.outMint == outMint then multiset(intents)[i] else 0
    {
      FilterCount(intents, p, i);
    }
    forall i, j | 0 <= i < j < |side|
      ensures side[i].inAmount > side[j].inAmount
           || (side[i].inAmount == side[j].inAmount && side[i].signer <= side[j].signer)
    {
      assert BySize()(side[i], side[j]);
    }
    forall amount: u64, signer: Pubkey
      ensures Filter(side, Ranked(amount, signer)) == Filter(intents, RankedIn(amount, signer, inMint, outMint))
    {
      RankKept(picked, amount, signer);
      FilterBoth(intents, p, Ranked(amount, signer), RankedIn(amount, signer, inMint, outMint));
    }
  }

  lemma RankKept(s: seq<SwapIntent>, amount: u64, signer: Pubkey)
    ensures Filter(SortBy(s, BySize()), Ranked(amount, signer)) == Filter(s, Ranked(amount, signer))
  {
    var any := SwapIntent(signer, 0, amount, 0, 0, 0);
    BySizeIsPreorder();
    SortByStable(s, BySize(), any);
    FilterAlike(s, Ranked(amount, signer), TiesWith(any, BySize()));
    FilterAlike(SortBy(s, BySize()), Ranked(amount, signer), TiesWith(any, BySize()));
  }

  /** The two sides of a group; where a mint is traded for itself every intent is a buy. */
  lemma SidesOf(base: Pubkey, quote: Pubkey, intents: seq<SwapIntent>)
    ensures IsSide(Buys(base, quote, intents), intents, quote, base)
    ensures if base == quote then Sells(base, quote, intents) == []
            else IsSide(Sells(base, quote, intents), intents, base, quote)
  {
    SortedSide(intents, IsBuy(base, quote), quote, base);
    if base == quote {
      SelfPairHasNoSells(base, intents);
    } else {
      SortedSide(intents, IsSell(base, quote), base, quote);
    }
  }

  // ---------- what a cleared group shows ----------

  /** One leftover: a positive part of an intent's amount. */
  ghost predicate PartOf(back: seq<SwapIntent>, i: SwapIntent) {
    && |back| == 1
    && 0 < back[0].inAmount <= i.inAmount
    && back[0] == SwapIntent(i.signer, i.inMint, back[0].inAmount, i.outMint, 0, 0)
  }

  /** The first k sells are traded to the last unit by matches in their order, except that at most
      one leftover comes back from the k-th. */
  ghost predicate SellsSettled(
    sells: seq<SwapIntent>, k: nat, matches: seq<Match>, back: seq<SwapIntent>, sold: seq<nat>)
  {
    && Follows(matches, sold, sells, k, Seller())
    && (back == [] || (0 < k && PartOf(back, sells[k - 1])))
    && forall j :: 0 <= j < k ==>
         Share(matches, sold, j, BaseOf()) + (if j == k - 1 then Sum(back, Amount()) else 0) == sells[j].inAmount
  }

  /** The first k buys are spent to the last unit by matches in their order, except for at most one
      leftover from each; after a buy whose leftover is not dust, none is served. */
  ghost predicate BuysSettled(
    buys: seq<SwapIntent>, k: nat, matches: seq<Match>, back: seq<SwapIntent>, tr: Trace, mk: Market)
  {
    && Follows(matches, tr.served, buys, k, Buyer())
    && Follows(back, tr.shelved, buys, k, Signer()) && Ascending(tr.shelved)
    && (forall j :: 0 <= j < k ==>
          Share(matches, tr.served, j, QuoteOf()) + Share(back, tr.shelved, j, Amount()) == buys[j].inAmount)
    && (forall t :: 0 <= t < |back| ==>
          back[t] == SwapIntent(back[t].signer, mk.quote, back[t].inAmount, mk.base, 0, 0)
          && back[t].inAmount <= buys[tr.shelved[t]].inAmount)
    && (forall t, u :: 0 <= t < |back| && 0 <= u < |matches| && !Dust(back[t].inAmount, mk.price) ==>
          tr.served[u] <= tr.shelved[t])
  }

  lemma SellsEnd(b: Book, mk: Market, buys: seq<SwapIntent>, sells: seq<SwapIntent>, sold: seq<nat>)
    requires Inv(b, mk, buys, sells) && SellsTraced(b, sells, sold)
    requires forall i :: i in sells ==> i.inMint == mk.base && i.outMint == mk.quote
    ensures SellsSettled(sells, |sells| - |b.sells|, b.matches, SellTail(b, mk), sold)
  {
    var k := |sells| - |b.sells|;
    assert Sum(SellTail(b, mk), Amount()) == b.sellRem;
    assert b.sellRem > 0 ==> sells[k - 1] in sells;
  }

  lemma BuysEnd(b: Book, mk: Market, buys: seq<SwapIntent>, sells: seq<SwapIntent>, tr: Trace)
    requires Inv(b, mk, buys, sells) && BuysTraced(b, mk, buys, tr) && b.buyRem == 0
    ensures BuysSettled(buys, |buys| - |b.buys|, b.matches, b.residual, tr, mk)
  {
    forall t | 0 <= t < |b.residual|
      ensures Shelved(b.residual[t], mk) && b.residual[t].inAmount <= buys[tr.shelved[t]].inAmount
    {
      assert b.residual[t] in b.residual;
      ShareAtLeast(b.residual, tr.shelved, t, Amount());
    }
  }

  /** The final book of a group, with its trace. */
  lemma FinalTraced(base: Pubkey, quote: Pubkey, intents: seq<SwapIntent>, amm: Amm) returns (tr: Trace)
    ensures Traced(FinalBook(base, quote, intents, amm), PairMarket(base, quote, intents, amm),
                   Buys(base, quote, intents), Sells(base, quote, intents), tr)
  {
    var mk, buys, sells := PairMarket(base, quote, intents, amm), Buys(base, quote, intents), Sells(base, quote, intents);
    BySizeIsPreorder();
    SortBySorts(Filter(intents, IsSell(base, quote)), BySize());
    NothingIsDust(mk.price);
    tr := RunTraced(Opening(buys, sells), mk, buys, sells, Trace([], [], []));
  }

  lemma SelfPairHasNoSells(mint: Pubkey, intents: seq<SwapIntent>)
    ensures Sells(mint, mint, intents) == []
  {
    FilterNone(intents, IsSell(mint, mint));
  }

  /** The residual split by side, also where a mint is traded for itself and nothing is a sell. */
  lemma BookSplit(b: Book, mk: Market)
    requires b.Owned() && Sided(b, mk) && forall i :: i in b.residual ==> Shelved(i, mk)
    requires mk.base == mk.quote ==> b.sellRem == 0 && b.sells == []
    ensures var r := FinalResidual(b, mk);
      && Filter(r, IsBuy(mk.base, mk.quote)) == b.residual + b.buys
      && Filter(r, IsSell(mk.base, mk.quote)) == SellTail(b, mk) + b.sells
  {
    if mk.base == mk.quote {
      var r := FinalResidual(b, mk);
      assert r == b.residual + b.buys;
      FilterAll(r, IsBuy(mk.base, mk.quote));
      FilterNone(r, IsSell(mk.base, mk.quote));
    } else {
      ResidualSides(b, mk);
    }
  }

  lemma ResidualSplit(base: Pubkey, quote: Pubkey, intents: seq<SwapIntent>, amm: Amm)
    ensures var b, mk := FinalBook(base, quote, intents, amm), PairMarket(base, quote, intents, amm);
      var r := Cleared(base, quote, intents, amm);
      && b.Owned()
      && Filter(r.residual, IsBuy(base, quote)) == b.residual + b.buys
      && Filter(r.residual, IsSell(base, quote)) == SellTail(b, mk) + b.sells
  {
    FinalBookKeeps(base, quote, intents, amm);
    FinalBookHolds(base, quote, intents, amm, iset{});
    if base == quote {
      SelfPairHasNoSells(base, intents);
    }
    BookSplit(FinalBook(base, quote, intents, amm), PairMarket(base, quote, intents, amm));
  }

  lemma DustOrSoldOut(b: Book, mk: Market, buys: seq<SwapIntent>, sells: seq<SwapIntent>)
    requires Inv(b, mk, buys, sells)
    ensures (forall i :: i in b.residual ==> QuoteToBase(i.inAmount, mk.price) == 0)
         || Sum(SellTail(b, mk) + b.sells, Amount()) == 0
  {
    if SellersSpent(b) {
      assert SellTail(b, mk) + b.sells == b.sells;
      AllZero(b.sells);
    }
  }

  /** Sellers fill in (amount descending, signer ascending) order with at most one partial fill: each
      of the k largest sells is traded to the last unit, in order, but for a remainder of the k-th that
      comes back as one leftover, and all the others come back whole, in order. */
  lemma {:induction false} SellersFillInOrder(base: Pubkey, quote: Pubkey, intents: seq<SwapIntent>, amm: Amm)
    returns (k: nat, back: seq<SwapIntent>, sold: seq<nat>)
    ensures var r, sells := Cleared(base, quote, intents, amm), Sells(base, quote, intents);
      && SellsSettled(sells, k, r.matches, back, sold)
      && Filter(r.residual, IsSell(base, quote)) == back + sells[k..]
      && if base == quote then sells == [] else IsSide(sells, intents, base, quote)
  {
    SidesOf(base, quote, intents);
    k, back, sold := FinalSells(base, quote, intents, amm);
    ResidualSplit(base, quote, intents, amm);
    ClearedParts(base, quote, intents, amm);
  }

  lemma {:induction false} FinalSells(base: Pubkey, quote: Pubkey, intents: seq<SwapIntent>, amm: Amm)
    returns (k: nat, back: seq<SwapIntent>, sold: seq<nat>)
    ensures var b, mk := FinalBook(base, quote, intents, amm), PairMarket(base, quote, intents, amm);
      var sells := Sells(base, quote, intents);
      && SellsSettled(sells, k, b.matches, back, sold)
      && b.Owned() && back == SellTail(b, mk) && b.sells == sells[k..]
  {
    var b, mk := FinalBook(base, quote, intents, amm), PairMarket(base, quote, intents, amm);
    var buys, sells := Buys(base, quote, intents), Sells(base, quote, intents);
    var tr := FinalTraced(base, quote, intents, amm);
    FinalBookKeeps(base, quote, intents, amm);
    SidesAreSided(base, quote, intents);
    k, back, sold := |sells| - |b.sells|, SellTail(b, mk), tr.sold;
    SellsEnd(b, mk, buys, sells, sold);
  }

  /** Buyers are served in the same order: each of the k largest buys is spent to the last unit, in
      order, but for at most one leftover of its own, and all the others come back whole, in order.
      Unless no base is left for sale, every leftover is dust; and once one is not, no later buy is served. */
  lemma {:induction false} BuyersServedInOrder(base: Pubkey, quote: Pubkey, intents: seq<SwapIntent>, amm: Amm)
    returns (k: nat, back: seq<SwapIntent>, tr: Trace)
    ensures var r, buys := Cleared(base, quote, intents, amm), Buys(base, quote, intents);
      && BuysSettled(buys, k, r.matches, back, tr, Market(base, quote, r.clearingPrice))
      && Filter(r.residual, IsBuy(base, quote)) == back + buys[k..]
      && IsSide(buys, intents, quote, base)
      && ((forall i :: i in back ==> QuoteToBase(i.inAmount, r.clearingPrice) == 0)
          || Sum(Filter(r.residual, IsSell(base, quote)), Amount()) == 0)
  {
    SidesOf(base, quote, intents);
    k, back, tr := FinalBuys(base, quote, intents, amm);
    ResidualSplit(base, quote, intents, amm);
    ClearedParts(base, quote, intents, amm);
  }

  lemma ClearedParts(base: Pubkey, quote: Pubkey, intents: seq<SwapIntent>, amm: Amm)
    ensures var r := Cleared(base, quote, intents, amm);
      && r.matches == FinalBook(base, quote, intents, amm).matches
      && Market(base, quote, r.clearingPrice) == PairMarket(base, quote, intents, amm)
  {
  }

  lemma {:induction false} FinalBuys(base: Pubkey, quote: Pubkey, intents: seq<SwapIntent>, amm: Amm)
    returns (k: nat, back: seq<SwapIntent>, tr: Trace)
    ensures var b, mk := FinalBook(base, quote, intents, amm), PairMarket(base, quote, intents, amm);
      var buys := Buys(base, quote, intents);
      && BuysSettled(buys, k, b.matches, back, tr, mk)
      && back == b.residual && b.buys == buys[k..] && b.Owned()
      && ((forall i :: i in back ==> QuoteToBase(i.inAmount, mk.price) == 0)
          || Sum(SellTail(b, mk) + b.sells, Amount()) == 0)
  {
    var b, mk := FinalBook(base, quote, intents, amm), PairMarket(base, quote, intents, amm);
    var buys, sells := Buys(base, quote, intents), Sells(base, quote, intents);
    tr := FinalTraced(base, quote, intents, amm);
    FinalBookKeeps(base, quote, intents, amm);
    k, back := BookBuys(b, mk, buys, sells, tr);
  }

  lemma {:induction false} BookBuys(
    b: Book, mk: Market, buys: seq<SwapIntent>, sells: seq<SwapIntent>, tr: Trace)
    returns (k: nat, back: seq<SwapIntent>)
    requires Inv(b, mk, buys, sells) && Stopped(b) && Traced(b, mk, buys, sells, tr)
    ensures BuysSettled(buys, k, b.matches, back, tr, mk)
    ensures back == b.residual && b.buys == buys[k..]
    ensures (forall i :: i in back ==> QuoteToBase(i.inAmount, mk.price) == 0)
         || Sum(SellTail(b, mk) + b.sells, Amount()) == 0
  {
    k, back := |buys| - |b.buys|, b.residual;
    BuysEnd(b, mk, buys, sells, tr);
    DustOrSoldOut(b, mk, buys, sells);
  }

  /** The whole residual: leftover buys in their order, the leftover sell, the sells never reached,
      and last the buys never reached. */
  lemma {:induction false} ResidualInOrder(base: Pubkey, quote: Pubkey, intents: seq<SwapIntent>, amm: Amm)
    returns (nb: nat, ns: nat, backBuys: seq<SwapIntent>, backSells: seq<SwapIntent>, tr: Trace)
    ensures var r := Cleared(base, quote, intents, amm);
      var buys, sells := Buys(base, quote, intents), Sells(base, quote, intents);
      && BuysSettled(buys, nb, r.matches, backBuys, tr, Market(base, quote, r.clearingPrice))
      && SellsSettled(sells, ns, r.matches, backSells, tr.sold)
      && r.residual == backBuys + backSells + sells[ns..] + buys[nb..]
  {
    nb, backBuys, tr := FinalBuys(base, quote, intents, amm);
    var sold;
    ns, backSells, sold := FinalSells(base, quote, intents, amm);
    tr := tr.(sold := sold);
    ClearedParts(base, quote, intents, amm);
  }

  // ---------- priority between intents ----------

  lemma {:induction false} ShareOfOne<T>(items: seq<T>, pos: seq<nat>, j: nat, w: T -> nat) returns (t: nat)
    requires |pos| == |items| && Ascending(pos)
    ensures Share(items, pos, j, w) == 0 || (t < |items| && pos[t] == j && Share(items, pos, j, w) == w(items[t]))
  {
    t := 0;
    if items != [] {
      var last := |items| - 1;
      if pos[last] == j {
        t := last;
        ShareNone(items[..last], pos[..last], j, w);
      } else {
        t := ShareOfOne(items[..last], pos[..last], j, w);
      }
    }
  }

  /** Size first, for sells: when any sell is matched, every strictly larger one is sold to its last
      unit. */
  lemma {:induction false} LargerSellsFirst(base: Pubkey, quote: Pubkey, intents: seq<SwapIntent>, amm: Amm)
    returns (sold: seq<nat>)
    ensures var r, sells := Cleared(base, quote, intents, amm), Sells(base, quote, intents);
      && Follows(r.matches, sold, sells, |sells|, Seller())
      && forall t, j :: 0 <= t < |r.matches| && 0 <= j < |sells| && sells[j].inAmount > sells[sold[t]].inAmount ==>
           Share(r.matches, sold, j, BaseOf()) == sells[j].inAmount
  {
    var k, back;
    k, back, sold := SellersFillInOrder(base, quote, intents, amm);
    SellsBefore(Cleared(base, quote, intents, amm).matches, Sells(base, quote, intents), k, back, sold);
  }

  lemma {:induction false} SellsBefore(
    matches: seq<Match>, sells: seq<SwapIntent>, k: nat, back: seq<SwapIntent>, sold: seq<nat>)
    requires SellsSettled(sells, k, matches, back, sold)
    requires forall i, j :: 0 <= i < j < |sells| ==> sells[i].inAmount >= sells[j].inAmount
    ensures Follows(matches, sold, sells, |sells|, Seller())
    ensures forall t, j :: 0 <= t < |matches| && 0 <= j < |sells| && sells[j].inAmount > sells[sold[t]].inAmount ==>
              Share(matches, sold, j, BaseOf()) == sells[j].inAmount
  {
    forall t, j | 0 <= t < |matches| && 0 <= j < |sells| && sells[j].inAmount > sells[sold[t]].inAmount
      ensures Share(matches, sold, j, BaseOf()) == sells[j].inAmount
    {
      assert j < sold[t] < k;
    }
  }

  /** And for buys: when any buy is served, every strictly larger one is spent to the last unit that
      could still buy base. */
  lemma {:induction false} LargerBuysFirst(base: Pubkey, quote: Pubkey, intents: seq<SwapIntent>, amm: Amm)
    returns (served: seq<nat>)
    ensures var r, buys := Cleared(base, quote, intents, amm), Buys(base, quote, intents);
      && Follows(r.matches, served, buys, |buys|, Buyer())
      && forall t, j :: 0 <= t < |r.matches| && 0 <= j < |buys| && buys[j].inAmount > buys[served[t]].inAmount ==>
           SpentButDust(buys[j].inAmount, Share(r.matches, served, j, QuoteOf()), r.clearingPrice)
  {
    var k, back, tr := BuyersServedInOrder(base, quote, intents, amm);
    var r := Cleared(base, quote, intents, amm);
    served := tr.served;
    BuysBefore(r.matches, Buys(base, quote, intents), k, back, tr, Market(base, quote, r.clearingPrice));
  }

  /** Nothing more of an amount could have bought base at the price. */
  ghost predicate SpentButDust(amount: u64, spent: nat, price: u128) {
    spent <= amount && QuoteToBase(amount - spent, price) == 0
  }

  lemma {:induction false} BuysBefore(
    matches: seq<Match>, buys: seq<SwapIntent>, k: nat, back: seq<SwapIntent>, tr: Trace, mk: Market)
    requires BuysSettled(buys, k, matches, back, tr, mk)
    requires forall i, j :: 0 <= i < j < |buys| ==> buys[i].inAmount >= buys[j].inAmount
    ensures Follows(matches, tr.served, buys, |buys|, Buyer())
    ensures forall t, j :: 0 <= t < |matches| && 0 <= j < |buys| && buys[j].inAmount > buys[tr.served[t]].inAmount ==>
              SpentButDust(buys[j].inAmount, Share(matches, tr.served, j, QuoteOf()), mk.price)
  {
    forall t, j | 0 <= t < |matches| && 0 <= j < |buys| && buys[j].inAmount > buys[tr.served[t]].inAmount
      ensures SpentButDust(buys[j].inAmount, Share(matches, tr.served, j, QuoteOf()), mk.price)
    {
      assert j < tr.served[t] < k;
      var u := ShareOfOne(back, tr.shelved, j, Amount());
      NothingIsDust(mk.price);
    }
  }
}
