/** What clearing one pair guarantees: exact rounding, conservation, maximal crossing,
    priority order and the bound on the number of matches. */
module MatcherLaws {
  import opened Common
  import opened Arithmetic
  import opened Sequences
  import opened Matcher

  // ---------- one crossing ----------

  /** The quote of a match is the base at the clearing price, rounded up and by nothing else. */
  ghost predicate Exact(m: Match, price: u128) {
    && 0 < m.baseAmount && 0 < m.quoteAmount
    && m.baseAmount * price <= m.quoteAmount * U64_SIZE < m.baseAmount * price + U64_SIZE
  }

  ghost predicate Dust(quoteAmount: nat, price: u128)
    requires quoteAmount < U64_SIZE
  {
    QuoteToBase(quoteAmount, price) == 0
  }

  /** Whenever some base crosses: the multiplication does not saturate, the rounded-up quote is
      positive and within the buyer's remainder before any clamp, and afterwards the seller is
      drained or the buyer cannot afford one more unit. */
  lemma CrossingIsExact(q: u64, s: u64, price: u128)
    requires Min(Capacity(q, price), s) > 0
    ensures var base := Min(Capacity(q, price), s);
      var quote := BaseToQuoteCeil(base, price);
      && base * price < U128_SIZE
      && 0 < quote <= q
      && base * price <= quote * U64_SIZE < base * price + U64_SIZE
      && (base == s || Dust(q - quote, price))
  {
    var base := Min(Capacity(q, price), s);
    var afford := QuoteToBase(q, price);
    MulMonotone(price, base, afford);
    MulMonotone(price, 1, base);
    var quote := BaseToQuoteCeil(base, price);
    assert quote * U64_SIZE < q * U64_SIZE + U64_SIZE;
    if base != s {
      assert base == afford;
      var rest := QuoteToBase(q - quote, price);
      assert (q - quote) * U64_SIZE < price;
      if rest > 0 {
        MulMonotone(price, 1, rest);
        assert false;
      }
    }
  }

  function Crossing(b: Book, price: u128): Match
    requires b.buyer.Some? && b.seller.Some?
  {
    var base := Min(Capacity(b.buyRem, price), b.sellRem);
    Match(b.buyer.value, b.seller.value, base, Min(Min(BaseToQuoteCeil(base, price), b.buyRem), U64_MAX))
  }

  lemma CrossOutcome(b: Book, mk: Market)
    requires b.buyer.Some? && b.seller.Some?
    ensures var m := Crossing(b, mk.price);
      var c := Cross(b, mk);
      if m.baseAmount == 0 then c == ShelveBuyer(b, mk)
      else
        && Exact(m, mk.price)
        && m.quoteAmount <= b.buyRem && m.baseAmount <= b.sellRem
        && c == b.(matches := b.matches + [m], buyRem := b.buyRem - m.quoteAmount, sellRem := b.sellRem - m.baseAmount)
        && (c.sellRem == 0 || Dust(c.buyRem, mk.price))
  {
    var m := Crossing(b, mk.price);
    if m.baseAmount > 0 {
      CrossingIsExact(b.buyRem, b.sellRem, mk.price);
      assert m.quoteAmount == BaseToQuoteCeil(m.baseAmount, mk.price);
    }
  }

  // ---------- what every turn of the loop keeps ----------

  /** The intents not yet taken are a tail of the given side, and a remainder belongs to the
      intent taken last. */
  ghost predicate TakenInOrder(
    rest: seq<SwapIntent>, rem: u64, owner: Option<Pubkey>, side: seq<SwapIntent>)
  {
    && |rest| <= |side|
    && rest == side[|side| - |rest|..]
    && (rem > 0 ==>
         && |rest| < |side|
         && owner == Some(side[|side| - |rest| - 1].signer)
         && rem <= side[|side| - |rest| - 1].inAmount)
  }

  ghost predicate Shelved(i: SwapIntent, mk: Market) {
    i == Leftover(i.signer, mk.quote, i.inAmount, mk.base)
  }

  ghost predicate SellersSpent(b: Book) {
    b.sellRem == 0 && forall s :: s in b.sells ==> s.inAmount == 0
  }

  ghost function Active(b: Book, mk: Market): nat {
    (if Dust(b.buyRem, mk.price) then 0 else 1) + (if b.sellRem == 0 then 0 else 1)
  }

  /** At most one match per intent taken, less one for each side still able to trade. */
  ghost predicate FewMatches(b: Book, mk: Market, buys: seq<SwapIntent>, sells: seq<SwapIntent>) {
    var taken := |buys| - |b.buys| + |sells| - |b.sells|;
    && |b.matches| + Active(b, mk) <= taken
    && (b.matches != [] ==> |b.matches| < taken)
  }

  ghost predicate Inv(b: Book, mk: Market, buys: seq<SwapIntent>, sells: seq<SwapIntent>) {
    && b.Owned()
    && TakenInOrder(b.buys, b.buyRem, b.buyer, buys)
    && TakenInOrder(b.sells, b.sellRem, b.seller, sells)
    && (forall m :: m in b.matches ==> Exact(m, mk.price))
    && (forall i :: i in b.residual ==> Shelved(i, mk))
    && ((forall i :: i in b.residual ==> Dust(i.inAmount, mk.price)) || SellersSpent(b))
    && FewMatches(b, mk, buys, sells)
  }

  ghost predicate Stopped(b: Book) {
    b.buyRem == 0 && (b.buys == [] || (b.sellRem == 0 && b.sells == []))
  }

  lemma TakeInOrder(rest: seq<SwapIntent>, side: seq<SwapIntent>)
    requires rest != [] && |rest| <= |side| && rest == side[|side| - |rest|..]
    ensures TakenInOrder(rest[1..], rest[0].inAmount, Some(rest[0].signer), side)
    ensures rest[0] == side[|side| - |rest|]
  {
  }

  lemma NothingIsDust(price: u128)
    ensures Dust(0, price)
  {
    if QuoteToBase(0, price) > 0 {
      MulMonotone(price, 1, QuoteToBase(0, price));
    }
  }

  lemma TakeBuyKeeps(b: Book, mk: Market, buys: seq<SwapIntent>, sells: seq<SwapIntent>)
    requires Inv(b, mk, buys, sells) && (b.buyRem == 0 ==> b.buys != [])
    ensures Inv(TakeBuy(b), mk, buys, sells) && TakeBuy(b).buyer.Some?
  {
    if b.buyRem == 0 {
      NothingIsDust(mk.price);
      TakeInOrder(b.buys, buys);
    }
  }

  /** Taking a zero sell means every later one is zero too: this is where the order matters. */
  lemma TakeSellKeeps(b: Book, mk: Market, buys: seq<SwapIntent>, sells: seq<SwapIntent>)
    requires Inv(b, mk, buys, sells) && (b.sellRem == 0 ==> b.sells != [])
    requires Sorted(sells, BySize())
    ensures Inv(TakeSell(b), mk, buys, sells) && TakeSell(b).seller.Some?
    ensures TakeSell(b).sellRem == 0 ==> SellersSpent(TakeSell(b))
  {
    if b.sellRem == 0 {
      TakeInOrder(b.sells, sells);
      if b.sells[0].inAmount == 0 {
        ZerosLast(b.sells, sells);
      }
    }
  }

  lemma ZerosLast(rest: seq<SwapIntent>, side: seq<SwapIntent>)
    requires Sorted(side, BySize())
    requires rest != [] && |rest| <= |side| && rest == side[|side| - |rest|..]
    requires rest[0].inAmount == 0
    ensures forall s :: s in rest[1..] ==> s.inAmount == 0
  {
    var k := |side| - |rest|;
    forall j | 0 <= j < |rest| - 1 ensures rest[1..][j].inAmount == 0 {
      assert BySize()(side[k], side[k + 1 + j]);
    }
  }

  lemma ShelveKeeps(b: Book, mk: Market, buys: seq<SwapIntent>, sells: seq<SwapIntent>)
    requires Inv(b, mk, buys, sells) && b.buyer.Some?
    requires Dust(b.buyRem, mk.price) || SellersSpent(b)
    ensures Inv(ShelveBuyer(b, mk), mk, buys, sells)
  {
    NothingIsDust(mk.price);
  }

  lemma CrossKeeps(b: Book, mk: Market, buys: seq<SwapIntent>, sells: seq<SwapIntent>)
    requires Inv(b, mk, buys, sells) && b.buyer.Some? && b.seller.Some?
    requires b.sellRem == 0 ==> SellersSpent(b)
    ensures Inv(Cross(b, mk), mk, buys, sells)
  {
    CrossOutcome(b, mk);
    var m := Crossing(b, mk.price);
    if m.baseAmount == 0 {
      ShelveKeeps(b, mk, buys, sells);
    } else {
      assert !Dust(b.buyRem, mk.price) && b.sellRem > 0;
    }
  }

  lemma StepKeeps(b: Book, mk: Market, buys: seq<SwapIntent>, sells: seq<SwapIntent>)
    requires Inv(b, mk, buys, sells) && Sorted(sells, BySize())
    ensures Inv(Step(b, mk).book, mk, buys, sells)
    ensures Step(b, mk).Done? ==> Stopped(Step(b, mk).book)
  {
    if b.buyRem != 0 || b.buys != [] {
      TakeBuyKeeps(b, mk, buys, sells);
      var c := TakeBuy(b);
      if c.sellRem == 0 && c.sells == [] {
        if c.buyRem > 0 {
          ShelveKeeps(c, mk, buys, sells);
        }
      } else {
        TakeSellKeeps(c, mk, buys, sells);
        CrossKeeps(TakeSell(c), mk, buys, sells);
      }
    }
  }

  lemma {:induction false} RunKeeps(b: Book, mk: Market, buys: seq<SwapIntent>, sells: seq<SwapIntent>)
    requires Inv(b, mk, buys, sells) && Sorted(sells, BySize())
    ensures Inv(Run(b, mk), mk, buys, sells) && Stopped(Run(b, mk))
    decreases |b.buys| + |b.sells|, b.buyRem
  {
    StepKeeps(b, mk, buys, sells);
    if Step(b, mk).More? {
      StepAdvances(b, mk);
      RunKeeps(Step(b, mk).book, mk, buys, sells);
    }
  }

  lemma BySizeIsPreorder()
    ensures TotalPreorder(BySize())
  {
  }

  lemma OpeningKeeps(buys: seq<SwapIntent>, sells: seq<SwapIntent>, mk: Market)
    requires Sorted(sells, BySize())
    ensures Inv(Run(Opening(buys, sells), mk), mk, buys, sells) && Stopped(Run(Opening(buys, sells), mk))
  {
    NothingIsDust(mk.price);
    RunKeeps(Opening(buys, sells), mk, buys, sells);
  }

  /** The final state of the loop for one group. */
  lemma FinalBookKeeps(base: Pubkey, quote: Pubkey, intents: seq<SwapIntent>, amm: Amm)
    ensures Inv(FinalBook(base, quote, intents, amm), PairMarket(base, quote, intents, amm),
                Buys(base, quote, intents), Sells(base, quote, intents))
    ensures Stopped(FinalBook(base, quote, intents, amm))
  {
    BySizeIsPreorder();
    SortBySorts(Filter(intents, IsSell(base, quote)), BySize());
    OpeningKeeps(Buys(base, quote, intents), Sells(base, quote, intents), PairMarket(base, quote, intents, amm));
  }

  // ---------- exact rounding ----------

  function BaseOf(): Match -> nat {
    (m: Match) => m.baseAmount
  }

  function QuoteOf(): Match -> nat {
    (m: Match) => m.quoteAmount
  }

  lemma {:induction false} RoundingAddsUp(matches: seq<Match>, price: u128)
    requires forall m :: m in matches ==> Exact(m, price)
    ensures Sum(matches, BaseOf()) * price
         <= Sum(matches, QuoteOf()) * U64_SIZE
         <= Sum(matches, BaseOf()) * price + |matches| * U64_SIZE
  {
    if matches != [] {
      RoundingAddsUp(matches[1..], price);
      assert (matches[0].baseAmount + Sum(matches[1..], BaseOf())) * price
          == matches[0].baseAmount * price + Sum(matches[1..], BaseOf()) * price;
      assert Exact(matches[0], price);
    }
  }

  /** Each match trades at the clearing price to within one unit of quote, in the seller's
      favour, and the error of the whole batch is at most one unit per match. */
  lemma ClearedIsExact(base: Pubkey, quote: Pubkey, intents: seq<SwapIntent>, amm: Amm)
    ensures var r := Cleared(base, quote, intents, amm);
      && (forall m :: m in r.matches ==> Exact(m, r.clearingPrice))
      && 0 <= Sum(r.matches, QuoteOf()) * U64_SIZE - Sum(r.matches, BaseOf()) * r.clearingPrice
           <= |r.matches| * U64_SIZE
  {
    FinalBookKeeps(base, quote, intents, amm);
    var r := Cleared(base, quote, intents, amm);
    RoundingAddsUp(r.matches, r.clearingPrice);
  }

  // ---------- number of matches ----------

  lemma SidesLength(base: Pubkey, quote: Pubkey, intents: seq<SwapIntent>)
    ensures |Buys(base, quote, intents)| + |Sells(base, quote, intents)| <= |intents|
  {
    BySizeIsPreorder();
    SortBySorts(Filter(intents, IsBuy(base, quote)), BySize());
    SortBySorts(Filter(intents, IsSell(base, quote)), BySize());
    SidesFit(base, quote, intents);
  }

  lemma MatchesBelow(b: Book, mk: Market, buys: seq<SwapIntent>, sells: seq<SwapIntent>, n: nat)
    requires FewMatches(b, mk, buys, sells) && |buys| + |sells| <= n && n > 0
    ensures |b.matches| < n
  {
  }

  /** A group never yields as many matches as it has intents. */
  lemma ClearedMatchBound(base: Pubkey, quote: Pubkey, intents: seq<SwapIntent>, amm: Amm)
    requires intents != []
    ensures |Cleared(base, quote, intents, amm).matches| < |intents|
  {
    FinalBookKeeps(base, quote, intents, amm);
    SidesLength(base, quote, intents);
    MatchesBelow(FinalBook(base, quote, intents, amm), PairMarket(base, quote, intents, amm),
                 Buys(base, quote, intents), Sells(base, quote, intents), |intents|);
  }

  lemma {:induction false} SidesFit(base: Pubkey, quote: Pubkey, intents: seq<SwapIntent>)
    ensures |Filter(intents, IsBuy(base, quote))| + |Filter(intents, IsSell(base, quote))| <= |intents|
  {
    if intents != [] {
      SidesFit(base, quote, intents[1..]);
    }
  }

  // ---------- conservation ----------

  /** A choice of accounts, each a signer with a mint. */
  type Accounts = iset<(Pubkey, Pubkey)>

  /** The amounts that the chosen (signer, mint) accounts put in. */
  ghost function Input(f: Accounts): SwapIntent -> nat {
    (i: SwapIntent) => if (i.signer, i.inMint) in f then i.inAmount else 0
  }

  /** The amounts that a match takes from the chosen (signer, mint) accounts. */
  ghost function Paid(f: Accounts, base: Pubkey, quote: Pubkey): Match -> nat {
    (m: Match) => (if (m.buyer, quote) in f then m.quoteAmount else 0)
                + (if (m.seller, base) in f then m.baseAmount else 0)
  }

  ghost predicate Sided(b: Book, mk: Market) {
    && (forall i :: i in b.buys ==> i.inMint == mk.quote && i.outMint == mk.base)
    && (forall i :: i in b.sells ==> i.inMint == mk.base && i.outMint == mk.quote)
  }

  ghost function Carried(rem: u64, owner: Option<Pubkey>, mint: Pubkey, f: Accounts): nat
    requires rem > 0 ==> owner.Some?
  {
    if rem > 0 && (owner.value, mint) in f then rem else 0
  }

  /** Everything the chosen accounts put in, wherever the loop holds it. */
  ghost function Held(b: Book, mk: Market, f: Accounts): nat
    requires b.Owned()
  {
    Sum(b.matches, Paid(f, mk.base, mk.quote)) + Sum(b.residual, Input(f))
    + Carried(b.buyRem, b.buyer, mk.quote, f) + Carried(b.sellRem, b.seller, mk.base, f)
    + Sum(b.buys, Input(f)) + Sum(b.sells, Input(f))
  }

  lemma ShelveHolds(b: Book, mk: Market, f: Accounts)
    requires b.Owned() && b.buyer.Some?
    ensures Held(ShelveBuyer(b, mk), mk, f) == Held(b, mk, f)
  {
    SumPush(b.residual, Leftover(b.buyer.value, mk.quote, b.buyRem, mk.base), Input(f));
  }

  lemma CrossHolds(b: Book, mk: Market, f: Accounts)
    requires b.Owned() && b.buyer.Some? && b.seller.Some?
    ensures Cross(b, mk).Owned() && Held(Cross(b, mk), mk, f) == Held(b, mk, f)
  {
    CrossOutcome(b, mk);
    var m := Crossing(b, mk.price);
    if m.baseAmount == 0 {
      ShelveHolds(b, mk, f);
    } else {
      SumPush(b.matches, m, Paid(f, mk.base, mk.quote));
    }
  }

  lemma StepHolds(b: Book, mk: Market, f: Accounts)
    requires b.Owned() && Sided(b, mk)
    ensures var n := Step(b, mk).book;
      n.Owned() && Sided(n, mk) && Held(n, mk, f) == Held(b, mk, f)
  {
    if b.buyRem != 0 || b.buys != [] {
      var c := TakeBuy(b);
      assert Held(c, mk, f) == Held(b, mk, f);
      if c.sellRem == 0 && c.sells == [] {
        ShelveHolds(c, mk, f);
      } else {
        assert Held(TakeSell(c), mk, f) == Held(c, mk, f);
        CrossHolds(TakeSell(c), mk, f);
      }
    }
  }

  lemma {:induction false} RunHolds(b: Book, mk: Market, f: Accounts)
    requires b.Owned() && Sided(b, mk)
    ensures var n := Run(b, mk);
      n.Owned() && Sided(n, mk) && Held(n, mk, f) == Held(b, mk, f)
    decreases |b.buys| + |b.sells|, b.buyRem
  {
    StepHolds(b, mk, f);
    if Step(b, mk).More? {
      StepAdvances(b, mk);
      RunHolds(Step(b, mk).book, mk, f);
    }
  }

  lemma FinalResidualHolds(b: Book, mk: Market, f: Accounts)
    requires b.Owned() && b.buyRem == 0
    ensures Sum(b.matches, Paid(f, mk.base, mk.quote)) + Sum(FinalResidual(b, mk), Input(f))
         == Held(b, mk, f)
  {
    var tail := SellTail(b, mk);
    SumAppend(b.residual, tail, Input(f));
    SumAppend(b.residual + tail, b.sells, Input(f));
    SumAppend(b.residual + tail + b.sells, b.buys, Input(f));
  }

  lemma SidesAreSided(base: Pubkey, quote: Pubkey, intents: seq<SwapIntent>)
    ensures forall i :: i in Buys(base, quote, intents) ==> IsBuy(base, quote)(i)
    ensures forall i :: i in Sells(base, quote, intents) ==> IsSell(base, quote)(i)
  {
    BySizeIsPreorder();
    SortByMembers(Filter(intents, IsBuy(base, quote)), BySize());
    SortByMembers(Filter(intents, IsSell(base, quote)), BySize());
    FilterMembers(intents, IsBuy(base, quote));
    FilterMembers(intents, IsSell(base, quote));
  }

  lemma SidesHold(base: Pubkey, quote: Pubkey, intents: seq<SwapIntent>, w: SwapIntent -> nat)
    requires forall i :: i in intents ==> IsBuy(base, quote)(i) || IsSell(base, quote)(i)
    ensures Sum(Buys(base, quote, intents), w) + Sum(Sells(base, quote, intents), w) == Sum(intents, w)
  {
    var buys, sells := Filter(intents, IsBuy(base, quote)), Filter(intents, IsSell(base, quote));
    BySizeIsPreorder();
    SortBySorts(buys, BySize());
    SortBySorts(sells, BySize());
    SumPermuted(SortBy(buys, BySize()), buys, w);
    SumPermuted(SortBy(sells, BySize()), sells, w);
    var all := (i: SwapIntent) => true;
    SumUnion(intents, IsBuy(base, quote), IsSell(base, quote), all, w);
    FilterAll(intents, all);
  }

  lemma FinalBookHolds(base: Pubkey, quote: Pubkey, intents: seq<SwapIntent>, amm: Amm, f: Accounts)
    ensures var b, mk := FinalBook(base, quote, intents, amm), PairMarket(base, quote, intents, amm);
      && b.Owned() && Sided(b, mk)
      && Held(b, mk, f) == Sum(Buys(base, quote, intents), Input(f)) + Sum(Sells(base, quote, intents), Input(f))
  {
    SidesAreSided(base, quote, intents);
    var opening := Opening(Buys(base, quote, intents), Sells(base, quote, intents));
    RunHolds(opening, PairMarket(base, quote, intents, amm), f);
  }

  /** For any choice of accounts, what the matches take from them plus what the residual returns
      to them is exactly what they put in. Choosing one signer gives that trader's balance,
      choosing one mint gives the group's total on that side. */
  lemma ClearedConserves(base: Pubkey, quote: Pubkey, intents: seq<SwapIntent>, amm: Amm, f: Accounts)
    requires forall i :: i in intents ==> IsBuy(base, quote)(i) || IsSell(base, quote)(i)
    ensures var r := Cleared(base, quote, intents, amm);
      Sum(r.matches, Paid(f, base, quote)) + Sum(r.residual, Input(f)) == Sum(intents, Input(f))
  {
    FinalBookHolds(base, quote, intents, amm, f);
    FinalBookKeeps(base, quote, intents, amm);
    FinalResidualHolds(FinalBook(base, quote, intents, amm), PairMarket(base, quote, intents, amm), f);
    SidesHold(base, quote, intents, Input(f));
  }

  // ---------- maximal crossing and priority ----------

  lemma {:induction false} AllZero(s: seq<SwapIntent>)
    requires forall i :: i in s ==> i.inAmount == 0
    ensures Sum(s, Amount()) == 0
  {
    if s != [] {
      AllZero(s[1..]);
    }
  }

  /** A filter that keeps the outer parts and drops the inner ones. */
  lemma FilterOuter<T>(a: seq<T>, b: seq<T>, c: seq<T>, d: seq<T>, p: T -> bool)
    requires forall x :: x in a || x in d ==> p(x)
    requires forall x :: x in b || x in c ==> !p(x)
    ensures Filter(a + b + c + d, p) == a + d
  {
    assert Filter(a, p) == a by { FilterAll(a, p); }
    assert Filter(a + b, p) == a by { FilterAppend(a, b, p); FilterNone(b, p); }
    assert Filter(a + b + c, p) == a by { FilterAppend(a + b, c, p); FilterNone(c, p); }
    FilterAppend(a + b + c, d, p);
    FilterAll(d, p);
  }

  /** A filter that keeps the inner parts and drops the outer ones. */
  lemma FilterInner<T>(a: seq<T>, b: seq<T>, c: seq<T>, d: seq<T>, p: T -> bool)
    requires forall x :: x in a || x in d ==> !p(x)
    requires forall x :: x in b || x in c ==> p(x)
    ensures Filter(a + b + c + d, p) == b + c
  {
    assert Filter(a, p) == [] by { FilterNone(a, p); }
    assert Filter(a + b, p) == b by { FilterAppend(a, b, p); FilterAll(b, p); }
    assert Filter(a + b + c, p) == b + c by { FilterAppend(a + b, c, p); FilterAll(c, p); }
    FilterAppend(a + b + c, d, p);
    FilterNone(d, p);
  }

  /** The residual split by side. */
  lemma ResidualSides(b: Book, mk: Market)
    requires b.Owned() && Sided(b, mk) && mk.base != mk.quote
    requires forall i :: i in b.residual ==> Shelved(i, mk)
    ensures Filter(FinalResidual(b, mk), IsBuy(mk.base, mk.quote)) == b.residual + b.buys
    ensures Filter(FinalResidual(b, mk), IsSell(mk.base, mk.quote)) == SellTail(b, mk) + b.sells
  {
    FilterOuter(b.residual, SellTail(b, mk), b.sells, b.buys, IsBuy(mk.base, mk.quote));
    FilterInner(b.residual, SellTail(b, mk), b.sells, b.buys, IsSell(mk.base, mk.quote));
  }

  /** Nothing that could still cross is left: the residual offers no base at all, or no buyer in
      it can afford a single unit at the clearing price. */
  lemma MaximalCrossing(base: Pubkey, quote: Pubkey, intents: seq<SwapIntent>, amm: Amm)
    ensures var r := Cleared(base, quote, intents, amm);
      || Sum(Filter(r.residual, IsSell(base, quote)), Amount()) == 0
      || (forall i :: i in r.residual && IsBuy(base, quote)(i) ==> QuoteToBase(i.inAmount, r.clearingPrice) == 0)
  {
    var mk := PairMarket(base, quote, intents, amm);
    var b := FinalBook(base, quote, intents, amm);
    var r := Cleared(base, quote, intents, amm);
    if base == quote {
      FilterNone(r.residual, IsSell(base, quote));
    } else {
      FinalBookKeeps(base, quote, intents, amm);
      FinalBookHolds(base, quote, intents, amm, iset{});
      NothingCrosses(b, mk);
    }
  }

  lemma NothingCrosses(b: Book, mk: Market)
    requires b.Owned() && Sided(b, mk) && mk.base != mk.quote && Stopped(b)
    requires forall i :: i in b.residual ==> Shelved(i, mk)
    requires (forall i :: i in b.residual ==> Dust(i.inAmount, mk.price)) || SellersSpent(b)
    ensures var r := FinalResidual(b, mk);
      || Sum(Filter(r, IsSell(mk.base, mk.quote)), Amount()) == 0
      || (forall i :: i in r && IsBuy(mk.base, mk.quote)(i) ==> Dust(i.inAmount, mk.price))
  {
    var r := FinalResidual(b, mk);
    ResidualSides(b, mk);
    if SellersSpent(b) {
      assert SellTail(b, mk) + b.sells == b.sells;
      AllZero(b.sells);
    } else {
      FilterMembers(r, IsBuy(mk.base, mk.quote));
      forall i | i in r && IsBuy(mk.base, mk.quote)(i) ensures Dust(i.inAmount, mk.price) {
        assert i in Filter(r, IsBuy(mk.base, mk.quote));
      }
    }
  }
}
