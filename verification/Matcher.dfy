/** The batch matcher: classification, fixed-point prices, and the clearing of one pair. */
module Matcher {
  import opened Common
  import opened Arithmetic
  import opened Sequences

  datatype SwapIntent = SwapIntent(
    signer: Pubkey, inMint: Pubkey, inAmount: u64, outMint: Pubkey, minOut: u64, nonce: u64)

  datatype Side = Buy | Sell

  datatype Match = Match(buyer: Pubkey, seller: Pubkey, baseAmount: u64, quoteAmount: u64)

  datatype ClearingResult = ClearingResult(
    baseMint: Pubkey, quoteMint: Pubkey, clearingPrice: u128,
    matches: seq<Match>, residual: seq<SwapIntent>)

  /** The liquidity venue, known only through its two pure price queries. */
  datatype Amm = Amm(spot: (Pubkey, Pubkey) -> u128, post: (Pubkey, Pubkey, u64, Side) -> u128)

  /** The mint pair and uniform price at which one group is crossed. */
  datatype Market = Market(base: Pubkey, quote: Pubkey, price: u128)

  // ---------- classification ----------

  function ClassifyPair(inMint: Pubkey, outMint: Pubkey, quotes: set<Pubkey>): (Pubkey, Pubkey) {
    var inQuote := inMint in quotes;
    var outQuote := outMint in quotes;
    if inQuote && !outQuote then (outMint, inMint)
    else if !inQuote && outQuote then (inMint, outMint)
    else if inMint < outMint then (inMint, outMint)
    else (outMint, inMint)
  }

  function IsBuy(base: Pubkey, quote: Pubkey): SwapIntent -> bool {
    (i: SwapIntent) => i.outMint == base && i.inMint == quote
  }

  /** The second branch of the partition: a sell is tested only after a buy was ruled out. */
  function IsSell(base: Pubkey, quote: Pubkey): SwapIntent -> bool {
    (i: SwapIntent) => !(i.outMint == base && i.inMint == quote) && i.inMint == base && i.outMint == quote
  }

  // ---------- Q64.64 arithmetic ----------

  function QuoteToBase(quoteAmount: u64, price: u128): (r: u128)
    ensures price > 0 ==> r * price <= quoteAmount * U64_SIZE < (r + 1) * price
    ensures price == 0 ==> r == 0
  {
    if price == 0 then 0
    else
      DivisionBounds(quoteAmount * U64_SIZE, price);
      quoteAmount * U64_SIZE / price
  }

  /** Rounds up; the multiplication saturates at the top of a u128. */
  function BaseToQuoteCeil(baseAmount: u64, price: u128): (r: u128)
    ensures baseAmount * price < U128_SIZE ==>
              baseAmount * price <= r * U64_SIZE < baseAmount * price + U64_SIZE
    ensures baseAmount * price >= U128_SIZE ==> r == U64_SIZE
  {
    var numerator := Min(baseAmount * price, U128_SIZE - 1);
    var whole := numerator / U64_SIZE;
    var remainder := numerator % U64_SIZE;
    Min(whole + (if remainder != 0 then 1 else 0), U128_SIZE - 1)
  }

  function Midpoint(a: u128, b: u128): (r: u128)
    ensures r == (a + b) / 2
  {
    a / 2 + b / 2 + (a % 2 + b % 2) / 2
  }

  // ---------- one pair's order book ----------

  /** Largest amount first, signer ascending among equal amounts; nothing else is compared. */
  function BySize(): (SwapIntent, SwapIntent) -> bool {
    (a: SwapIntent, b: SwapIntent) => a.inAmount > b.inAmount || (a.inAmount == b.inAmount && a.signer <= b.signer)
  }

  /** The loop's variables: the two iterators, the two carried remainders with their owners,
      and the two output vectors. */
  datatype Book = Book(
    buys: seq<SwapIntent>, sells: seq<SwapIntent>,
    buyRem: u64, sellRem: u64, buyer: Option<Pubkey>, seller: Option<Pubkey>,
    matches: seq<Match>, residual: seq<SwapIntent>)
  {
    /** A remainder always has a known owner, so the source's `expect` calls cannot fail. */
    predicate Owned() {
      && (buyRem > 0 ==> buyer.Some?)
      && (sellRem > 0 ==> seller.Some?)
    }
  }

  datatype Progress = More(book: Book) | Done(book: Book)

  function Leftover(signer: Pubkey, inMint: Pubkey, amount: u64, outMint: Pubkey): SwapIntent {
    SwapIntent(signer, inMint, amount, outMint, 0, 0)
  }

  /** The current buyer's remainder goes to the residual. */
  function ShelveBuyer(b: Book, mk: Market): Book
    requires b.buyer.Some?
  {
    b.(residual := b.residual + [Leftover(b.buyer.value, mk.quote, b.buyRem, mk.base)], buyRem := 0)
  }

  function Capacity(quoteAmount: u64, price: u128): u64 {
    Min(QuoteToBase(quoteAmount, price), U64_MAX)
  }

  function SaturatingSub(a: u64, b: u64): u64 {
    if b <= a then a - b else 0
  }

  function Cross(b: Book, mk: Market): Book
    requires b.buyer.Some? && b.seller.Some?
  {
    var crossBase := Min(Capacity(b.buyRem, mk.price), b.sellRem);
    if crossBase == 0 then ShelveBuyer(b, mk)
    else
      var crossQuote := Min(Min(BaseToQuoteCeil(crossBase, mk.price), b.buyRem), U64_MAX);
      if crossQuote == 0 then ShelveBuyer(b, mk)
      else
        b.(matches := b.matches + [Match(b.buyer.value, b.seller.value, crossBase, crossQuote)],
           buyRem := SaturatingSub(b.buyRem, crossQuote),
           sellRem := SaturatingSub(b.sellRem, crossBase))
  }

  function TakeBuy(b: Book): Book
    requires b.buyRem == 0 ==> b.buys != []
  {
    if b.buyRem != 0 then b
    else b.(buyRem := b.buys[0].inAmount, buyer := Some(b.buys[0].signer), buys := b.buys[1..])
  }

  function TakeSell(b: Book): Book
    requires b.sellRem == 0 ==> b.sells != []
  {
    if b.sellRem != 0 then b
    else b.(sellRem := b.sells[0].inAmount, seller := Some(b.sells[0].signer), sells := b.sells[1..])
  }

  /** One turn of the matching loop. */
  function Step(b: Book, mk: Market): Progress
    requires b.Owned()
  {
    if b.buyRem == 0 && b.buys == [] then Done(b)
    else
      var c := TakeBuy(b);
      if c.sellRem == 0 && c.sells == [] then Done(if c.buyRem > 0 then ShelveBuyer(c, mk) else c)
      else More(Cross(TakeSell(c), mk))
  }

  /** Every turn takes an intent or spends some of the current buyer's quote. */
  lemma StepAdvances(b: Book, mk: Market)
    requires b.Owned() && Step(b, mk).More?
    ensures var n := Step(b, mk).book;
      && n.Owned()
      && |n.buys| + |n.sells| <= |b.buys| + |b.sells|
      && (|n.buys| + |n.sells| == |b.buys| + |b.sells| ==> n.buyRem < b.buyRem)
  {
  }

  function Run(b: Book, mk: Market): Book
    requires b.Owned()
    decreases |b.buys| + |b.sells|, b.buyRem
  {
    match Step(b, mk)
    case Done(n) => n
    case More(n) => StepAdvances(b, mk); Run(n, mk)
  }

  /** One turn, and the rest of the run. */
  lemma RunTurn(b: Book, mk: Market)
    requires b.Owned()
    ensures var n := Step(b, mk).book;
      if Step(b, mk).Done? then Run(b, mk) == n
      else
        && n.Owned() && Run(b, mk) == Run(n, mk)
        && |n.buys| + |n.sells| <= |b.buys| + |b.sells|
        && (|n.buys| + |n.sells| == |b.buys| + |b.sells| ==> n.buyRem < b.buyRem)
  {
    if Step(b, mk).More? {
      StepAdvances(b, mk);
    }
  }

  function Opening(buys: seq<SwapIntent>, sells: seq<SwapIntent>): Book {
    Book(buys, sells, 0, 0, None, None, [], [])
  }

  /** The unsold part of the current seller. */
  function SellTail(b: Book, mk: Market): seq<SwapIntent>
    requires b.Owned()
  {
    if b.sellRem > 0 then [Leftover(b.seller.value, mk.base, b.sellRem, mk.quote)] else []
  }

  /** What the residual holds once the loop has stopped. */
  function FinalResidual(b: Book, mk: Market): seq<SwapIntent>
    requires b.Owned()
  {
    b.residual + SellTail(b, mk) + b.sells + b.buys
  }

  // ---------- the price ----------

  /** A u128 accumulation, wrapping as release arithmetic does. */
  function WrappingSum<T>(s: seq<T>, w: T -> nat): u128 {
    Sum(s, w) % U128_SIZE
  }

  function AtPrice(price: u128): SwapIntent -> nat {
    (i: SwapIntent) => QuoteToBase(i.inAmount, price)
  }

  function Amount(): SwapIntent -> nat {
    (i: SwapIntent) => i.inAmount
  }

  function ClearingPrice(base: Pubkey, quote: Pubkey, demanded: u128, offered: u128, amm: Amm): u128 {
    var pre := amm.spot(base, quote);
    var net := if demanded > offered then demanded - offered else offered - demanded;
    var side := if demanded > offered then Buy else Sell;
    Midpoint(pre, amm.post(base, quote, Min(net, U64_MAX), side))
  }

  // ---------- clearing a pair ----------

  function Buys(base: Pubkey, quote: Pubkey, intents: seq<SwapIntent>): seq<SwapIntent> {
    SortBy(Filter(intents, IsBuy(base, quote)), BySize())
  }

  function Sells(base: Pubkey, quote: Pubkey, intents: seq<SwapIntent>): seq<SwapIntent> {
    SortBy(Filter(intents, IsSell(base, quote)), BySize())
  }

  function PairMarket(base: Pubkey, quote: Pubkey, intents: seq<SwapIntent>, amm: Amm): Market {
    var demanded := WrappingSum(Filter(intents, IsBuy(base, quote)), AtPrice(amm.spot(base, quote)));
    var offered := WrappingSum(Filter(intents, IsSell(base, quote)), Amount());
    Market(base, quote, ClearingPrice(base, quote, demanded, offered, amm))
  }

  function FinalBook(base: Pubkey, quote: Pubkey, intents: seq<SwapIntent>, amm: Amm): Book {
    Run(Opening(Buys(base, quote, intents), Sells(base, quote, intents)),
        PairMarket(base, quote, intents, amm))
  }

  lemma {:induction false} RunStaysOwned(b: Book, mk: Market)
    requires b.Owned()
    ensures Run(b, mk).Owned()
    decreases |b.buys| + |b.sells|, b.buyRem
  {
    if Step(b, mk).More? {
      StepAdvances(b, mk);
      RunStaysOwned(Step(b, mk).book, mk);
    }
  }

  function Cleared(base: Pubkey, quote: Pubkey, intents: seq<SwapIntent>, amm: Amm): ClearingResult {
    var mk := PairMarket(base, quote, intents, amm);
    var opening := Opening(Buys(base, quote, intents), Sells(base, quote, intents));
    RunStaysOwned(opening, mk);
    var last := Run(opening, mk);
    ClearingResult(base, quote, mk.price, last.matches, FinalResidual(last, mk))
  }

  method ClearPair(base: Pubkey, quote: Pubkey, intents: seq<SwapIntent>, amm: Amm)
    returns (result: Option<ClearingResult>)
    ensures result == if intents == [] then None else Some(Cleared(base, quote, intents, amm))
  {
    if intents == [] {
      return None;
    }
    var buys: seq<SwapIntent>, sells: seq<SwapIntent> := [], [];
    for i := 0 to |intents|
      invariant buys == Filter(intents[..i], IsBuy(base, quote))
      invariant sells == Filter(intents[..i], IsSell(base, quote))
    {
      assert intents[..i + 1] == intents[..i] + [intents[i]];
      FilterPush(intents[..i], intents[i], IsBuy(base, quote));
      FilterPush(intents[..i], intents[i], IsSell(base, quote));
      var intent := intents[i];
      if intent.outMint == base && intent.inMint == quote {
        buys := buys + [intent];
      } else if intent.inMint == base && intent.outMint == quote {
        sells := sells + [intent];
      }
    }
    assert intents[..|intents|] == intents;

    var demanded := WrappingSum(buys, AtPrice(amm.spot(base, quote)));
    var offered := WrappingSum(sells, Amount());
    var price := ClearingPrice(base, quote, demanded, offered, amm);
    buys := SortBy(buys, BySize());
    sells := SortBy(sells, BySize());

    var matches, residual := CrossBook(buys, sells, Market(base, quote, price));
    result := Some(ClearingResult(base, quote, price, matches, residual));
  }

  /** The matching loop and the three residual tails. */
  method CrossBook(buys: seq<SwapIntent>, sells: seq<SwapIntent>, mk: Market)
    returns (matches: seq<Match>, residual: seq<SwapIntent>)
    ensures Run(Opening(buys, sells), mk).Owned()
    ensures matches == Run(Opening(buys, sells), mk).matches
    ensures residual == FinalResidual(Run(Opening(buys, sells), mk), mk)
  {
    var buyIter, sellIter := buys, sells;
    var buyRem: u64, sellRem: u64 := 0, 0;
    var buyer: Option<Pubkey>, seller: Option<Pubkey> := None, None;
    matches, residual := [], [];
    ghost var last := Run(Opening(buys, sells), mk);
    RunStaysOwned(Opening(buys, sells), mk);

    while true
      invariant Book(buyIter, sellIter, buyRem, sellRem, buyer, seller, matches, residual).Owned()
      invariant last == Run(Book(buyIter, sellIter, buyRem, sellRem, buyer, seller, matches, residual), mk)
      decreases |buyIter| + |sellIter|, buyRem
    {
      RunTurn(Book(buyIter, sellIter, buyRem, sellRem, buyer, seller, matches, residual), mk);
      if buyRem == 0 {
        if buyIter == [] {
          break;
        }
        buyRem, buyer, buyIter := buyIter[0].inAmount, Some(buyIter[0].signer), buyIter[1..];
      }
      if sellRem == 0 {
        if sellIter == [] {
          if buyRem > 0 {
            residual := residual + [Leftover(buyer.value, mk.quote, buyRem, mk.base)];
          }
          break;
        }
        sellRem, seller, sellIter := sellIter[0].inAmount, Some(sellIter[0].signer), sellIter[1..];
      }
      var crossBase := Min(Capacity(buyRem, mk.price), sellRem);
      if crossBase == 0 {
        residual := residual + [Leftover(buyer.value, mk.quote, buyRem, mk.base)];
        buyRem := 0;
        continue;
      }
      var crossQuote := Min(Min(BaseToQuoteCeil(crossBase, mk.price), buyRem), U64_MAX);
      if crossQuote == 0 {
        residual := residual + [Leftover(buyer.value, mk.quote, buyRem, mk.base)];
        buyRem := 0;
        continue;
      }
      matches := matches + [Match(buyer.value, seller.value, crossBase, crossQuote)];
      buyRem := SaturatingSub(buyRem, crossQuote);
      sellRem := SaturatingSub(sellRem, crossBase);
    }
    if sellRem > 0 {
      residual := residual + [Leftover(seller.value, mk.base, sellRem, mk.quote)];
    }
    residual := residual + sellIter + buyIter;
  }
}
