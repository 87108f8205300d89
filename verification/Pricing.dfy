/** On which side of the spot price a group clears. */
module Pricing {
  import opened Common
  import opened Arithmetic
  import opened Sequences
  import opened Matcher

  /** The base units that a group's buys ask for at the spot price, in full. */
  function Demand(base: Pubkey, quote: Pubkey, intents: seq<SwapIntent>, spot: u128): nat {
    Sum(Filter(intents, IsBuy(base, quote)), AtPrice(spot))
  }

  /** The base units that its sells offer, in full. */
  function Supply(base: Pubkey, quote: Pubkey, intents: seq<SwapIntent>): nat {
    Sum(Filter(intents, IsSell(base, quote)), Amount())
  }

  /** What a group asks the venue about: its net amount, no more than 64 bits, and the side it is on. */
  function NetAmount(demand: nat, supply: nat): u64 {
    var net := if demand > supply then demand - supply else supply - demand;
    if net < 0x1_0000_0000_0000_0000 then net else 0xFFFF_FFFF_FFFF_FFFF
  }

  function NetSide(demand: nat, supply: nat): Side {
    if demand > supply then Buy else Sell
  }

  /** A group clears at the mean, rounded down, of the spot price and the price after its net trade. Its
      totals are taken as they are while they fit 128 bits, and in any case modulo 2^128. */
  lemma ClearsAtMean(base: Pubkey, quote: Pubkey, intents: seq<SwapIntent>, amm: Amm)
    ensures var spot, price := amm.spot(base, quote), Cleared(base, quote, intents, amm).clearingPrice;
      var d, s := Demand(base, quote, intents, spot), Supply(base, quote, intents);
      && price == (spot + amm.post(base, quote, NetAmount(d % U128_SIZE, s % U128_SIZE),
                                   NetSide(d % U128_SIZE, s % U128_SIZE))) / 2
      && (d < U128_SIZE && s < U128_SIZE ==>
            price == (spot + amm.post(base, quote, NetAmount(d, s), NetSide(d, s))) / 2)
  {
    var spot := amm.spot(base, quote);
    MeanAfterTrade(base, quote, Demand(base, quote, intents, spot) % U128_SIZE,
                   Supply(base, quote, intents) % U128_SIZE, amm);
    SmallModulo(Demand(base, quote, intents, spot));
    SmallModulo(Supply(base, quote, intents));
  }

  lemma SmallModulo(x: nat)
    ensures x < U128_SIZE ==> x % U128_SIZE == x
  {
  }

  lemma MeanAfterTrade(base: Pubkey, quote: Pubkey, demanded: u128, offered: u128, amm: Amm)
    ensures ClearingPrice(base, quote, demanded, offered, amm)
         == (amm.spot(base, quote)
             + amm.post(base, quote, NetAmount(demanded, offered), NetSide(demanded, offered))) / 2
  {
  }

  /** A venue whose price does not fall when it is bought from, nor rise when it is sold to. */
  ghost predicate Responsive(amm: Amm, base: Pubkey, quote: Pubkey) {
    forall n: u64 :: amm.post(base, quote, n, Sell) <= amm.spot(base, quote) <= amm.post(base, quote, n, Buy)
  }

  /** Net demand clears at or above the spot price, and anything else at or below it. */
  ghost predicate FollowsPressure(base: Pubkey, quote: Pubkey, intents: seq<SwapIntent>, amm: Amm) {
    var spot, price := amm.spot(base, quote), PairMarket(base, quote, intents, amm).price;
    if Demand(base, quote, intents, spot) > Supply(base, quote, intents) then price >= spot else price <= spot
  }

  /** The 128-bit totals compare as the true ones do. */
  predicate TotalsCompare(demand: nat, supply: nat) {
    demand % U128_SIZE > supply % U128_SIZE <==> demand > supply
  }

  lemma SideOfSpot(base: Pubkey, quote: Pubkey, demanded: u128, offered: u128, amm: Amm)
    requires Responsive(amm, base, quote)
    ensures var price, spot := ClearingPrice(base, quote, demanded, offered, amm), amm.spot(base, quote);
      if demanded > offered then price >= spot else price <= spot
  {
    var net: u64 := Min(if demanded > offered then demanded - offered else offered - demanded, U64_MAX);
    assert amm.post(base, quote, net, Sell) <= amm.spot(base, quote) <= amm.post(base, quote, net, Buy);
  }

  /** A responsive venue that moves as far as it can: to zero when sold to, to the top when bought from. */
  function Steep(spot: u128): Amm {
    Amm((b: Pubkey, q: Pubkey) => spot,
        (b: Pubkey, q: Pubkey, n: u64, side: Side) => if side.Sell? then 0 else U128_SIZE - 1)
  }

  /** At a spot price this high, no amount of quote buys a unit of base. */
  lemma {:induction false} NothingAffordable(buys: seq<SwapIntent>, spot: u128)
    requires spot >= U128_SIZE - 2
    ensures Sum(buys, AtPrice(spot)) == 0
  {
    if buys != [] {
      NothingAffordable(buys[1..], spot);
      var r := QuoteToBase(buys[0].inAmount, spot);
      assert r * spot <= buys[0].inAmount * U64_SIZE <= U64_MAX * U64_SIZE < spot;
      if r > 0 {
        MulMonotone(spot, 1, r);
      }
    }
  }

  lemma {:induction false} NothingFree(buys: seq<SwapIntent>)
    ensures Sum(buys, AtPrice(0)) == 0
  {
    if buys != [] {
      NothingFree(buys[1..]);
    }
  }

  /** Where the totals compare wrongly, the steep venue clears on the wrong side. */
  lemma SteepShows(base: Pubkey, quote: Pubkey, intents: seq<SwapIntent>, spot: u128)
    requires !TotalsCompare(Demand(base, quote, intents, spot), Supply(base, quote, intents))
    ensures Responsive(Steep(spot), base, quote) && !FollowsPressure(base, quote, intents, Steep(spot))
  {
    var buys := Filter(intents, IsBuy(base, quote));
    if spot == 0 {
      NothingFree(buys);
    } else if spot >= U128_SIZE - 2 {
      NothingAffordable(buys, spot);
    }
  }

  lemma SmallTotals(demand: u128, supply: u128)
    ensures TotalsCompare(demand, supply)
  {
  }

  lemma RightSide(base: Pubkey, quote: Pubkey, intents: seq<SwapIntent>, amm: Amm)
    requires Responsive(amm, base, quote)
    requires TotalsCompare(Demand(base, quote, intents, amm.spot(base, quote)), Supply(base, quote, intents))
    ensures FollowsPressure(base, quote, intents, amm)
  {
    var demand, supply := Demand(base, quote, intents, amm.spot(base, quote)), Supply(base, quote, intents);
    SideOfSpot(base, quote, demand % U128_SIZE, supply % U128_SIZE, amm);
  }

  /** Whatever the responsive venue, a group's price is on the side of spot that its net demand is on,
      exactly when its demand and supply compare the same after wrapping at 128 bits. */
  lemma PriceFollowsPressureIff(base: Pubkey, quote: Pubkey, intents: seq<SwapIntent>, spot: u128)
    ensures (forall amm: Amm :: amm.spot(base, quote) == spot && Responsive(amm, base, quote) ==>
               FollowsPressure(base, quote, intents, amm))
       <==> TotalsCompare(Demand(base, quote, intents, spot), Supply(base, quote, intents))
  {
    var demand, supply := Demand(base, quote, intents, spot), Supply(base, quote, intents);
    if TotalsCompare(demand, supply) {
      forall amm: Amm | amm.spot(base, quote) == spot && Responsive(amm, base, quote)
        ensures FollowsPressure(base, quote, intents, amm)
      {
        RightSide(base, quote, intents, amm);
      }
    } else {
      SteepShows(base, quote, intents, spot);
      assert Steep(spot).spot(base, quote) == spot;
    }
  }

  /** In particular while both totals fit 128 bits. */
  lemma {:induction false} PriceFollowsPressure(base: Pubkey, quote: Pubkey, intents: seq<SwapIntent>, amm: Amm)
    requires Responsive(amm, base, quote)
    requires Demand(base, quote, intents, amm.spot(base, quote)) < U128_SIZE
    requires Supply(base, quote, intents) < U128_SIZE
    ensures FollowsPressure(base, quote, intents, amm)
  {
    SmallTotals(Demand(base, quote, intents, amm.spot(base, quote)), Supply(base, quote, intents));
    RightSide(base, quote, intents, amm);
  }

  lemma {:induction false} SupplyBelow(sells: seq<SwapIntent>)
    ensures Sum(sells, Amount()) <= |sells| * U64_MAX
  {
    if sells != [] {
      SupplyBelow(sells[1..]);
    }
  }

  /** Supply fits in any group of up to 2^64 intents, so only demand can wrap. */
  lemma SupplyFits(base: Pubkey, quote: Pubkey, intents: seq<SwapIntent>)
    requires |intents| <= U64_SIZE
    ensures Supply(base, quote, intents) < U128_SIZE
  {
    var sells := Filter(intents, IsSell(base, quote));
    FilterMembers(intents, IsSell(base, quote));
    SupplyBelow(sells);
  }

  /** Two buys of 2^63 at the lowest price wrap to no demand at all, and clear below spot. */
  lemma WrappedDemandClearsLow(signer: Pubkey, minOut: u64, nonce: u64)
    ensures var buy := SwapIntent(signer, 2, U64_SIZE / 2, 1, minOut, nonce);
      && Responsive(Steep(1), 1, 2)
      && Demand(1, 2, [buy, buy], 1) == U128_SIZE && Supply(1, 2, [buy, buy]) == 0
      && PairMarket(1, 2, [buy, buy], Steep(1)).price == 0 < Steep(1).spot(1, 2)
  {
    var buy := SwapIntent(signer, 2, U64_SIZE / 2, 1, minOut, nonce);
    FilterAll([buy, buy], IsBuy(1, 2));
    FilterNone([buy, buy], IsSell(1, 2));
    assert Sum([buy, buy], AtPrice(1)) == AtPrice(1)(buy) + (AtPrice(1)(buy) + Sum([], AtPrice(1))) by {
      assert [buy, buy][1..] == [buy] && [buy][1..] == [];
    }
  }
}
