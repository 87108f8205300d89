/** How far the outcome of a group depends on the order in which its intents arrive. */
module Replay {
  import opened Common
  import opened Sequences
  import opened Matcher
  import opened MatcherLaws

  // ---------- what the matcher never looks at ----------

  function Erase(i: SwapIntent): SwapIntent {
    i.(minOut := 0, nonce := 0)
  }

  function EraseAll(s: seq<SwapIntent>): (r: seq<SwapIntent>)
    ensures |r| == |s| && forall k :: 0 <= k < |s| ==> r[k] == Erase(s[k])
  {
    seq(|s|, k requires 0 <= k < |s| => Erase(s[k]))
  }

  lemma EraseAppend(a: seq<SwapIntent>, b: seq<SwapIntent>)
    ensures EraseAll(a + b) == EraseAll(a) + EraseAll(b)
  {
  }

  function EraseBook(b: Book): Book {
    b.(buys := EraseAll(b.buys), sells := EraseAll(b.sells), residual := EraseAll(b.residual))
  }

  lemma EraseTakes(b: Book)
    ensures b.buyRem != 0 || b.buys != [] ==> TakeBuy(EraseBook(b)) == EraseBook(TakeBuy(b))
    ensures b.sellRem != 0 || b.sells != [] ==> TakeSell(EraseBook(b)) == EraseBook(TakeSell(b))
  {
  }

  lemma EraseShelve(b: Book, mk: Market)
    requires b.buyer.Some?
    ensures ShelveBuyer(EraseBook(b), mk) == EraseBook(ShelveBuyer(b, mk))
  {
    EraseAppend(b.residual, [Leftover(b.buyer.value, mk.quote, b.buyRem, mk.base)]);
  }

  lemma EraseStep(b: Book, mk: Market)
    requires b.Owned()
    ensures var n, e := Step(b, mk), Step(EraseBook(b), mk);
      e == if n.Done? then Done(EraseBook(n.book)) else More(EraseBook(n.book))
  {
    if b.buyRem != 0 || b.buys != [] {
      EraseTakes(b);
      var c := TakeBuy(b);
      if c.sellRem == 0 && c.sells == [] {
        EraseShelve(c, mk);
      } else {
        EraseTakes(c);
        EraseShelve(TakeSell(c), mk);
      }
    }
  }

  /** Running without `min_out` and `nonce` gives the same run without them. */
  lemma {:induction false} EraseRun(b: Book, mk: Market)
    requires b.Owned()
    ensures Run(EraseBook(b), mk) == EraseBook(Run(b, mk))
    decreases |b.buys| + |b.sells|, b.buyRem
  {
    EraseStep(b, mk);
    if Step(b, mk).More? {
      StepAdvances(b, mk);
      EraseRun(Step(b, mk).book, mk);
    }
  }

  // ---------- the sorted sides of a permuted group ----------

  lemma EraseWithout(s: seq<SwapIntent>, k: nat)
    requires k < |s|
    ensures multiset(EraseAll(s)) == multiset(EraseAll(Without(s, k))) + multiset{Erase(s[k])}
  {
    var e := EraseAll(s);
    assert e == e[..k] + [e[k]] + e[k + 1..];
    assert EraseAll(Without(s, k)) == e[..k] + e[k + 1..];
  }

  lemma {:induction false} ErasePermuted(a: seq<SwapIntent>, b: seq<SwapIntent>)
    requires multiset(a) == multiset(b)
    ensures multiset(EraseAll(a)) == multiset(EraseAll(b))
  {
    if a == [] {
      assert |multiset(b)| == 0;
    } else {
      var k := Uncons(a, b);
      ErasePermuted(a[1..], Without(b, k));
      EraseWithout(b, k);
      assert EraseAll(a) == [Erase(a[0])] + EraseAll(a[1..]);
    }
  }

  lemma EraseKeepsSorted(s: seq<SwapIntent>)
    requires Sorted(s, BySize())
    ensures Sorted(EraseAll(s), BySize())
  {
    forall i, j | 0 <= i < j < |s| ensures BySize()(EraseAll(s)[i], EraseAll(s)[j]) {
      assert BySize()(s[i], s[j]);
    }
  }

  /** Two sorted arrangements of one side agree in everything that is compared. */
  lemma SameSide(a: seq<SwapIntent>, b: seq<SwapIntent>, inMint: Pubkey, outMint: Pubkey)
    requires multiset(a) == multiset(b)
    requires Sorted(a, BySize()) && Sorted(b, BySize())
    requires forall i :: i in a ==> i.inMint == inMint && i.outMint == outMint
    ensures EraseAll(a) == EraseAll(b)
  {
    ErasePermuted(a, b);
    EraseKeepsSorted(a);
    EraseKeepsSorted(b);
    SortedUnique(EraseAll(a), EraseAll(b), BySize());
  }

  lemma SidesPermuted(base: Pubkey, quote: Pubkey, a: seq<SwapIntent>, b: seq<SwapIntent>)
    requires multiset(a) == multiset(b)
    ensures multiset(Buys(base, quote, a)) == multiset(Buys(base, quote, b))
    ensures multiset(Sells(base, quote, a)) == multiset(Sells(base, quote, b))
    ensures EraseAll(Buys(base, quote, a)) == EraseAll(Buys(base, quote, b))
    ensures EraseAll(Sells(base, quote, a)) == EraseAll(Sells(base, quote, b))
  {
    BySizeIsPreorder();
    FilterPermuted(a, b, IsBuy(base, quote));
    FilterPermuted(a, b, IsSell(base, quote));
    SortBySorts(Filter(a, IsBuy(base, quote)), BySize());
    SortBySorts(Filter(b, IsBuy(base, quote)), BySize());
    SortBySorts(Filter(a, IsSell(base, quote)), BySize());
    SortBySorts(Filter(b, IsSell(base, quote)), BySize());
    SidesAreSided(base, quote, a);
    SameSide(Buys(base, quote, a), Buys(base, quote, b), quote, base);
    SameSide(Sells(base, quote, a), Sells(base, quote, b), base, quote);
  }

  lemma MarketPermuted(base: Pubkey, quote: Pubkey, a: seq<SwapIntent>, b: seq<SwapIntent>, amm: Amm)
    requires multiset(a) == multiset(b)
    ensures PairMarket(base, quote, a, amm) == PairMarket(base, quote, b, amm)
  {
    FilterPermuted(a, b, IsBuy(base, quote));
    FilterPermuted(a, b, IsSell(base, quote));
    SumPermuted(Filter(a, IsBuy(base, quote)), Filter(b, IsBuy(base, quote)), AtPrice(amm.spot(base, quote)));
    SumPermuted(Filter(a, IsSell(base, quote)), Filter(b, IsSell(base, quote)), Amount());
  }

  lemma FinalBookPermuted(base: Pubkey, quote: Pubkey, a: seq<SwapIntent>, b: seq<SwapIntent>, amm: Amm)
    requires multiset(a) == multiset(b)
    ensures EraseBook(FinalBook(base, quote, a, amm)) == EraseBook(FinalBook(base, quote, b, amm))
  {
    SidesPermuted(base, quote, a, b);
    MarketPermuted(base, quote, a, b, amm);
    var mk := PairMarket(base, quote, a, amm);
    EraseRun(Opening(Buys(base, quote, a), Sells(base, quote, a)), mk);
    EraseRun(Opening(Buys(base, quote, b), Sells(base, quote, b)), mk);
  }

  // ---------- replay ----------

  function EraseResult(r: ClearingResult): ClearingResult {
    r.(residual := EraseAll(r.residual))
  }

  lemma EraseCleared(base: Pubkey, quote: Pubkey, intents: seq<SwapIntent>, amm: Amm)
    ensures var mk := PairMarket(base, quote, intents, amm);
      var e := EraseBook(FinalBook(base, quote, intents, amm));
      && e.Owned()
      && EraseResult(Cleared(base, quote, intents, amm))
         == ClearingResult(base, quote, mk.price, e.matches, FinalResidual(e, mk))
  {
    var mk := PairMarket(base, quote, intents, amm);
    var b := FinalBook(base, quote, intents, amm);
    FinalBookKeeps(base, quote, intents, amm);
    EraseAppend(b.residual + SellTail(b, mk) + b.sells, b.buys);
    EraseAppend(b.residual + SellTail(b, mk), b.sells);
    EraseAppend(b.residual, SellTail(b, mk));
    assert EraseAll(SellTail(b, mk)) == SellTail(b, mk);
  }

  /** However the intents of a group arrive, the clearing price and the matches are the same, and
      so is the residual except for `min_out` and `nonce`. */
  lemma ReplayUpToTies(base: Pubkey, quote: Pubkey, a: seq<SwapIntent>, b: seq<SwapIntent>, amm: Amm)
    requires multiset(a) == multiset(b)
    ensures EraseResult(Cleared(base, quote, a, amm)) == EraseResult(Cleared(base, quote, b, amm))
  {
    EraseCleared(base, quote, a, amm);
    EraseCleared(base, quote, b, amm);
    FinalBookPermuted(base, quote, a, b, amm);
    MarketPermuted(base, quote, a, b, amm);
  }

  /** Every whole intent is told apart from the others of its side by amount and signer. */
  ghost predicate TieFree(side: seq<SwapIntent>, whole: seq<SwapIntent>) {
    forall i, j :: i in whole && j in side && i.inAmount == j.inAmount && i.signer == j.signer ==> i == j
  }

  /** No intent handed back whole ties with a different intent of its side. */
  ghost predicate ResidualTieFree(base: Pubkey, quote: Pubkey, intents: seq<SwapIntent>, amm: Amm) {
    var b := FinalBook(base, quote, intents, amm);
    && TieFree(Buys(base, quote, intents), b.buys)
    && TieFree(Sells(base, quote, intents), b.sells)
  }

  ghost predicate Tail(rest: seq<SwapIntent>, side: seq<SwapIntent>) {
    |rest| <= |side| && rest == side[|side| - |rest|..]
  }

  /** Two tails of permuted sides with equal erasure are equal when the first has no ties. */
  lemma TailsAgree(a: seq<SwapIntent>, b: seq<SwapIntent>, restA: seq<SwapIntent>, restB: seq<SwapIntent>)
    requires multiset(a) == multiset(b)
    requires Tail(restB, b)
    requires EraseAll(restA) == EraseAll(restB) && TieFree(a, restA)
    ensures restA == restB
  {
    forall k | 0 <= k < |restA| ensures restA[k] == restB[k] {
      assert Erase(restA[k]) == EraseAll(restA)[k] == Erase(restB[k]);
      assert restB[k] in b && restB[k] in multiset(b);
    }
  }

  lemma ShelvedErased(s: seq<SwapIntent>, mk: Market)
    requires forall i :: i in s ==> Shelved(i, mk)
    ensures EraseAll(s) == s
  {
    forall k | 0 <= k < |s| ensures Erase(s[k]) == s[k] {
      assert Shelved(s[k], mk);
    }
  }

  lemma BooksAgree(
    x: Book, y: Book, mk: Market,
    buysX: seq<SwapIntent>, sellsX: seq<SwapIntent>, buysY: seq<SwapIntent>, sellsY: seq<SwapIntent>)
    requires Inv(x, mk, buysX, sellsX) && Inv(y, mk, buysY, sellsY)
    requires multiset(buysX) == multiset(buysY) && multiset(sellsX) == multiset(sellsY)
    requires EraseBook(x) == EraseBook(y)
    requires TieFree(buysX, x.buys) && TieFree(sellsX, x.sells)
    ensures x == y
  {
    TailsAgree(buysX, buysY, x.buys, y.buys);
    TailsAgree(sellsX, sellsY, x.sells, y.sells);
    ShelvedErased(x.residual, mk);
    ShelvedErased(y.residual, mk);
  }

  lemma TieFreeReplay(base: Pubkey, quote: Pubkey, a: seq<SwapIntent>, b: seq<SwapIntent>, amm: Amm)
    requires multiset(a) == multiset(b) && ResidualTieFree(base, quote, a, amm)
    ensures Cleared(base, quote, a, amm) == Cleared(base, quote, b, amm)
  {
    MarketPermuted(base, quote, a, b, amm);
    assert FinalBook(base, quote, a, amm) == FinalBook(base, quote, b, amm) by {
      FinalBookPermuted(base, quote, a, b, amm);
      SidesPermuted(base, quote, a, b);
      FinalBookKeeps(base, quote, a, amm);
      FinalBookKeeps(base, quote, b, amm);
      BooksAgree(FinalBook(base, quote, a, amm), FinalBook(base, quote, b, amm), PairMarket(base, quote, a, amm),
                 Buys(base, quote, a), Sells(base, quote, a), Buys(base, quote, b), Sells(base, quote, b));
    }
  }

  // ---------- ties that show ----------

  function Swap(s: seq<SwapIntent>, m: nat, j: nat): seq<SwapIntent>
    requires m < |s| && j < |s|
  {
    s[m := s[j]][j := s[m]]
  }

  lemma SwapTied(s: seq<SwapIntent>, m: nat, j: nat)
    requires m < |s| && j < |s| && Sorted(s, BySize())
    requires Erase(s[m]) == Erase(s[j])
    ensures Sorted(Swap(s, m, j), BySize()) && multiset(Swap(s, m, j)) == multiset(s)
    ensures EraseAll(Swap(s, m, j)) == EraseAll(s)
  {
    var t := Swap(s, m, j);
    forall x, y | 0 <= x < y < |t| ensures BySize()(t[x], t[y]) {
      assert BySize()(s[x], s[y]);
      assert Erase(t[x]) == Erase(s[x]) && Erase(t[y]) == Erase(s[y]);
    }
  }

  /** A group that arrives as its sorted sides is cleared with exactly those sides. */
  lemma SortedArrival(base: Pubkey, quote: Pubkey, buys: seq<SwapIntent>, sells: seq<SwapIntent>)
    requires Sorted(buys, BySize()) && Sorted(sells, BySize())
    requires forall i :: i in buys ==> IsBuy(base, quote)(i)
    requires forall i :: i in sells ==> IsSell(base, quote)(i)
    ensures Buys(base, quote, buys + sells) == buys
    ensures Sells(base, quote, buys + sells) == sells
  {
    assert Filter(buys + sells, IsBuy(base, quote)) == buys by {
      FilterAppend(buys, sells, IsBuy(base, quote));
      FilterAll(buys, IsBuy(base, quote));
      FilterNone(sells, IsBuy(base, quote));
    }
    assert Filter(buys + sells, IsSell(base, quote)) == sells by {
      FilterAppend(buys, sells, IsSell(base, quote));
      FilterNone(buys, IsSell(base, quote));
      FilterAll(sells, IsSell(base, quote));
    }
    SortBySorted(buys, BySize());
    SortBySorted(sells, BySize());
  }

  lemma {:induction false} SidesMakeGroup(base: Pubkey, quote: Pubkey, intents: seq<SwapIntent>)
    requires forall i :: i in intents ==> IsBuy(base, quote)(i) || IsSell(base, quote)(i)
    ensures multiset(Filter(intents, IsBuy(base, quote))) + multiset(Filter(intents, IsSell(base, quote)))
         == multiset(intents)
  {
    if intents != [] {
      SidesMakeGroup(base, quote, intents[1..]);
      assert intents == [intents[0]] + intents[1..];
    }
  }

  lemma SameParts<T>(a: seq<T>, a': seq<T>, b: seq<T>, b': seq<T>, c: seq<T>, c': seq<T>)
    requires |a| == |a'| && |b| == |b'| && |c| == |c'|
    requires a + b + c == a' + b' + c'
    ensures b == b' && c == c'
  {
    assert b == (a + b + c)[|a|..|a| + |b|] == (a' + b' + c')[|a|..|a| + |b|] == b';
    assert c == (a + b + c)[|a| + |b|..] == (a' + b' + c')[|a| + |b|..] == c';
  }

  /** Equal residuals have equal whole tails. */
  lemma TailsShow(x: Book, y: Book, mk: Market)
    requires x.Owned() && y.Owned() && EraseBook(x) == EraseBook(y)
    requires FinalResidual(x, mk) == FinalResidual(y, mk)
    ensures x.buys == y.buys && x.sells == y.sells
  {
    assert |x.buys| == |EraseBook(x).buys| == |y.buys|;
    assert |x.sells| == |EraseBook(x).sells| == |y.sells|;
    assert |x.residual| == |EraseBook(x).residual| == |y.residual|;
    SameParts(x.residual + SellTail(x, mk), y.residual + SellTail(y, mk), x.sells, y.sells, x.buys, y.buys);
  }

  lemma SortedSides(base: Pubkey, quote: Pubkey, intents: seq<SwapIntent>)
    ensures Sorted(Buys(base, quote, intents), BySize()) && Sorted(Sells(base, quote, intents), BySize())
    ensures multiset(Buys(base, quote, intents)) == multiset(Filter(intents, IsBuy(base, quote)))
    ensures multiset(Sells(base, quote, intents)) == multiset(Filter(intents, IsSell(base, quote)))
  {
    BySizeIsPreorder();
    SortBySorts(Filter(intents, IsBuy(base, quote)), BySize());
    SortBySorts(Filter(intents, IsSell(base, quote)), BySize());
  }

  /** The group arriving as other arrangements of its two sides. */
  lemma Rearrange(base: Pubkey, quote: Pubkey, intents: seq<SwapIntent>,
                  buys: seq<SwapIntent>, sells: seq<SwapIntent>)
    requires forall i :: i in intents ==> IsBuy(base, quote)(i) || IsSell(base, quote)(i)
    requires Sorted(buys, BySize()) && multiset(buys) == multiset(Buys(base, quote, intents))
    requires Sorted(sells, BySize()) && multiset(sells) == multiset(Sells(base, quote, intents))
    ensures multiset(buys + sells) == multiset(intents)
    ensures Buys(base, quote, buys + sells) == buys && Sells(base, quote, buys + sells) == sells
  {
    assert multiset(buys + sells) == multiset(intents) by {
      SortedSides(base, quote, intents);
      SidesMakeGroup(base, quote, intents);
    }
    SidesAreSided(base, quote, intents);
    assert forall i :: i in buys ==> i in multiset(Buys(base, quote, intents));
    assert forall i :: i in sells ==> i in multiset(Sells(base, quote, intents));
    SortedArrival(base, quote, buys, sells);
  }

  /** A tie with a whole intent lets some other order of arrival be told apart. */
  lemma TiesShow(base: Pubkey, quote: Pubkey, intents: seq<SwapIntent>, amm: Amm) returns (other: seq<SwapIntent>)
    requires forall i :: i in intents ==> IsBuy(base, quote)(i) || IsSell(base, quote)(i)
    requires !ResidualTieFree(base, quote, intents, amm)
    ensures multiset(other) == multiset(intents)
    ensures Cleared(base, quote, other, amm) != Cleared(base, quote, intents, amm)
  {
    var buys, sells := Buys(base, quote, intents), Sells(base, quote, intents);
    assert Sorted(buys, BySize()) && Sorted(sells, BySize()) by { SortedSides(base, quote, intents); }
    SidesAreSided(base, quote, intents);
    var buys', sells' := SwapSides(buys, sells, PairMarket(base, quote, intents, amm));
    other := buys' + sells';
    Rearrange(base, quote, intents, buys', sells');
    MarketPermuted(base, quote, intents, other, amm);
  }

  /** The same at the level of one run: exchanging a tie changes the residual. */
  lemma SwapSides(buys: seq<SwapIntent>, sells: seq<SwapIntent>, mk: Market)
    returns (buys': seq<SwapIntent>, sells': seq<SwapIntent>)
    requires Sorted(buys, BySize()) && Sorted(sells, BySize()) && Sided(Opening(buys, sells), mk)
    requires var b := Run(Opening(buys, sells), mk); !TieFree(buys, b.buys) || !TieFree(sells, b.sells)
    ensures Sorted(buys', BySize()) && multiset(buys') == multiset(buys)
    ensures Sorted(sells', BySize()) && multiset(sells') == multiset(sells)
    ensures var x, y := Run(Opening(buys, sells), mk), Run(Opening(buys', sells'), mk);
      x.Owned() && y.Owned() && FinalResidual(y, mk) != FinalResidual(x, mk)
  {
    var x := Run(Opening(buys, sells), mk);
    OpeningKeeps(buys, sells, mk);
    buys', sells' := SwapOne(buys, sells, x.buys, x.sells);
    SwapShows(buys, sells, buys', sells', mk);
  }

  lemma SwapOne(buys: seq<SwapIntent>, sells: seq<SwapIntent>, restBuys: seq<SwapIntent>, restSells: seq<SwapIntent>)
    returns (buys': seq<SwapIntent>, sells': seq<SwapIntent>)
    requires Sorted(buys, BySize()) && Sorted(sells, BySize())
    requires forall i, j :: i in buys && j in buys ==> i.inMint == j.inMint && i.outMint == j.outMint
    requires forall i, j :: i in sells && j in sells ==> i.inMint == j.inMint && i.outMint == j.outMint
    requires Tail(restBuys, buys) && Tail(restSells, sells)
    requires !TieFree(buys, restBuys) || !TieFree(sells, restSells)
    ensures Sorted(buys', BySize()) && multiset(buys') == multiset(buys) && EraseAll(buys') == EraseAll(buys)
    ensures Sorted(sells', BySize()) && multiset(sells') == multiset(sells) && EraseAll(sells') == EraseAll(sells)
    ensures !Tail(restBuys, buys') || !Tail(restSells, sells')
  {
    buys', sells' := buys, sells;
    if !TieFree(buys, restBuys) {
      buys' := SwapTie(buys, restBuys);
    } else {
      sells' := SwapTie(sells, restSells);
    }
  }

  lemma SwapShows(buys: seq<SwapIntent>, sells: seq<SwapIntent>,
                  buys': seq<SwapIntent>, sells': seq<SwapIntent>, mk: Market)
    requires Sorted(sells, BySize()) && Sorted(sells', BySize())
    requires EraseAll(buys') == EraseAll(buys) && EraseAll(sells') == EraseAll(sells)
    requires var x := Run(Opening(buys, sells), mk); !Tail(x.buys, buys') || !Tail(x.sells, sells')
    ensures var x, y := Run(Opening(buys, sells), mk), Run(Opening(buys', sells'), mk);
      x.Owned() && y.Owned() && FinalResidual(y, mk) != FinalResidual(x, mk)
  {
    OpeningKeeps(buys, sells, mk);
    OpeningKeeps(buys', sells', mk);
    EraseRun(Opening(buys, sells), mk);
    EraseRun(Opening(buys', sells'), mk);
    DifferentTails(Run(Opening(buys, sells), mk), Run(Opening(buys', sells'), mk), mk, buys', sells');
  }

  lemma DifferentTails(x: Book, y: Book, mk: Market, buys: seq<SwapIntent>, sells: seq<SwapIntent>)
    requires x.Owned() && Inv(y, mk, buys, sells) && EraseBook(x) == EraseBook(y)
    requires !Tail(x.buys, buys) || !Tail(x.sells, sells)
    ensures FinalResidual(x, mk) != FinalResidual(y, mk)
  {
    assert |x.buys| == |EraseBook(x).buys| == |y.buys|;
    assert |x.sells| == |EraseBook(x).sells| == |y.sells|;
    if FinalResidual(x, mk) == FinalResidual(y, mk) {
      TailsShow(x, y, mk);
    }
  }

  /** Exchanges a whole intent with a different one it ties with. */
  lemma SwapTie(side: seq<SwapIntent>, whole: seq<SwapIntent>) returns (t: seq<SwapIntent>)
    requires Sorted(side, BySize()) && !TieFree(side, whole)
    requires Tail(whole, side)
    requires forall i, j :: i in side && j in side ==> i.inMint == j.inMint && i.outMint == j.outMint
    ensures Sorted(t, BySize()) && multiset(t) == multiset(side) && EraseAll(t) == EraseAll(side)
    ensures !Tail(whole, t)
  {
    var p, n := TiePositions(side, whole);
    var m := |side| - |whole| + p;
    assert whole[p] == side[m];
    t := Swap(side, m, n);
    SwapTied(side, m, n);
    assert |t| == |side| && t[|side| - |whole|..][p] == side[n];
  }

  lemma TiePositions(side: seq<SwapIntent>, whole: seq<SwapIntent>) returns (p: nat, n: nat)
    requires !TieFree(side, whole)
    ensures p < |whole| && n < |side| && whole[p] != side[n]
    ensures whole[p].inAmount == side[n].inAmount && whole[p].signer == side[n].signer
  {
    var i, j :| i in whole && j in side && i.inAmount == j.inAmount && i.signer == j.signer && i != j;
    p :| 0 <= p < |whole| && whole[p] == i;
    n :| 0 <= n < |side| && side[n] == j;
  }

  /** The promise that any order of the same intents gives a byte-identical result holds exactly
      when no intent handed back whole ties with a different one on amount and signer. */
  lemma ReplayIdenticalIff(base: Pubkey, quote: Pubkey, intents: seq<SwapIntent>, amm: Amm)
    requires forall i :: i in intents ==> IsBuy(base, quote)(i) || IsSell(base, quote)(i)
    ensures (forall p: seq<SwapIntent> :: multiset(p) == multiset(intents) ==>
               Cleared(base, quote, p, amm) == Cleared(base, quote, intents, amm))
       <==> ResidualTieFree(base, quote, intents, amm)
  {
    if ResidualTieFree(base, quote, intents, amm) {
      forall p: seq<SwapIntent> | multiset(p) == multiset(intents)
        ensures Cleared(base, quote, p, amm) == Cleared(base, quote, intents, amm)
      {
        TieFreeReplay(base, quote, intents, p, amm);
      }
    } else {
      var other := TiesShow(base, quote, intents, amm);
      assert multiset(other) == multiset(intents);
    }
  }

  ghost predicate DistinctKeys(a: seq<SwapIntent>) {
    forall i, j :: i in a && j in a && i.(minOut := j.minOut, nonce := j.nonce) == j ==> i == j
  }

  /** A check on the input alone that suffices: no two different intents of one side share
      amount and signer. */
  lemma DistinctKeysReplay(base: Pubkey, quote: Pubkey, a: seq<SwapIntent>, b: seq<SwapIntent>, amm: Amm)
    requires multiset(a) == multiset(b)
    requires DistinctKeys(a)
    ensures Cleared(base, quote, a, amm) == Cleared(base, quote, b, amm)
  {
    DistinctSides(base, quote, a);
    FinalBookKeeps(base, quote, a, amm);
    TieFreeReplay(base, quote, a, b, amm);
  }

  lemma DistinctSides(base: Pubkey, quote: Pubkey, a: seq<SwapIntent>)
    requires DistinctKeys(a)
    ensures TieFree(Buys(base, quote, a), Buys(base, quote, a))
    ensures TieFree(Sells(base, quote, a), Sells(base, quote, a))
  {
    BySizeIsPreorder();
    SortByMembers(Filter(a, IsBuy(base, quote)), BySize());
    SortByMembers(Filter(a, IsSell(base, quote)), BySize());
    FilterMembers(a, IsBuy(base, quote));
    FilterMembers(a, IsSell(base, quote));
  }
}
