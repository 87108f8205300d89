/** Positional notation: big-endian digits in any base. */
module Radix {
  import opened Arithmetic

  function Power(b: nat, e: nat): nat {
    if e == 0 then 1 else b * Power(b, e - 1)
  }

  lemma {:induction false} PowerGrows(b: nat, d: nat, e: nat)
    requires b > 0 && d <= e
    ensures 0 < Power(b, d) <= Power(b, e)
  {
    if e > 0 {
      if d < e {
        PowerGrows(b, d, e - 1);
      } else {
        PowerGrows(b, d - 1, e - 1);
      }
      MulMonotone(Power(b, e - 1), 1, b);
    }
  }

  lemma {:induction false} PowerAdd(b: nat, x: nat, y: nat)
    ensures Power(b, x + y) == Power(b, x) * Power(b, y)
  {
    if x > 0 {
      PowerAdd(b, x - 1, y);
      assert b * (Power(b, x - 1) * Power(b, y)) == (b * Power(b, x - 1)) * Power(b, y);
    }
  }

  ghost predicate Digits(s: seq<nat>, base: nat) {
    forall i :: 0 <= i < |s| ==> s[i] < base
  }

  /** The number that big-endian digits denote. */
  function Value(s: seq<nat>, base: nat): nat {
    if s == [] then 0 else base * Value(s[..|s| - 1], base) + s[|s| - 1]
  }

  /** The digits of a number without leading zeros, by repeated division. */
  function ToDigits(v: nat, base: nat): seq<nat>
    requires base > 1
  {
    if v == 0 then []
    else
      QuotientSmaller(v, base);
      ToDigits(v / base, base) + [v % base]
  }

  lemma QuotientSmaller(v: nat, base: nat)
    requires base > 1
    ensures 0 <= v / base && (v > 0 ==> v / base < v)
  {
    var q, r := DivMod(v, base);
    if q > 0 {
      MulMonotone(q, 2, base);
    }
  }

  ghost predicate Canonical(s: seq<nat>, base: nat) {
    Digits(s, base) && (s != [] ==> s[0] != 0)
  }

  lemma {:induction false} ToDigitsCanonical(v: nat, base: nat)
    requires base > 1
    ensures Canonical(ToDigits(v, base), base) && Value(ToDigits(v, base), base) == v
    ensures v > 0 ==> ToDigits(v, base) != []
  {
    if v > 0 {
      QuotientSmaller(v, base);
      var q, r := DivMod(v, base);
      ToDigitsCanonical(q, base);
      DigitsPush(ToDigits(q, base), r, base);
    }
  }

  lemma DigitsPush(s: seq<nat>, d: nat, base: nat)
    requires Digits(s, base) && d < base
    ensures Digits(s + [d], base) && Value(s + [d], base) == base * Value(s, base) + d
  {
    assert (s + [d])[..|s|] == s;
  }

  /** Canonical digits are the only ones of their value. */
  lemma {:induction false} CanonicalUnique(s: seq<nat>, base: nat)
    requires base > 1 && Canonical(s, base)
    ensures ToDigits(Value(s, base), base) == s
    ensures s != [] ==> Value(s, base) > 0
  {
    if s != [] {
      var init, last := s[..|s| - 1], s[|s| - 1];
      CanonicalUnique(init, base);
      PushDigit(Value(init, base), last, base);
      assert s == init + [last];
    }
  }

  lemma PushDigit(v: nat, d: nat, base: nat)
    requires base > 1 && d < base && (v > 0 || d > 0)
    ensures base * v + d > 0
    ensures ToDigits(base * v + d, base) == ToDigits(v, base) + [d]
  {
    MulMonotone(v, 1, base);
    UniqueRemainder(base * v + d, base, v, d);
  }

  /** The value of digits whose most significant one is split off. */
  lemma {:induction false} ValueCons(d: nat, s: seq<nat>, base: nat)
    ensures Value([d] + s, base) == d * Power(base, |s|) + Value(s, base)
  {
    if s == [] {
      assert Value([d], base) == base * Value([], base) + d;
    } else {
      var init, last := s[..|s| - 1], s[|s| - 1];
      ValueCons(d, init, base);
      assert ([d] + s)[..|s|] == [d] + init;
      Distribute(base, d, Power(base, |init|), Value(init, base));
    }
  }

  lemma Distribute(base: nat, d: nat, p: nat, v: nat)
    ensures base * (d * p + v) == d * (base * p) + base * v
  {
  }

  lemma {:induction false} ValueBound(s: seq<nat>, base: nat)
    requires Digits(s, base)
    ensures Value(s, base) < Power(base, |s|)
  {
    if s != [] {
      ValueBound(s[..|s| - 1], base);
      HornerBound(base, Value(s[..|s| - 1], base), Power(base, |s| - 1), s[|s| - 1]);
    }
  }

  /** Leading zeros add nothing. */
  lemma {:induction false} LeadingZeros(s: seq<nat>, k: nat, base: nat)
    requires k <= |s| && forall i :: 0 <= i < k ==> s[i] == 0
    ensures Value(s, base) == Value(s[k..], base)
  {
    if k > 0 {
      assert s == [0] + s[1..];
      ValueCons(0, s[1..], base);
      LeadingZeros(s[1..], k - 1, base);
      assert s[1..][k - 1..] == s[k..];
    }
  }
}
