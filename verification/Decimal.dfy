/** Decimal amounts: reading user input into base units and printing base units. */
module Decimal {
  import opened Common
  import opened Arithmetic

  predicate IsDigit(c: char) {
    '0' <= c <= '9'
  }

  predicate AllDigits(s: string) {
    forall i :: 0 <= i < |s| ==> IsDigit(s[i])
  }

  /** White space and line ends as the source language trims them. */
  predicate IsSpace(c: char) {
    || 9 <= c as int <= 13 || c == ' ' || c as int == 0xA0 || c as int == 0x1680
    || 0x2000 <= c as int <= 0x200A || c as int == 0x2028 || c as int == 0x2029
    || c as int == 0x202F || c as int == 0x205F || c as int == 0x3000 || c as int == 0xFEFF
  }

  /** The first position from i on that is not white space, and the end of the last one before j. */
  function SkipSpace(s: string, i: nat): (n: nat)
    requires i <= |s|
    ensures i <= n <= |s|
    decreases |s| - i
  {
    if i < |s| && IsSpace(s[i]) then SkipSpace(s, i + 1) else i
  }

  function DropSpace(s: string, lo: nat, j: nat): (n: nat)
    requires lo <= j <= |s|
    ensures lo <= n <= j
  {
    if lo < j && IsSpace(s[j - 1]) then DropSpace(s, lo, j - 1) else j
  }

  function Trim(s: string): string {
    var lo := SkipSpace(s, 0);
    s[lo..DropSpace(s, lo, |s|)]
  }

  /** The position of the first dot from i on, or the length if there is none. */
  function DotFrom(s: string, i: nat): (n: nat)
    requires i <= |s|
    ensures i <= n <= |s|
    ensures n < |s| ==> s[n] == '.'
    decreases |s| - i
  {
    if i == |s| || s[i] == '.' then i else DotFrom(s, i + 1)
  }

  /** The number that decimal digits spell; no digits spell zero. */
  function NumberOf(s: string): nat
    requires AllDigits(s)
  {
    NumberUpTo(s, |s|)
  }

  function NumberUpTo(s: string, n: nat): nat
    requires n <= |s| && AllDigits(s)
  {
    if n == 0 then 0 else 10 * NumberUpTo(s, n - 1) + (s[n - 1] as nat - '0' as nat)
  }

  lemma {:induction false} SamePrefix(a: string, b: string, n: nat)
    requires AllDigits(a) && AllDigits(b) && n <= |a| <= |b|
    requires forall i :: 0 <= i < n ==> a[i] == b[i]
    ensures NumberUpTo(a, n) == NumberUpTo(b, n)
  {
    if n > 0 {
      SamePrefix(a, b, n - 1);
    }
  }

  function DigitChar(d: nat): (c: char)
    requires d < 10
    ensures IsDigit(c)
  {
    (d + '0' as nat) as char
  }

  /** The decimal digits of a number, without leading zeros. */
  function Numeral(n: nat): (s: string)
    ensures AllDigits(s) && s != [] && NumberOf(s) == n
    ensures s[0] == '0' ==> n == 0
  {
    if n < 10 then
      assert NumberUpTo([DigitChar(n)], 0) == 0;
      [DigitChar(n)]
    else
      var init := Numeral(n / 10);
      SamePrefix(init, init + [DigitChar(n % 10)], |init|);
      init + [DigitChar(n % 10)]
  }

  function Zeros(n: nat): (s: string)
    ensures |s| == n && AllDigits(s) && forall i :: 0 <= i < n ==> s[i] == '0'
  {
    seq(n, _ => '0')
  }

  /** n * 10^k. */
  function Shifted(n: nat, k: nat): nat {
    if k == 0 then n else 10 * Shifted(n, k - 1)
  }

  /** Truncated or zero-padded at the end to d digits. */
  function FitFraction(frac: string, d: nat): string {
    if |frac| < d then frac + Zeros(d - |frac|) else frac[..d]
  }

  /** An amount, if it fits 64 bits. */
  function InU64(total: nat): Option<u64> {
    if total > U64_MAX then None else Some(total)
  }

  /** The amount spelled by the digits before and after the dot. */
  function UnitsOf(intPart: string, fracPart: string, decimals: nat): Option<u64> {
    if intPart == [] && fracPart == [] then None
    else if !AllDigits(intPart) || !AllDigits(fracPart) then None
    else
      InU64(Shifted(NumberOf(intPart), decimals) + NumberOf(FitFraction(fracPart, decimals)))
  }

  function ParseTrimmed(t: string, decimals: nat): Option<u64> {
    if t == [] || t[0] == '-' then None
    else
      var dot := DotFrom(t, 0);
      UnitsOf(t[..dot], if dot < |t| then t[dot + 1..] else "", decimals)
  }

  function Parsed(input: string, decimals: nat): Option<u64> {
    ParseTrimmed(Trim(input), decimals)
  }

  function StripZeros(s: string): string {
    s[..WithoutZeros(s, |s|)]
  }

  /** The length of the first n characters without the zeros at their end. */
  function WithoutZeros(s: string, n: nat): (k: nat)
    requires n <= |s|
    ensures k <= n && forall i :: k <= i < n ==> s[i] == '0'
    ensures k > 0 ==> s[k - 1] != '0'
  {
    if n > 0 && s[n - 1] == '0' then WithoutZeros(s, n - 1) else n
  }

  lemma {:induction false} ShiftedPositive(n: nat, k: nat)
    requires n > 0
    ensures Shifted(n, k) > 0
  {
    if k > 0 {
      ShiftedPositive(n, k - 1);
    }
  }

  /** `padStart` with zeros. */
  function PadStart(s: string, d: nat): string {
    Zeros(if |s| < d then d - |s| else 0) + s
  }

  method ParseToBaseUnits(input: string, decimals: nat) returns (result: Option<u64>)
    ensures result == Parsed(input, decimals)
  {
    var trimmed := Trim(input);
    if trimmed == [] || trimmed[0] == '-' {
      return None;
    }
    var intPart, fracPart := SplitAtDot(trimmed);
    result := PartsToUnits(intPart, fracPart, decimals);
  }

  method SplitAtDot(trimmed: string) returns (intPart: string, fracPart: string)
    ensures var dot := DotFrom(trimmed, 0);
      intPart == trimmed[..dot] && fracPart == if dot < |trimmed| then trimmed[dot + 1..] else ""
  {
    var dot := DotFrom(trimmed, 0);
    if dot == |trimmed| {
      return trimmed, "";
    }
    return trimmed[..dot], trimmed[dot + 1..];
  }

  method PartsToUnits(intPart: string, fracPart: string, decimals: nat) returns (result: Option<u64>)
    ensures result == UnitsOf(intPart, fracPart, decimals)
  {
    if (intPart == [] && fracPart == []) || !AllDigits(intPart) || !AllDigits(fracPart) {
      return None;
    }
    var intValue, scale := NumberOf(intPart), Shifted(1, decimals);
    ShiftedIsProduct(intValue, decimals);
    var fracPadded := fracPart;
    if |fracPadded| < decimals {
      fracPadded := fracPadded + Zeros(decimals - |fracPadded|);
    } else {
      fracPadded := fracPadded[..decimals];
    }
    var total := scale * intValue + NumberOf(fracPadded);
    if total > U64_MAX {
      return None;
    }
    return Some(total);
  }

  function Formatted(value: nat, decimals: nat): string {
    if decimals == 0 then Numeral(value)
    else
      ShiftedPositive(1, decimals);
      var scale := Shifted(1, decimals);
      DivNat(value, scale);
      if value % scale == 0 then Numeral(value / scale)
      else Numeral(value / scale) + "." + StripZeros(PadStart(Numeral(value % scale), decimals))
  }

  method FormatBaseUnits(value: nat, decimals: nat) returns (s: string)
    ensures s == Formatted(value, decimals)
  {
    if decimals == 0 {
      return Numeral(value);
    }
    ShiftedPositive(1, decimals);
    var scale := Shifted(1, decimals);
    DivNat(value, scale);
    var intPart: nat, fracPart: nat := value / scale, value % scale;
    if fracPart == 0 {
      return Numeral(intPart);
    }
    var fracStr := StripLoop(PadStart(Numeral(fracPart), decimals));
    s := Numeral(intPart) + "." + fracStr;
  }

  method StripLoop(padded: string) returns (fracStr: string)
    ensures fracStr == StripZeros(padded)
  {
    fracStr := padded;
    while fracStr != [] && fracStr[|fracStr| - 1] == '0'
      invariant |fracStr| <= |padded| && fracStr == padded[..|fracStr|]
      invariant WithoutZeros(padded, |padded|) == WithoutZeros(padded, |fracStr|)
    {
      fracStr := fracStr[..|fracStr| - 1];
    }
  }

  // ---------- what parsing computes ----------

  lemma {:induction false} ShiftedTwice(n: nat, a: nat, b: nat)
    ensures Shifted(Shifted(n, a), b) == Shifted(n, a + b)
  {
    if b > 0 {
      ShiftedTwice(n, a, b - 1);
    }
  }

  lemma {:induction false} ShiftedSum(m: nat, n: nat, k: nat)
    ensures Shifted(m + n, k) == Shifted(m, k) + Shifted(n, k)
  {
    if k > 0 {
      ShiftedSum(m, n, k - 1);
    }
  }

  lemma {:induction false} ShiftedMonotone(m: nat, n: nat, k: nat)
    requires m < n
    ensures Shifted(m, k) < Shifted(n, k)
  {
    if k > 0 {
      ShiftedMonotone(m, n, k - 1);
    }
  }

  lemma {:induction false} ShiftedIsProduct(n: nat, k: nat)
    ensures Shifted(n, k) == Shifted(1, k) * n
  {
    if k > 0 {
      ShiftedIsProduct(n, k - 1);
      assert (10 * Shifted(1, k - 1)) * n == 10 * (Shifted(1, k - 1) * n);
    }
  }

  lemma {:induction false} NumberBelow(s: string, n: nat)
    requires n <= |s| && AllDigits(s)
    ensures NumberUpTo(s, n) < Shifted(1, n)
  {
    if n > 0 {
      NumberBelow(s, n - 1);
    }
  }

  lemma {:induction false} NumberAppendUpTo(a: string, b: string, n: nat)
    requires AllDigits(a) && AllDigits(b) && AllDigits(a + b) && n <= |b|
    ensures NumberUpTo(a + b, |a| + n) == Shifted(NumberOf(a), n) + NumberUpTo(b, n)
  {
    if n == 0 {
      SamePrefix(a, a + b, |a|);
    } else {
      NumberAppendUpTo(a, b, n - 1);
    }
  }

  lemma NumberAppend(a: string, b: string)
    requires AllDigits(a) && AllDigits(b)
    ensures AllDigits(a + b) && NumberOf(a + b) == Shifted(NumberOf(a), |b|) + NumberOf(b)
  {
    NumberAppendUpTo(a, b, |b|);
  }

  lemma {:induction false} ZerosUpTo(s: string, n: nat)
    requires n <= |s| && forall i :: 0 <= i < |s| ==> s[i] == '0'
    ensures AllDigits(s) && NumberUpTo(s, n) == 0
  {
    if n > 0 {
      ZerosUpTo(s, n - 1);
    }
  }

  lemma NumberOfZeros(n: nat)
    ensures NumberOf(Zeros(n)) == 0
  {
    ZerosUpTo(Zeros(n), n);
  }

  /** v is n * 10^d / 10^k rounded down. */
  ghost predicate IsFloor(v: nat, n: nat, d: nat, k: nat) {
    Shifted(v, k) <= Shifted(n, d) < Shifted(v + 1, k)
  }

  /** Reading digits I and F around a dot with d decimals gives I.F times 10^d, rounded down. */
  lemma FitIsFloor(intPart: string, frac: string, d: nat)
    requires AllDigits(intPart) && AllDigits(frac)
    ensures AllDigits(FitFraction(frac, d)) && AllDigits(intPart + frac)
    ensures IsFloor(Shifted(NumberOf(intPart), d) + NumberOf(FitFraction(frac, d)), NumberOf(intPart + frac), d, |frac|)
  {
    NumberAppend(intPart, frac);
    if |frac| < d {
      PaddedFloor(NumberOf(intPart), frac, d);
    } else {
      TruncatedFloor(NumberOf(intPart), frac, d);
    }
  }

  lemma PaddedFloor(i: nat, frac: string, d: nat)
    requires AllDigits(frac) && |frac| < d
    ensures AllDigits(FitFraction(frac, d))
    ensures IsFloor(Shifted(i, d) + NumberOf(FitFraction(frac, d)), Shifted(i, |frac|) + NumberOf(frac), d, |frac|)
  {
    var k := d - |frac|;
    NumberAppend(frac, Zeros(k));
    NumberOfZeros(k);
    var n := Shifted(i, |frac|) + NumberOf(frac);
    ShiftedSum(Shifted(i, |frac|), NumberOf(frac), k);
    ShiftedTwice(i, |frac|, k);
    var v := Shifted(n, k);
    ShiftedTwice(n, k, |frac|);
    ShiftedMonotone(v, v + 1, |frac|);
  }

  lemma TruncatedFloor(i: nat, frac: string, d: nat)
    requires AllDigits(frac) && d <= |frac|
    ensures AllDigits(FitFraction(frac, d))
    ensures IsFloor(Shifted(i, d) + NumberOf(FitFraction(frac, d)), Shifted(i, |frac|) + NumberOf(frac), d, |frac|)
  {
    var head, rest := frac[..d], frac[d..];
    var k, v, r := |rest|, Shifted(i, d) + NumberOf(head), NumberOf(rest);
    assert head + rest == frac;
    assert Shifted(i, |frac|) + NumberOf(frac) == Shifted(v, k) + r by {
      NumberAppend(head, rest);
      ShiftedTwice(i, d, k);
      ShiftedSum(Shifted(i, d), NumberOf(head), k);
    }
    NumberBelow(rest, k);
    CutFloor(v, r, d, k);
  }

  /** Dropping the k lowest digits and shifting back up by d rounds down. */
  lemma CutFloor(v: nat, r: nat, d: nat, k: nat)
    requires r < Shifted(1, k)
    ensures IsFloor(v, Shifted(v, k) + r, d, d + k)
  {
    ShiftedSum(Shifted(v, k), r, d);
    ShiftedTwice(v, k, d);
    ShiftedMonotone(r, Shifted(1, k), d);
    ShiftedTwice(1, k, d);
    ShiftedSum(v, 1, d + k);
  }

  /** A text spells I.F: digits, not all absent, around a dot that may be left out with F. */
  ghost predicate Spells(text: string, intPart: string, frac: string) {
    && AllDigits(intPart + frac) && intPart + frac != []
    && (text == intPart + "." + frac || (text == intPart && frac == []))
  }

  lemma {:induction false} NoDotInDigits(s: string, n: nat, i: nat)
    requires i <= n <= |s| && AllDigits(s[..n]) && (n == |s| || s[n] == '.')
    ensures DotFrom(s, i) == n
    decreases n - i
  {
    if i < n {
      assert IsDigit(s[..n][i]);
      NoDotInDigits(s, n, i + 1);
    }
  }

  lemma DigitsOfBoth(a: string, b: string)
    requires AllDigits(a + b)
    ensures AllDigits(a) && AllDigits(b)
  {
    forall i | 0 <= i < |a| ensures IsDigit(a[i]) { assert (a + b)[i] == a[i]; }
    forall i | 0 <= i < |b| ensures IsDigit(b[i]) { assert (a + b)[|a| + i] == b[i]; }
  }

  lemma SpelledUnits(t: string, intPart: string, frac: string, decimals: nat)
    requires Spells(t, intPart, frac)
    ensures ParseTrimmed(t, decimals) == UnitsOf(intPart, frac, decimals)
  {
    DigitsOfBoth(intPart, frac);
    assert t[..|intPart|] == intPart;
    assert intPart != [] ==> IsDigit(intPart[0]);
    NoDotInDigits(t, |intPart|, 0);
    assert |intPart| < |t| ==> t[|intPart| + 1..] == frac;
  }

  lemma TrimmedSpelling(t: string, decimals: nat) returns (intPart: string, frac: string)
    requires ParseTrimmed(t, decimals).Some?
    ensures Spells(t, intPart, frac) && ParseTrimmed(t, decimals) == UnitsOf(intPart, frac, decimals)
  {
    var dot := DotFrom(t, 0);
    intPart, frac := t[..dot], if dot < |t| then t[dot + 1..] else "";
  }

  lemma FloorUnique(v: nat, w: nat, n: nat, d: nat, k: nat)
    requires IsFloor(v, n, d, k) && IsFloor(w, n, d, k)
    ensures v == w
  {
    if v < w {
      ShiftedAscends(v + 1, w, k);
    } else if w < v {
      ShiftedAscends(w + 1, v, k);
    }
  }

  lemma ShiftedAscends(m: nat, n: nat, k: nat)
    requires m <= n
    ensures Shifted(m, k) <= Shifted(n, k)
  {
    if m < n {
      ShiftedMonotone(m, n, k);
    }
  }

  /** The exact amount of a text that spells I.F, before the range check. */
  lemma SpelledFloor(t: string, intPart: string, frac: string, decimals: nat) returns (total: nat)
    requires Spells(t, intPart, frac)
    ensures IsFloor(total, NumberOf(intPart + frac), decimals, |frac|)
    ensures ParseTrimmed(t, decimals) == InU64(total)
  {
    SpelledUnits(t, intPart, frac, decimals);
    DigitsOfBoth(intPart, frac);
    FitIsFloor(intPart, frac, decimals);
    total := Shifted(NumberOf(intPart), decimals) + NumberOf(FitFraction(frac, decimals));
  }

  /** An input is read as v exactly when, trimmed, it spells some I.F whose value in base units,
      rounded down, is v, and v fits 64 bits. */
  lemma ParseIsFloor(input: string, decimals: nat, v: nat)
    ensures Parsed(input, decimals) == Some(v) <==>
      v <= U64_MAX && exists intPart, frac ::
        Spells(Trim(input), intPart, frac) && IsFloor(v, NumberOf(intPart + frac), decimals, |frac|)
  {
    var t := Trim(input);
    if ParseTrimmed(t, decimals) == Some(v) {
      var intPart, frac := TrimmedSpelling(t, decimals);
      var total := SpelledFloor(t, intPart, frac, decimals);
      assert total == v;
    }
    if intPart, frac :| v <= U64_MAX && Spells(t, intPart, frac) && IsFloor(v, NumberOf(intPart + frac), decimals, |frac|) {
      var total := SpelledFloor(t, intPart, frac, decimals);
      FloorUnique(v, total, NumberOf(intPart + frac), decimals, |frac|);
    }
  }

  // ---------- white space around an input ----------

  ghost predicate AllSpace(s: string) {
    forall i :: 0 <= i < |s| ==> IsSpace(s[i])
  }

  lemma {:induction false} SkipStops(s: string, i: nat)
    requires i <= |s|
    ensures var n := SkipSpace(s, i);
      (forall k :: i <= k < n ==> IsSpace(s[k])) && (n < |s| ==> !IsSpace(s[n]))
    decreases |s| - i
  {
    if i < |s| && IsSpace(s[i]) {
      SkipStops(s, i + 1);
    }
  }

  lemma {:induction false} DropStops(s: string, lo: nat, j: nat)
    requires lo <= j <= |s|
    ensures var n := DropSpace(s, lo, j);
      (forall k :: n <= k < j ==> IsSpace(s[k])) && (n > lo ==> !IsSpace(s[n - 1]))
  {
    if lo < j && IsSpace(s[j - 1]) {
      DropStops(s, lo, j - 1);
    }
  }

  /** Trimming drops the white space on both sides and nothing else. */
  lemma TrimIs(before: string, mid: string, after: string)
    requires AllSpace(before) && AllSpace(after)
    requires mid != [] ==> !IsSpace(mid[0]) && !IsSpace(mid[|mid| - 1])
    ensures Trim(before + mid + after) == mid
  {
    var s := before + mid + after;
    var lo := SkipSpace(s, 0);
    var hi := DropSpace(s, lo, |s|);
    SkipStops(s, 0);
    DropStops(s, lo, |s|);
    if mid == [] {
      assert forall k :: 0 <= k < |s| ==> IsSpace(s[k]);
      assert lo == |s|;
    } else {
      assert s[|before|] == mid[0] && s[|before| + |mid| - 1] == mid[|mid| - 1];
      assert forall k :: 0 <= k < |before| ==> s[k] == before[k];
      assert forall k :: 0 <= k < |after| ==> s[|before| + |mid| + k] == after[k];
      assert lo == |before| && hi == |before| + |mid|;
    }
  }

  lemma TrimParts(s: string) returns (before: string, mid: string, after: string)
    ensures Trim(s) == mid && s == before + mid + after
    ensures AllSpace(before) && AllSpace(after)
    ensures mid != [] ==> !IsSpace(mid[0]) && !IsSpace(mid[|mid| - 1])
  {
    var lo := SkipSpace(s, 0);
    var hi := DropSpace(s, lo, |s|);
    before, mid, after := s[..lo], s[lo..hi], s[hi..];
    assert AllSpace(before) && (lo < hi ==> !IsSpace(s[lo])) by { SkipStops(s, 0); }
    assert AllSpace(after) && (lo < hi ==> !IsSpace(s[hi - 1])) by { DropStops(s, lo, |s|); }
  }

  /** White space around an input changes nothing. */
  lemma ParseIgnoresSpace(before: string, input: string, after: string, decimals: nat)
    requires AllSpace(before) && AllSpace(after)
    ensures Parsed(before + input + after, decimals) == Parsed(input, decimals)
  {
    var b, mid, a := TrimParts(input);
    assert before + input + after == (before + b) + mid + (a + after);
    TrimIs(before + b, mid, a + after);
  }

  // ---------- the round trip ----------

  lemma {:induction false} NumeralLength(n: nat, d: nat)
    requires 0 < n < Shifted(1, d)
    ensures |Numeral(n)| <= d
  {
    if n >= 10 {
      NumeralLength(n / 10, d - 1);
    }
  }

  lemma StripThenPad(s: string)
    ensures var t := StripZeros(s);
      |t| <= |s| && s == t + Zeros(|s| - |t|)
  {
  }

  lemma NothingToTrim(s: string)
    requires s != [] && IsDigit(s[0]) && IsDigit(s[|s| - 1])
    ensures Trim(s) == s
  {
    assert s[0..|s|] == s;
  }

  lemma ParseParts(a: string, b: string, text: string, decimals: nat)
    requires AllDigits(a) && a != [] && AllDigits(b)
    requires text == if b == [] then a else a + "." + b
    ensures Parsed(text, decimals) == UnitsOf(a, b, decimals)
  {
    assert IsDigit(a[0]) && text[0] == a[0];
    assert IsDigit(text[|text| - 1]) by {
      if b == [] { assert IsDigit(a[|a| - 1]); } else { assert IsDigit(b[|b| - 1]); }
    }
    NothingToTrim(text);
    SpelledUnits(text, a, b, decimals);
  }

  lemma DottedUnits(a: string, b: string, decimals: nat, r: nat)
    requires AllDigits(a) && a != [] && AllDigits(b)
    requires AllDigits(FitFraction(b, decimals)) && NumberOf(FitFraction(b, decimals)) == r
    ensures UnitsOf(a, b, decimals) == InU64(Shifted(NumberOf(a), decimals) + r)
  {
  }

  lemma WholeUnits(a: string, none: string, decimals: nat)
    requires AllDigits(a) && a != [] && none == []
    ensures UnitsOf(a, none, decimals) == InU64(Shifted(NumberOf(a), decimals))
  {
    assert FitFraction(none, decimals) == Zeros(decimals);
    NumberOfZeros(decimals);
    DottedUnits(a, none, decimals, 0);
  }

  function FractionDigits(r: nat, decimals: nat): string {
    if r == 0 then "" else StripZeros(PadStart(Numeral(r), decimals))
  }

  /** Whole units and a fraction, as they are printed. */
  function Printed(q: nat, r: nat, decimals: nat): string {
    if r == 0 then Numeral(q) else Numeral(q) + "." + FractionDigits(r, decimals)
  }

  /** The digits of some whole units and a fraction r stand for their sum. */
  lemma PrintedUnits(a: string, b: string, v: nat, r: nat, decimals: nat)
    requires AllDigits(a) && a != [] && v == Shifted(NumberOf(a), decimals) + r
    requires r < Shifted(1, decimals) && b == FractionDigits(r, decimals)
    ensures AllDigits(b) && (b == [] <==> r == 0)
    ensures UnitsOf(a, b, decimals) == InU64(v)
  {
    if r == 0 {
      WholeUnits(a, b, decimals);
    } else {
      FractionSurvives(r, decimals);
      DottedUnits(a, b, decimals, r);
    }
  }

  /** Printing and reading back returns the amount, for every amount that fits 64 bits and every
      number of decimals; a larger amount is printed but not accepted. */
  lemma FormatThenParse(v: nat, decimals: nat)
    ensures Parsed(Formatted(v, decimals), decimals) == InU64(v)
  {
    var q, r := SplitAmount(v, decimals);
    PrintThenParse(v, q, r, decimals);
  }

  lemma PrintThenParse(v: nat, q: nat, r: nat, decimals: nat)
    requires v == Shifted(q, decimals) + r && r < Shifted(1, decimals)
    ensures Parsed(Printed(q, r, decimals), decimals) == InU64(v)
  {
    var a, b := Numeral(q), FractionDigits(r, decimals);
    PrintedUnits(a, b, v, r, decimals);
    ParseParts(a, b, Printed(q, r, decimals), decimals);
  }

  lemma SplitAmount(v: nat, decimals: nat) returns (q: nat, r: nat)
    ensures v == Shifted(q, decimals) + r && r < Shifted(1, decimals)
    ensures Formatted(v, decimals) == Printed(q, r, decimals)
  {
    if decimals == 0 {
      q, r := v, 0;
    } else {
      ShiftedPositive(1, decimals);
      q, r := DivMod(v, Shifted(1, decimals));
      ShiftedIsProduct(q, decimals);
    }
  }

  /** A fraction, padded, stripped of its trailing zeros and padded again, is itself. */
  lemma FractionSurvives(r: nat, decimals: nat)
    requires 0 < r < Shifted(1, decimals)
    ensures var kept := FractionDigits(r, decimals);
      && AllDigits(kept) && kept != [] && AllDigits(FitFraction(kept, decimals))
      && NumberOf(FitFraction(kept, decimals)) == r
  {
    NumeralLength(r, decimals);
    var digits := Numeral(r);
    assert |digits| <= decimals;
    var padded := PadStart(digits, decimals);
    var kept := StripZeros(padded);
    assert AllDigits(padded) && NumberOf(padded) == r by {
      NumberAppend(Zeros(decimals - |digits|), digits);
      NumberOfZeros(decimals - |digits|);
      ShiftedZero(|digits|);
    }
    StripThenPad(padded);
    assert FitFraction(kept, decimals) == padded;
    NumberOfZeros(decimals);
    assert padded != Zeros(decimals);
    assert AllDigits(kept) by {
      assert forall i :: 0 <= i < |kept| ==> kept[i] == padded[i];
    }
  }

  lemma {:induction false} ShiftedZero(k: nat)
    ensures Shifted(0, k) == 0
  {
    if k > 0 {
      ShiftedZero(k - 1);
    }
  }

  /** How an amount is printed: a whole part without leading zeros, and a dot only before a fraction of no
      more digits than the decimals, whose last one is not zero. */
  lemma FormatIsShortest(v: nat, decimals: nat) returns (whole: string, frac: string)
    ensures Formatted(v, decimals) == if frac == [] then whole else whole + "." + frac
    ensures AllDigits(whole) && whole != [] && (|whole| > 1 ==> whole[0] != '0')
    ensures AllDigits(frac) && |frac| <= decimals && (frac != [] ==> frac[|frac| - 1] != '0')
    ensures IsFloor(v, NumberOf(whole + frac), decimals, |frac|)
  {
    var q, r := SplitAmount(v, decimals);
    whole, frac := Numeral(q), FractionDigits(r, decimals);
    FractionFits(r, decimals);
    FitIsFloor(whole, frac, decimals);
    if r == 0 {
      NumberOfZeros(decimals);
      assert FitFraction("", decimals) == Zeros(decimals);
    } else {
      FractionSurvives(r, decimals);
    }
  }

  lemma FractionFits(r: nat, decimals: nat)
    requires r < Shifted(1, decimals)
    ensures var frac := FractionDigits(r, decimals);
      AllDigits(frac) && |frac| <= decimals && (frac != [] ==> frac[|frac| - 1] != '0')
  {
    if r > 0 {
      FractionSurvives(r, decimals);
      NumeralLength(r, decimals);
    }
  }
}
