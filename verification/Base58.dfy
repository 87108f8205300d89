/** The inline base58 encoder, its carry loop and a reference decoder. */
module Base58 {
  import opened Common
  import opened Arithmetic
  import opened Alphabet
  import opened Radix

  const UPPER: string := "123456789" + "ABCDEFGH" + "JKLMN" + "PQRSTUVWXYZ"
  const LOWER: string := "abcdefghijk" + "mnopqrstuvwxyz"
  const BASE58_ALPHABET: string := UPPER + LOWER

  function Rank58(c: char): int {
    if '1' <= c <= '9' then c as int - '1' as int
    else if 'A' <= c <= 'H' then 9 + (c as int - 'A' as int)
    else if 'J' <= c <= 'N' then 17 + (c as int - 'J' as int)
    else if 'P' <= c <= 'Z' then 22 + (c as int - 'P' as int)
    else if 'a' <= c <= 'k' then 33 + (c as int - 'a' as int)
    else 44 + (c as int - 'm' as int)
  }

  lemma RankedUpper(i: nat)
    requires i < |UPPER|
    ensures Rank58(UPPER[i]) == i
  {
  }

  lemma RankedLower(i: nat)
    requires i < |LOWER|
    ensures Rank58(LOWER[i]) == 33 + i
  {
  }

  lemma Ranked58(i: nat)
    requires i < |BASE58_ALPHABET|
    ensures Rank58(BASE58_ALPHABET[i]) == i
  {
    if i < |UPPER| {
      RankedUpper(i);
    } else {
      RankedLower(i - |UPPER|);
    }
  }

  lemma Base58Fits()
    ensures |BASE58_ALPHABET| == 58 && NoRepeats(BASE58_ALPHABET) && BASE58_ALPHABET[0] == '1'
  {
    forall i, j | 0 <= i < j < |BASE58_ALPHABET| ensures BASE58_ALPHABET[i] != BASE58_ALPHABET[j] {
      Ranked58(i);
      Ranked58(j);
    }
  }

  /** Any 58 different letters whose first one is the digit 1; the source's alphabet is one. */
  type Alphabet58 = a: string | |a| == 58 && NoRepeats(a) && a[0] == '1'
    ghost witness (Base58Fits(); BASE58_ALPHABET)

  // ---------- the encoding, by division ----------

  function ZeroPrefix(bytes: seq<u8>): (n: nat)
    ensures n <= |bytes| && forall i :: 0 <= i < n ==> bytes[i] == 0
    ensures n < |bytes| ==> bytes[n] != 0
  {
    if bytes == [] || bytes[0] != 0 then 0 else 1 + ZeroPrefix(bytes[1..])
  }

  function Repeat<T>(x: T, n: nat): (s: seq<T>)
    ensures |s| == n && forall i :: 0 <= i < n ==> s[i] == x
  {
    seq(n, _ => x)
  }

  function Letters(digits: seq<nat>, abc: Alphabet58): (s: string)
    requires Digits(digits, 58)
    ensures |s| == |digits| && forall i :: 0 <= i < |s| ==> s[i] == abc[digits[i]]
  {
    seq(|digits|, i requires 0 <= i < |digits| => abc[digits[i]])
  }

  /** One `1` for every leading zero byte, then the number's base-58 digits. */
  function Encoded(bytes: seq<u8>, abc: Alphabet58): string {
    ToDigitsCanonical(Value(bytes, 256), 58);
    Repeat<char>('1', ZeroPrefix(bytes)) + Letters(ToDigits(Value(bytes, 256), 58), abc)
  }

  // ---------- the carry loop ----------

  /** The buffer holds `length` digits at its end, the first of them not zero, and zeros before. */
  ghost predicate Holds(b: seq<u8>, length: nat) {
    && length <= |b| && Digits(b, 58)
    && (forall k :: 0 <= k < |b| - length ==> b[k] == 0)
    && (length > 0 ==> b[|b| - length] != 0)
  }

  /** The arithmetic of one turn of the carry loop. */
  lemma CarryStep(p: nat, carry: nat, low: nat, d: nat, lowBefore: nat, byte: nat, next: nat, digit: nat)
    requires carry * p + low == 256 * lowBefore + byte
    requires 58 * next + digit == carry + 256 * d
    ensures next * (58 * p) + (digit * p + low) == 256 * (d * p + lowBefore) + byte
  {
    assert (58 * next + digit) * p == next * (58 * p) + digit * p;
    assert (carry + 256 * d) * p == carry * p + 256 * (d * p);
  }

  /** The state of the carry loop after j digits: with the carry as one more digit in front, the
      rewritten digits denote the new number as far as it has been worked out. */
  ghost predicate Carrying(before: seq<u8>, b: seq<u8>, length: nat, byte: nat, j: nat, carry: nat) {
    && |b| == |before| && j <= |b| && carry <= 255 && Digits(b, 58)
    && b[..|b| - j] == before[..|b| - j]
    && Value([carry] + b[|b| - j..], 58) == 256 * Value(before[|b| - j..], 58) + byte
    && (j == length ==> carry != 0)
    && (j > length && carry == 0 ==> b[|b| - j] != 0)
  }

  lemma CarryStart(before: seq<u8>, length: nat, byte: u8)
    requires Holds(before, length) && (length == 0 ==> byte != 0)
    ensures Carrying(before, before, length, byte, 0, byte)
  {
    assert before[|before|..] == [] && [byte as int] + [] == [byte as int];
    assert Value([byte as int], 58) == 58 * Value([], 58) + byte;
  }

  /** The digit under the cursor, and what its carry can be. */
  lemma CarryDigit(before: seq<u8>, length: nat, j: nat, carry: nat, next: nat, digit: nat)
    requires Holds(before, length) && j < |before| && carry <= 255 && (j == length ==> carry != 0)
    requires carry != 0 || j < length
    requires 58 * next + digit == carry + 256 * (before[|before| - 1 - j] as int) && digit < 58
    ensures next <= 255
    ensures j + 1 == length ==> next != 0
    ensures j + 1 > length && next == 0 ==> digit != 0
  {
    assert before[|before| - 1 - j] < 58;
  }

  lemma CarryTurn(before: seq<u8>, b: seq<u8>, length: nat, byte: nat, j: nat, carry: nat, next: nat, digit: u8)
    requires Holds(before, length) && Carrying(before, b, length, byte, j, carry)
    requires j < |b| && (carry != 0 || j < length)
    requires 58 * next + (digit as int) == carry + 256 * (b[|b| - 1 - j] as int) && digit < 58
    ensures Carrying(before, b[|b| - 1 - j := digit], length, byte, j + 1, next)
  {
    var k := |b| - 1 - j;
    var after := b[k := digit];
    assert b[k] == before[k] by { assert b[..k + 1][k] == before[..k + 1][k]; }
    CarryDigit(before, length, j, carry, next, digit);
    CarryValue(before[k..], b[k + 1..], digit, byte, j, carry, next);
    assert after[k..] == [digit] + b[k + 1..];
    assert before[k..][1..] == before[k + 1..];
    assert after[..k] == b[..k + 1][..k] == before[..k + 1][..k] == before[..k];
  }

  lemma CarryValue(before: seq<nat>, low: seq<nat>, digit: nat, byte: nat, j: nat, carry: nat, next: nat)
    requires |before| == j + 1 && |low| == j
    requires 58 * next + digit == carry + 256 * before[0]
    requires Value([carry] + low, 58) == 256 * Value(before[1..], 58) + byte
    ensures Value([next] + ([digit] + low), 58) == 256 * Value(before, 58) + byte
  {
    ValueCons(carry, low, 58);
    ValueCons(next, [digit] + low, 58);
    assert before == [before[0]] + before[1..];
    ValueCons(digit, low, 58);
    ValueCons(before[0], before[1..], 58);
    CarryStep(Power(58, j), carry, Value(low, 58), before[0], Value(before[1..], 58), byte, next, digit);
  }

  /** When the number fits the buffer no carry is left over, and the digits are the new number. */
  lemma CarryEnd(before: seq<u8>, b: seq<u8>, length: nat, byte: nat, j: nat, carry: nat)
    requires Holds(before, length) && Carrying(before, b, length, byte, j, carry)
    requires j == |b| || !(carry != 0 || j < length)
    requires 256 * Value(before, 58) + byte < Power(58, |b|)
    requires length == 0 ==> byte != 0
    ensures carry == 0 && Holds(b, j) && j > 0
    ensures Value(b, 58) == 256 * Value(before, 58) + byte
  {
    ValueCons(carry, b[|b| - j..], 58);
    if j < |b| {
      LeadingZeros(before, |b| - j, 58);
    } else {
      assert before[0..] == before;
      if carry > 0 {
        MulMonotone(Power(58, j), 1, carry);
        assert false;
      }
    }
    forall i | 0 <= i < |b| - j ensures b[i] == 0 {
      assert b[i] == b[..|b| - j][i] == before[..|b| - j][i];
    }
    LeadingZeros(b, |b| - j, 58);
  }

  /** One turn of the carry loop: the digit at k takes in the carry and passes on what exceeds it. */
  method Turn(b58: array<u8>, k: nat, carry: nat, ghost before: seq<u8>, ghost length: nat, ghost byte: nat, ghost j: nat)
    returns (next: nat)
    requires Holds(before, length) && Carrying(before, b58[..], length, byte, j, carry)
    requires k == b58.Length - 1 - j && (carry != 0 || j < length)
    modifies b58
    ensures Carrying(before, b58[..], length, byte, j + 1, next)
  {
    ghost var b := b58[..];
    var sum: nat := carry + 256 * (b58[k] as int);
    var digit: u8 := sum % 58;
    next := sum / 58;
    CarryTurn(before, b, length, byte, j, carry, next, digit);
    b58[k] := digit;
    assert b58[..] == b[k := digit];
  }

  /** Multiplies the buffer's number by 256 and adds a byte, in place. */
  method AddByte(b58: array<u8>, length: nat, byte: u8) returns (j: nat)
    requires Holds(b58[..], length) && (length == 0 ==> byte != 0)
    requires 256 * Value(b58[..], 58) + byte < Power(58, b58.Length)
    modifies b58
    ensures Holds(b58[..], j) && j > 0
    ensures Value(b58[..], 58) == 256 * old(Value(b58[..], 58)) + byte
  {
    ghost var before := b58[..];
    var carry: nat := byte;
    j := 0;
    var k := b58.Length - 1;
    CarryStart(before, length, byte);
    while (carry != 0 || j < length) && k >= 0
      invariant k == b58.Length - 1 - j
      invariant Carrying(before, b58[..], length, byte, j, carry)
    {
      carry := Turn(b58, k, carry, before, length, byte, j);
      k := k - 1;
      j := j + 1;
    }
    CarryEnd(before, b58[..], length, byte, j, carry);
  }

  lemma {:induction false} RoomEnough(n: nat)
    ensures Power(256, n) <= Power(58, 2 * n)
  {
    if n > 0 {
      RoomEnough(n - 1);
      assert Power(58, 2 * n) == 58 * (58 * Power(58, 2 * n - 2));
    }
  }

  /** The number after one more byte, and that it fits the buffer. */
  lemma NextByte(bytes: seq<u8>, i: nat)
    requires i < |bytes|
    ensures Value(bytes[..i + 1], 256) == 256 * Value(bytes[..i], 256) + bytes[i]
    ensures Value(bytes[..i + 1], 256) < Power(58, 2 * |bytes|)
  {
    assert bytes[..i + 1][..i] == bytes[..i];
    ValueBound(bytes[..i + 1], 256);
    PowerGrows(256, i + 1, |bytes|);
    RoomEnough(|bytes|);
  }

  method BytesToBase58(bytes: seq<u8>, abc: Alphabet58) returns (result: string)
    ensures result == Encoded(bytes, abc)
  {
    var zeros := 0;
    while zeros < |bytes| && bytes[zeros] == 0
      invariant zeros <= ZeroPrefix(bytes)
    {
      zeros := zeros + 1;
    }
    var b58 := new u8[|bytes| * 2](_ => 0);
    var length := FillBuffer(bytes, zeros, b58);
    HeldDigits(b58[..], length);
    var letters := Spell(b58, length, abc);
    result := Repeat<char>('1', zeros) + letters;
  }

  method Spell(b58: array<u8>, length: nat, abc: Alphabet58) returns (letters: string)
    requires Holds(b58[..], length)
    ensures letters == Letters(b58[b58.Length - length..], abc)
  {
    ghost var digits := b58[b58.Length - length..];
    letters := "";
    for i := b58.Length - length to b58.Length
      invariant letters == Letters(digits, abc)[..i - (b58.Length - length)]
    {
      letters := letters + [abc[b58[i]]];
    }
  }

  /** The digits held in a buffer are those of its number. */
  lemma HeldDigits(b: seq<u8>, length: nat)
    requires Holds(b, length)
    ensures Digits(b[|b| - length..], 58) && ToDigits(Value(b, 58), 58) == b[|b| - length..]
  {
    LeadingZeros(b, |b| - length, 58);
    CanonicalUnique(b[|b| - length..], 58);
  }

  /** Feeds the bytes after the leading zeros to the buffer. */
  method FillBuffer(bytes: seq<u8>, zeros: nat, b58: array<u8>) returns (length: nat)
    requires zeros == ZeroPrefix(bytes) && b58.Length == 2 * |bytes|
    requires forall k :: 0 <= k < b58.Length ==> b58[k] == 0
    modifies b58
    ensures Holds(b58[..], length) && Value(b58[..], 58) == Value(bytes, 256)
  {
    length := 0;
    LeadingZeros(bytes[..zeros], zeros, 256);
    LeadingZeros(b58[..], b58.Length, 58);
    for i := zeros to |bytes|
      invariant Holds(b58[..], length) && (length == 0 <==> i == zeros)
      invariant Value(b58[..], 58) == Value(bytes[..i], 256)
    {
      NextByte(bytes, i);
      length := AddByte(b58, length, bytes[i]);
    }
    assert bytes[..|bytes|] == bytes;
  }

  // ---------- a reference decoder ----------

  function OnePrefix(s: string): (n: nat)
    ensures n <= |s| && forall i :: 0 <= i < n ==> s[i] == '1'
    ensures n < |s| ==> s[n] != '1'
  {
    if s == [] || s[0] != '1' then 0 else 1 + OnePrefix(s[1..])
  }

  /** A zero byte for every leading `1`, then the bytes of the number the letters spell. */
  function Decoded(s: string, abc: Alphabet58): seq<nat>
    requires Over(s, abc)
  {
    Repeat<nat>(0, OnePrefix(s)) + ToDigits(Value(Positions(s, abc), 58), 256)
  }

  lemma {:induction false} OnePrefixOf(n: nat, s: string)
    requires s != [] ==> s[0] != '1'
    ensures OnePrefix(Repeat<char>('1', n) + s) == n
  {
    if n > 0 {
      assert (Repeat<char>('1', n) + s)[1..] == Repeat<char>('1', n - 1) + s;
      OnePrefixOf(n - 1, s);
    }
  }

  /** Decoding an encoding returns the bytes, leading zeros included. */
  lemma DecodeOfEncode(bytes: seq<u8>, abc: Alphabet58)
    ensures Over(Encoded(bytes, abc), abc)
    ensures Decoded(Encoded(bytes, abc), abc) == bytes
  {
    var v, zeros := Value(bytes, 256), ZeroPrefix(bytes);
    var digits := ToDigits(v, 58);
    assert Canonical(digits, 58) && Value(digits, 58) == v by { ToDigitsCanonical(v, 58); }
    EncodedDigits(zeros, digits, abc);
    var s := Encoded(bytes, abc);
    assert OnePrefix(s) == zeros by { OnePrefixOf(zeros, Letters(digits, abc)); }
    assert Value(Positions(s, abc), 58) == v by { PaddedValue(zeros, digits, 58); }
    BytesOfValue(bytes);
  }

  lemma BytesOfValue(bytes: seq<u8>)
    ensures Repeat<nat>(0, ZeroPrefix(bytes)) + ToDigits(Value(bytes, 256), 256) == bytes
  {
    var zeros := ZeroPrefix(bytes);
    var rest := bytes[zeros..];
    assert bytes == Repeat<nat>(0, zeros) + rest;
    assert Value(bytes, 256) == Value(rest, 256) by { PaddedValue(zeros, rest, 256); }
    assert ToDigits(Value(rest, 256), 256) == rest by { CanonicalUnique(rest, 256); }
  }

  lemma PaddedValue(zeros: nat, digits: seq<nat>, base: nat)
    ensures Value(Repeat<nat>(0, zeros) + digits, base) == Value(digits, base)
  {
    var all := Repeat<nat>(0, zeros) + digits;
    LeadingZeros(all, zeros, base);
    assert all[zeros..] == digits;
  }

  lemma EncodedDigits(zeros: nat, digits: seq<nat>, abc: Alphabet58)
    requires Canonical(digits, 58)
    ensures var s := Repeat<char>('1', zeros) + Letters(digits, abc);
      && Over(s, abc) && Positions(s, abc) == Repeat<nat>(0, zeros) + digits
    ensures digits != [] ==> Letters(digits, abc)[0] != '1'
  {
    var s := Repeat<char>('1', zeros) + Letters(digits, abc);
    var all := Repeat<nat>(0, zeros) + digits;
    forall i | 0 <= i < |s| ensures s[i] == abc[all[i]] {
    }
    assert Over(s, abc);
    forall i | 0 <= i < |s| ensures Positions(s, abc)[i] == all[i] {
      PositionOfLetter(abc, all[i]);
    }
  }

  lemma {:induction false} ZeroPrefixOf(bytes: seq<u8>, n: nat)
    requires n <= |bytes| && (forall i :: 0 <= i < n ==> bytes[i] == 0) && (n < |bytes| ==> bytes[n] != 0)
    ensures ZeroPrefix(bytes) == n
  {
    if n > 0 {
      ZeroPrefixOf(bytes[1..], n - 1);
    }
  }

  /** The digits of any letters: a zero for every leading `1`, then canonical digits. */
  lemma DigitsSplit(s: string, abc: Alphabet58) returns (digits: seq<nat>)
    requires Over(s, abc)
    ensures Canonical(digits, 58) && Positions(s, abc) == Repeat<nat>(0, OnePrefix(s)) + digits
  {
    var n, all := OnePrefix(s), Positions(s, abc);
    digits := all[n..];
    forall i | 0 <= i < n ensures all[i] == 0 {
      assert abc[all[i]] == abc[0];
    }
    assert all[..n] == Repeat<nat>(0, n);
    assert digits != [] ==> abc[digits[0]] == s[n] != '1';
  }

  lemma BytesOfNumber(v: nat, zeros: nat) returns (bytes: seq<u8>)
    ensures bytes == Repeat<nat>(0, zeros) + ToDigits(v, 256)
    ensures ZeroPrefix(bytes) == zeros && Value(bytes, 256) == v
  {
    ToDigitsCanonical(v, 256);
    var digits := ToDigits(v, 256);
    bytes := Repeat<nat>(0, zeros) + digits;
    ZeroPrefixOf(bytes, zeros);
    PaddedValue(zeros, digits, 256);
  }

  /** Every text over the alphabet is the encoding of the bytes it decodes to, and of no others. */
  lemma EncodeOfDecode(s: string, abc: Alphabet58) returns (bytes: seq<u8>)
    requires Over(s, abc)
    ensures Decoded(s, abc) == bytes && Encoded(bytes, abc) == s
    ensures forall other: seq<u8> :: Encoded(other, abc) == s ==> other == bytes
  {
    var zeros := OnePrefix(s);
    var digits := DigitsSplit(s, abc);
    var v := Value(digits, 58);
    PaddedValue(zeros, digits, 58);
    bytes := BytesOfNumber(v, zeros);
    CanonicalUnique(digits, 58);
    LettersOfDigits(s, zeros, digits, abc);
    forall other: seq<u8> | Encoded(other, abc) == s ensures other == bytes {
      DecodeOfEncode(other, abc);
    }
  }

  lemma LettersOfDigits(s: string, zeros: nat, digits: seq<nat>, abc: Alphabet58)
    requires Over(s, abc) && Digits(digits, 58)
    requires Positions(s, abc) == Repeat<nat>(0, zeros) + digits
    ensures Repeat<char>('1', zeros) + Letters(digits, abc) == s
  {
    var t, all := Repeat<char>('1', zeros) + Letters(digits, abc), Repeat<nat>(0, zeros) + digits;
    forall i | 0 <= i < |s| ensures t[i] == s[i] {
      assert abc[all[i]] == s[i];
    }
  }
}
