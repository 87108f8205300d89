/** Packing short texts over a fixed alphabet into a machine word. A text is the string of its
    UTF-8 bytes, one char per byte. */
module Alphabet {
  import opened Common
  import opened Arithmetic
  import opened Radix

  const BASE40_ALPHABET: string := "abcdefghijklmnopqrstuvwxyz0123456789 .?\n"
  const BASE43_ALPHABET: string := "abcdefghijklmnopqrstuvwxyz0123456789 .,!?'\n"
  const BASE40_MAX_CHARS: nat := 12
  const BASE43_MAX_CHARS: nat := 11

  datatype MessageError =
    | UnsupportedCharacter(c: char)
    | ChunkTooLong(len: nat, max: nat)
    | PackedValueOutOfRange(value: nat, len: nat)
    | SequenceTooLarge(n: nat)
    | PacketPayloadTooLong(len: nat)
    | BadPacketChecksum
    | ZeroTransferAmount
    | UnsupportedPacketVersion(version: nat)
    | PacketSequenceMismatch(expected: nat, got: nat)
    | PacketAfterFinal
    | MissingFinalPacket

  /** An alphabet without repeats whose words of up to `maxChars` letters fit 64 bits. */
  ghost predicate Fits(alphabet: string, maxChars: nat) {
    && alphabet != []
    && NoRepeats(alphabet)
    && Power(|alphabet|, maxChars) < U64_SIZE
  }

  ghost predicate NoRepeats(alphabet: string) {
    forall i, j :: 0 <= i < j < |alphabet| ==> alphabet[i] != alphabet[j]
  }

  ghost predicate Ascii(text: string) {
    forall i :: 0 <= i < |text| ==> text[i] as int < 128
  }

  ghost predicate Over(text: string, alphabet: string) {
    forall i :: 0 <= i < |text| ==> text[i] in alphabet
  }

  function Position(alphabet: string, c: char): (n: nat)
    requires c in alphabet
    ensures n < |alphabet| && alphabet[n] == c && c !in alphabet[..n]
  {
    if alphabet[0] == c then 0 else 1 + Position(alphabet[1..], c)
  }

  /** The letters' positions in the alphabet. */
  function Positions(text: string, alphabet: string): (d: seq<nat>)
    requires Over(text, alphabet)
    ensures |d| == |text| && Digits(d, |alphabet|)
    ensures forall i :: 0 <= i < |text| ==> alphabet[d[i]] == text[i]
  {
    seq(|text|, i requires 0 <= i < |text| => Position(alphabet, text[i]))
  }

  /** The number a text spells, first letter most significant. */
  function PackValue(text: string, alphabet: string): nat
    requires Over(text, alphabet)
  {
    Value(Positions(text, alphabet), |alphabet|)
  }

  lemma PackValueLast(init: string, last: char, alphabet: string)
    requires Over(init, alphabet) && last in alphabet
    ensures Over(init + [last], alphabet)
    ensures PackValue(init + [last], alphabet) == |alphabet| * PackValue(init, alphabet) + Position(alphabet, last)
  {
    var text := init + [last];
    assert Over(text, alphabet);
    var d := Positions(text, alphabet);
    assert d[..|d| - 1] == Positions(init, alphabet) && d[|d| - 1] == Position(alphabet, last);
  }

  function UnpackText(value: nat, len: nat, alphabet: string): (text: string)
    requires alphabet != []
    ensures |text| == len
    decreases len
  {
    if len == 0 then []
    else
      DivNat(value, |alphabet|);
      UnpackText(value / |alphabet|, len - 1, alphabet) + [alphabet[value % |alphabet|]]
  }

  /** Unpacking what was packed returns the text. */
  lemma {:induction false} UnpackOfPack(text: string, alphabet: string)
    requires Over(text, alphabet) && alphabet != []
    ensures UnpackText(PackValue(text, alphabet), |text|, alphabet) == text
  {
    if text != [] {
      var init, last := text[..|text| - 1], text[|text| - 1];
      UnpackOfPack(init, alphabet);
      assert text == init + [last];
      PackValueLast(init, last, alphabet);
      UniqueRemainder(PackValue(text, alphabet), |alphabet|, PackValue(init, alphabet), Position(alphabet, last));
    }
  }

  /** Packing what was unpacked returns the number. */
  lemma {:induction false} PackOfUnpack(value: nat, len: nat, alphabet: string)
    requires alphabet != [] && value < Power(|alphabet|, len)
    requires NoRepeats(alphabet)
    ensures var text := UnpackText(value, len, alphabet);
      Over(text, alphabet) && PackValue(text, alphabet) == value
    decreases len
  {
    if len > 0 {
      var radix := |alphabet|;
      var high, digit := DivMod(value, radix);
      QuotientBelow(value, radix, high, digit, Power(radix, len - 1));
      PackOfUnpack(high, len - 1, alphabet);
      PackLast(value, high, digit, len - 1, alphabet);
    }
  }

  lemma PackLast(value: nat, high: nat, digit: nat, len: nat, alphabet: string)
    requires digit < |alphabet| && NoRepeats(alphabet)
    requires value / |alphabet| == high && value % |alphabet| == digit
    requires Over(UnpackText(high, len, alphabet), alphabet)
    ensures var text := UnpackText(value, len + 1, alphabet);
      && Over(text, alphabet)
      && PackValue(text, alphabet) == |alphabet| * PackValue(UnpackText(high, len, alphabet), alphabet) + digit
  {
    UnpackPush(value, len, alphabet);
    PackPush(UnpackText(high, len, alphabet), alphabet, digit);
  }

  lemma UnpackPush(value: nat, len: nat, alphabet: string)
    requires alphabet != []
    ensures 0 <= value / |alphabet|
    ensures UnpackText(value, len + 1, alphabet)
         == UnpackText(value / |alphabet|, len, alphabet) + [alphabet[value % |alphabet|]]
  {
    DivNat(value, |alphabet|);
  }

  lemma PackPush(text: string, alphabet: string, digit: nat)
    requires Over(text, alphabet) && digit < |alphabet|
    requires NoRepeats(alphabet)
    ensures Over(text + [alphabet[digit]], alphabet)
    ensures PackValue(text + [alphabet[digit]], alphabet) == |alphabet| * PackValue(text, alphabet) + digit
  {
    PositionOfLetter(alphabet, digit);
    PackValueLast(text, alphabet[digit], alphabet);
  }

  lemma PositionOfLetter(alphabet: string, n: nat)
    requires n < |alphabet|
    requires NoRepeats(alphabet)
    ensures alphabet[n] in alphabet && Position(alphabet, alphabet[n]) == n
  {
  }

  // ---------- the two loops ----------

  /** The first letter that is not in the alphabet, if any. */
  function FirstForeign(text: string, alphabet: string): (r: Option<char>)
    ensures r.None? <==> Over(text, alphabet)
    ensures r.Some? ==> r.value in text && r.value !in alphabet
  {
    if text == [] then None
    else if text[0] !in alphabet then Some(text[0])
    else
      assert forall i :: 0 <= i < |text| - 1 ==> text[1..][i] == text[i + 1];
      FirstForeign(text[1..], alphabet)
  }

  /** It is the first: everything before it is in the alphabet. */
  lemma {:induction false} ForeignIsFirst(text: string, alphabet: string) returns (i: nat)
    requires !Over(text, alphabet)
    ensures i < |text| && Over(text[..i], alphabet) && text[i] !in alphabet
    ensures FirstForeign(text, alphabet) == Some(text[i])
  {
    i := 0;
    if text[0] in alphabet {
      var rest := ForeignIsFirst(text[1..], alphabet);
      i := rest + 1;
      forall k | 0 <= k < i ensures text[..i][k] in alphabet {
        assert k > 0 ==> text[..i][k] == text[1..][..rest][k - 1];
      }
    }
  }

  function Packed(text: string, alphabet: string, maxChars: nat): Result<nat, MessageError> {
    if |text| > maxChars then Err(ChunkTooLong(|text|, maxChars))
    else
      match FirstForeign(text, alphabet)
      case Some(c) => Err(UnsupportedCharacter(c))
      case None => Ok(PackValue(text, alphabet))
  }

  function Unpacked(value: nat, len: nat, alphabet: string, maxChars: nat): Result<string, MessageError>
    requires alphabet != []
  {
    if len > maxChars then Err(ChunkTooLong(len, maxChars))
    else if value >= Power(|alphabet|, len) then Err(PackedValueOutOfRange(value, len))
    else Ok(UnpackText(value, len, alphabet))
  }

  lemma {:induction false} ForeignAfter(text: string, alphabet: string, i: nat)
    requires i <= |text| && Over(text[..i], alphabet)
    ensures FirstForeign(text, alphabet) == FirstForeign(text[i..], alphabet)
    decreases i
  {
    if i > 0 {
      assert text[..i][0] in alphabet;
      var init := text[1..][..i - 1];
      forall k | 0 <= k < |init| ensures init[k] in alphabet {
        assert init[k] == text[..i][k + 1];
      }
      ForeignAfter(text[1..], alphabet, i - 1);
      assert text[1..][i - 1..] == text[i..];
    }
  }

  lemma PackFits(text: string, alphabet: string, maxChars: nat)
    requires Over(text, alphabet) && |text| <= maxChars && Fits(alphabet, maxChars)
    ensures PackValue(text, alphabet) < U64_SIZE
  {
    ValueBound(Positions(text, alphabet), |alphabet|);
    PowerGrows(|alphabet|, |text|, maxChars);
  }

  /** One turn of the packing loop, and why it cannot overflow. */
  lemma PackStep(done: string, letter: char, alphabet: string, maxChars: nat)
    requires |done| < maxChars && Fits(alphabet, maxChars)
    requires Over(done, alphabet) && letter in alphabet
    ensures Over(done + [letter], alphabet)
    ensures PackValue(done + [letter], alphabet)
         == |alphabet| * PackValue(done, alphabet) + Position(alphabet, letter) < U64_SIZE
  {
    PackValueLast(done, letter, alphabet);
    PackFits(done + [letter], alphabet, maxChars);
  }

  /** The accumulator stays a u64 throughout, so the source's `expect` cannot fail. */
  method PackChunk(text: string, alphabet: string, maxChars: nat) returns (r: Result<u64, MessageError>)
    requires Fits(alphabet, maxChars)
    ensures r == Packed(text, alphabet, maxChars)
  {
    if |text| > maxChars {
      return Err(ChunkTooLong(|text|, maxChars));
    }
    var out: u64 := 0;
    for i := 0 to |text|
      invariant Over(text[..i], alphabet) && out == PackValue(text[..i], alphabet)
    {
      if text[i] !in alphabet {
        ForeignAfter(text, alphabet, i);
        return Err(UnsupportedCharacter(text[i]));
      }
      PackStep(text[..i], text[i], alphabet, maxChars);
      assert text[..i + 1] == text[..i] + [text[i]];
      out := |alphabet| * out + Position(alphabet, text[i]);
    }
    assert text[..|text|] == text;
    r := Ok(out);
  }

  /** The power is computed without overflow because the length was checked first. */
  method CheckedPow(b: nat, e: nat, ghost max: nat) returns (out: u64)
    requires b > 0 && e <= max && Power(b, max) < U64_SIZE
    ensures out == Power(b, e)
  {
    out := 1;
    for i := 0 to e
      invariant out == Power(b, i)
    {
      PowerGrows(b, i + 1, max);
      out := out * b;
    }
  }

  method UnpackChunk(value: u64, len: nat, alphabet: string, maxChars: nat) returns (r: Result<string, MessageError>)
    requires Fits(alphabet, maxChars)
    ensures r == Unpacked(value, len, alphabet, maxChars)
  {
    if len > maxChars {
      return Err(ChunkTooLong(len, maxChars));
    }
    var limit := CheckedPow(|alphabet|, len, maxChars);
    if value >= limit {
      return Err(PackedValueOutOfRange(value, len));
    }
    var text := UnpackLoop(value, len, alphabet);
    r := Ok(text);
  }

  /** Fills the letters from the back while dividing. */
  method UnpackLoop(value: u64, len: nat, alphabet: string) returns (text: string)
    requires alphabet != []
    ensures text == UnpackText(value, len, alphabet)
  {
    var out := new char[len](_ => '\0');
    var rest: nat := value;
    for k := len downto 0
      invariant UnpackText(rest, k, alphabet) + out[k..] == UnpackText(value, len, alphabet)
    {
      ghost var tail := out[k + 1..];
      UnpackPush(rest, k, alphabet);
      out[k] := alphabet[rest % |alphabet|];
      assert out[k..] == [out[k]] + tail;
      rest := rest / |alphabet|;
    }
    text := out[..];
    assert out[0..] == text;
  }

  // ---------- the alphabets of the source ----------

  function Rank40(c: char): int {
    if 'a' <= c <= 'z' then c as int - 'a' as int
    else if '0' <= c <= '9' then 26 + (c as int - '0' as int)
    else if c == ' ' then 36
    else if c == '.' then 37
    else if c == '?' then 38
    else 39
  }

  function Rank43(c: char): int {
    if 'a' <= c <= 'z' then c as int - 'a' as int
    else if '0' <= c <= '9' then 26 + (c as int - '0' as int)
    else if c == ' ' then 36
    else if c == '.' then 37
    else if c == ',' then 38
    else if c == '!' then 39
    else if c == '?' then 40
    else if c == '\'' then 41
    else 42
  }

  lemma Ranked40(i: nat)
    requires i < |BASE40_ALPHABET|
    ensures Rank40(BASE40_ALPHABET[i]) == i
  {
  }

  lemma Ranked43(i: nat)
    requires i < |BASE43_ALPHABET|
    ensures Rank43(BASE43_ALPHABET[i]) == i
  {
  }

  lemma Base40Powers()
    ensures Power(40, BASE40_MAX_CHARS) < U64_SIZE && Power(40, 9) < 0x1_0000_0000_0000
  {
    assert Power(40, 3) == 64000;
    PowerAdd(40, 3, 3);
    PowerAdd(40, 6, 3);
    PowerAdd(40, 9, 3);
  }

  lemma Base43Powers()
    ensures Power(43, BASE43_MAX_CHARS) < U64_SIZE
  {
    assert Power(43, 3) == 79507;
    assert Power(43, 2) == 1849;
    PowerAdd(43, 3, 3);
    PowerAdd(43, 6, 3);
    PowerAdd(43, 9, 2);
  }

  /** Longer chunks would not fit: the two limits are the largest possible. */
  lemma ChunksAreLongest()
    ensures Power(40, BASE40_MAX_CHARS + 1) >= U64_SIZE && Power(43, BASE43_MAX_CHARS + 1) >= U64_SIZE
  {
    Base40Powers();
    Base43Powers();
    assert Power(40, 3) == 64000 && Power(43, 3) == 79507;
    PowerAdd(40, 3, 3);
    PowerAdd(40, 6, 6);
    PowerAdd(40, 12, 1);
    PowerAdd(43, 3, 3);
    PowerAdd(43, 6, 6);
  }

  /** Both alphabets are free of repeats, and their longest chunks fit 64 bits. */
  lemma AlphabetsFit()
    ensures |BASE40_ALPHABET| == 40 && Fits(BASE40_ALPHABET, BASE40_MAX_CHARS)
    ensures |BASE43_ALPHABET| == 43 && Fits(BASE43_ALPHABET, BASE43_MAX_CHARS)
  {
    Base40Powers();
    Base43Powers();
    forall i, j | 0 <= i < j < |BASE40_ALPHABET| ensures BASE40_ALPHABET[i] != BASE40_ALPHABET[j] {
      Ranked40(i);
      Ranked40(j);
    }
    forall i, j | 0 <= i < j < |BASE43_ALPHABET| ensures BASE43_ALPHABET[i] != BASE43_ALPHABET[j] {
      Ranked43(i);
      Ranked43(j);
    }
  }

  lemma Base40Ascii()
    ensures Ascii(BASE40_ALPHABET)
  {
  }

  /** A 40-letter ASCII alphabet without repeats. Packets are about any such alphabet; the one the
      source uses is the witness. */
  type Alphabet40 = a: string | |a| == 40 && NoRepeats(a) && Ascii(a)
    ghost witness (AlphabetsFit(); Base40Ascii(); BASE40_ALPHABET)

  lemma Alphabet40Fits(a: Alphabet40)
    ensures Fits(a, BASE40_MAX_CHARS)
  {
    Base40Powers();
  }
}
