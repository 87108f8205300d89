/** Texts of many packets: cutting a text into numbered packets and putting it together again. */
module Framing {
  import opened Common
  import opened Alphabet
  import opened Packets

  const MAX_PACKETS: nat := 128
  const MAX_TEXT: nat := MAX_PACKETS * PACKET_PAYLOAD_CHARS

  function NewPacket(sequence: u8, finalPacket: bool, chunk: string, abc: Alphabet40): Result<Packet, MessageError> {
    if |chunk| > PACKET_PAYLOAD_CHARS then Err(PacketPayloadTooLong(|chunk|))
    else
      match Packed(chunk, abc, BASE40_MAX_CHARS)
      case Err(e) => Err(e)
      case Ok(_) => Ok(Packet(sequence, finalPacket, chunk))
  }

  function FrameCount(text: string): nat {
    if text == [] then 1 else (|text| + PACKET_PAYLOAD_CHARS - 1) / PACKET_PAYLOAD_CHARS
  }

  /** The i-th piece of nine characters. */
  function Piece(text: string, i: nat): string
    requires i < FrameCount(text)
  {
    text[9 * i..Min(9 * i + 9, |text|)]
  }

  /** The packets of a text: consecutive pieces of nine, numbered from zero, the last one final. */
  ghost predicate IsFraming(packets: seq<Packet>, text: string) {
    && |packets| == FrameCount(text) <= MAX_PACKETS
    && forall i :: 0 <= i < |packets| ==> packets[i] == Packet(i, i == |packets| - 1, Piece(text, i))
  }

  lemma OverIsAscii(text: string, abc: Alphabet40)
    requires Over(text, abc)
    ensures Ascii(text)
  {
    forall i | 0 <= i < |text| ensures text[i] as int < 128 {
      var k :| 0 <= k < |abc| && abc[k] == text[i];
    }
  }

  lemma OverSlice(text: string, lo: nat, hi: nat, abc: string)
    requires lo <= hi <= |text|
    ensures Over(text, abc) ==> Over(text[lo..hi], abc) && Over(text[..hi], abc)
    ensures Over(text[..lo], abc) && Over(text[lo..hi], abc) ==> Over(text[..hi], abc)
  {
    if Over(text, abc) {
      assert forall i :: 0 <= i < hi - lo ==> text[lo..hi][i] == text[lo + i];
    }
    if Over(text[..lo], abc) && Over(text[lo..hi], abc) {
      forall i | 0 <= i < hi ensures text[..hi][i] in abc {
        assert text[..hi][i] == if i < lo then text[..lo][i] else text[lo..hi][i - lo];
      }
    }
  }

  /** A piece that is rejected makes the first 1152 characters, and the text, unencodable. */
  lemma ForeignPiece(text: string, lo: nat, hi: nat, abc: string)
    requires lo <= hi <= |text| && hi <= MAX_TEXT && !Over(text[lo..hi], abc)
    ensures !Over(text[..Min(|text|, MAX_TEXT)], abc) && !Over(text, abc)
  {
    var head := text[..Min(|text|, MAX_TEXT)];
    assert head[lo..hi] == text[lo..hi];
    OverSlice(head, lo, hi, abc);
    OverSlice(text, lo, hi, abc);
  }

  /** The first piece with a letter outside the alphabet is the n-th, and the error names its first such
      letter, or zero when the piece is not text on its own. */
  ghost predicate RejectedAt(text: string, abc: Alphabet40, validUtf8: string -> bool, n: nat, e: MessageError) {
    && n < FrameCount(text) && n < MAX_PACKETS && 9 * n <= |text|
    && Over(text[..9 * n], abc) && !Over(Piece(text, n), abc)
    && e == UnsupportedCharacter(if validUtf8(Piece(text, n)) then FirstForeign(Piece(text, n), abc).value else '\0')
  }

  /** The packet of the i-th piece, when all before it are over the alphabet. */
  method PiecePacket(text: string, i: nat, abc: Alphabet40, validUtf8: string -> bool)
    returns (r: Result<Packet, MessageError>)
    requires i < FrameCount(text) && i < MAX_PACKETS && 9 * i <= |text| && Over(text[..9 * i], abc)
    requires forall s :: Ascii(s) ==> validUtf8(s)
    ensures r.Ok? ==> Over(text[..Min(9 * i + 9, |text|)], abc)
    ensures r.Ok? ==> r.value == Packet(i, i == FrameCount(text) - 1, Piece(text, i))
    ensures r.Err? ==> RejectedAt(text, abc, validUtf8, i, r.error)
    ensures r.Err? ==> !Over(text[..Min(|text|, MAX_TEXT)], abc) && !Over(text, abc)
  {
    var chunk := Piece(text, i);
    if !Over(chunk, abc) {
      ForeignPiece(text, 9 * i, Min(9 * i + 9, |text|), abc);
    } else {
      OverIsAscii(chunk, abc);
      OverSlice(text, 9 * i, Min(9 * i + 9, |text|), abc);
    }
    if !validUtf8(chunk) {
      return Err(UnsupportedCharacter('\0'));
    }
    r := NewPacket(i, (i + 1) * PACKET_PAYLOAD_CHARS >= |text|, chunk, abc);
  }

  /** `validUtf8` is the library's check that a piece of nine bytes is text on its own; all that
      matters of it is that ASCII passes. */
  method EncodeTextPackets(text: string, abc: Alphabet40, validUtf8: string -> bool)
    returns (r: Result<seq<Packet>, MessageError>)
    requires forall s :: Ascii(s) ==> validUtf8(s)
    ensures r.Ok? <==> |text| <= 1152 && Over(text, abc)
    ensures r.Ok? ==> IsFraming(r.value, text)
    ensures r.Err? ==> if Over(text[..Min(|text|, 1152)], abc) then r.error == SequenceTooLarge(128)
                       else exists n :: RejectedAt(text, abc, validUtf8, n, r.error)
  {
    if text == [] {
      return Ok([Packet(0, true, "")]);
    }
    var packets: seq<Packet> := [];
    for i := 0 to FrameCount(text)
      invariant |packets| == i <= MAX_PACKETS
      invariant forall k :: 0 <= k < i ==> packets[k] == Packet(k, k == FrameCount(text) - 1, Piece(text, k))
      invariant Over(text[..Min(9 * i, |text|)], abc)
    {
      if i > 127 {
        return Err(SequenceTooLarge(i));
      }
      var packet := PiecePacket(text, i, abc, validUtf8);
      if packet.Err? {
        return Err(packet.error);
      }
      packets := packets + [packet.value];
    }
    assert text[..|text|] == text;
    r := Ok(packets);
  }

  // ---------- putting a text together ----------

  function DecodeFrom(packets: seq<Packet>, k: nat, sawFinal: bool): Result<string, MessageError>
    requires k <= |packets|
    decreases |packets| - k
  {
    if k == |packets| then (if sawFinal then Ok("") else Err(MissingFinalPacket))
    else if sawFinal then Err(PacketAfterFinal)
    else if packets[k].sequence != k % 256 then Err(PacketSequenceMismatch(k % 256, packets[k].sequence))
    else
      match DecodeFrom(packets, k + 1, packets[k].finalPacket)
      case Err(e) => Err(e)
      case Ok(rest) => Ok(packets[k].chunk + rest)
  }

  method DecodePackets(packets: seq<Packet>) returns (r: Result<string, MessageError>)
    ensures r == DecodeFrom(packets, 0, false)
  {
    var out := "";
    var sawFinal := false;
    assert forall rest: string :: out + rest == rest;
    for k := 0 to |packets|
      invariant DecodeFrom(packets, 0, false)
        == match DecodeFrom(packets, k, sawFinal) case Err(e) => Err(e) case Ok(rest) => Ok(out + rest)
    {
      if sawFinal {
        return Err(PacketAfterFinal);
      }
      if packets[k].sequence != k % 256 {
        return Err(PacketSequenceMismatch(k % 256, packets[k].sequence));
      }
      var next := DecodeFrom(packets, k + 1, packets[k].finalPacket);
      if next.Ok? {
        assert out + (packets[k].chunk + next.value) == out + packets[k].chunk + next.value;
      }
      out := out + packets[k].chunk;
      sawFinal := packets[k].finalPacket;
    }
    if !sawFinal {
      return Err(MissingFinalPacket);
    }
    assert out + "" == out;
    r := Ok(out);
  }

  function Chunks(packets: seq<Packet>, k: nat): string
    requires k <= |packets|
    decreases |packets| - k
  {
    if k == |packets| then "" else packets[k].chunk + Chunks(packets, k + 1)
  }

  /** Numbered in order (modulo 256, as the counter wraps) and closed by the only final packet. */
  ghost predicate InOrder(packets: seq<Packet>, k: nat) {
    forall i :: k <= i < |packets| ==>
      packets[i].sequence == i % 256 && (packets[i].finalPacket <==> i == |packets| - 1)
  }

  lemma {:induction false} DecodeFromAccepts(packets: seq<Packet>, k: nat, sawFinal: bool, text: string)
    requires k <= |packets|
    ensures DecodeFrom(packets, k, sawFinal) == Ok(text)
       <==> InOrder(packets, k) && (sawFinal <==> k == |packets|) && text == Chunks(packets, k)
    decreases |packets| - k
  {
    if k < |packets| && !sawFinal {
      var rest := Chunks(packets, k + 1);
      DecodeFromAccepts(packets, k + 1, packets[k].finalPacket, rest);
      match DecodeFrom(packets, k + 1, packets[k].finalPacket)
      case Err(_) =>
      case Ok(t) => DecodeFromAccepts(packets, k + 1, packets[k].finalPacket, t);
    }
  }

  /** A stream decodes exactly when it is non-empty, numbered in order, and only its last packet is
      final; the text is then the concatenation of the chunks. */
  lemma DecodeAcceptsExactly(packets: seq<Packet>, text: string)
    ensures DecodeFrom(packets, 0, false) == Ok(text)
       <==> packets != [] && InOrder(packets, 0) && text == Chunks(packets, 0)
  {
    DecodeFromAccepts(packets, 0, false, text);
  }

  /** The first k packets are numbered in order and none of them is final. */
  ghost predicate Continues(packets: seq<Packet>, k: nat) {
    k <= |packets| && forall i :: 0 <= i < k ==> packets[i].sequence == i % 256 && !packets[i].finalPacket
  }

  lemma {:induction false} DecodeFromEnd(packets: seq<Packet>, from: nat, k: nat)
    requires from <= k && Continues(packets, k) && k == |packets|
    ensures DecodeFrom(packets, from, false) == Err(MissingFinalPacket)
    decreases k - from
  {
    if from < k {
      DecodeFromEnd(packets, from + 1, k);
    }
  }

  lemma {:induction false} DecodeFromStop(packets: seq<Packet>, from: nat, k: nat)
    requires from <= k < |packets| && Continues(packets, k)
    requires packets[k].sequence != k % 256 || packets[k].finalPacket
    ensures packets[k].sequence != k % 256 ==>
              DecodeFrom(packets, from, false) == Err(PacketSequenceMismatch(k % 256, packets[k].sequence))
    ensures packets[k].sequence == k % 256 && k + 1 < |packets| ==>
              DecodeFrom(packets, from, false) == Err(PacketAfterFinal)
    decreases k - from
  {
    if from < k {
      DecodeFromStop(packets, from + 1, k);
    }
  }

  /** What any stream gives, by where it first stops continuing: nowhere, so that the final packet is
      missing; at a packet out of number; or at a final packet, which must be the last. */
  lemma {:induction false} DecodeByStop(packets: seq<Packet>) returns (k: nat)
    ensures Continues(packets, k)
    ensures k < |packets| ==> packets[k].sequence != k % 256 || packets[k].finalPacket
    ensures DecodeFrom(packets, 0, false)
         == if k == |packets| then Err(MissingFinalPacket)
            else if packets[k].sequence != k % 256 then Err(PacketSequenceMismatch(k % 256, packets[k].sequence))
            else if k + 1 < |packets| then Err(PacketAfterFinal)
            else Ok(Chunks(packets, 0))
  {
    k := 0;
    while k < |packets| && packets[k].sequence == k % 256 && !packets[k].finalPacket
      invariant Continues(packets, k)
    {
      k := k + 1;
    }
    if k == |packets| {
      DecodeFromEnd(packets, 0, k);
    } else if packets[k].sequence == k % 256 && k + 1 == |packets| {
      DecodeAcceptsExactly(packets, Chunks(packets, 0));
    } else {
      DecodeFromStop(packets, 0, k);
    }
  }

  lemma PieceAndRest(text: string, k: nat)
    requires k < FrameCount(text)
    ensures text[Min(9 * k, |text|)..] == Piece(text, k) + text[Min(9 * (k + 1), |text|)..]
  {
  }

  lemma {:induction false} FramingJoins(packets: seq<Packet>, text: string, k: nat)
    requires IsFraming(packets, text) && k <= |packets|
    ensures Chunks(packets, k) == text[Min(9 * k, |text|)..]
    decreases |packets| - k
  {
    if k < |packets| {
      FramingJoins(packets, text, k + 1);
      assert Chunks(packets, k) == Piece(text, k) + Chunks(packets, k + 1);
      PieceAndRest(text, k);
    }
  }

  /** Decoding the packets of a text returns the text. */
  lemma FramingDecodes(packets: seq<Packet>, text: string)
    requires IsFraming(packets, text)
    ensures DecodeFrom(packets, 0, false) == Ok(text)
  {
    FramingJoins(packets, text, 0);
    DecodeAcceptsExactly(packets, text);
  }

  /** End to end: a text in the alphabet, cut into packets, each carried by an amount over a channel
      of its own, arrives: every amount reads back as its packet, and the packets decode to the text. */
  lemma {:induction false} MessageArrives(
    text: string, abc: Alphabet40, packets: seq<Packet>, channels: seq<Channel>, amounts: seq<u64>)
    requires Over(text, abc) && IsFraming(packets, text)
    requires forall i :: 0 <= i < |channels| ==> channels[i].alphabet == abc
    requires |channels| == |amounts| == |packets|
    requires forall i :: 0 <= i < |packets| ==> PacketToAmount(packets[i], channels[i]) == Ok(amounts[i])
    ensures forall i :: 0 <= i < |packets| ==> AmountToPacket(amounts[i], channels[i]) == Ok(packets[i])
    ensures DecodeFrom(packets, 0, false) == Ok(text)
  {
    forall i | 0 <= i < |packets| ensures AmountToPacket(amounts[i], channels[i]) == Ok(packets[i]) {
      OverSlice(text, 9 * i, Min(9 * i + 9, |text|), abc);
      assert packets[i] == Packet(i, i == |packets| - 1, Piece(text, i));
      AmountsMatchPackets(amounts[i], packets[i], channels[i]);
    }
    FramingDecodes(packets, text);
  }
}
