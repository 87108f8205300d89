/** Message packets: their 64-bit words, the amounts that carry them, and multi-packet texts. */
module Packets {
  import opened Common
  import opened Arithmetic
  import opened Bits
  import opened Radix
  import opened Alphabet
  import opened Cipher

  const PACKET_PAYLOAD_CHARS: nat := 9
  const PACKET_VERSION: nat := 0
  const LEN_SHIFT: nat := 48
  const FINAL_SHIFT: nat := 52
  const SEQUENCE_SHIFT: nat := 53
  const VERSION_SHIFT: nat := 60
  const CHECKSUM_SHIFT: nat := 62

  type u2 = x: nat | x < 4

  /** A channel: the alphabet, the round function for its key and nonce, and the checksum. */
  datatype Channel = Channel(alphabet: Alphabet40, round: RoundFunction, checksum: u64 -> u2)

  datatype Packet = Packet(sequence: u8, finalPacket: bool, chunk: string)

  /** What the constructor checks; the sequence number is not among it. */
  ghost predicate WellFormed(p: Packet, abc: Alphabet40) {
    |p.chunk| <= PACKET_PAYLOAD_CHARS && Over(p.chunk, abc)
  }

  // ---------- the word of a packet ----------

  /** The fields of a word below the checksum, each in its place. */
  function Fields(payload: nat, len: nat, final: nat, sequence: nat): nat {
    payload + len * 0x1_0000_0000_0000 + final * 0x10_0000_0000_0000 + sequence * 0x20_0000_0000_0000
  }

  function Encoded(p: Packet, abc: Alphabet40): nat
    requires Over(p.chunk, abc)
  {
    Fields(PackValue(p.chunk, abc), |p.chunk|, if p.finalPacket then 1 else 0, p.sequence)
  }

  lemma PayloadFits(text: string, abc: Alphabet40)
    requires Over(text, abc) && |text| <= PACKET_PAYLOAD_CHARS
    ensures PackValue(text, abc) < Power(40, |text|) <= Power(40, 9) < 0x1_0000_0000_0000
  {
    ValueBound(Positions(text, abc), 40);
    PowerGrows(40, |text|, 9);
    Base40Powers();
  }

  lemma EncodedFits(p: Packet, abc: Alphabet40)
    requires WellFormed(p, abc)
    ensures Encoded(p, abc) < 0x4000_0000_0000_0000
  {
    PayloadFits(p.chunk, abc);
  }

  function WordOf(p: Packet, ch: Channel): Result<u64, MessageError> {
    if |p.chunk| > PACKET_PAYLOAD_CHARS then Err(PacketPayloadTooLong(|p.chunk|))
    else
      match FirstForeign(p.chunk, ch.alphabet)
      case Some(c) => Err(UnsupportedCharacter(c))
      case None =>
        EncodedFits(p, ch.alphabet);
        var below := Encoded(p, ch.alphabet);
        Ok(below + ch.checksum(below) * 0x4000_0000_0000_0000)
  }

  /** ORs the fields into the word one after another; the fields never overlap. */
  method Word(p: Packet, ch: Channel) returns (r: Result<u64, MessageError>)
    ensures r == WordOf(p, ch)
  {
    var len: nat := |p.chunk|;
    if len > PACKET_PAYLOAD_CHARS {
      return Err(PacketPayloadTooLong(len));
    }
    Alphabet40Fits(ch.alphabet);
    var packed := PackChunk(p.chunk, ch.alphabet, BASE40_MAX_CHARS);
    if packed.Err? {
      return Err(packed.error);
    }
    var payload := packed.value;
    PayloadFits(p.chunk, ch.alphabet);
    if payload >= Power(40, PACKET_PAYLOAD_CHARS) {
      return Err(PacketPayloadTooLong(len));
    }
    var word := OrFields(payload, len, if p.finalPacket then 1 else 0, p.sequence);
    EncodedFits(p, ch.alphabet);
    word := OrChecksum(word, ch.checksum(word));
    r := Ok(word);
  }

  method OrChecksum(word: nat, checksum: u2) returns (r: nat)
    requires word < 0x4000_0000_0000_0000
    ensures r == word + checksum * 0x4000_0000_0000_0000
  {
    Pow2Values();
    OrDisjoint(word, checksum, CHECKSUM_SHIFT);
    r := Or(word, Shl(checksum, CHECKSUM_SHIFT));
  }

  method OrFields(payload: nat, len: nat, final: nat, sequence: nat) returns (word: nat)
    requires payload < 0x1_0000_0000_0000 && len < 16 && final < 2
    ensures word == Fields(payload, len, final, sequence)
  {
    Pow2Values();
    word := payload;
    OrDisjoint(word, len, LEN_SHIFT);
    word := Or(word, Shl(len, LEN_SHIFT));
    assert word == payload + len * 0x1_0000_0000_0000;
    OrDisjoint(word, final, FINAL_SHIFT);
    word := Or(word, Shl(final, FINAL_SHIFT));
    assert word == payload + len * 0x1_0000_0000_0000 + final * 0x10_0000_0000_0000;
    OrDisjoint(word, sequence, SEQUENCE_SHIFT);
    word := Or(word, Shl(sequence, SEQUENCE_SHIFT));
    assert word == Fields(payload, len, final, sequence);
    OrCommutes(word, 0);
    OrZero(word);
    word := Or(word, Shl(PACKET_VERSION, VERSION_SHIFT));
  }

  /** A 64-bit word cut at the boundaries of its fields. */
  datatype Cut = Cut(payload: nat, len: nat, final: nat, sequence: nat, version: nat, checksum: nat)

  ghost predicate IsCut(word: nat, c: Cut) {
    && c.payload < 0x1_0000_0000_0000 && c.len < 16 && c.final < 2
    && c.sequence < 128 && c.version < 4 && c.checksum < 4
    && word == Fields(c.payload, c.len, c.final, c.sequence)
               + c.version * 0x1000_0000_0000_0000 + c.checksum * 0x4000_0000_0000_0000
  }

  lemma CutExists(word: u64)
    ensures exists c: Cut :: IsCut(word, c)
  {
    var r1, payload := DivMod(word, 0x1_0000_0000_0000);
    var r2, len := DivMod(r1, 16);
    var r3, final := DivMod(r2, 2);
    var r4, sequence := DivMod(r3, 128);
    var checksum, version := DivMod(r4, 4);
    assert IsCut(word, Cut(payload, len, final, sequence, version, checksum));
  }

  /** The field of size n that starts at m. */
  function Slot(word: nat, m: nat, n: nat): nat
    requires m > 0 && n > 0
  {
    DivNat(word, m);
    word / m % n
  }

  /** The fields of a word; a word has no others. */
  ghost function Cuts(word: u64): (c: Cut)
    ensures IsCut(word, c)
  {
    CutExists(word);
    var c: Cut :| IsCut(word, c);
    c
  }

  /** The word without its checksum. */
  function Below(c: Cut): nat {
    Fields(c.payload, c.len, c.final, c.sequence) + c.version * 0x1000_0000_0000_0000
  }

  /** What becomes of a word with fields c, the bits below the checksum being `below`. */
  function Accept(c: Cut, below: u64, ch: Channel): Result<Packet, MessageError>
    requires c.sequence < 256
  {
    if ch.checksum(below) != c.checksum then Err(BadPacketChecksum)
    else if c.version != PACKET_VERSION then Err(UnsupportedPacketVersion(c.version))
    else if c.len > PACKET_PAYLOAD_CHARS then Err(PacketPayloadTooLong(c.len))
    else if c.payload >= Power(40, c.len) then Err(PackedValueOutOfRange(c.payload, c.len))
    else
      match Unpacked(c.payload, c.len, ch.alphabet, BASE40_MAX_CHARS)
      case Err(e) => Err(e)
      case Ok(chunk) => Ok(Packet(c.sequence, c.final != 0, chunk))
  }

  ghost function FromWord(word: u64, ch: Channel): Result<Packet, MessageError> {
    Accept(Cuts(word), Below(Cuts(word)), ch)
  }

  /** `(word >> shift) & mask`, the mask being all ones. */
  method ShiftAndMask(word: u64, shift: nat, width: nat, ghost m: nat, ghost n: nat) returns (r: nat)
    requires m == Pow2(shift) && n == Pow2(width)
    ensures r == Slot(word, m, n)
  {
    AndMask(Shr(word, shift), width);
    r := And(Shr(word, shift), Pow2(width) - 1);
  }

  /** `word & mask`, the mask being all ones below `width`. */
  method MaskLow(word: u64, width: nat, ghost m: nat) returns (r: nat)
    requires m == Pow2(width)
    ensures r == word % m
  {
    AndMask(word, width);
    r := And(word, Pow2(width) - 1);
  }

  /** The checks of the source, its shifts and masks reading exactly these fields. */
  method ReadWord(word: u64, ch: Channel) returns (r: Result<Packet, MessageError>)
    ensures r == FromWord(word, ch)
  {
    Pow2Values();
    CutReads(word, Cuts(word));
    var expected := ShiftAndMask(word, CHECKSUM_SHIFT, 2, 0x4000_0000_0000_0000, 4);
    var withoutChecksum := MaskLow(word, CHECKSUM_SHIFT, 0x4000_0000_0000_0000);
    if ch.checksum(withoutChecksum) != expected {
      return Err(BadPacketChecksum);
    }
    var version := ShiftAndMask(word, VERSION_SHIFT, 2, 0x1000_0000_0000_0000, 4);
    if version != PACKET_VERSION {
      return Err(UnsupportedPacketVersion(version));
    }
    var len := ShiftAndMask(word, LEN_SHIFT, 4, 0x1_0000_0000_0000, 16);
    if len > PACKET_PAYLOAD_CHARS {
      return Err(PacketPayloadTooLong(len));
    }
    var payload := MaskLow(word, LEN_SHIFT, 0x1_0000_0000_0000);
    if payload >= Power(40, len) {
      return Err(PackedValueOutOfRange(payload, len));
    }
    var sequence := ShiftAndMask(word, SEQUENCE_SHIFT, 7, 0x20_0000_0000_0000, 128);
    var final := ShiftAndMask(word, FINAL_SHIFT, 1, 0x10_0000_0000_0000, 2);
    Alphabet40Fits(ch.alphabet);
    var chunk := UnpackChunk(payload, len, ch.alphabet, BASE40_MAX_CHARS);
    r := match chunk
         case Err(e) => Err(e)
         case Ok(text) => Ok(Packet(sequence, final != 0, text));
  }

  /** A field between the bits below it and the bits above it. */
  lemma SlotBetween(word: nat, m: nat, n: nat, low: nat, mid: nat, high: nat)
    requires low < m && mid < n && word == m * (n * high + mid) + low
    ensures Slot(word, m, n) == mid
  {
    UniqueRemainder(word, m, n * high + mid, low);
    UniqueRemainder(n * high + mid, n, high, mid);
  }

  /** Division cuts a word into its fields. */
  lemma CutReads(word: u64, c: Cut)
    requires IsCut(word, c)
    ensures c == Cut(word % 0x1_0000_0000_0000, Slot(word, 0x1_0000_0000_0000, 16), Slot(word, 0x10_0000_0000_0000, 2),
                     Slot(word, 0x20_0000_0000_0000, 128), Slot(word, 0x1000_0000_0000_0000, 4),
                     Slot(word, 0x4000_0000_0000_0000, 4))
    ensures word % 0x4000_0000_0000_0000 == Below(c)
  {
    var r4 := 4 * c.checksum + c.version;
    var r3 := 128 * r4 + c.sequence;
    var r2 := 2 * r3 + c.final;
    UniqueRemainder(word, 0x1_0000_0000_0000, 16 * r2 + c.len, c.payload);
    SlotBetween(word, 0x1_0000_0000_0000, 16, c.payload, c.len, r2);
    var low := 0x1_0000_0000_0000 * c.len + c.payload;
    SlotBetween(word, 0x10_0000_0000_0000, 2, low, c.final, r3);
    low := 0x10_0000_0000_0000 * c.final + low;
    SlotBetween(word, 0x20_0000_0000_0000, 128, low, c.sequence, r4);
    low := 0x20_0000_0000_0000 * c.sequence + low;
    SlotBetween(word, 0x1000_0000_0000_0000, 4, low, c.version, c.checksum);
    low := 0x1000_0000_0000_0000 * c.version + low;
    UniqueRemainder(word, 0x4000_0000_0000_0000, c.checksum, low);
    SlotBetween(word, 0x4000_0000_0000_0000, 4, low, c.checksum, 0);
  }

  lemma CutUnique(word: u64, c: Cut, d: Cut)
    requires IsCut(word, c) && IsCut(word, d)
    ensures c == d
  {
    CutReads(word, c);
    CutReads(word, d);
  }

  // ---------- the layout of a word ----------

  /** What a packet's word holds, bit by bit: from the bottom 48 bits of letters, four of length, one of
      finality, seven of sequence number, two of version, into which a larger sequence number spills, and
      on top two of checksum over all the rest. */
  lemma WordLayout(p: Packet, ch: Channel)
    requires WellFormed(p, ch.alphabet)
    ensures WordOf(p, ch).Ok?
    ensures var word := WordOf(p, ch).value;
      && word % 0x1_0000_0000_0000 == PackValue(p.chunk, ch.alphabet)
      && word / 0x1_0000_0000_0000 % 16 == |p.chunk|
      && word / 0x10_0000_0000_0000 % 2 == (if p.finalPacket then 1 else 0)
      && word / 0x20_0000_0000_0000 % 128 == p.sequence % 128
      && word / 0x1000_0000_0000_0000 % 4 == p.sequence / 128
      && ch.checksum(word % 0x4000_0000_0000_0000) == word / 0x4000_0000_0000_0000
  {
    var word, below, c := OwnCut(p, ch);
    SlotsOf(word, c);
    PackOfUnpack(c.payload, c.len, ch.alphabet);
  }

  /** A packet has no word exactly when it is too long or holds a letter outside the alphabet. */
  lemma WordErrors(p: Packet, ch: Channel)
    ensures |p.chunk| > 9 ==> WordOf(p, ch) == Err(PacketPayloadTooLong(|p.chunk|))
    ensures |p.chunk| <= 9 ==> (WordOf(p, ch).Ok? <==> Over(p.chunk, ch.alphabet))
    ensures |p.chunk| <= 9 && !Over(p.chunk, ch.alphabet) ==>
              exists i: nat :: FirstBad(p.chunk, ch.alphabet, i) && WordOf(p, ch) == Err(UnsupportedCharacter(p.chunk[i]))
  {
    if |p.chunk| <= 9 && !Over(p.chunk, ch.alphabet) {
      var i := ForeignIsFirst(p.chunk, ch.alphabet);
      assert FirstBad(p.chunk, ch.alphabet, i);
    }
  }

  ghost predicate FirstBad(text: string, alphabet: string, i: nat) {
    i < |text| && Over(text[..i], alphabet) && text[i] !in alphabet
  }

  lemma SlotsOf(word: u64, c: Cut)
    requires IsCut(word, c)
    ensures word % 0x1_0000_0000_0000 == c.payload
    ensures word / 0x1_0000_0000_0000 % 16 == c.len && word / 0x10_0000_0000_0000 % 2 == c.final
    ensures word / 0x20_0000_0000_0000 % 128 == c.sequence && word / 0x1000_0000_0000_0000 % 4 == c.version
    ensures word / 0x4000_0000_0000_0000 == c.checksum && word % 0x4000_0000_0000_0000 == Below(c)
  {
    CutReads(word, c);
  }

  /** What reading any word gives, from its bits alone: the first check that fails, in this order, or the
      packet with these fields. */
  lemma ReadWordByBits(word: u64, ch: Channel)
    ensures var payload, len := word % 0x1_0000_0000_0000, word / 0x1_0000_0000_0000 % 16;
      var version := word / 0x1000_0000_0000_0000 % 4;
      FromWord(word, ch)
        == if ch.checksum(word % 0x4000_0000_0000_0000) != word / 0x4000_0000_0000_0000 then Err(BadPacketChecksum)
           else if version != 0 then Err(UnsupportedPacketVersion(version))
           else if len > 9 then Err(PacketPayloadTooLong(len))
           else if payload >= Power(40, len) then Err(PackedValueOutOfRange(payload, len))
           else Ok(Packet(word / 0x20_0000_0000_0000 % 128, word / 0x10_0000_0000_0000 % 2 == 1,
                          UnpackText(payload, len, ch.alphabet)))
  {
    SlotsOf(word, Cuts(word));
    AcceptByFields(Cuts(word), Below(Cuts(word)), ch);
  }

  lemma AcceptByFields(c: Cut, below: u64, ch: Channel)
    requires c.sequence < 128 && c.final < 2 && c.len < 16
    ensures Accept(c, below, ch)
      == if ch.checksum(below) != c.checksum then Err(BadPacketChecksum)
         else if c.version != 0 then Err(UnsupportedPacketVersion(c.version))
         else if c.len > 9 then Err(PacketPayloadTooLong(c.len))
         else if c.payload >= Power(40, c.len) then Err(PackedValueOutOfRange(c.payload, c.len))
         else Ok(Packet(c.sequence, c.final == 1, UnpackText(c.payload, c.len, ch.alphabet)))
  {
  }

  // ---------- words and packets ----------

  /** Reading the word of a well-formed packet returns the packet exactly when its sequence number
      fits seven bits; a larger one spills into the version field and is reported there. */
  lemma WordRoundTrip(p: Packet, ch: Channel)
    requires WellFormed(p, ch.alphabet)
    ensures WordOf(p, ch).Ok?
    ensures FromWord(WordOf(p, ch).value, ch)
         == if p.sequence < 128 then Ok(p) else Err(UnsupportedPacketVersion(1))
  {
    var word, below, c := OwnCut(p, ch);
    ReadOwn(word, below, c, p, ch);
  }

  /** Reading the fields of a packet whose sequence number was cut to seven bits. */
  lemma ReadOwn(word: u64, below: u64, c: Cut, p: Packet, ch: Channel)
    requires IsCut(word, c) && ch.checksum(below) == c.checksum && |p.chunk| <= PACKET_PAYLOAD_CHARS
    requires below == Below(c)
    requires c.sequence == p.sequence % 128 && c.version == p.sequence / 128
    requires c.final == (if p.finalPacket then 1 else 0) && c.len == |p.chunk|
    requires c.payload < Power(40, c.len) && UnpackText(c.payload, c.len, ch.alphabet) == p.chunk
    ensures FromWord(word, ch) == if p.sequence < 128 then Ok(p) else Err(UnsupportedPacketVersion(1))
  {
    AcceptCut(word, c, ch);
    AcceptOwn(c, below, ch, p.chunk);
  }

  /** What reading a word does with its fields. */
  lemma AcceptCut(word: u64, c: Cut, ch: Channel)
    requires IsCut(word, c)
    ensures Below(c) < U64_SIZE && FromWord(word, ch) == Accept(c, Below(c), ch)
  {
    CutUnique(word, c, Cuts(word));
  }

  /** The word of a well-formed packet and its fields. */
  lemma OwnCut(p: Packet, ch: Channel) returns (word: u64, below: u64, c: Cut)
    requires WellFormed(p, ch.alphabet)
    ensures WordOf(p, ch) == Ok(word) && IsCut(word, c) && ch.checksum(below) == c.checksum
    ensures below == Below(c)
    ensures c.sequence == p.sequence % 128 && c.version == p.sequence / 128
    ensures c.final == (if p.finalPacket then 1 else 0) && c.len == |p.chunk|
    ensures c.payload < Power(40, c.len) && UnpackText(c.payload, c.len, ch.alphabet) == p.chunk
  {
    WordOfWellFormed(p, ch);
    PayloadFits(p.chunk, ch.alphabet);
    UnpackOfPack(p.chunk, ch.alphabet);
    below := Encoded(p, ch.alphabet);
    word := WordOf(p, ch).value;
    c := CutOfFields(PackValue(p.chunk, ch.alphabet), |p.chunk|, if p.finalPacket then 1 else 0, p.sequence,
                     ch.checksum(below));
  }

  lemma AcceptOwn(c: Cut, below: u64, ch: Channel, chunk: string)
    requires c.sequence < 128 && c.final < 2 && c.len == |chunk| <= PACKET_PAYLOAD_CHARS
    requires c.payload < Power(40, c.len) && UnpackText(c.payload, c.len, ch.alphabet) == chunk
    requires ch.checksum(below) == c.checksum
    ensures Accept(c, below, ch)
         == if c.version == 0 then Ok(Packet(c.sequence, c.final == 1, chunk)) else Err(UnsupportedPacketVersion(c.version))
  {
  }

  /** In a packet's word the sequence number's eighth bit is read as the version. */
  lemma CutOfFields(payload: nat, len: nat, final: nat, sequence: u8, checksum: u2) returns (c: Cut)
    requires payload < 0x1_0000_0000_0000 && len < 16 && final < 2
    ensures c == Cut(payload, len, final, sequence % 128, sequence / 128, checksum)
    ensures IsCut(Fields(payload, len, final, sequence) + checksum * 0x4000_0000_0000_0000, c)
    ensures Fields(payload, len, final, c.sequence) + c.version * 0x1000_0000_0000_0000
         == Fields(payload, len, final, sequence)
  {
    c := Cut(payload, len, final, sequence % 128, sequence / 128, checksum);
  }

  /** A word that reads as a packet is the word of that packet. */
  lemma ReadWordIsWord(word: u64, ch: Channel)
    requires FromWord(word, ch).Ok?
    ensures var p := FromWord(word, ch).value;
      WellFormed(p, ch.alphabet) && p.sequence < 128 && WordOf(p, ch) == Ok(word)
  {
    var c, p := Cuts(word), FromWord(word, ch).value;
    AcceptedOwn(c, Below(c), ch, p);
    WordOfCut(word, c, p, ch);
  }

  /** A word with the fields of a well-formed packet is the word of that packet. */
  lemma WordOfCut(word: u64, c: Cut, p: Packet, ch: Channel)
    requires IsCut(word, c) && WellFormed(p, ch.alphabet) && p.sequence == c.sequence && c.version == 0
    requires PackValue(p.chunk, ch.alphabet) == c.payload && |p.chunk| == c.len
    requires (p.finalPacket <==> c.final == 1) && ch.checksum(Below(c)) == c.checksum
    ensures WordOf(p, ch) == Ok(word)
  {
    WordOfAccepted(p, c, Below(c), ch);
  }

  lemma WordOfWellFormed(p: Packet, ch: Channel)
    requires WellFormed(p, ch.alphabet)
    ensures Encoded(p, ch.alphabet) < 0x4000_0000_0000_0000
    ensures WordOf(p, ch) == Ok(Encoded(p, ch.alphabet) + ch.checksum(Encoded(p, ch.alphabet)) * 0x4000_0000_0000_0000)
  {
    EncodedFits(p, ch.alphabet);
  }

  lemma AcceptedOwn(c: Cut, below: u64, ch: Channel, p: Packet)
    requires c.sequence < 128 && c.final < 2 && Accept(c, below, ch) == Ok(p)
    ensures
      && WellFormed(p, ch.alphabet) && p.sequence == c.sequence && c.version == 0
      && PackValue(p.chunk, ch.alphabet) == c.payload && |p.chunk| == c.len
      && (p.finalPacket <==> c.final == 1) && ch.checksum(below) == c.checksum
  {
    PackOfUnpack(c.payload, c.len, ch.alphabet);
  }

  lemma WordOfAccepted(p: Packet, c: Cut, below: u64, ch: Channel)
    requires WellFormed(p, ch.alphabet) && p.sequence == c.sequence && c.final < 2
    requires PackValue(p.chunk, ch.alphabet) == c.payload && |p.chunk| == c.len
    requires (p.finalPacket <==> c.final == 1) && ch.checksum(below) == c.checksum
    requires below == Fields(c.payload, c.len, c.final, c.sequence)
    ensures WordOf(p, ch) == Ok(below + c.checksum * 0x4000_0000_0000_0000)
  {
    assert Encoded(p, ch.alphabet) == below;
    WordOfWellFormed(p, ch);
  }

  // ---------- amounts ----------

  function PacketToAmount(p: Packet, ch: Channel): Result<u64, MessageError> {
    match WordOf(p, ch)
    case Err(e) => Err(e)
    case Ok(word) =>
      var amount := Permuted(word, ch.round);
      if amount == 0 then Err(ZeroTransferAmount) else Ok(amount)
  }

  ghost function AmountToPacket(amount: u64, ch: Channel): Result<Packet, MessageError> {
    if amount == 0 then Err(ZeroTransferAmount) else FromWord(Unpermuted(amount, ch.round), ch)
  }

  /** For every key, nonce and checksum, amounts that decode and packets that encode correspond
      one to one: decoding a gives p exactly when p is well formed, has a seven-bit sequence
      number, and encodes to a. */
  lemma AmountsMatchPackets(a: u64, p: Packet, ch: Channel)
    ensures AmountToPacket(a, ch) == Ok(p)
       <==> WellFormed(p, ch.alphabet) && p.sequence < 128 && PacketToAmount(p, ch) == Ok(a)
  {
    if AmountToPacket(a, ch) == Ok(p) {
      PermutationsInverse(a, ch.round);
      ReadWordIsWord(Unpermuted(a, ch.round), ch);
    }
    if WellFormed(p, ch.alphabet) && p.sequence < 128 && PacketToAmount(p, ch) == Ok(a) {
      WordRoundTrip(p, ch);
      PermutationsInverse(WordOf(p, ch).value, ch.round);
    }
  }

  /** Without the sequence check the round trip fails for every larger sequence number. */
  lemma LargeSequenceIsLost(p: Packet, ch: Channel)
    requires WellFormed(p, ch.alphabet) && p.sequence >= 128 && PacketToAmount(p, ch).Ok?
    ensures AmountToPacket(PacketToAmount(p, ch).value, ch) == Err(UnsupportedPacketVersion(1))
  {
    WordRoundTrip(p, ch);
    PermutationsInverse(WordOf(p, ch).value, ch.round);
  }

  /** A well-formed packet fails to encode only when the permutation sends its word to zero. */
  lemma EncodesUnlessZero(p: Packet, ch: Channel)
    requires WellFormed(p, ch.alphabet)
    ensures WordOf(p, ch).Ok?
    ensures if WordOf(p, ch).value == Unpermuted(0, ch.round) then PacketToAmount(p, ch) == Err(ZeroTransferAmount)
            else PacketToAmount(p, ch).Ok?
  {
    WordRoundTrip(p, ch);
    PermutationsInverse(WordOf(p, ch).value, ch.round);
    PermutationsInverse(0, ch.round);
  }

  /** So on a given channel at most one packet with a seven-bit sequence number fails to encode. */
  lemma OneFailsAtMost(p: Packet, q: Packet, ch: Channel)
    requires WellFormed(p, ch.alphabet) && p.sequence < 128 && PacketToAmount(p, ch).Err?
    requires WellFormed(q, ch.alphabet) && q.sequence < 128 && PacketToAmount(q, ch).Err?
    ensures p == q
  {
    EncodesUnlessZero(p, ch);
    EncodesUnlessZero(q, ch);
    WordRoundTrip(p, ch);
    WordRoundTrip(q, ch);
  }
}
