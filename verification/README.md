# Verified model of the staccana core

Dafny models of the parts of staccana whose correctness is arithmetic, ordering or hashing, with
proofs of what those parts promise. The results are about all inputs, all runs or all reachable
states, without bounds; `WrappedDemandClearsLow` alone is about one given input.

`dafny verify dfyconfig.toml` checks everything.

| files | what they model |
|---|---|
| `Matcher`, `MatcherLaws`, `FillOrder`, `Pricing` | clearing one group of the frequent-batch-auction matcher: Q64.64 prices and the two-cursor crossing loop |
| `Batch`, `Replay`, `SlotReplay` | one slot of groups, and what a replay of it gives |
| `Merkle`, `MerkleLaws` | the claimable-account tree: building, proving, verifying |
| `ClientProof`, `Staging` | the browser's port of the tree, packed proof flags, and chunked staging of a proof |
| `Genesis` | the genesis fold: partition, treasury, root |
| `Curve` | the bonding curve's quotes and runs of trades on one curve |
| `Alphabet`, `Cipher`, `Packets`, `Framing` | agent messages: radix packing, the Feistel permutation, packet words, multi-packet texts |
| `Radix`, `Base58` | positional notation and the in-place base58 encoder |
| `Calendar` | months from timestamps, month arithmetic, tranche unlocking |
| `Decimal` | reading and printing of decimal token amounts |
| `Common`, `Sequences`, `Arithmetic`, `Bits` | integers of fixed width, sums, filters, stable sorting, division facts, bit operations on naturals |

Loops and objects of the source are methods and classes here, each proved equal to a specification
function (`ClearPair` to `Cleared`, `Build` to `Built`, `Word` to `WordOf`, `BytesToBase58` to
`Encoded`, ...). The theorems are about those functions, so they hold of the methods.

## Main results

**Matcher.** `MatcherLaws.Inv` is kept by every turn of the loop (`StepKeeps`), so at the end: the
saturating multiplication and the clamps never bite and each match is the clearing price rounded up
and nothing else (`CrossingIsExact`, `ClearedIsExact`); nothing crossable is left (`MaximalCrossing`;
this is where the descending sort is needed, because a zero sell stops a buyer who is not dust); and every
account's input is matched or handed back to the last unit, per group and over the slot (`ClearedConserves`,
`BatchConserves`). A trace of every run places each match at one buy and one sell, in order of size, and
accounts for each intent on its own (`SellersFillInOrder`, `BuyersServedInOrder`), so a larger intent always comes
first (`LargerSellsFirst`, `LargerBuysFirst`), and the order of the whole residual is fixed (`ResidualInOrder`). `min_out` is never read by the matcher,
and nothing here says otherwise.

**Price.** A group clears at the mean of the price before and after its net trade (`ClearsAtMean`). Net demand clears at or above spot, and anything else at or below, for every responsive venue if
and only if the group's totals compare the same after wrapping at 128 bits (`PriceFollowsPressureIff`).
Two buys are enough to wrap (`WrappedDemandClearsLow`).

**Replay.** The documentation (matcher/src/batch.rs:48-49) promises a
byte-identical result for any replay of a slot. That is false for ties: the sort compares amount and signer
only, so any two tied intents alone in a slot come back by their order of arrival, whatever the venue
(`ReplayCanDiffer`). What holds always is equality up to `min_out` and `nonce` (`BatchReplay`). A slot
replays identically if and only if no intent handed back whole ties with a different one (`SlotReplaysIff`).
Which intents come back whole is known only from the run; for a check on the intents alone, `DistinctKeysIff`
shows that tie-freedom is exactly what makes every slot formed of some of them replay identically.

**Merkle tree.** Odd nodes are paired with themselves, so a repeated last leaf need not change the root
(`DuplicateKeepsRoot`). `RootsAgreeIff` says exactly when two roots agree; for duplicate-free leaves that is
equality (`Binding`). And `verify`, given any leaf, any index and a proof of any length, accepts exactly
one leaf with exactly its own proof (`VerifyAcceptsExactly`; an index beyond the leaf count leads to the leaf
`EffectiveIndex` names). The client's proof has the same siblings, its flags are those derived from the index
alone, and after staging in any order with repeats it recomputes the root (`StagedProofRecomputes`).

**Curve.** In every state reached by any trades before graduation `VIRTUAL_SOL + S == K / T`
(`PathIndependence`), which holds because `V + S` stays below the square root of `K` (`FloorInverse`). Hence
exact outcomes without reserve or overflow errors (`BuyOutcome`, `SellOutcome`), and no trading cycle
profits (`ClosedCycleCostsFees`).

**Messages.** For every key, nonce and checksum, amounts that decode and packets that encode correspond
one to one (`AmountsMatchPackets`). The constructor does not check that a sequence number fits seven bits; the
round trip holds exactly when it does (`WordRoundTrip`, `LargeSequenceIsLost`). What a word holds and what any
word or stream reads as, errors included, is stated in bits (`WordLayout`, `ReadWordByBits`, `DecodeByStop`), and the
permutation in its eight rounds (`PermutedInEightRounds`).

**Calendar, base58, decimals.** The closed-form month is the month of a day-by-day Gregorian walk
(section 3.2.1 of ISO 8601:2004); `addMonths` is right if and only if month - 1 + n is not negative or is a
multiple of twelve (`AddMonthsIsRightIff`). The base58 buffer never overflows and encoding and decoding are inverse
(section 3 of draft-msporny-base58-03). A decimal text is accepted exactly when it spells a number whose floor
in base units fits 64 bits, and printing is inverted by reading.

## Conventions

- Integers are unbounded with explicit widths (`u8` to `u128`). The `u128` sums of
  matcher/src/batch.rs:120-125 wrap modulo 2^128, as the release profile builds them; a debug build
  would stop instead. Only the price depends on them, and `Pricing` says how.
- A `Pubkey` is the number its 32 bytes spell, big-endian, which is the order the source compares by. The
  System program's key is 0.
- The liquidity venue is two arbitrary price functions. The hash is an arbitrary `Hasher`; only the binding
  results use `Digest`, a free algebra in which leaf, node and default hashes never collide.
- The Feistel round function and the packet checksum are arbitrary functions. Packets use any 40-letter ASCII
  alphabet without repeats, base58 any 58-letter one that starts with `1`; the alphabets of the source are
  instances (`AlphabetsFit`).
- A message text is the string of its UTF-8 bytes. The check that a nine-byte piece is valid UTF-8 is an
  arbitrary predicate that ASCII satisfies.
- A failed trade changes nothing; a curve is graduated once a buy's quote says so.
- Thrown exceptions are `None` or `Err`. `feeOn` throws outside 64 bits although its comment says that it
  saturates; the quotes never call it there.
- `sort_by` is a stable sort, given as a function and shown sorted, a permutation and stable.
- A group whose base and quote are the same mint has only buys, as in the source.
- A chunk size of zero makes the staging loop endless when every sibling is 32 bytes long and there is one;
  only that case is excluded.

## Model

| member | source | states |
|---|---|---|
| Matcher.QuoteToBase | matcher/src/batch.rs:268-273 | the largest base amount whose cost at the price does not exceed the quote; zero at price zero |
| Matcher.BaseToQuoteCeil | matcher/src/batch.rs:276-281 | while the product fits 128 bits, the least quote amount that covers the cost; else 2^64, beyond any balance |
| Matcher.Midpoint | matcher/src/batch.rs:284-287 | the overflow-safe halves add up to the floor of the mean |
| Matcher.ClearPair | matcher/src/batch.rs:95-265 | nothing for an empty group, else the clearing whose sides, price, matches and residual the rows of `FillOrder` and `Pricing` state in amounts, signers and prices |
| Matcher.CrossBook | matcher/src/batch.rs:152-256 | the two-cursor loop and its three residual tails compute the specified run |
| Matcher.StepAdvances | matcher/src/batch.rs:163-239 | every turn consumes an intent or strictly lowers the current buyer's quote, and every remainder has a known owner, so the loop ends and its `expect` calls hold |
| MatcherLaws.CrossingIsExact | matcher/src/batch.rs:195-238 | when base crosses, no multiplication saturates, no clamp bites, the quote is positive and exact to one unit, and the seller is drained or the buyer is left with dust |
| MatcherLaws.CrossOutcome | matcher/src/batch.rs:195-238 | a crossing either shelves the buyer or appends one exact match and subtracts its two amounts without saturation |
| MatcherLaws.StepKeeps | matcher/src/batch.rs:163-239 | one turn keeps the loop invariant: order, exactness, dust or spent sellers, and the match count |
| MatcherLaws.RunKeeps | matcher/src/batch.rs:163-239 | the invariant holds when the loop ends, and then one side is used up |
| MatcherLaws.ClearedIsExact | matcher/src/batch.rs:195-238 | each match trades at the clearing price to within one quote unit in the seller's favour, and the whole group to within one unit per match |
| MatcherLaws.ClearedMatchBound | matcher/src/batch.rs:163-239 | a group yields fewer matches than it has intents |
| MatcherLaws.ClearedConserves | matcher/src/batch.rs:107-256 | for any choice of (signer, mint) accounts, matched plus residual equals what they put in |
| MatcherLaws.MaximalCrossing | matcher/src/batch.rs:141-256 | the residual offers no base, or every buy in it affords zero base at the clearing price |
| FillOrder.SidesOf | matcher/src/batch.rs:107-150 | the two sides are exactly the group's intents of each direction, by descending amount, then ascending signer, then order of arrival |
| FillOrder.SellersFillInOrder | matcher/src/batch.rs:141-256 | by descending amount, then ascending signer, the matches take the first k sells in order, each to the last unit but for at most one leftover of the k-th; all others come back whole and in order |
| FillOrder.BuyersServedInOrder | matcher/src/batch.rs:141-256 | by descending amount, then ascending signer, the matches spend the first k buys in order, each to the last unit but for at most one leftover of its own, leftovers in order; unless no base is left for sale every leftover is dust, and after one that is not, no later buy is served; all others come back whole and in order |
| FillOrder.LargerSellsFirst | matcher/src/batch.rs:141-256 | when a sell is matched, every strictly larger sell is sold to its last unit |
| FillOrder.LargerBuysFirst | matcher/src/batch.rs:141-256 | when a buy is served, every strictly larger buy is spent up to what can buy no base at the price |
| FillOrder.ResidualInOrder | matcher/src/batch.rs:163-256 | the whole residual: leftover buys in order, the leftover sell, the sells never reached, the buys never reached |
| Pricing.ClearsAtMean | matcher/src/batch.rs:117-138 | the clearing price is the floor of the mean of spot and the venue's price after the group's net trade, clamped to 64 bits and on the side of the larger total; totals as they are while they fit 128 bits, else modulo 2^128 |
| Pricing.PriceFollowsPressureIff | matcher/src/batch.rs:117-138 | every responsive venue clears a group on the side of spot that its net demand is on, if and only if its true demand and supply compare as their 128-bit totals do |
| Pricing.PriceFollowsPressure | matcher/src/batch.rs:117-138 | in particular whenever both true totals fit 128 bits |
| Pricing.SupplyFits | matcher/src/batch.rs:125 | supply fits for every group of up to 2^64 intents, so only demand can wrap |
| Pricing.WrappedDemandClearsLow | matcher/src/batch.rs:120-138 | two buys of 2^63 at spot price 1 wrap to no demand and clear at 0, below spot |
| Sequences.SortBySorts | matcher/src/batch.rs:141-150 | sorting yields an ordered permutation |
| Sequences.SortByStable | matcher/src/batch.rs:141-150 | sorting keeps the order of arrival among elements that tie |
| Replay.ReplayUpToTies | matcher/src/batch.rs:95-265 | any order of arrival of one group gives the same price and matches, and the same residual up to `min_out` and `nonce` |
| Replay.ReplayIdenticalIff | matcher/src/batch.rs:95-265 | all orders of arrival of one group give identical results if and only if no intent returned whole ties with a different one |
| Replay.DistinctKeysReplay | matcher/src/batch.rs:141-150 | identical results when no two intents of one direction share amount and signer but differ otherwise |
| Batch.BatchMatch | matcher/src/batch.rs:50-68 | one result per occurring pair, by ascending (base, quote), each the clearing of exactly its pair's intents |
| Batch.PairsOriented | matcher/src/batch.rs:64-93 | the one registered mint of a result is its quote; with both or neither registered the smaller mint is the base; results ascend by base, then quote |
| Batch.GroupIntents | matcher/src/batch.rs:55-62 | the map holds, for each pair, exactly its intents in order of arrival, and no empty group |
| Batch.OneResultEach | matcher/src/batch.rs:55-93 | every intent lands in exactly one result, as a buy or a sell of it, together with both directions of its pair |
| Batch.BatchConserves | matcher/src/batch.rs:50-68 | over the slot, matches and residuals account for exactly what the intents put in, for any choice of accounts |
| SlotReplay.BatchUnique | matcher/src/batch.rs:50-68 | the output of a slot is determined by its intents |
| SlotReplay.BatchReplay | matcher/src/batch.rs:46-68 | replaying a slot in any order agrees on pairs, prices and matches, on residuals up to ties, and on everything without ties |
| SlotReplay.SlotReplaysIff | matcher/src/batch.rs:46-68 | every replay of a slot gives the same result if and only if, in every group, no intent returned whole ties with a different one |
| SlotReplay.ReplayCanDiffer | matcher/src/batch.rs:46-68 | for every venue, any two different intents of one direction, amount and signer make a slot whose two orders give different results, against the documented promise |
| SlotReplay.DistinctKeysIff | matcher/src/batch.rs:46-68 | for every venue, all slots made of some of the given intents replay identically if and only if no two different ones share direction, amount and signer |
| Merkle.Build | genesis/src/merkle.rs:86-125 | the layers are the sorted leaf hashes and their successive parents up to the root |
| MerkleLaws.LeavesByKey | genesis/src/merkle.rs:86-98 | a tree's leaves are the input's by ascending pubkey, equal ones in order of arrival; no leaves give the default root |
| MerkleLaws.IndexCountsSmaller | genesis/src/merkle.rs:96-97 | with distinct pubkeys, the index of a leaf is the number of smaller pubkeys |
| Merkle.LayersChain | genesis/src/merkle.rs:99-117 | each kept layer holds the parents of the one below, all but the last have several nodes, and the last is the root alone |
| MerkleLaws.ChildrenOf | genesis/src/merkle.rs:104-113 | a parent holds its two children, left before right, and the last node of an odd layer twice |
| Merkle.Proof | genesis/src/merkle.rs:137-158 | the proof read from the kept layers is the sibling path of the leaf |
| Merkle.Verify | genesis/src/merkle.rs:162-179 | accepts if and only if climbing from the leaf reaches the root |
| MerkleLaws.Completeness | genesis/src/merkle.rs:97-179 | every leaf's own proof verifies at its index, odd layers included, and its length is the rounded-up binary logarithm of the leaf count |
| MerkleLaws.BuildIgnoresOrder | genesis/src/merkle.rs:56-96 | with one leaf per pubkey, the whole tree is independent of the input order |
| MerkleLaws.RootsAgreeIff | genesis/src/merkle.rs:86-125 | two leaf collections, repetitions included, have the same root if and only if both are empty, or their trees are equally deep and the bits of every index lead to the same leaf |
| MerkleLaws.Binding | genesis/src/merkle.rs:86-125 | two duplicate-free leaf collections with the same root are the same |
| MerkleLaws.DuplicateKeepsRoot | genesis/src/merkle.rs:105-113 | repeating the last leaf of any tree with an odd number of leaves above one keeps its root, so duplicate-freedom is needed |
| MerkleLaws.VerifyAcceptsExactly | genesis/src/merkle.rs:162-179 | for any index and any proof length, exactly one leaf with exactly its own proof is accepted, at its index when that is in range |
| ClientProof.PackBits | frontend/lib/merkle.ts:226-235 | bit i of the packed bytes is flag i, and the padding is clear |
| ClientProof.PackedBytes | frontend/lib/merkle.ts:226-235 | byte k is the sum of 2^j over the flags 8k + j that are set, j from 0 to 7 |
| ClientProof.PackingUnique | frontend/lib/merkle.ts:226-240 | flags have only one packed form |
| ClientProof.DeriveProofFlagsFromLeafIndex | frontend/lib/merkle.ts:275-286 | packs, level by level, whether the index at that level is even |
| ClientProof.RightFlagsAt | frontend/lib/merkle.ts:275-286 | the flag of level k is set exactly when bit k of the index is clear |
| ClientProof.BuildMerkleRoot | frontend/lib/merkle.ts:122-136 | the client's root is the genesis root for every leaf list |
| ClientProof.BuildInclusionProof | frontend/lib/merkle.ts:149-203 | no proof exactly when no leaf has the key; else the genesis sibling path of the first such leaf, its packed sides and the genesis root |
| ClientProof.RecomputeRoot | frontend/lib/merkle.ts:209-223 | combines the siblings on the sides that the flags give |
| ClientProof.ClientMatchesGenesis | frontend/lib/merkle.ts:149-286 | client siblings are the genesis siblings, client flags are those derived from the index, and both recomputations reach the genesis root |
| Staging.PlanProofBufferWrites | frontend/lib/claim.ts:426-446 | rejects exactly the proofs with a sibling that is not 32 bytes, naming the first; else the consecutive pieces of the flattened proof |
| Staging.PlannedChunks | frontend/lib/claim.ts:440-445 | chunk k starts at k times the chunk size and is that long, but for the last; their number is the length divided by the size, rounded up |
| Staging.StagedInAnyOrder | frontend/lib/claim.ts:440-445 | the chunks written in any order, with repeats, over any content leave exactly the flattened proof |
| Staging.StagedProofRecomputes | frontend/lib/claim.ts:426-446 | a client proof, staged so and read back, recomputes to the genesis root |
| Genesis.PartitionAccounts | genesis/src/builder.rs:39-54 | the leaves are the claimable accounts in order; the treasury holds the saturated sum and count of the others |
| Genesis.OneMoreAccount | genesis/src/partition.rs:52-60 | one more account is a new last leaf exactly when the System program owns it and it has no data; else it adds to the treasury counters |
| Genesis.BuildGenesis | genesis/src/builder.rs:34-66 | root, count and treasury of the snapshot |
| Genesis.BuildGenesisWithTree | genesis/src/builder.rs:73-106 | the same root, count and treasury, and the tree with that root |
| Genesis.Treasury.Credit | genesis/src/treasury.rs:25-28 | adds the lamports and counts the account, both saturating |
| Genesis.CreditStep | genesis/src/treasury.rs:25-28 | saturating one account at a time is saturating the sum |
| Genesis.GenesisConserves | genesis/src/builder.rs:34-66 | for up to 2^64 accounts, claimable lamports plus treasury total equals the snapshot's lamports, and no account is lost or counted twice |
| Genesis.PdaConservesIff | genesis/src/treasury.rs:38-42 | the clamped treasury balance conserves lamports if and only if the total fits 64 bits |
| Genesis.GenesisIgnoresOrder | genesis/src/builder.rs:29-106 | with one account per pubkey, tree, root, count and treasury are independent of the snapshot's order |
| Genesis.RootAdmitsClaimables | genesis/src/builder.rs:42-61 | some index and proof of a leaf verify against the genesis root if and only if the snapshot has an account with that pubkey and balance, owned by the System program and without data |
| Curve.FeeOn | frontend/lib/pump.ts:118-123 | the fee is one hundredth, rounded down |
| Curve.BuyErrors | frontend/lib/pump.ts:131-172 | for any reserves: exactly when a buy gives which error, and its quote otherwise |
| Curve.SellErrors | frontend/lib/pump.ts:179-219 | the same for a sell |
| Curve.FloorInverse | frontend/lib/pump.ts:149-193 | dividing by a floor quotient gives the divisor back, up to the square root |
| Curve.BuyOutcome | frontend/lib/pump.ts:131-172 | from any ungraduated curve state a buy within 64 bits has exactly this quote and can fail only by the caller's minimum |
| Curve.SellOutcome | frontend/lib/pump.ts:179-219 | a sell of tokens that the curve dispensed never meets a reserve or overflow error, and has exactly this quote |
| Curve.RunSound | frontend/lib/pump.ts:131-219 | any trades keep the curve relation before graduation and the books balanced always; after graduation nothing changes |
| Curve.PathIndependence | frontend/lib/pump.ts:93-219 | from the initial reserves, SOL on an ungraduated curve is a function of its tokens alone, whatever the history |
| Curve.ClosedCycleCostsFees | frontend/lib/pump.ts:118-219 | over any stretch with as many tokens sold as bought, reserves return and traders are down exactly the fees |
| Curve.SellUndoesBuy | frontend/lib/pump.ts:131-219 | selling back a buy's tokens restores the reserves and grosses exactly what the buy put in |
| Curve.SplittingBuys | frontend/lib/pump.ts:131-172 | two buys never yield fewer tokens or cost more fees than one, and the second cannot fail |
| Curve.SpotFollowsTrades | frontend/lib/pump.ts:222-225 | a buy never lowers the spot price, a sell never raises it |
| Curve.SpotIsRatio | frontend/lib/pump.ts:222-225 | the spot price is the floor of 2^64 times the real and virtual SOL per token; zero without tokens |
| Alphabet.PackChunk | agent-messaging/src/alphabet.rs:25-52 | the positional value or the first error, with no overflow of the accumulator |
| Alphabet.UnpackChunk | agent-messaging/src/alphabet.rs:54-86 | the text of that length, or the length and range errors, filled from the back |
| Alphabet.CheckedPow | agent-messaging/src/alphabet.rs:98-104 | the power, with no overflow for allowed lengths |
| Alphabet.UnpackOfPack | agent-messaging/src/alphabet.rs:25-86 | unpacking a packed text returns it |
| Alphabet.PackOfUnpack | agent-messaging/src/alphabet.rs:25-86 | packing an unpacked value in range returns it |
| Alphabet.AlphabetsFit | agent-messaging/src/alphabet.rs:3-7 | both alphabets are repeat-free and their longest chunks fit 64 bits |
| Alphabet.ChunksAreLongest | agent-messaging/src/alphabet.rs:6-7 | chunks one letter longer would not fit |
| Alphabet.ForeignIsFirst | agent-messaging/src/alphabet.rs:40-45 | the letter an error names is the first outside the alphabet |
| Cipher.Permute64 | agent-messaging/src/cipher.rs:6-20 | the eight-round loop computes the specified permutation, its shifts and OR being split and join |
| Cipher.Unpermute64 | agent-messaging/src/cipher.rs:22-36 | the same for the inverse rounds |
| Cipher.PermutationsInverse | agent-messaging/src/cipher.rs:6-36 | the two are inverses of each other for any round function |
| Cipher.PermutedInEightRounds | agent-messaging/src/cipher.rs:6-20 | ten 32-bit halves, the first two from the word, each later one the XOR of the half two before with the round function of the half before, rounds 0 to 7; the last two are the permuted word |
| Cipher.UnpermutedInEightRounds | agent-messaging/src/cipher.rs:22-36 | the same ten halves, found from the last two |
| Bits.BitOfXor | agent-messaging/src/cipher.rs:13 | a bit of an XOR is set exactly when the two bits differ |
| Packets.Word | agent-messaging/src/packet.rs:40-57 | the ORed fields do not overlap: the word is their sum |
| Packets.WordLayout | agent-messaging/src/packet.rs:9-56 | the bits of a packet's word: 48 of letters, four of length, one of finality, seven of sequence, two of version, two of checksum over all below |
| Packets.WordErrors | agent-messaging/src/packet.rs:40-48 | a packet has no word exactly when it is too long or holds a letter outside the alphabet, and the error names the first |
| Packets.ReadWord | agent-messaging/src/packet.rs:59-90 | shifts and masks read those fields, with the source's errors in the source's order |
| Packets.ReadWordByBits | agent-messaging/src/packet.rs:59-90 | for any word, from its bits alone: the first failing check and its error, or the packet |
| Packets.WordRoundTrip | agent-messaging/src/packet.rs:27-90 | every well-formed packet has a word, which reads back as the packet if and only if the sequence fits seven bits, else as a version error |
| Packets.ReadWordIsWord | agent-messaging/src/packet.rs:40-90 | a word that reads as a packet is that packet's word |
| Packets.AmountsMatchPackets | agent-messaging/src/packet.rs:136-149 | an amount decodes to a packet if and only if the packet is valid and encodes to the amount |
| Packets.LargeSequenceIsLost | agent-messaging/src/packet.rs:27-38 | a larger sequence number is accepted by the constructor and lost in transit |
| Packets.EncodesUnlessZero | agent-messaging/src/packet.rs:136-142 | a well-formed packet fails to encode if and only if the permutation sends its word to zero |
| Packets.OneFailsAtMost | agent-messaging/src/packet.rs:136-142 | on one channel at most one packet with a seven-bit sequence fails to encode |
| Framing.EncodeTextPackets | agent-messaging/src/packet.rs:93-109 | succeeds if and only if the text has at most 1152 bytes, all in the alphabet; then the numbered pieces of nine with only the last final; else the exact error, naming the first foreign letter |
| Framing.DecodePackets | agent-messaging/src/packet.rs:111-134 | the text or the first of the three errors |
| Framing.DecodeAcceptsExactly | agent-messaging/src/packet.rs:111-134 | decoding succeeds if and only if the stream is non-empty, numbered in order and closed by its only final packet; the text is the chunks joined |
| Framing.DecodeByStop | agent-messaging/src/packet.rs:111-134 | for any stream: the first packet that is out of number or final decides which error is returned, or that the text is |
| Framing.FramingDecodes | agent-messaging/src/packet.rs:93-134 | decoding an encoded text returns it |
| Framing.MessageArrives | agent-messaging/src/packet.rs:93-149 | through amounts over any channels, every packet is recovered and the text arrives |
| Base58.AddByte | frontend/lib/subsidy.ts:840-849 | the in-place carry loop multiplies the buffer's number by 256 and adds the byte, leaving no carry and a nonzero top digit |
| Base58.CarryEnd | frontend/lib/subsidy.ts:843-848 | when the number fits the buffer, no carry is left over |
| Base58.BytesToBase58 | frontend/lib/subsidy.ts:832-855 | one `1` per leading zero byte, then the canonical base-58 digits of the big-endian value |
| Base58.RoomEnough | frontend/lib/subsidy.ts:838 | two base-58 digits per byte always suffice |
| Base58.DecodeOfEncode | frontend/lib/subsidy.ts:832-855 | a reference decoder recovers every byte string, leading zeros included |
| Base58.EncodeOfDecode | frontend/lib/subsidy.ts:832-855 | every text over the alphabet is the encoding of the bytes it decodes to, and of no others |
| Radix.CanonicalUnique | frontend/lib/subsidy.ts:840-853 | digits without a leading zero are the only ones of their value |
| Calendar.ClosedFormWalks | frontend/lib/megadrop.ts:240-250 | the closed form gives the date of the day-by-day Gregorian walk on every day |
| Calendar.MonthIsCalendarMonth | frontend/lib/megadrop.ts:238-252 | the month of every timestamp is that walk's, and negative ones are rejected |
| Calendar.MonthAdvancesByOne | frontend/lib/megadrop.ts:238-262 | from one day to the next the month stays or becomes `addMonths(ym, 1)` |
| Calendar.MonthNeverDecreases | frontend/lib/megadrop.ts:238-252 | later timestamps have no earlier month |
| Calendar.AddMonthsIsRightIff | frontend/lib/megadrop.ts:255-262 | the result is the month n months on if and only if the shifted month index is not negative or is a multiple of twelve |
| Calendar.AddMonthsAdds | frontend/lib/megadrop.ts:255-262 | forward shifts add up |
| Calendar.UnlockedStaysUnlocked | frontend/lib/megadrop.ts:268-278 | once unlocked, a tranche and all before it stay unlocked |
| Calendar.UnlockedExactly | frontend/lib/megadrop.ts:268-278 | tranche idx is unlocked exactly from idx - 1 months after genesis on |
| Decimal.ParseToBaseUnits | frontend/app/bridge/page.tsx:1275-1319 | the step-by-step parser computes the specified reading |
| Decimal.ParseIsFloor | frontend/app/bridge/page.tsx:1275-1319 | an input reads as v if and only if, trimmed, it spells some I.F whose value in base units, rounded down, is v, and v fits 64 bits |
| Decimal.TrimIs | frontend/app/bridge/page.tsx:1276 | trimming drops the white space on both sides and nothing else |
| Decimal.ParseIgnoresSpace | frontend/app/bridge/page.tsx:1275-1319 | white space around an input changes nothing |
| Decimal.FormatBaseUnits | frontend/app/bridge/page.tsx:1321-1330 | the printer with its zero-stripping loop computes the specified text |
| Decimal.FormatIsShortest | frontend/app/bridge/page.tsx:1321-1330 | a printed amount has no leading zero in front of the dot, no more fraction digits than decimals, no zero at the end of the fraction, and a dot only before a fraction |
| Decimal.FormatThenParse | frontend/app/bridge/page.tsx:1275-1330 | reading a printed amount returns it for every number of decimals, and rejects it beyond 64 bits |

## Left out

- React components, wallet, RPC, database and fetch code: input and output only.
- Confidential transfers: their mathematics lives in a prover and a program that the repository only calls.
- SHA-256, the splitmix round function and the checksum: arbitrary functions; SHA-256 is collision-free where binding is claimed.
- On-chain programs, including the handler behind `WriteProofBuffer`: the staging buffer is a plain buffer that is written at an offset.
- Instruction builders, account decoders and discriminator tables: straight-line layouts with easy facts.
- The constant-product venue and the test fixtures: the venue stays abstract.
- Floating-point display values: lossy by design; the calendar's integer-valued numbers are integers.
- The fee governor and inflation fields of the genesis output, and the total in whole SOL: constants and one division.
- `MerkleTree::build`: it keeps two fields of the tree with layers.
- Packet-count estimates, transaction budgets, bridge price previews, validator shares and the tranche bitmap packer: they would add only easy members.
- Error payloads that only name the alphabet: dropped from the error values.
