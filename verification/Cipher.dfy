/** The keyed Feistel permutation of 64-bit words. The round function is any function of the
    round number and one half; key and nonce are fixed inside it. */
module Cipher {
  import opened Common
  import opened Bits

  const ROUNDS: nat := 8

  type RoundFunction = (nat, u32) -> u32

  lemma XorIsU32(a: u32, b: u32)
    ensures Xor(a, b) < U32_SIZE
  {
    Pow2Values();
    XorBound(a, b, 32);
  }

  function Xor32(a: u32, b: u32): u32 {
    XorIsU32(a, b);
    Xor(a, b)
  }

  datatype Halves = Halves(left: u32, right: u32)

  function Forward(h: Halves, f: RoundFunction, round: nat): Halves {
    Halves(h.right, Xor32(h.left, f(round, h.right)))
  }

  function Backward(h: Halves, f: RoundFunction, round: nat): Halves {
    Halves(Xor32(h.right, f(round, h.left)), h.left)
  }

  /** Rounds 0 to n-1, in this order. */
  function Encrypt(h: Halves, f: RoundFunction, n: nat): Halves {
    if n == 0 then h else Forward(Encrypt(h, f, n - 1), f, n - 1)
  }

  /** Rounds n-1 to 0 undone. */
  function Decrypt(h: Halves, f: RoundFunction, n: nat): Halves
    decreases n
  {
    if n == 0 then h else Decrypt(Backward(h, f, n - 1), f, n - 1)
  }

  lemma RoundInverse(h: Halves, f: RoundFunction, round: nat)
    ensures Backward(Forward(h, f, round), f, round) == h
    ensures Forward(Backward(h, f, round), f, round) == h
  {
    XorCancels(h.left, f(round, h.right));
    XorCancels(h.right, f(round, h.left));
  }

  lemma {:induction false} DecryptOfEncrypt(h: Halves, f: RoundFunction, n: nat)
    ensures Decrypt(Encrypt(h, f, n), f, n) == h
  {
    if n > 0 {
      RoundInverse(Encrypt(h, f, n - 1), f, n - 1);
      DecryptOfEncrypt(h, f, n - 1);
    }
  }

  lemma {:induction false} EncryptOfDecrypt(h: Halves, f: RoundFunction, n: nat)
    ensures Encrypt(Decrypt(h, f, n), f, n) == h
    decreases n
  {
    if n > 0 {
      EncryptOfDecrypt(Backward(h, f, n - 1), f, n - 1);
      RoundInverse(h, f, n - 1);
    }
  }

  function Split(value: u64): Halves {
    Halves(value / U32_SIZE, value % U32_SIZE)
  }

  function Join(h: Halves): u64 {
    h.left * U32_SIZE + h.right
  }

  /** `((left as u64) << 32) | right`. */
  lemma JoinIsOr(h: Halves)
    ensures Or(Shl(h.left, 32), h.right) == Join(h)
  {
    Pow2Values();
    OrCommutes(Shl(h.left, 32), h.right);
    OrDisjoint(h.right, h.left, 32);
  }

  function Permuted(value: u64, f: RoundFunction): u64 {
    Join(Encrypt(Split(value), f, ROUNDS))
  }

  function Unpermuted(value: u64, f: RoundFunction): u64 {
    Join(Decrypt(Split(value), f, ROUNDS))
  }

  /** `(value >> 32) as u32` and `value as u32`. */
  lemma SplitIsShift(value: u64)
    ensures Shr(value, 32) == Split(value).left
  {
    Pow2Values();
  }

  /** The rounds in order. */
  method EncryptLoop(h: Halves, f: RoundFunction, rounds: nat) returns (left: u32, right: u32)
    ensures Halves(left, right) == Encrypt(h, f, rounds)
  {
    left, right := h.left, h.right;
    var round := 0;
    while round < rounds
      invariant round <= rounds && Halves(left, right) == Encrypt(h, f, round)
    {
      left, right := right, Xor32(left, f(round, right));
      round := round + 1;
    }
  }

  method Permute64(value: u64, f: RoundFunction) returns (r: u64)
    ensures r == Permuted(value, f)
  {
    SplitIsShift(value);
    var left, right := EncryptLoop(Halves(Shr(value, 32), value % U32_SIZE), f, ROUNDS);
    JoinIsOr(Halves(left, right));
    r := Or(Shl(left, 32), right);
  }

  /** The rounds undone, last first. */
  method DecryptLoop(h: Halves, f: RoundFunction, rounds: nat) returns (left: u32, right: u32)
    ensures Halves(left, right) == Decrypt(h, f, rounds)
  {
    left, right := h.left, h.right;
    var round := rounds;
    while round > 0
      invariant Decrypt(Halves(left, right), f, round) == Decrypt(h, f, rounds)
    {
      round := round - 1;
      left, right := Xor32(right, f(round, left)), left;
    }
  }

  method Unpermute64(value: u64, f: RoundFunction) returns (r: u64)
    ensures r == Unpermuted(value, f)
  {
    SplitIsShift(value);
    var left, right := DecryptLoop(Halves(Shr(value, 32), value % U32_SIZE), f, ROUNDS);
    JoinIsOr(Halves(left, right));
    r := Or(Shl(left, 32), right);
  }

  /** The two permutations are inverses of each other for any round function, so each is a
      bijection of the 64-bit words. */
  lemma PermutationsInverse(value: u64, f: RoundFunction)
    ensures Unpermuted(Permuted(value, f), f) == value
    ensures Permuted(Unpermuted(value, f), f) == value
  {
    DecryptOfEncrypt(Split(value), f, ROUNDS);
    EncryptOfDecrypt(Split(value), f, ROUNDS);
    SplitOfJoin(Encrypt(Split(value), f, ROUNDS));
    SplitOfJoin(Decrypt(Split(value), f, ROUNDS));
  }

  lemma SplitOfJoin(h: Halves)
    ensures Split(Join(h)) == h
  {
  }

  // ---------- the rounds, one by one ----------

  /** The halves that n rounds run through, each but the first two made from the two before it. */
  ghost predicate InRounds(x: seq<u32>, f: RoundFunction, n: nat) {
    && |x| == n + 2
    && forall i :: 0 <= i < n ==> x[i + 2] == Xor(x[i], f(i, x[i + 1]))
  }

  lemma {:induction false} EncryptRounds(h: Halves, f: RoundFunction, n: nat) returns (x: seq<u32>)
    ensures InRounds(x, f, n) && x[0] == h.left && x[1] == h.right
    ensures Encrypt(h, f, n) == Halves(x[n], x[n + 1])
  {
    x := [h.left, h.right];
    if n > 0 {
      x := EncryptRounds(h, f, n - 1);
      x := x + [Xor32(x[n - 1], f(n - 1, x[n]))];
    }
  }

  /** Eight keyed rounds: the permuted word is made of the last two of ten halves, the first two of
      which make up the word. */
  lemma PermutedInEightRounds(value: u64, f: RoundFunction) returns (x: seq<u32>)
    ensures |x| == 10 && value == (x[0] as nat) * 0x1_0000_0000 + x[1]
    ensures forall i :: 0 <= i < 8 ==> x[i + 2] == Xor(x[i], f(i, x[i + 1]))
    ensures Permuted(value, f) == (x[8] as nat) * 0x1_0000_0000 + x[9]
  {
    x := EncryptRounds(Split(value), f, 8);
  }

  /** And back: the same ten halves, found from the last two. */
  lemma UnpermutedInEightRounds(value: u64, f: RoundFunction) returns (x: seq<u32>)
    ensures |x| == 10 && value == (x[8] as nat) * 0x1_0000_0000 + x[9]
    ensures forall i :: 0 <= i < 8 ==> x[i + 2] == Xor(x[i], f(i, x[i + 1]))
    ensures Unpermuted(value, f) == (x[0] as nat) * 0x1_0000_0000 + x[1]
  {
    var word := Unpermuted(value, f);
    x := PermutedInEightRounds(word, f);
    PermutationsInverse(value, f);
    SplitOfJoin(Halves(x[8], x[9]));
    SplitOfJoin(Halves(x[0], x[1]));
  }
}
