/** The long-input form of XXH3: the one-shot loop and the streaming state that must agree with it.

    The stripe kernels, the final merge and the short-input hashes are parameters, so everything here
    holds for the 64-bit and the 128-bit variant and for every vector implementation alike. */
module Xxh3 {
  import opened Wrappers

  type Bytes = seq<bv8>

  const STRIPE_LEN: nat := 64
  const CONSUME_RATE: nat := 8
  const SECRET_SIZE_MIN: nat := 136
  const SECRET_DEFAULT_SIZE: nat := 192
  const BUFFER_SIZE: nat := 256
  const BUFFER_STRIPES: nat := 4
  const MIDSIZE_MAX: nat := 240
  const LASTACC_START: nat := 7
  const SIZE_MODULUS: nat := 0x1_0000_0000_0000_0000

  type DefaultSecret = s: Bytes | |s| == SECRET_DEFAULT_SIZE witness seq(SECRET_DEFAULT_SIZE, _ => 0 as bv8)

  datatype Kernel<!A, !R> = Kernel(
    init: A,                              // XXH3_INIT_ACC
    acc512: (A, Bytes, Bytes) -> A,       // accumulators, 64 bytes of input, 64 bytes of secret
    scramble: (A, Bytes) -> A,            // accumulators, 64 bytes of secret
    merge: (A, Bytes, nat) -> R,          // accumulators, whole secret, total length
    short: (Bytes, Bytes, bv64) -> R,     // input of at most 240 bytes, secret, seed
    kSecret: DefaultSecret,
    deriveSecret: bv64 -> DefaultSecret)          // XXH3_initCustomSecret

  function Acc512<A, R>(k: Kernel<A, R>, acc: A, stripe: Bytes, secret: Bytes): A {
    k.acc512(acc, stripe, secret)
  }

  function Scramble<A, R>(k: Kernel<A, R>, acc: A, secret: Bytes): A {
    k.scramble(acc, secret)
  }

  function Merge<A, R>(k: Kernel<A, R>, acc: A, secret: Bytes, len: nat): R {
    k.merge(acc, secret, len)
  }

  function Short<A, R>(k: Kernel<A, R>, input: Bytes, secret: Bytes, seed: bv64): R {
    k.short(input, secret, seed)
  }

  function DeriveSecret<A, R>(k: Kernel<A, R>, seed: bv64): DefaultSecret {
    k.deriveSecret(seed)
  }

  // ----- what both forms compute: one step per stripe -----

  /** Accumulators and position within the block. */
  datatype Lanes<!A> = Lanes(acc: A, pos: nat)

  function StripesPerBlock(secret: Bytes): (n: nat)
    requires |secret| >= SECRET_SIZE_MIN
    ensures n >= 9 && CONSUME_RATE * n + STRIPE_LEN <= |secret|
  {
    (|secret| - STRIPE_LEN) / CONSUME_RATE
  }

  ghost function Step<A, R>(k: Kernel<A, R>, secret: Bytes, s: Lanes<A>, stripe: Bytes): (t: Lanes<A>)
    requires |secret| >= SECRET_SIZE_MIN && s.pos < StripesPerBlock(secret)
    ensures t.pos < StripesPerBlock(secret)
  {
    var a := Acc512(k, s.acc, stripe, secret[CONSUME_RATE * s.pos..CONSUME_RATE * s.pos + STRIPE_LEN]);
    if s.pos + 1 == StripesPerBlock(secret) then Lanes(Scramble(k, a, secret[|secret| - STRIPE_LEN..]), 0)
    else Lanes(a, s.pos + 1)
  }

  /** The lanes after the first `n` stripes of `data`. */
  ghost function Fold<A, R>(k: Kernel<A, R>, secret: Bytes, s: Lanes<A>, data: Bytes, n: nat): (t: Lanes<A>)
    requires |secret| >= SECRET_SIZE_MIN && s.pos < StripesPerBlock(secret)
    requires STRIPE_LEN * n <= |data|
    ensures t.pos < StripesPerBlock(secret)
  {
    if n == 0 then s
    else Step(k, secret, Fold(k, secret, s, data, n - 1), data[STRIPE_LEN * (n - 1)..STRIPE_LEN * n])
  }

  /** The long hash: all stripes that leave at least one byte, then the last 64 bytes once more. */
  ghost function LongHash<A, R>(k: Kernel<A, R>, secret: Bytes, data: Bytes): R
    requires |secret| >= SECRET_SIZE_MIN && |data| > STRIPE_LEN
  {
    var t := Fold(k, secret, Lanes(k.init, 0), data, (|data| - 1) / STRIPE_LEN);
    Merge(k, LastStripe(k, secret, t.acc, data[|data| - STRIPE_LEN..]), secret, |data|)
  }

  function LastStripe<A, R>(k: Kernel<A, R>, secret: Bytes, acc: A, stripe: Bytes): A
    requires |secret| >= SECRET_SIZE_MIN
  {
    var at := |secret| - STRIPE_LEN - LASTACC_START;
    Acc512(k, acc, stripe, secret[at..at + STRIPE_LEN])
  }

  lemma {:induction false} FoldPrefix<A, R>(k: Kernel<A, R>, secret: Bytes, s: Lanes<A>, data: Bytes, data': Bytes,
                                            n: nat)
    requires |secret| >= SECRET_SIZE_MIN && s.pos < StripesPerBlock(secret)
    requires STRIPE_LEN * n <= |data| && STRIPE_LEN * n <= |data'|
    requires data[..STRIPE_LEN * n] == data'[..STRIPE_LEN * n]
    ensures Fold(k, secret, s, data, n) == Fold(k, secret, s, data', n)
  {
    if n > 0 {
      var m, e := STRIPE_LEN * (n - 1), STRIPE_LEN * n;
      assert data[..m] == data[..e][..m] == data'[..e][..m] == data'[..m];
      FoldPrefix(k, secret, s, data, data', n - 1);
      assert data[m..e] == data[..e][m..] == data'[..e][m..] == data'[m..e];
    }
  }

  lemma {:induction false} FoldSplit<A, R>(k: Kernel<A, R>, secret: Bytes, s: Lanes<A>, data: Bytes, n: nat, m: nat)
    requires |secret| >= SECRET_SIZE_MIN && s.pos < StripesPerBlock(secret)
    requires STRIPE_LEN * (n + m) <= |data|
    ensures Fold(k, secret, s, data, n + m) ==
            Fold(k, secret, Fold(k, secret, s, data, n), data[STRIPE_LEN * n..], m)
  {
    if m > 0 {
      FoldSplit(k, secret, s, data, n, m - 1);
      assert data[STRIPE_LEN * (n + m - 1)..STRIPE_LEN * (n + m)] ==
             data[STRIPE_LEN * n..][STRIPE_LEN * (m - 1)..STRIPE_LEN * m];
    }
  }

  // ----- XXH3_accumulate and XXH3_consumeStripes -----

  ghost function AccRange<A, R>(k: Kernel<A, R>, acc: A, data: Bytes, secret: Bytes, at: nat, n: nat): A
    requires STRIPE_LEN * n <= |data| && (n > 0 ==> at + CONSUME_RATE * (n - 1) + STRIPE_LEN <= |secret|)
  {
    if n == 0 then acc
    else Acc512(k, AccRange(k, acc, data, secret, at, n - 1),
                  data[STRIPE_LEN * (n - 1)..STRIPE_LEN * n],
                  secret[at + CONSUME_RATE * (n - 1)..at + CONSUME_RATE * (n - 1) + STRIPE_LEN])
  }

  method Accumulate<A, R>(k: Kernel<A, R>, acc: A, data: Bytes, secret: Bytes, at: nat, nbStripes: nat) returns (r: A)
    requires STRIPE_LEN * nbStripes <= |data|
    requires nbStripes > 0 ==> at + CONSUME_RATE * (nbStripes - 1) + STRIPE_LEN <= |secret|
    ensures r == AccRange(k, acc, data, secret, at, nbStripes)
  {
    r := acc;
    for n := 0 to nbStripes
      invariant r == AccRange(k, acc, data, secret, at, n)
    {
      r := Acc512(k, r, data[n * STRIPE_LEN..n * STRIPE_LEN + STRIPE_LEN],
                    secret[at + n * CONSUME_RATE..at + n * CONSUME_RATE + STRIPE_LEN]);
    }
  }

  /** Within one block, accumulating a range is folding; completing the block adds the scramble. */
  lemma {:induction false} AccRangeIsFold<A, R>(k: Kernel<A, R>, secret: Bytes, s: Lanes<A>, data: Bytes, n: nat)
    requires |secret| >= SECRET_SIZE_MIN && s.pos < StripesPerBlock(secret)
    requires STRIPE_LEN * n <= |data| && s.pos + n <= StripesPerBlock(secret)
    ensures Fold(k, secret, s, data, n) ==
            var a := AccRange(k, s.acc, data, secret, CONSUME_RATE * s.pos, n);
            if s.pos + n == StripesPerBlock(secret) then Lanes(Scramble(k, a, secret[|secret| - STRIPE_LEN..]), 0)
            else Lanes(a, s.pos + n)
  {
    if n > 0 {
      AccRangeIsFold(k, secret, s, data, n - 1);
    }
  }

  /** Folding across the end of a block is accumulate, scramble, accumulate from the start of the secret. */
  lemma FoldAcrossBlock<A, R>(k: Kernel<A, R>, secret: Bytes, s: Lanes<A>, data: Bytes, toEnd: nat, after: nat)
    requires |secret| >= SECRET_SIZE_MIN && s.pos < StripesPerBlock(secret)
    requires s.pos + toEnd == StripesPerBlock(secret) && after < StripesPerBlock(secret)
    requires STRIPE_LEN * (toEnd + after) <= |data|
    ensures Fold(k, secret, s, data, toEnd + after) ==
            var a := AccRange(k, s.acc, data, secret, CONSUME_RATE * s.pos, toEnd);
            var b := Scramble(k, a, secret[|secret| - STRIPE_LEN..]);
            Lanes(AccRange(k, b, data[STRIPE_LEN * toEnd..], secret, 0, after), after)
  {
    FoldSplit(k, secret, s, data, toEnd, after);
    AccRangeIsFold(k, secret, s, data, toEnd);
    AccRangeIsFold(k, secret, Fold(k, secret, s, data, toEnd), data[STRIPE_LEN * toEnd..], after);
  }

  method ConsumeStripes<A, R>(k: Kernel<A, R>, acc: A, soFar: nat, perBlock: nat, input: Bytes, nbStripes: nat,
                              secret: Bytes, secretLimit: nat)
    returns (acc': A, soFar': nat)
    requires |secret| >= SECRET_SIZE_MIN && secretLimit == |secret| - STRIPE_LEN
    requires perBlock == StripesPerBlock(secret)
    requires soFar < perBlock && nbStripes <= perBlock && STRIPE_LEN * nbStripes <= |input|
    ensures Lanes(acc', soFar') == Fold(k, secret, Lanes(acc, soFar), input, nbStripes)
  {
    if perBlock - soFar <= nbStripes {
      var toEnd := perBlock - soFar;
      var after := nbStripes - toEnd;
      FoldAcrossBlock(k, secret, Lanes(acc, soFar), input, toEnd, after);
      acc' := Accumulate(k, acc, input, secret, soFar * CONSUME_RATE, toEnd);
      acc' := Scramble(k, acc', secret[secretLimit..]);
      acc' := Accumulate(k, acc', input[toEnd * STRIPE_LEN..], secret, 0, after);
      soFar' := after;
    } else {
      AccRangeIsFold(k, secret, Lanes(acc, soFar), input, nbStripes);
      acc' := Accumulate(k, acc, input, secret, soFar * CONSUME_RATE, nbStripes);
      soFar' := soFar + nbStripes;
    }
  }

  // ----- the one-shot form -----

  /** How the loop cuts the input: whole blocks, then whole stripes, with at least one byte to spare. */
  method Geometry(len: nat, perBlock: nat) returns (nbBlocks: nat, base: nat, nbStripes: nat)
    requires len > 0 && perBlock > 0
    ensures base == STRIPE_LEN * (nbBlocks * perBlock) < len
    ensures nbStripes < perBlock
    ensures nbBlocks * perBlock + nbStripes == (len - 1) / STRIPE_LEN
  {
    var blockLen := STRIPE_LEN * perBlock;
    nbBlocks := (len - 1) / blockLen;
    base := nbBlocks * blockLen;
    assert len - 1 == base + (len - 1) % blockLen;
    nbStripes := ((len - 1) - base) / STRIPE_LEN;
    BlockOffset(nbBlocks, perBlock);
  }

  /** One whole block, starting on a block boundary. */
  lemma FoldBlock<A, R>(k: Kernel<A, R>, secret: Bytes, data: Bytes, acc: A, at: nat, n: nat)
    requires |secret| >= SECRET_SIZE_MIN
    requires STRIPE_LEN * (at + n) <= |data| && n <= StripesPerBlock(secret)
    requires Fold(k, secret, Lanes(k.init, 0), data, at) == Lanes(acc, 0)
    ensures Fold(k, secret, Lanes(k.init, 0), data, at + n) ==
            var a := AccRange(k, acc, data[STRIPE_LEN * at..], secret, 0, n);
            if n == StripesPerBlock(secret) then Lanes(Scramble(k, a, secret[|secret| - STRIPE_LEN..]), 0)
            else Lanes(a, n)
  {
    FoldSplit(k, secret, Lanes(k.init, 0), data, at, n);
    AccRangeIsFold(k, secret, Lanes(acc, 0), data[STRIPE_LEN * at..], n);
  }

  lemma MulSucc(n: nat, m: nat)
    ensures (n + 1) * m == n * m + m
  {
  }

  lemma {:induction false} MulMonotone(a: nat, b: nat, m: nat)
    requires a <= b
    ensures a * m <= b * m
  {
    if a < b {
      MulMonotone(a, b - 1, m);
      MulSucc(b - 1, m);
    }
  }

  lemma BlockOffset(n: nat, perBlock: nat)
    ensures n * (STRIPE_LEN * perBlock) == STRIPE_LEN * (n * perBlock)
  {
  }

  method HashLongBlocks<A, R>(k: Kernel<A, R>, input: Bytes, secret: Bytes, perBlock: nat,
                              nbBlocks: nat) returns (acc: A)
    requires |secret| >= SECRET_SIZE_MIN && perBlock == StripesPerBlock(secret)
    requires STRIPE_LEN * (nbBlocks * perBlock) <= |input|
    ensures Lanes(acc, 0) == Fold(k, secret, Lanes(k.init, 0), input, nbBlocks * perBlock)
  {
    acc := k.init;
    ghost var at := 0;
    for n := 0 to nbBlocks
      invariant at == n * perBlock <= nbBlocks * perBlock
      invariant Lanes(acc, 0) == Fold(k, secret, Lanes(k.init, 0), input, at)
    {
      BlockOffset(n, perBlock);
      MulSucc(n, perBlock);
      MulMonotone(n + 1, nbBlocks, perBlock);
      FoldBlock(k, secret, input, acc, at, perBlock);
      acc := Accumulate(k, acc, input[n * (STRIPE_LEN * perBlock)..], secret, 0, perBlock);
      acc := Scramble(k, acc, secret[|secret| - STRIPE_LEN..]);
      at := at + perBlock;
    }
  }

  method HashLong<A, R>(k: Kernel<A, R>, input: Bytes, secret: Bytes) returns (r: R)
    requires |secret| >= SECRET_SIZE_MIN && |input| > STRIPE_LEN
    ensures r == LongHash(k, secret, input)
  {
    var perBlock := (|secret| - STRIPE_LEN) / CONSUME_RATE;
    var nbBlocks, base, nbStripes := Geometry(|input|, perBlock);
    var acc := HashLongBlocks(k, input, secret, perBlock, nbBlocks);
    FoldBlock(k, secret, input, acc, nbBlocks * perBlock, nbStripes);
    acc := Accumulate(k, acc, input[base..], secret, 0, nbStripes);
    acc := LastStripe(k, secret, acc, input[|input| - STRIPE_LEN..]);
    r := Merge(k, acc, secret, |input|);
  }

  // ----- the long hash written out -----

  /** n stripes from the start of data, each with the secret shifted by eight more bytes. */
  ghost function Plain<A, R>(k: Kernel<A, R>, acc: A, data: Bytes, secret: Bytes, n: nat): A
    requires 64 * n <= |data| && 8 * n + 56 <= |secret|
  {
    if n == 0 then acc
    else k.acc512(Plain(k, acc, data, secret, n - 1), data[64 * n - 64..64 * n], secret[8 * n - 8..8 * n + 56])
  }

  lemma {:induction false} PlainIsRange<A, R>(k: Kernel<A, R>, acc: A, data: Bytes, secret: Bytes, n: nat)
    requires 64 * n <= |data| && 8 * n + 56 <= |secret|
    ensures Plain(k, acc, data, secret, n) == AccRange(k, acc, data, secret, 0, n)
  {
    if n > 0 {
      PlainIsRange(k, acc, data, secret, n - 1);
    }
  }

  /** The last stripe meets the 64 bytes of the secret that end 7 before its end. */
  lemma LastStripeSecret<A, R>(k: Kernel<A, R>, secret: Bytes, acc: A, stripe: Bytes)
    requires |secret| >= 136
    ensures LastStripe(k, secret, acc, stripe) == k.acc512(acc, stripe, secret[|secret| - 71..|secret| - 7])
  {
  }

  /** After the stripes that leave at least one byte: the last stripe, then the merge. */
  lemma LongHashEnds<A, R>(k: Kernel<A, R>, secret: Bytes, data: Bytes, n: nat)
    requires |secret| >= 136 && |data| > 64 && 64 * n < |data| <= 64 * n + 64
    ensures LongHash(k, secret, data) ==
            k.merge(k.acc512(Fold(k, secret, Lanes(k.init, 0), data, n).acc, data[|data| - 64..],
                             secret[|secret| - 71..|secret| - 7]), secret, |data|)
  {
    assert (|data| - 1) / 64 == n;
  }

  /** l stripes make a block. */
  predicate BlockOf(secret: Bytes, l: nat) { 8 * l + 64 <= |secret| < 8 * l + 72 }

  lemma BlockStripes(secret: Bytes, l: nat)
    requires |secret| >= 136 && BlockOf(secret, l)
    ensures StripesPerBlock(secret) == l
  {
  }

  /** An input of n stripes and a rest, ending within its first block: no scrambling. */
  lemma LongHashInBlock<A, R>(k: Kernel<A, R>, secret: Bytes, data: Bytes, l: nat, n: nat)
    requires |secret| >= 136 && BlockOf(secret, l) && |data| > 64 && 64 * n < |data| <= 64 * n + 64 && n < l
    ensures LongHash(k, secret, data) ==
            k.merge(k.acc512(Plain(k, k.init, data, secret, n), data[|data| - 64..],
                             secret[|secret| - 71..|secret| - 7]), secret, |data|)
  {
    BlockStripes(secret, l);
    PlainIsRange(k, k.init, data, secret, n);
    AccRangeIsFold(k, secret, Lanes(k.init, 0), data, n);
    LongHashEnds(k, secret, data, n);
  }

  /** One block: scrambled with the secret's last 64 bytes. */
  ghost function PlainBlock<A, R>(k: Kernel<A, R>, data: Bytes, secret: Bytes, l: nat): A
    requires 64 * l <= |data| && 8 * l + 64 <= |secret|
  {
    k.scramble(Plain(k, k.init, data, secret, l), secret[|secret| - 64..])
  }

  lemma FoldOneBlock<A, R>(k: Kernel<A, R>, secret: Bytes, data: Bytes, l: nat, n: nat)
    requires |secret| >= 136 && BlockOf(secret, l) && n < l && 64 * (l + n) <= |data|
    ensures Fold(k, secret, Lanes(k.init, 0), data, l + n).acc ==
            Plain(k, PlainBlock(k, data, secret, l), data[64 * l..], secret, n)
  {
    BlockStripes(secret, l);
    PlainIsRange(k, k.init, data, secret, l);
    PlainIsRange(k, PlainBlock(k, data, secret, l), data[64 * l..], secret, n);
    FoldAcrossBlock(k, secret, Lanes(k.init, 0), data, l, n);
  }

  /** An input of one block, n stripes more and a rest. */
  lemma LongHashOneBlock<A, R>(k: Kernel<A, R>, secret: Bytes, data: Bytes, l: nat, n: nat)
    requires |secret| >= 136 && BlockOf(secret, l) && n < l && 64 * (l + n) < |data| <= 64 * (l + n) + 64
    ensures LongHash(k, secret, data) ==
            k.merge(k.acc512(Plain(k, PlainBlock(k, data, secret, l), data[64 * l..], secret, n), data[|data| - 64..],
                             secret[|secret| - 71..|secret| - 7]), secret, |data|)
  {
    FoldOneBlock(k, secret, data, l, n);
    LongHashEnds(k, secret, data, l + n);
  }

  /** With the default secret of 192 bytes a block has 1024 bytes. */
  lemma DefaultBlock(secret: DefaultSecret)
    ensures 64 * StripesPerBlock(secret) == 1024
  {
  }
}
