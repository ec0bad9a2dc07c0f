/** The XXH3 streaming state: resets, lazily drained buffer, digest. */
module Xxh3Stream {
  import opened Wrappers
  import opened Xxh3

  /** What the last reset asked for. */
  datatype Mode = Unready | Default | Seeded(seed: bv64) | Keyed(secret: Bytes)

  ghost predicate ValidMode(m: Mode) {
    m.Keyed? ==> |m.secret| >= SECRET_SIZE_MIN
  }

  ghost function SecretOf<A, R>(k: Kernel<A, R>, m: Mode): (s: Bytes)
    requires ValidMode(m)
    ensures |s| >= SECRET_SIZE_MIN
  {
    match m
    case Keyed(secret) => secret
    case Seeded(seed) => if seed == 0 then k.kSecret else DeriveSecret(k, seed)
    case _ => k.kSecret
  }

  /** The one-shot hash that documentation and headers promise for each kind of reset. */
  ghost function OneShot<A, R>(k: Kernel<A, R>, m: Mode, data: Bytes): R
    requires ValidMode(m)
  {
    if |data| > MIDSIZE_MAX then LongHash(k, SecretOf(k, m), data)
    else match m
      case Keyed(secret) => Short(k, data, secret, 0)
      case Seeded(seed) => Short(k, data, k.kSecret, seed)
      case _ => Short(k, data, k.kSecret, 0)
  }

  /** XXH3_64bits_withSecret and XXH3_64bits: seed zero, secret as given. */
  method HashWithSecret<A, R>(k: Kernel<A, R>, input: Bytes, secret: Bytes) returns (r: R)
    requires |secret| >= SECRET_SIZE_MIN
    ensures r == OneShot(k, Keyed(secret), input)
    ensures secret == k.kSecret ==> r == OneShot(k, Default, input)
  {
    if |input| <= MIDSIZE_MAX {
      r := Short(k, input, secret, 0);
    } else {
      r := HashLong(k, input, secret);
    }
  }

  method HashWithSeed<A, R>(k: Kernel<A, R>, input: Bytes, seed: bv64) returns (r: R)
    ensures r == OneShot(k, Seeded(seed), input)
  {
    if |input| <= MIDSIZE_MAX {
      r := Short(k, input, k.kSecret, seed);
    } else if seed == 0 {
      r := HashLong(k, input, k.kSecret);
    } else {
      var secret := DeriveSecret(k, seed);
      r := HashLong(k, input, secret);
    }
  }

  /** 240 bytes is the last short length. Short inputs with a seed meet the default secret, long ones a secret made from
      the seed, seed zero the default one. */
  lemma WhichHash<A, R>(k: Kernel<A, R>, secret: Bytes, seed: bv64, data: Bytes)
    requires |secret| >= 136
    ensures OneShot(k, Keyed(secret), data) ==
            if |data| <= 240 then k.short(data, secret, 0) else LongHash(k, secret, data)
    ensures OneShot(k, Default, data) ==
            if |data| <= 240 then k.short(data, k.kSecret, 0) else LongHash(k, k.kSecret, data)
    ensures OneShot(k, Seeded(seed), data) ==
            if |data| <= 240 then k.short(data, k.kSecret, seed)
            else LongHash(k, if seed == 0 then k.kSecret else k.deriveSecret(seed), data)
  {
  }

  // ----- the invariant of the buffer, on values -----

  /** The whole stripes in c bytes. */
  ghost function Stripes(c: nat): (n: nat)
    ensures STRIPE_LEN * n <= c < STRIPE_LEN * n + STRIPE_LEN
  {
    if c < STRIPE_LEN then 0 else 1 + Stripes(c - STRIPE_LEN)
  }

  /** After `c` bytes of `all` the lanes are as the one-shot loop would have them. */
  ghost predicate Drained<A, R>(k: Kernel<A, R>, secret: Bytes, s: Lanes<A>, all: Bytes, c: nat) {
    && |secret| >= SECRET_SIZE_MIN && c <= |all| && STRIPE_LEN * Stripes(c) == c
    && s == Fold(k, secret, Lanes(k.init, 0), all, Stripes(c))
  }

  /** The last 64 bytes of the buffer are the stripe that was consumed last. */
  ghost predicate TailKept(buf: Bytes, all: Bytes, c: nat) {
    c > 0 ==> |buf| == BUFFER_SIZE && STRIPE_LEN <= c <= |all| && buf[192..] == all[c - STRIPE_LEN..c]
  }

  ghost predicate Buffered<A, R>(k: Kernel<A, R>, secret: Bytes, s: Lanes<A>, buf: Bytes, b: nat, fed: Bytes) {
    && |buf| == BUFFER_SIZE && b <= BUFFER_SIZE && b <= |fed|
    && Drained(k, secret, s, fed, |fed| - b)
    && buf[..b] == fed[|fed| - b..]
    && (|fed| - b > 0 ==> b > 0 && |fed| > BUFFER_SIZE)
    && (b <= 192 ==> TailKept(buf, fed, |fed| - b))
  }

  lemma SliceOfSuffix(all: Bytes, c: nat, lo: nat, hi: nat)
    requires c <= |all| && lo <= hi <= |all| - c
    ensures all[c..][lo..hi] == all[c + lo..c + hi]
    ensures hi == |all| - c ==> all[c..][lo..] == all[c + lo..]
  {
  }

  lemma Straddle(x: Bytes, y: Bytes, c: nat, n: nat)
    requires c <= |x| && n <= |y|
    ensures x[c..] + y[..n] == (x + y)[c..|x| + n]
  {}

  lemma DrainMore<A, R>(k: Kernel<A, R>, secret: Bytes, s: Lanes<A>, all: Bytes, c: nat, n: nat)
    requires Drained(k, secret, s, all, c) && c + STRIPE_LEN * n <= |all|
    ensures Drained(k, secret, Fold(k, secret, s, all[c..], n), all, c + STRIPE_LEN * n)
  {
    assert Stripes(c + STRIPE_LEN * n) == Stripes(c) + n;
    FoldSplit(k, secret, Lanes(k.init, 0), all, Stripes(c), n);
  }

  lemma DrainedExtends<A, R>(k: Kernel<A, R>, secret: Bytes, s: Lanes<A>, fed: Bytes, more: Bytes, c: nat)
    requires Drained(k, secret, s, fed, c)
    ensures Drained(k, secret, s, fed + more, c)
  {
    assert fed[..c] == (fed + more)[..c];
    FoldPrefix(k, secret, Lanes(k.init, 0), fed, fed + more, Stripes(c));
  }

  lemma AppendSmall<A, R>(k: Kernel<A, R>, secret: Bytes, s: Lanes<A>, buf: Bytes, b: nat, fed: Bytes, input: Bytes)
    requires Buffered(k, secret, s, buf, b, fed) && b + |input| <= BUFFER_SIZE
    ensures Buffered(k, secret, s, buf[..b] + input + buf[b + |input|..], b + |input|, fed + input)
  {
    var buf' := buf[..b] + input + buf[b + |input|..];
    var c := |fed| - b;
    DrainedExtends(k, secret, s, fed, input, c);
    assert buf'[..b + |input|] == fed[c..] + input == (fed + input)[c..];
    if b + |input| <= 192 && c > 0 {
      assert buf'[192..] == buf[192..];
      assert (fed + input)[c - STRIPE_LEN..c] == fed[c - STRIPE_LEN..c];
    }
  }

  /** Completing a partly filled buffer and consuming it. */
  lemma FillAndDrain<A, R>(k: Kernel<A, R>, secret: Bytes, s: Lanes<A>, buf: Bytes, b: nat, fed: Bytes, input: Bytes)
    requires Buffered(k, secret, s, buf, b, fed) && b + |input| > BUFFER_SIZE
    ensures var full := buf[..b] + input[..BUFFER_SIZE - b];
            var c := |fed| - b + BUFFER_SIZE;
            && Drained(k, secret, Fold(k, secret, s, full, BUFFER_STRIPES), fed + input, c)
            && TailKept(full, fed + input, c)
  {
    var full := buf[..b] + input[..BUFFER_SIZE - b];
    var all, c := fed + input, |fed| - b;
    DrainedExtends(k, secret, s, fed, input, c);
    DrainMore(k, secret, s, all, c, BUFFER_STRIPES);
    Straddle(fed, input, c, BUFFER_SIZE - b);
    SliceOfSuffix(all, c, 0, BUFFER_SIZE);
    assert full[..STRIPE_LEN * BUFFER_STRIPES] == full;
    FoldPrefix(k, secret, s, full, all[c..], BUFFER_STRIPES);
    assert full[192..] == all[c + 192..c + BUFFER_SIZE];
  }

  /** Buffering what is left. */
  lemma StoreRest<A, R>(k: Kernel<A, R>, secret: Bytes, s: Lanes<A>, buf: Bytes, all: Bytes, c: nat)
    requires Drained(k, secret, s, all, c) && TailKept(buf, all, c) && |buf| == BUFFER_SIZE
    requires 0 < |all| - c <= BUFFER_SIZE && |all| > BUFFER_SIZE
    ensures Buffered(k, secret, s, all[c..] + buf[|all| - c..], |all| - c, all)
  {
    var b := |all| - c;
    var buf' := all[c..] + buf[b..];
    assert buf'[..b] == all[c..];
    if b <= 192 {
      assert buf'[192..] == buf[192..];
    }
  }

  /** XXH3_digest_long, both branches: the remaining stripes and the last 64 bytes of everything fed. */
  lemma DigestFromBuffer<A, R>(k: Kernel<A, R>, secret: Bytes, s: Lanes<A>, buf: Bytes, b: nat, fed: Bytes)
    requires Buffered(k, secret, s, buf, b, fed) && |fed| > MIDSIZE_MAX
    ensures b >= STRIPE_LEN ==>
              && Fold(k, secret, s, buf, (b - 1) / STRIPE_LEN) ==
                 Fold(k, secret, Lanes(k.init, 0), fed, (|fed| - 1) / STRIPE_LEN)
              && buf[b - STRIPE_LEN..b] == fed[|fed| - STRIPE_LEN..]
    ensures b < STRIPE_LEN ==>
              && s == Fold(k, secret, Lanes(k.init, 0), fed, (|fed| - 1) / STRIPE_LEN)
              && buf[BUFFER_SIZE - (STRIPE_LEN - b)..] + buf[..b] == fed[|fed| - STRIPE_LEN..]
  {
    var c := |fed| - b;
    assert (|fed| - 1) / STRIPE_LEN == Stripes(c) + (b - 1) / STRIPE_LEN;
    if b >= STRIPE_LEN {
      var n := (b - 1) / STRIPE_LEN;
      DrainMore(k, secret, s, fed, c, n);
      assert buf[..STRIPE_LEN * n] == buf[..b][..STRIPE_LEN * n] == fed[c..][..STRIPE_LEN * n];
      FoldPrefix(k, secret, s, buf, fed[c..], n);
      assert buf[b - STRIPE_LEN..b] == buf[..b][b - STRIPE_LEN..];
    } else {
      var m := STRIPE_LEN - b;
      assert buf[BUFFER_SIZE - m..] == buf[192..][STRIPE_LEN - m..];
      assert fed[|fed| - STRIPE_LEN..] == fed[c - STRIPE_LEN..c][STRIPE_LEN - m..] + fed[c..];
    }
  }

  // ----- the state itself -----

  /** A sum of two 64-bit lengths. */
  function WrapSize(n: nat): nat { if n < SIZE_MODULUS then n else n - SIZE_MODULUS }

  method CopyInto(dst: array<bv8>, at: nat, src: Bytes)
    requires at + |src| <= dst.Length
    modifies dst
    ensures dst[..] == old(dst[..at]) + src + old(dst[at + |src|..])
  {
    forall i | 0 <= i < |src| {
      dst[at + i] := src[i];
    }
  }

  /** One whole buffer straight from the input. */
  method ConsumeOne<A, R>(k: Kernel<A, R>, acc: A, soFar: nat, perBlock: nat, data: Bytes, secret: Bytes,
                          secretLimit: nat,
                          ghost all: Bytes, ghost c: nat)
    returns (acc': A, soFar': nat)
    requires |secret| >= SECRET_SIZE_MIN && secretLimit == |secret| - STRIPE_LEN && perBlock == StripesPerBlock(secret)
    requires c <= |all| && all[c..] == data && |data| > BUFFER_SIZE
    requires Drained(k, secret, Lanes(acc, soFar), all, c)
    ensures Drained(k, secret, Lanes(acc', soFar'), all, c + BUFFER_SIZE)
  {
    DrainMore(k, secret, Lanes(acc, soFar), all, c, BUFFER_STRIPES);
    acc', soFar' := ConsumeStripes(k, acc, soFar, perBlock, data, BUFFER_STRIPES, secret, secretLimit);
  }

  /** The do-while over whole buffers; `p` is where it stops. */
  method ConsumeWhole<A, R>(k: Kernel<A, R>, acc: A, soFar: nat, perBlock: nat, input: Bytes, secret: Bytes,
                            secretLimit: nat,
                            ghost all: Bytes, ghost c: nat)
    returns (acc': A, soFar': nat, p: nat)
    requires |secret| >= SECRET_SIZE_MIN && secretLimit == |secret| - STRIPE_LEN && perBlock == StripesPerBlock(secret)
    requires c <= |all| && all[c..] == input != []
    requires Drained(k, secret, Lanes(acc, soFar), all, c)
    ensures p < |input| <= p + BUFFER_SIZE && (p > 0 ==> p >= BUFFER_SIZE)
    ensures Drained(k, secret, Lanes(acc', soFar'), all, c + p)
  {
    acc', soFar', p := acc, soFar, 0;
    ghost var at := c;
    while |input| - p > BUFFER_SIZE
      invariant p < |input| && (p > 0 ==> p >= BUFFER_SIZE) && at == c + p
      invariant Drained(k, secret, Lanes(acc', soFar'), all, at)
    {
      SliceOfSuffix(all, c, p, |input|);
      acc', soFar' := ConsumeOne(k, acc', soFar', perBlock, input[p..], secret, secretLimit, all, at);
      p := p + BUFFER_SIZE;
      at := at + BUFFER_SIZE;
    }
  }

  /** XXH3_digest_long works on a copy of the accumulators. */
  method DigestLong<A, R>(k: Kernel<A, R>, acc: A, soFar: nat, perBlock: nat, buf: Bytes, b: nat,
                          secret: Bytes, secretLimit: nat, ghost fed: Bytes)
    returns (a: A)
    requires |secret| >= SECRET_SIZE_MIN && secretLimit == |secret| - STRIPE_LEN && perBlock == StripesPerBlock(secret)
    requires Buffered(k, secret, Lanes(acc, soFar), buf, b, fed) && |fed| > MIDSIZE_MAX
    ensures a == LastStripe(k, secret, Fold(k, secret, Lanes(k.init, 0), fed, (|fed| - 1) / STRIPE_LEN).acc,
                            fed[|fed| - STRIPE_LEN..])
  {
    DigestFromBuffer(k, secret, Lanes(acc, soFar), buf, b, fed);
    if b >= STRIPE_LEN {
      var n := (b - 1) / STRIPE_LEN;
      assert n <= 3 && STRIPE_LEN * n <= |buf|;
      var after;
      a, after := ConsumeStripes(k, acc, soFar, perBlock, buf, n, secret, secretLimit);
      a := LastStripe(k, secret, a, buf[b - STRIPE_LEN..b]);
    } else {
      a := LastStripe(k, secret, acc, buf[BUFFER_SIZE - (STRIPE_LEN - b)..] + buf[..b]);
    }
  }

  class State<A, R> {
    const k: Kernel<A, R>
    const buffer: array<bv8>
    var acc: A
    var customSecret: Bytes
    var bufferedSize: nat
    var nbStripesSoFar: nat
    var totalLen: nat
    var nbStripesPerBlock: nat
    var secretLimit: nat
    var seed: bv64
    var extSecret: Option<Bytes>
    ghost var mode: Mode   // what the last reset asked for
    ghost var fed: Bytes   // everything passed to update since

    /** The cached secret belongs to the stored seed, whatever resets came before. */
    ghost predicate CacheValid()
      reads `seed, `customSecret
    {
      seed != 0 ==> customSecret == DeriveSecret(k, seed)
    }

    /** The secret and its geometry are those of the last reset. */
    ghost predicate Configured()
      reads `mode, `seed, `extSecret, `customSecret, `secretLimit, `nbStripesPerBlock
    {
      && ValidMode(mode) && !mode.Unready?
      && seed == (if mode.Seeded? then mode.seed else 0)
      && SecretInUse() == SecretOf(k, mode)
      && SecretFits()
    }

    ghost predicate SecretFits()
      reads `extSecret, `customSecret, `secretLimit, `nbStripesPerBlock
    {
      && |SecretInUse()| >= SECRET_SIZE_MIN
      && secretLimit == |SecretInUse()| - STRIPE_LEN
      && nbStripesPerBlock == StripesPerBlock(SecretInUse())
    }

    ghost predicate Holds(data: Bytes)
      reads `extSecret, `customSecret, `acc, `nbStripesSoFar, `bufferedSize, buffer
    {
      Buffered(k, SecretInUse(), Lanes(acc, nbStripesSoFar), buffer[..], bufferedSize, data)
    }

    ghost predicate Valid()
      reads this, buffer
    {
      && buffer.Length == BUFFER_SIZE && CacheValid()
      && (!mode.Unready? ==> Configured() && Holds(fed) && totalLen == |fed| < SIZE_MODULUS)
    }

    function SecretInUse(): Bytes
      reads `extSecret, `customSecret
    {
      if extSecret.None? then customSecret else extSecret.value
    }

    /** XXH3_createState: storage with the seed cleared by XXH3_INITSTATE, everything else arbitrary. */
    constructor (k: Kernel<A, R>, junk: Bytes)
      ensures Valid() && mode == Unready && this.k == k && fresh(buffer)
    {
      this.k := k;
      buffer := new bv8[BUFFER_SIZE];
      acc := k.init;
      customSecret := junk;
      bufferedSize, nbStripesSoFar, totalLen, nbStripesPerBlock, secretLimit := 0, 0, 0, 0, 0;
      seed := 0;
      extSecret := None;
      mode := Unready;
      fed := [];
    }

    method ResetInternal(newSeed: bv64, secret: Option<Bytes>, secretSize: nat)
      requires buffer.Length == BUFFER_SIZE && secretSize < SIZE_MODULUS
      modifies this
      ensures acc == k.init && bufferedSize == 0 && nbStripesSoFar == 0 && totalLen == 0
      ensures seed == newSeed && extSecret == secret && customSecret == old(customSecret) && fed == []
      ensures secretLimit == (if secretSize >= STRIPE_LEN then secretSize - STRIPE_LEN
                              else secretSize + SIZE_MODULUS - STRIPE_LEN)
      ensures nbStripesPerBlock == secretLimit / CONSUME_RATE
    {
      bufferedSize, nbStripesSoFar, totalLen := 0, 0, 0;
      acc := k.init;
      seed := newSeed;
      extSecret := secret;
      secretLimit := WrapSize(secretSize + SIZE_MODULUS - STRIPE_LEN);
      nbStripesPerBlock := secretLimit / CONSUME_RATE;
      fed := [];
    }

    method Reset()
      requires Valid()
      modifies this
      ensures Valid() && mode == Default && fed == []
    {
      ResetInternal(0, Some(k.kSecret), SECRET_DEFAULT_SIZE);
      mode := Default;
    }

    /** False is XXH_ERROR: a missing or too small secret leaves a state that must be reset again. */
    method ResetWithSecret(secret: Option<Bytes>, secretSize: nat) returns (ok: bool)
      requires Valid() && secretSize < SIZE_MODULUS && (secret.Some? ==> secretSize == |secret.value|)
      modifies this
      ensures Valid()
      ensures ok <==> secret.Some? && secretSize >= 136
      ensures mode == if ok then Keyed(secret.value) else Unready
      ensures fed == []
    {
      ResetInternal(0, secret, secretSize);
      mode := Unready;
      if secret.None? { return false; }
      if secretSize < SECRET_SIZE_MIN { return false; }
      mode := Keyed(secret.value);
      return true;
    }

    method ResetWithSeed(newSeed: bv64)
      requires Valid()
      modifies this
      ensures Valid() && fed == []
      ensures mode == if newSeed == 0 then Default else Seeded(newSeed)
    {
      if newSeed == 0 {
        Reset();
        return;
      }
      if newSeed != seed {
        customSecret := DeriveSecret(k, newSeed);
      }
      ResetInternal(newSeed, None, SECRET_DEFAULT_SIZE);
      mode := Seeded(newSeed);
    }

    /** Update with input that completes a partly filled buffer: fill it, consume it. */
    method DrainBuffer(input: Bytes)
      requires buffer.Length == BUFFER_SIZE && bufferedSize + |input| > BUFFER_SIZE
      requires SecretFits()
      requires Holds(fed)
      modifies this`acc, this`nbStripesSoFar, buffer
      ensures Drained(k, SecretInUse(), Lanes(acc, nbStripesSoFar), fed + input, |fed| - bufferedSize + BUFFER_SIZE)
      ensures TailKept(buffer[..], fed + input, |fed| - bufferedSize + BUFFER_SIZE)
    {
      FillAndDrain(k, SecretInUse(), Lanes(acc, nbStripesSoFar), buffer[..], bufferedSize, fed, input);
      var loadSize := BUFFER_SIZE - bufferedSize;
      ghost var full := buffer[..bufferedSize] + input[..loadSize];
      CopyInto(buffer, bufferedSize, input[..loadSize]);
      assert buffer[..] == full;
      acc, nbStripesSoFar := ConsumeStripes(k, acc, nbStripesSoFar, nbStripesPerBlock, buffer[..],
                                            BUFFER_STRIPES, SecretInUse(), secretLimit);
    }

    /** The rest of update: whole buffers straight from the input, then what is left goes to the buffer. */
    method DrainRest(input: Bytes, ghost all: Bytes, ghost c: nat)
      requires buffer.Length == BUFFER_SIZE && SecretFits()
      requires c <= |all| && all[c..] == input != [] && |all| > BUFFER_SIZE
      requires Drained(k, SecretInUse(), Lanes(acc, nbStripesSoFar), all, c) && TailKept(buffer[..], all, c)
      modifies this`acc, this`nbStripesSoFar, this`bufferedSize, buffer
      ensures Holds(all)
    {
      var p;
      acc, nbStripesSoFar, p := ConsumeWhole(k, acc, nbStripesSoFar, nbStripesPerBlock, input, SecretInUse(),
                                             secretLimit, all, c);
      KeepTail(input, p, all, c);
      SliceOfSuffix(all, c, p, |input|);
      StoreInput(input[p..], all, c + p);
    }

    method KeepTail(input: Bytes, p: nat, ghost all: Bytes, ghost c: nat)
      requires buffer.Length == BUFFER_SIZE && p < |input| && (p > 0 ==> p >= BUFFER_SIZE)
      requires c <= |all| && all[c..] == input && TailKept(buffer[..], all, c)
      modifies buffer
      ensures TailKept(buffer[..], all, c + p)
    {
      if p > 0 {
        CopyInto(buffer, BUFFER_SIZE - STRIPE_LEN, input[p - STRIPE_LEN..p]);
        assert buffer[..][192..] == input[p - STRIPE_LEN..p];
        SliceOfSuffix(all, c, p - STRIPE_LEN, p);
      }
    }

    method StoreInput(rest: Bytes, ghost all: Bytes, ghost c: nat)
      requires buffer.Length == BUFFER_SIZE && |all| > BUFFER_SIZE
      requires c <= |all| && all[c..] == rest && 0 < |rest| <= BUFFER_SIZE
      requires Drained(k, SecretInUse(), Lanes(acc, nbStripesSoFar), all, c) && TailKept(buffer[..], all, c)
      modifies this`bufferedSize, buffer
      ensures Holds(all)
    {
      StoreRest(k, SecretInUse(), Lanes(acc, nbStripesSoFar), buffer[..], all, c);
      CopyInto(buffer, 0, rest);
      bufferedSize := |rest|;
    }

    /** XXH3_update; a null input is XXH_ERROR and changes nothing. */
    method Update(input: Option<Bytes>) returns (ok: bool)
      requires Valid() && !mode.Unready?
      requires input.Some? ==> |fed| + |input.value| < SIZE_MODULUS
      modifies this, buffer
      ensures Valid() && mode == old(mode) && ok == input.Some?
      ensures fed == if ok then old(fed) + input.value else old(fed)
    {
      if input.None? { return false; }
      Absorb(input.value);
      return true;
    }

    method Absorb(input: Bytes)
      requires Valid() && !mode.Unready? && |fed| + |input| < SIZE_MODULUS
      modifies this, buffer
      ensures Valid() && mode == old(mode) && fed == old(fed) + input
    {
      ghost var all := fed + input;
      totalLen := WrapSize(totalLen + |input|);
      Store(input, all);
      fed := all;
      assert Holds(all);
    }

    method Store(input: Bytes, ghost all: Bytes)
      requires buffer.Length == BUFFER_SIZE && SecretFits() && Holds(fed) && all == fed + input
      modifies `acc, `nbStripesSoFar, `bufferedSize, buffer
      ensures Holds(all)
    {
      if bufferedSize + |input| <= BUFFER_SIZE {
        FillBuffer(input);
      } else {
        Drain(input);
      }
    }

    method FillBuffer(input: Bytes)
      requires buffer.Length == BUFFER_SIZE && bufferedSize + |input| <= BUFFER_SIZE
      requires Holds(fed)
      modifies this`bufferedSize, buffer
      ensures Holds(fed + input)
    {
      AppendSmall(k, SecretInUse(), Lanes(acc, nbStripesSoFar), buffer[..], bufferedSize, fed, input);
      CopyInto(buffer, bufferedSize, input);
      bufferedSize := bufferedSize + |input|;
    }

    method Drain(input: Bytes)
      requires buffer.Length == BUFFER_SIZE && bufferedSize + |input| > BUFFER_SIZE
      requires SecretFits()
      requires Holds(fed)
      modifies this`acc, this`nbStripesSoFar, this`bufferedSize, buffer
      ensures Holds(fed + input)
    {
      if bufferedSize > 0 {
        DrainBuffer(input);
        var loadSize := BUFFER_SIZE - bufferedSize;
        assert (fed + input)[|fed| + loadSize..] == input[loadSize..];
        DrainRest(input[loadSize..], fed + input, |fed| + loadSize);
      } else {
        DrainedExtends(k, SecretInUse(), Lanes(acc, nbStripesSoFar), fed, input, 0);
        DrainRest(input, fed + input, 0);
      }
    }

    /** Digest equals the one-shot hash of everything fed since the last reset, however it was cut up. */
    method Digest() returns (r: R)
      requires Valid() && !mode.Unready?
      ensures r == OneShot(k, mode, fed)
    {
      var secret := SecretInUse();
      if totalLen > MIDSIZE_MAX {
        var a := DigestLong(k, acc, nbStripesSoFar, nbStripesPerBlock, buffer[..], bufferedSize, secret, secretLimit,
                            fed);
        return Merge(k, a, secret, totalLen);
      }
      assert buffer[..totalLen] == fed;
      if seed != 0 {
        r := HashWithSeed(k, buffer[..totalLen], seed);
      } else {
        r := HashWithSecret(k, buffer[..totalLen], secret);
      }
    }
  }

  ghost function Flatten(chunks: seq<Bytes>): Bytes {
    if chunks == [] then [] else Flatten(chunks[..|chunks| - 1]) + chunks[|chunks| - 1]
  }

  lemma {:induction false} FlattenGrows(chunks: seq<Bytes>, n: nat)
    requires n <= |chunks|
    ensures |Flatten(chunks[..n])| <= |Flatten(chunks)|
  {
    if n == |chunks| {
      assert chunks[..n] == chunks;
    } else {
      var front := chunks[..|chunks| - 1];
      FlattenGrows(front, n);
      assert front[..n] == chunks[..n];
    }
  }

  lemma FlattenNext(chunks: seq<Bytes>, i: nat)
    requires i < |chunks|
    ensures Flatten(chunks[..i + 1]) == Flatten(chunks[..i]) + chunks[i]
  {
    assert chunks[..i + 1][..i] == chunks[..i];
  }

  /** The mode a reset leaves behind: seed zero is the default, a short secret is refused. */
  ghost function ModeAfter(m: Mode): (r: Mode)
    ensures ValidMode(r)
  {
    match m
    case Keyed(secret) => if |secret| >= SECRET_SIZE_MIN then m else Unready
    case Seeded(seed) => if seed == 0 then Default else m
    case _ => Default
  }

  method ResetTo<A, R>(st: State<A, R>, m: Mode)
    requires st.Valid() && (m.Keyed? ==> |m.secret| < SIZE_MODULUS)
    modifies st
    ensures st.Valid() && st.fed == [] && st.mode == ModeAfter(m)
  {
    match m
    case Keyed(secret) => var ok := st.ResetWithSecret(Some(secret), |secret|);
    case Seeded(seed) => st.ResetWithSeed(seed);
    case _ => st.Reset();
  }

  method ResetAll<A, R>(st: State<A, R>, modes: seq<Mode>)
    requires st.Valid() && forall e | e in modes :: e.Keyed? ==> |e.secret| < SIZE_MODULUS
    modifies st, st.buffer
    ensures st.Valid()
  {
    for i := 0 to |modes|
      invariant st.Valid()
    {
      ResetTo(st, modes[i]);
    }
  }

  /** Feeding chunk by chunk feeds their concatenation. */
  method FeedAll<A, R>(st: State<A, R>, chunks: seq<Bytes>)
    requires st.Valid() && !st.mode.Unready? && st.fed == [] && |Flatten(chunks)| < SIZE_MODULUS
    modifies st, st.buffer
    ensures st.Valid() && st.mode == old(st.mode) && st.fed == Flatten(chunks)
  {
    for i := 0 to |chunks|
      invariant st.Valid() && st.mode == old(st.mode)
      invariant st.fed == Flatten(chunks[..i])
    {
      FlattenNext(chunks, i);
      FlattenGrows(chunks, i + 1);
      var ok := st.Update(Some(chunks[i]));
    }
    assert chunks[..|chunks|] == chunks;
  }

  /** Streaming end to end: any resets before, any way of cutting the input, the same hash as one shot. */
  method StreamAll<A, R>(k: Kernel<A, R>, junk: Bytes, earlier: seq<Mode>, m: Mode, chunks: seq<Bytes>) returns (r: R)
    requires forall e | e in earlier :: e.Keyed? ==> |e.secret| < SIZE_MODULUS
    requires !m.Unready? && ValidMode(m) && (m.Keyed? ==> |m.secret| < SIZE_MODULUS)
    requires |Flatten(chunks)| < SIZE_MODULUS
    ensures r == OneShot(k, m, Flatten(chunks))
  {
    var st := new State(k, junk);
    ResetAll(st, earlier);
    ResetTo(st, m);
    FeedAll(st, chunks);
    r := st.Digest();
  }
}
