/** XXH32 and XXH64: four lanes fed one stripe at a time, one-shot and streaming.

    Rounds, merges and the steps of the finalisation are parameters; nothing below depends on what they compute. */
module LaneHash {

  type Bytes = seq<bv8>

  const U32: nat := 0x1_0000_0000
  const U64: nat := 0x1_0000_0000_0000_0000

  /** A: the four lanes; H: the hash word. */
  datatype Kernel<!A, !H> = Kernel(
    stripe: nat,               // 16 or 32
    modulus: nat,              // of the hash word
    init: nat -> A,            // lanes for a seed
    third: A -> nat,           // the third lane, which starts as the seed
    step: (A, Bytes) -> A,     // one stripe
    merge: A -> H,             // lanes to hash word
    small: nat -> H,           // seed plus the fifth prime
    addLen: (H, nat) -> H,     // add the length, cut to the word size
    finish: (H, Bytes) -> H)   // the last bytes, and the avalanche

  function Step<A, H>(k: Kernel<A, H>, a: A, s: Bytes): A { k.step(a, s) }
  function Init<A, H>(k: Kernel<A, H>, seed: nat): A { k.init(seed) }
  function Third<A, H>(k: Kernel<A, H>, a: A): nat { k.third(a) }
  function Merge<A, H>(k: Kernel<A, H>, a: A): H { k.merge(a) }
  function Small<A, H>(k: Kernel<A, H>, seed: nat): H { k.small(seed) }
  function AddLen<A, H>(k: Kernel<A, H>, h: H, n: nat): H { k.addLen(h, n) }
  function Finish<A, H>(k: Kernel<A, H>, h: H, rest: Bytes): H { k.finish(h, rest) }

  // ----- what is computed -----

  /** Lanes after all whole stripes of data, and the bytes left over. */
  ghost function Fold<A, H>(k: Kernel<A, H>, a: A, data: Bytes): (r: (A, Bytes))
    requires k.stripe > 0
    ensures |r.1| < k.stripe
    decreases |data|
  {
    if |data| < k.stripe then (a, data)
    else Fold(k, Step(k, a, data[..k.stripe]), data[k.stripe..])
  }

  /** How many bytes are left over. */
  lemma {:induction false} RestLength<A, H>(k: Kernel<A, H>, a: A, data: Bytes)
    requires k.stripe == 16 || k.stripe == 32
    ensures |Fold(k, a, data).1| == |data| % k.stripe
    decreases |data|
  {
    if |data| >= k.stripe {
      RestLength(k, Step(k, a, data[..k.stripe]), data[k.stripe..]);
      if k.stripe == 16 {
        assert (|data| - 16) % 16 == |data| % 16;
      } else {
        assert (|data| - 32) % 32 == |data| % 32;
      }
    }
  }

  ghost function HashOf<A, H>(k: Kernel<A, H>, seed: nat, data: Bytes): H
    requires k.stripe > 0 && k.modulus > 0
  {
    var (lanes, rest) := Fold(k, Init(k, seed), data);
    var h := if |data| >= k.stripe then Merge(k, lanes) else Small(k, seed);
    Finish(k, AddLen(k, h, |data| % k.modulus), rest)
  }

  /** Fewer bytes than a stripe: no lanes. One stripe and less than another: one step, then the rest. */
  lemma HashOfFew<A, H>(k: Kernel<A, H>, seed: nat, data: Bytes)
    requires k.stripe > 0 && k.modulus > |data|
    ensures |data| < k.stripe ==>
              HashOf(k, seed, data) == k.finish(k.addLen(k.small(seed), |data|), data)
    ensures k.stripe <= |data| < 2 * k.stripe ==>
              HashOf(k, seed, data) ==
              k.finish(k.addLen(k.merge(k.step(k.init(seed), data[..k.stripe])), |data|), data[k.stripe..])
  {
    SmallMod(|data|, k.modulus);
    if k.stripe <= |data| < 2 * k.stripe {
      var lanes, rest := Step(k, Init(k, seed), data[..k.stripe]), data[k.stripe..];
      assert Fold(k, lanes, rest) == (lanes, rest);
    }
  }

  lemma SmallMod(x: nat, m: nat)
    requires x < m
    ensures x % m == x
  {}

  /** Cutting the data anywhere changes nothing if the left-over bytes are put in front of the next part. */
  lemma {:induction false} FoldConcat<A, H>(k: Kernel<A, H>, a: A, x: Bytes, y: Bytes)
    requires k.stripe > 0
    ensures Fold(k, a, x + y) == var (b, rest) := Fold(k, a, x); Fold(k, b, rest + y)
    decreases |x|
  {
    if |x| >= k.stripe {
      FoldConcat(k, Step(k, a, x[..k.stripe]), x[k.stripe..], y);
      assert (x + y)[..k.stripe] == x[..k.stripe] && (x + y)[k.stripe..] == x[k.stripe..] + y;
    }
  }

  // ----- one shot -----

  method OneShot<A, H>(k: Kernel<A, H>, input: Bytes, seed: nat) returns (h: H)
    requires (k.stripe == 16 || k.stripe == 32) && k.modulus > 0
    ensures h == HashOf(k, seed, input)
  {
    var p := 0;
    if |input| >= k.stripe {
      var lanes := Init(k, seed);
      while p + k.stripe <= |input|
        invariant p <= |input|
        invariant Fold(k, lanes, input[p..]) == Fold(k, Init(k, seed), input)
      {
        assert input[p..][..k.stripe] == input[p..p + k.stripe] && input[p..][k.stripe..] == input[p + k.stripe..];
        lanes := Step(k, lanes, input[p..p + k.stripe]);
        p := p + k.stripe;
      }
      h := Merge(k, lanes);
    } else {
      h := Small(k, seed);
    }
    RestLength(k, Init(k, seed), input);
    assert input[p..] == Fold(k, Init(k, seed), input).1;
    assert input[p..p + |input| % k.stripe] == input[p..];
    h := Finish(k, AddLen(k, h, |input| % k.modulus), input[p..p + |input| % k.stripe]);
  }

  // ----- streaming: the part shared by XXH32_update and XXH64_update -----

  /** Lanes and buffer hold what folding everything fed so far gives. */
  ghost predicate Holds<A, H>(k: Kernel<A, H>, seed: nat, lanes: A, mem: Bytes, memsize: nat, fed: Bytes) {
    && k.stripe > 0 && |mem| == k.stripe && memsize < k.stripe
    && Fold(k, Init(k, seed), fed) == (lanes, mem[..memsize])
  }

  method CopyInto(dst: array<bv8>, at: nat, src: Bytes)
    requires at + |src| <= dst.Length
    modifies dst
    ensures dst[..] == old(dst[..at]) + src + old(dst[at + |src|..])
  {
    forall i | 0 <= i < |src| {
      dst[at + i] := src[i];
    }
  }

  /** All whole stripes of input from p on. */
  method StepWhole<A, H>(k: Kernel<A, H>, lanes: A, input: Bytes, start: nat) returns (lanes': A, p: nat)
    requires k.stripe > 0 && start <= |input|
    ensures start <= p <= |input| < p + k.stripe
    ensures Fold(k, lanes, input[start..]) == (lanes', input[p..])
  {
    lanes', p := lanes, start;
    while p + k.stripe <= |input|
      invariant start <= p <= |input|
      invariant Fold(k, lanes', input[p..]) == Fold(k, lanes, input[start..])
    {
      assert input[p..][..k.stripe] == input[p..p + k.stripe] && input[p..][k.stripe..] == input[p + k.stripe..];
      lanes' := Step(k, lanes', input[p..p + k.stripe]);
      p := p + k.stripe;
    }
  }

  method Absorb<A, H>(k: Kernel<A, H>, lanes: A, mem: array<bv8>, memsize: nat, input: Bytes, ghost seed: nat,
                      ghost fed: Bytes)
    returns (lanes': A, memsize': nat)
    requires Holds(k, seed, lanes, mem[..], memsize, fed)
    modifies mem
    ensures Holds(k, seed, lanes', mem[..], memsize', fed + input)
  {
    FoldConcat(k, Init(k, seed), fed, input);
    ghost var buffered := mem[..memsize];
    if memsize + |input| < k.stripe {
      CopyInto(mem, memsize, input);
      assert mem[..memsize + |input|] == buffered + input;
      return lanes, memsize + |input|;
    }
    lanes' := lanes;
    var p := 0;
    if memsize > 0 {
      p := k.stripe - memsize;
      CopyInto(mem, memsize, input[..p]);
      ghost var all := buffered + input;
      assert mem[..] == buffered + input[..p] == all[..k.stripe] && all[k.stripe..] == input[p..];
      lanes' := Step(k, lanes', mem[..]);
    } else {
      assert buffered + input == input[p..];
    }
    lanes', p := StepWhole(k, lanes', input, p);
    memsize' := 0;
    if p < |input| {
      CopyInto(mem, 0, input[p..]);
      memsize' := |input| - p;
    }
    assert mem[..memsize'] == input[p..];
  }

  // ----- XXH32 -----

  class State32<A, H> {
    const k: Kernel<A, H>
    const mem: array<bv8>
    var lanes: A
    var totalLen32: nat
    var largeLen: bool
    var memsize: nat
    ghost var seed: nat
    ghost var fed: Bytes

    ghost predicate Valid()
      reads this, mem
    {
      && k.stripe == 16 && k.modulus == U32 && mem.Length == 16 && Third(k, Init(k, seed)) == seed
      && totalLen32 == |fed| % U32
      && (largeLen <==> |fed| >= 16)
      && Holds(k, seed, lanes, mem[..], memsize, fed)
    }

    constructor (k: Kernel<A, H>, seed: nat)
      requires k.stripe == 16 && k.modulus == U32 && Third(k, Init(k, seed)) == seed
      ensures Valid() && fed == [] && this.k == k && this.seed == seed && fresh(mem)
    {
      this.k, this.seed := k, seed;
      mem := new bv8[16];
      lanes := Init(k, seed);
      totalLen32, largeLen, memsize, fed := 0, false, 0, [];
    }

    method Update(input: Bytes)
      requires Valid()
      modifies this, mem
      ensures Valid() && fed == old(fed) + input && seed == old(seed)
    {
      LargeLen(|fed|, |input|);
      totalLen32 := (totalLen32 + |input| % U32) % U32;
      largeLen := largeLen || |input| >= 16 || totalLen32 >= 16;
      lanes, memsize := Absorb(k, lanes, mem, memsize, input, seed, fed);
      fed := fed + input;
    }

    /** Streaming equals one shot for every way of cutting the input, past 2^32 bytes as well. */
    method Digest() returns (h: H)
      requires Valid()
      ensures h == HashOf(k, seed, fed)
    {
      if largeLen {
        h := Merge(k, lanes);
      } else {
        h := Small(k, Third(k, lanes));
      }
      h := Finish(k, AddLen(k, h, totalLen32), mem[..memsize]);
    }
  }

  /** The 32-bit total may wrap, but the flag has caught the first 16 bytes by then. */
  lemma LargeLen(fed: nat, len: nat)
    ensures (fed % U32 + len % U32) % U32 == (fed + len) % U32
    ensures (fed >= 16 || len >= 16 || (fed + len) % U32 >= 16) <==> fed + len >= 16
  {
  }

  // ----- XXH64 -----

  class State64<A, H> {
    const k: Kernel<A, H>
    const mem: array<bv8>
    var lanes: A
    var totalLen: nat
    var memsize: nat
    ghost var seed: nat
    ghost var fed: Bytes

    ghost predicate Valid()
      reads this, mem
    {
      && k.stripe == 32 && k.modulus == U64 && mem.Length == 32 && Third(k, Init(k, seed)) == seed
      && totalLen == |fed| < U64
      && Holds(k, seed, lanes, mem[..], memsize, fed)
    }

    constructor (k: Kernel<A, H>, seed: nat)
      requires k.stripe == 32 && k.modulus == U64 && Third(k, Init(k, seed)) == seed
      ensures Valid() && fed == [] && this.k == k && this.seed == seed && fresh(mem)
    {
      this.k, this.seed := k, seed;
      mem := new bv8[32];
      lanes := Init(k, seed);
      totalLen, memsize, fed := 0, 0, [];
    }

    method Update(input: Bytes)
      requires Valid() && |fed| + |input| < U64
      modifies this, mem
      ensures Valid() && fed == old(fed) + input && seed == old(seed)
    {
      totalLen := totalLen + |input|;
      lanes, memsize := Absorb(k, lanes, mem, memsize, input, seed, fed);
      fed := fed + input;
    }

    /** The finalisation takes its byte count from the total length, not from memsize. */
    method Digest() returns (h: H)
      requires Valid()
      ensures h == HashOf(k, seed, fed)
    {
      if totalLen >= 32 {
        h := Merge(k, lanes);
      } else {
        h := Small(k, Third(k, lanes));
      }
      RestLength(k, Init(k, seed), fed);
      h := Finish(k, AddLen(k, h, totalLen), mem[..totalLen % 32]);
    }
  }

  // ----- XXH32_finalize -----

  datatype Tail<!H> = Tail(four: (H, Bytes) -> H, one: (H, bv8) -> H, avalanche: H -> H)

  function Four<H>(t: Tail<H>, h: H, b: Bytes): H { t.four(h, b) }
  function One<H>(t: Tail<H>, h: H, b: bv8): H { t.one(h, b) }
  function Avalanche<H>(t: Tail<H>, h: H): H { t.avalanche(h) }

  /** Four bytes at a time, then one at a time, then the avalanche. */
  ghost function TailOf<H>(t: Tail<H>, h: H, rest: Bytes): H
    decreases |rest|
  {
    if |rest| >= 4 then TailOf(t, Four(t, h, rest[..4]), rest[4..])
    else if |rest| > 0 then TailOf(t, One(t, h, rest[0]), rest[1..])
    else Avalanche(t, h)
  }

  /** Words first: seven bytes are one word and three bytes. */
  lemma TailOfSeven<H>(t: Tail<H>, h: H, b: Bytes)
    requires |b| == 7
    ensures TailOf(t, h, b) == t.avalanche(t.one(t.one(t.one(t.four(h, b[..4]), b[4]), b[5]), b[6]))
  {
    assert b[4..][1..] == b[5..] && b[5..][1..] == b[6..] && b[6..][1..] == [];
    var h4 := Four(t, h, b[..4]);
    var h5 := One(t, h4, b[4]);
    var h6 := One(t, h5, b[5]);
    assert TailOf(t, h4, b[4..]) == TailOf(t, h5, b[5..]) == TailOf(t, h6, b[6..]);
    assert TailOf(t, h6, b[6..]) == TailOf(t, One(t, h6, b[6]), []);
  }

  /** The compact form, with two loops. */
  method FinalizeRerolled<H>(t: Tail<H>, h0: H, ptr: Bytes, len0: nat) returns (h: H)
    requires len0 % 16 <= |ptr|
    ensures h == TailOf(t, h0, ptr[..len0 % 16])
  {
    h := h0;
    var len, p := len0 % 16, 0;
    ghost var all := ptr[..len];
    while len >= 4
      invariant p + len == |all| && TailOf(t, h, all[p..]) == TailOf(t, h0, all)
    {
      assert all[p..][..4] == ptr[p..p + 4] && all[p..][4..] == all[p + 4..];
      h := Four(t, h, ptr[p..p + 4]);
      p, len := p + 4, len - 4;
    }
    while len > 0
      invariant p + len == |all| && len < 4 && TailOf(t, h, all[p..]) == TailOf(t, h0, all)
    {
      assert all[p..][0] == ptr[p] && all[p..][1..] == all[p + 1..];
      h := One(t, h, ptr[p]);
      p, len := p + 1, len - 1;
    }
    h := Avalanche(t, h);
  }

  /** The unrolled form: the switch jumps into one of four chains and falls through to its end. */
  method FinalizeSwitch<H>(t: Tail<H>, h0: H, ptr: Bytes, len: nat) returns (h: H)
    requires len % 16 <= |ptr|
    ensures h == TailOf(t, h0, ptr[..len % 16])
  {
    var c := len % 16;
    h := h0;
    var p := 0;
    ghost var all := ptr[..c];
    assert all[0..] == all;
    if c == 12 || c == 8 || c == 4 {
      if c == 12 { h, p := ProcessFour(t, h, ptr, p, all); }
      if c == 12 || c == 8 { h, p := ProcessFour(t, h, ptr, p, all); }
      h, p := ProcessFour(t, h, ptr, p, all);
    } else if c == 13 || c == 9 || c == 5 {
      if c == 13 { h, p := ProcessFour(t, h, ptr, p, all); }
      if c == 13 || c == 9 { h, p := ProcessFour(t, h, ptr, p, all); }
      h, p := ProcessFour(t, h, ptr, p, all);
      h, p := ProcessOne(t, h, ptr, p, all);
    } else if c == 14 || c == 10 || c == 6 {
      if c == 14 { h, p := ProcessFour(t, h, ptr, p, all); }
      if c == 14 || c == 10 { h, p := ProcessFour(t, h, ptr, p, all); }
      h, p := ProcessFour(t, h, ptr, p, all);
      h, p := ProcessOne(t, h, ptr, p, all);
      h, p := ProcessOne(t, h, ptr, p, all);
    } else {
      if c == 15 { h, p := ProcessFour(t, h, ptr, p, all); }
      if c == 15 || c == 11 { h, p := ProcessFour(t, h, ptr, p, all); }
      if c == 15 || c == 11 || c == 7 { h, p := ProcessFour(t, h, ptr, p, all); }
      if c >= 3 { h, p := ProcessOne(t, h, ptr, p, all); }
      if c >= 2 { h, p := ProcessOne(t, h, ptr, p, all); }
      if c >= 1 { h, p := ProcessOne(t, h, ptr, p, all); }
    }
    assert all[p..] == [];
    h := Avalanche(t, h);
  }

  /** XXH_PROCESS4 */
  method ProcessFour<H>(t: Tail<H>, h: H, ptr: Bytes, p: nat, ghost all: Bytes) returns (h': H, p': nat)
    requires all <= ptr && p + 4 <= |all|
    ensures p' == p + 4 && TailOf(t, h, all[p..]) == TailOf(t, h', all[p'..])
  {
    assert all[p..][..4] == ptr[p..p + 4] && all[p..][4..] == all[p + 4..];
    h', p' := Four(t, h, ptr[p..p + 4]), p + 4;
  }

  /** XXH_PROCESS1 */
  method ProcessOne<H>(t: Tail<H>, h: H, ptr: Bytes, p: nat, ghost all: Bytes) returns (h': H, p': nat)
    requires all <= ptr && p < |all| < p + 4
    ensures p' == p + 1 && TailOf(t, h, all[p..]) == TailOf(t, h', all[p'..])
  {
    assert all[p..][0] == ptr[p] && all[p..][1..] == all[p + 1..];
    h', p' := One(t, h, ptr[p]), p + 1;
  }
}
