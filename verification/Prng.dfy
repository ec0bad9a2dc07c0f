/** The fuzzer's random numbers: one step of romuDuoJr (64-bit builds) and RomuTrio32 (32-bit builds), and drawing below
    a limit without bias. */
module Prng {

  // ----- 64-bit builds: romuDuoJr -----

  datatype Duo = Duo(s0: bv64, s1: bv64)

  function Times(x: bv64): bv64 { x * 15241094284759029579 }
  function Untimes(x: bv64): bv64 { x * 0x43D68ED20CD1FA63 }   // the inverse modulo 2^64
  function Rotl27(x: bv64): bv64 { (x << 27) | (x >> 37) }
  function Rotr27(x: bv64): bv64 { (x << 37) | (x >> 27) }
  function Minus(x: bv64, y: bv64): bv64 { x - y }

  lemma TimesUndone(x: bv64)
    ensures Untimes(Times(x)) == x && Times(Untimes(x)) == x
  {
    assert Untimes(x * 15241094284759029579) == x && Times(x * 0x43D68ED20CD1FA63) == x;
  }

  lemma RotlUndone(x: bv64)
    ensures Rotr27(Rotl27(x)) == x && Rotl27(Rotr27(x)) == x
  {
    assert Rotr27((x << 27) | (x >> 37)) == x && Rotl27((x << 37) | (x >> 27)) == x;
  }

  lemma MinusUndone(x: bv64, y: bv64)
    ensures Minus(x, Minus(x, y)) == y
  {
    assert Minus(x, x - y) == y;
  }

  function Step(s: Duo): Duo { Duo(Times(s.s1), Rotl27(Minus(s.s1, s.s0))) }

  function Back(s: Duo): Duo {
    var s1 := Untimes(s.s0);
    Duo(Minus(s1, Rotr27(s.s1)), s1)
  }

  /** A step of romuDuoJr is a bijection on its state. */
  lemma StepBijective(s: Duo)
    ensures Back(Step(s)) == s && Step(Back(s)) == s
  {
    TimesUndone(s.s1);
    RotlUndone(Minus(s.s1, s.s0));
    MinusUndone(s.s1, s.s0);
    TimesUndone(s.s0);
    MinusUndone(Untimes(s.s0), Rotr27(s.s1));
    RotlUndone(s.s1);
  }

  // ----- 32-bit builds: RomuTrio32 -----

  datatype Trio = Trio(x: bv32, y: bv32, z: bv32)

  function TimesT(x: bv32): bv32 { x * 3323815723 }
  function UntimesT(x: bv32): bv32 { x * 0x33621F83 }
  function Rotl6(x: bv32): bv32 { (x << 6) | (x >> 26) }
  function Rotr6(x: bv32): bv32 { (x << 26) | (x >> 6) }
  function Rotl22(x: bv32): bv32 { (x << 22) | (x >> 10) }
  function Rotr22(x: bv32): bv32 { (x << 10) | (x >> 22) }
  function MinusT(x: bv32, y: bv32): bv32 { x - y }

  lemma TrioUndone(x: bv32, y: bv32)
    ensures UntimesT(TimesT(x)) == x && TimesT(UntimesT(x)) == x
    ensures Rotr6(Rotl6(x)) == x && Rotl6(Rotr6(x)) == x
    ensures Rotr22(Rotl22(x)) == x && Rotl22(Rotr22(x)) == x
    ensures MinusT(x, MinusT(x, y)) == y
  {
    assert UntimesT(x * 3323815723) == x && TimesT(x * 0x33621F83) == x;
    assert Rotr6((x << 6) | (x >> 26)) == x && Rotl6((x << 26) | (x >> 6)) == x;
    assert Rotr22((x << 22) | (x >> 10)) == x && Rotl22((x << 10) | (x >> 22)) == x;
    assert MinusT(x, x - y) == y;
  }

  function StepT(s: Trio): Trio { Trio(TimesT(s.z), Rotl6(MinusT(s.y, s.x)), Rotl22(MinusT(s.z, s.y))) }

  function BackT(s: Trio): Trio {
    var z := UntimesT(s.x);
    var y := MinusT(z, Rotr22(s.z));
    Trio(MinusT(y, Rotr6(s.y)), y, z)
  }

  /** A step of RomuTrio32 is a bijection on its state. */
  lemma StepTBijective(s: Trio)
    ensures BackT(StepT(s)) == s && StepT(BackT(s)) == s
  {
    TrioUndone(s.z, s.y);
    TrioUndone(s.y, s.x);
    TrioUndone(MinusT(s.z, s.y), 0);
    TrioUndone(MinusT(s.y, s.x), 0);
    var z := UntimesT(s.x);
    var y := MinusT(z, Rotr22(s.z));
    TrioUndone(s.x, 0);
    TrioUndone(z, Rotr22(s.z));
    TrioUndone(y, Rotr6(s.y));
  }

  /** One step of each, worked out. */
  lemma StepsWorkedOut()
    ensures Step(Duo(3, 5)) == Duo(0x219038818c7db477, 0x10000000)
    ensures StepT(Trio(1, 3, 7)) == Trio(0x6acdd22d, 0x80, 0x1000000)
  {
  }

  // ----- whole runs -----

  function Iterate<S>(f: S -> S, s: S, n: nat): S { if n == 0 then s else Iterate(f, f(s), n - 1) }

  ghost predicate Undoes<S(!new)>(g: S -> S, f: S -> S) { forall s :: g(f(s)) == s }

  /** If steps can be undone, no run merges two states. */
  lemma {:induction false} RunInjective<S(!new)>(f: S -> S, g: S -> S, s: S, t: S, n: nat)
    requires Undoes(g, f) && Iterate(f, s, n) == Iterate(f, t, n)
    ensures s == t
    decreases n
  {
    if n > 0 {
      RunInjective(f, g, f(s), f(t), n - 1);
      assert g(f(s)) == s && g(f(t)) == t;
    }
  }

  lemma {:induction false} FixedPoint<S>(f: S -> S, s: S, n: nat)
    requires f(s) == s
    ensures Iterate(f, s, n) == s
  {
    if n > 0 {
      FixedPoint(f, s, n - 1);
    }
  }

  lemma StepsUndone()
    ensures Undoes(Back, Step) && Undoes(BackT, StepT)
  {
    forall s ensures Back(Step(s)) == s { StepBijective(s); }
    forall s ensures BackT(StepT(s)) == s { StepTBijective(s); }
  }

  const ZERO := Duo(0, 0)
  const ZERO_T := Trio(0, 0, 0)

  /** Over any number of steps, two states stay apart and only zero leads to zero. */
  lemma RunsApart(s: Duo, t: Duo, n: nat)
    ensures Iterate(Step, s, n) == Iterate(Step, t, n) ==> s == t
    ensures Iterate(Step, s, n) == ZERO <==> s == ZERO
  {
    StepsUndone();
    if Iterate(Step, s, n) == Iterate(Step, t, n) {
      RunInjective(Step, Back, s, t, n);
    }
    ZeroStays();
    FixedPoint(Step, ZERO, n);
    if Iterate(Step, s, n) == ZERO {
      RunInjective(Step, Back, s, ZERO, n);
    }
  }

  lemma RunsApartT(s: Trio, t: Trio, n: nat)
    ensures Iterate(StepT, s, n) == Iterate(StepT, t, n) ==> s == t
    ensures Iterate(StepT, s, n) == ZERO_T <==> s == ZERO_T
  {
    StepsUndone();
    if Iterate(StepT, s, n) == Iterate(StepT, t, n) {
      RunInjective(StepT, BackT, s, t, n);
    }
    ZeroStays();
    FixedPoint(StepT, ZERO_T, n);
    if Iterate(StepT, s, n) == ZERO_T {
      RunInjective(StepT, BackT, s, ZERO_T, n);
    }
  }

  lemma ZeroStays()
    ensures Step(ZERO) == ZERO && StepT(ZERO_T) == ZERO_T
  {}

  // ----- drawing below a limit -----

  const U32: nat := 0x1_0000_0000
  const UINT64_MAX: nat := 0xFFFF_FFFF_FFFF_FFFF

  type Limit = n: nat | n < U32

  /** Draws from here on are thrown away. */
  function Bound(limit: Limit): nat
    requires limit > 0
  {
    UINT64_MAX - UINT64_MAX % limit
  }

  predicate Accepted(limit: Limit, x: nat)
    requires limit > 0
  {
    x < Bound(limit)
  }

  lemma Multiples(k: int, m: int)
    requires m > 0
    ensures k >= 1 ==> k * m >= m
    ensures k <= -1 ==> k * m <= -m
  {}

  /** x in the q-th block of m numbers. */
  lemma ModInBlock(x: nat, q: nat, m: nat)
    requires m > 0 && q * m <= x < q * m + m
    ensures x % m == x - q * m
  {
    Multiples(x / m - q, m);
  }

  ghost function Preimages(n: nat, limit: Limit, r: nat): set<nat>
    requires limit > 0
  {
    set x: nat | x < n && x % limit == r
  }

  /** Each residue occurs once in every block. */
  lemma {:induction false} OnePerBlock(q: nat, limit: Limit, r: nat)
    requires r < limit
    ensures |Preimages(q * limit, limit, r)| == q
  {
    if q > 0 {
      OnePerBlock(q - 1, limit, r);
      var start := (q - 1) * limit;
      assert q * limit == start + limit;
      ModInBlock(start + r, q - 1, limit);
      forall x | x in Preimages(q * limit, limit, r) && x >= start
        ensures x == start + r
      {
        ModInBlock(x, q - 1, limit);
      }
      assert Preimages(q * limit, limit, r) == Preimages(start, limit, r) + {start + r};
    }
  }

  /** In general the first residues occur once more than the others. */
  lemma PreimageCount(n: nat, limit: Limit, r: nat)
    requires r < limit
    ensures |Preimages(n, limit, r)| == n / limit + if r < n % limit then 1 else 0
  {
    var q, start := n / limit, n / limit * limit;
    OnePerBlock(q, limit, r);
    assert n == start + n % limit;
    forall x | start <= x < n ensures x % limit == x - start {
      ModInBlock(x, q, limit);
    }
    if r < n % limit {
      assert Preimages(n, limit, r) == Preimages(start, limit, r) + {start + r};
    } else {
      assert Preimages(n, limit, r) == Preimages(start, limit, r);
    }
  }

  /** rand_below accepts a range in which every residue below the limit has the same number of preimages, and at most
      limit values are thrown away. */
  lemma Unbiased(limit: Limit, r: nat)
    requires r < limit
    ensures |Preimages(Bound(limit), limit, r)| == 0xFFFF_FFFF_FFFF_FFFF / limit
    ensures 0x1_0000_0000_0000_0000 - limit <= Bound(limit) <= 0xFFFF_FFFF_FFFF_FFFF
  {
    assert Bound(limit) == UINT64_MAX / limit * limit;
    OnePerBlock(UINT64_MAX / limit, limit, r);
  }

  // ----- rejection, for any generator -----

  /** Below this every limit accepts. */
  const SAFE: nat := UINT64_MAX + 1 - U32

  lemma LowAccepted(limit: Limit, x: nat)
    requires limit > 0 && x < SAFE
    ensures Accepted(limit, x)
  {}

  datatype Source<!S> = Source(step: S -> S, value: S -> nat)

  function Nth<S>(g: Source<S>, s: S, n: nat): S { Iterate(g.step, s, n) }

  function DrawAt<S>(g: Source<S>, s: S, n: nat): nat { g.value(Nth(g, s, n)) }

  ghost predicate LowAfter<S>(g: Source<S>, s: S, m: nat) { exists n :: m <= n && DrawAt(g, s, n) < SAFE }

  /** The run never stays for good among the top 2^32 values. Without this rand_below would not return. */
  ghost predicate Live<S>(g: Source<S>, s: S) { forall m: nat :: LowAfter(g, s, m) }

  lemma LiveStep<S>(g: Source<S>, s: S)
    requires Live(g, s)
    ensures Live(g, g.step(s))
  {
    forall m: nat
      ensures LowAfter(g, g.step(s), m)
    {
      assert LowAfter(g, s, m + 1);
      var n :| m + 1 <= n && DrawAt(g, s, n) < SAFE;
      assert DrawAt(g, g.step(s), n - 1) == DrawAt(g, s, n);
    }
  }

  lemma {:induction false} LiveNth<S>(g: Source<S>, s: S, n: nat)
    requires Live(g, s)
    ensures Live(g, Nth(g, s, n))
    decreases n
  {
    if n > 0 {
      LiveStep(g, s);
      LiveNth(g, g.step(s), n - 1);
    }
  }

  lemma {:induction false} NthStep<S>(g: Source<S>, s: S, n: nat)
    ensures Nth(g, s, n + 1) == g.step(Nth(g, s, n))
    decreases n
  {
    assert Nth(g, s, n + 1) == Nth(g, g.step(s), n);
    if n > 0 {
      NthStep(g, g.step(s), n - 1);
    }
  }

  /** After n rejected draws and one more, x. */
  ghost predicate Drawing<S>(g: Source<S>, start: S, limit: Limit, n: nat, x: nat, s: S)
    requires limit > 0
  {
    && x == DrawAt(g, start, n) && s == g.step(Nth(g, start, n))
    && forall k: nat | k < n :: !Accepted(limit, DrawAt(g, start, k))
  }

  lemma DrawAgain<S>(g: Source<S>, start: S, limit: Limit, n: nat, x: nat, s: S)
    requires limit > 0 && Drawing(g, start, limit, n, x, s) && !Accepted(limit, x)
    ensures Drawing(g, start, limit, n + 1, g.value(s), g.step(s))
  {
    NthStep(g, start, n);
  }

  /** r is the residue of the first accepted draw, and s the state after it. */
  ghost predicate DrawnFrom<S>(g: Source<S>, start: S, limit: Limit, r: nat, s: S)
    requires limit > 0
  {
    exists n: nat, x: nat :: Drawing(g, start, limit, n, x, s) && Accepted(limit, x) && r == x % limit
  }

  lemma Drawn<S>(g: Source<S>, start: S, limit: Limit, n: nat, x: nat, s: S)
    requires limit > 0 && Live(g, start) && Drawing(g, start, limit, n, x, s) && Accepted(limit, x)
    ensures x % limit < limit && DrawnFrom(g, start, limit, x % limit, s) && Live(g, s)
  {
    LiveNth(g, start, n);
    LiveStep(g, Nth(g, start, n));
  }

  // ----- the generator of 64-bit builds -----

  function First(s: Duo): nat { s.s0 as nat }

  const ROMU: Source<Duo> := Source(Step, First)

  const RESEED: nat := 2500000

  /** The generator's state and the draws left before reseeding. */
  datatype Gen = Gen(seeds: Duo, count: Limit)

  /** The counter goes down by one and wraps; when it had run out and the seed is not fixed, fresh seeds are taken. */
  function Reseeded(g: Gen, fixedSeed: bool, urandom: Duo): Gen {
    if g.count > 0 then g.(count := g.count - 1)
    else if fixedSeed then g.(count := U32 - 1)
    else Gen(urandom, RESEED / 2 + urandom.s1 as nat % RESEED)
  }

  /** A reseed lasts from 1250000 to 3749999 draws; otherwise there is one draw fewer to go. */
  lemma ReseedLasts(g: Gen, fixedSeed: bool, urandom: Duo)
    ensures var h := Reseeded(g, fixedSeed, urandom);
            if g.count > 0 then h == Gen(g.seeds, g.count - 1)
            else if fixedSeed then h == Gen(g.seeds, 4294967295)
            else
              && h.seeds == urandom && 1250000 <= h.count < 3750000
              && (h.count - 1250000 - urandom.s1 as nat) % 2500000 == 0
  {
    if g.count == 0 && !fixedSeed {
      RestLaw(urandom.s1 as nat, 2500000);
    }
  }

  /** r was drawn below limit, from g to h. */
  ghost predicate Draws(g: Gen, fixedSeed: bool, urandom: Duo, limit: Limit, r: nat, h: Gen) {
    if limit <= 1 then r == 0 && h == g
    else
      var start := Reseeded(g, fixedSeed, urandom);
      r < limit && h.count == start.count && DrawnFrom(ROMU, start.seeds, limit, r, h.seeds)
  }

  function Rest(x: nat, a: nat): (r: nat)
    ensures r <= x && r <= a && (x - r) % (1 + a) == 0
    ensures x <= a ==> r == x
  {
    RestLaw(x, 1 + a);
    x % (1 + a)
  }

  lemma RestLaw(x: nat, m: nat)
    requires m > 0
    ensures x % m <= x && (x - x % m) % m == 0
    ensures x < m ==> x % m == x
  {
    var q := x / m;
    assert x - x % m == q * m;
    ModInBlock(q * m, q, m);
    if x < m {
      ModInBlock(x, 0, m);
    }
  }

  /** x reduced by one plus a number drawn below `below`. */
  ghost predicate Reduces(g: Gen, fixedSeed: bool, urandom: Duo, below: Limit, x: nat, r: nat, h: Gen) {
    exists a: nat :: Draws(g, fixedSeed, urandom, below, a, h) && r == Rest(x, a)
  }

  ghost predicate ReducesTwice(g: Gen, fixedSeed: bool, u: Duo, v: Duo, below: Limit, x: nat, r: nat, h: Gen) {
    exists y: nat, g1 :: Reduces(g, fixedSeed, u, below, x, y, g1) && Reduces(g1, fixedSeed, v, below, y, r, h)
  }

  /** One of three ways, drawn first: a plain draw, one reduced once, or one reduced twice. */
  ghost predicate DrawsSmall(g: Gen, fixedSeed: bool, urandom: seq<Duo>, limit: Limit, r: nat, h: Gen)
    requires limit > 0 && |urandom| == 4
  {
    exists way: nat, g1, x: nat, g2 ::
      && Draws(g, fixedSeed, urandom[0], 3, way, g1) && Draws(g1, fixedSeed, urandom[1], limit, x, g2)
      && Shrinks(g2, fixedSeed, way, urandom[2], urandom[3], limit - 1, x, r, h)
  }

  ghost predicate Shrinks(g: Gen, fixedSeed: bool, way: nat, u: Duo, v: Duo, below: Limit, x: nat, r: nat, h: Gen) {
    && (way == 0 ==> r == x && h == g)
    && (way == 1 ==> Reduces(g, fixedSeed, u, below, x, r, h))
    && (way == 2 ==> ReducesTwice(g, fixedSeed, u, v, below, x, r, h))
  }

  /** Way 0, 1 and 2 draw that many numbers more. */
  lemma WayDraws(g: Gen, fixedSeed: bool, way: nat, u: Duo, v: Duo, below: Limit, x: nat, r: nat, h: Gen)
    requires way < 3 && below > 1 && g.count >= 2 && Shrinks(g, fixedSeed, way, u, v, below, x, r, h)
    ensures h.count == g.count - way
  {
    if way == 2 {
      var y: nat, g1 :| Reduces(g, fixedSeed, u, below, x, y, g1) && Reduces(g1, fixedSeed, v, below, y, r, h);
      OneDraw(g, fixedSeed, u, below, x, y, g1);
      OneDraw(g1, fixedSeed, v, below, y, r, h);
    } else if way == 1 {
      OneDraw(g, fixedSeed, u, below, x, r, h);
    }
  }

  lemma OneDraw(g: Gen, fixedSeed: bool, u: Duo, below: Limit, x: nat, r: nat, h: Gen)
    requires below > 1 && g.count > 0 && Reduces(g, fixedSeed, u, below, x, r, h)
    ensures h.count == g.count - 1
  {
    var a: nat :| Draws(g, fixedSeed, u, below, a, h) && r == Rest(x, a);
  }

  class Rng {
    var s0: bv64
    var s1: bv64
    var count: Limit
    const fixedSeed: bool

    constructor (s0: bv64, s1: bv64, count: Limit, fixedSeed: bool)
      ensures State() == Gen(Duo(s0, s1), count) && this.fixedSeed == fixedSeed
    {
      this.s0, this.s1, this.count, this.fixedSeed := s0, s1, count, fixedSeed;
    }

    function State(): Gen
      reads this
    {
      Gen(Duo(s0, s1), count)
    }

    method Next() returns (r: nat)
      modifies `s0, `s1
      ensures State() == old(State()).(seeds := Step(old(State()).seeds)) && r == First(old(State()).seeds)
    {
      var xp := s0;
      r := xp as nat;
      s0 := Times(s1);
      s1 := Minus(s1, xp);
      s1 := Rotl27(s1);
    }

    method Reseed(urandom: Duo)
      modifies this
      ensures State() == Reseeded(old(State()), fixedSeed, urandom)
    {
      var due := count == 0;
      count := if count == 0 then U32 - 1 else count - 1;
      if due && !fixedSeed {
        s0, s1 := urandom.s0, urandom.s1;
        count := RESEED / 2 + s1 as nat % RESEED;
      }
    }

    method Below(limit: Limit, urandom: Duo) returns (r: nat)
      requires Live(ROMU, State().seeds) && Live(ROMU, urandom)
      modifies this
      ensures Live(ROMU, State().seeds) && Draws(old(State()), fixedSeed, urandom, limit, r, State())
    {
      if limit <= 1 { return 0; }
      Reseed(urandom);
      r := Draw(limit);
    }

    method Draw(limit: Limit) returns (r: nat)
      requires limit > 0 && Live(ROMU, State().seeds)
      modifies `s0, `s1
      ensures r < limit && DrawnFrom(ROMU, old(State()).seeds, limit, r, State().seeds)
      ensures Live(ROMU, State().seeds)
    {
      ghost var start := State().seeds;
      ghost var drawn := 0;
      assert LowAfter(ROMU, start, 0);
      ghost var low: nat :| DrawAt(ROMU, start, low) < SAFE;
      LowAccepted(limit, DrawAt(ROMU, start, low));
      var x: nat := Next();
      while !Accepted(limit, x)
        invariant drawn <= low && Drawing(ROMU, start, limit, drawn, x, State().seeds)
        decreases low - drawn
      {
        DrawAgain(ROMU, start, limit, drawn, x, State().seeds);
        x := Next();
        drawn := drawn + 1;
      }
      Drawn(ROMU, start, limit, drawn, x, State().seeds);
      r := x % limit;
    }

    /** Draws that prefer small values. */
    method BelowDataLen(limit: Limit, urandom: seq<Duo>) returns (r: nat)
      requires |urandom| == 4 && Live(ROMU, State().seeds) && forall u <- urandom :: Live(ROMU, u)
      modifies this
      ensures Live(ROMU, State().seeds)
      ensures if limit <= 1 then r == 0 && State() == old(State())
              else r < limit && DrawsSmall(old(State()), fixedSeed, urandom, limit, r, State())
    {
      if limit <= 1 { return 0; }
      ghost var g := State();
      var way: nat := Below(3, urandom[0]);
      ghost var g1 := State();
      var x: nat := Below(limit, urandom[1]);
      ghost var g2 := State();
      r := Shrink(way, x, limit - 1, urandom[2], urandom[3]);
      assert Draws(g, fixedSeed, urandom[0], 3, way, g1) && Draws(g1, fixedSeed, urandom[1], limit, x, g2);
    }

    method Shrink(way: nat, x: nat, below: Limit, u: Duo, v: Duo) returns (r: nat)
      requires way < 3 && Live(ROMU, State().seeds) && Live(ROMU, u) && Live(ROMU, v)
      modifies this
      ensures r <= x && Live(ROMU, State().seeds) && Shrinks(old(State()), fixedSeed, way, u, v, below, x, r, State())
    {
      r := x;
      if way == 2 {
        r := Reduce(x, below, u);
        r := Reduce(r, below, v);
      } else if way == 1 {
        r := Reduce(x, below, u);
      }
    }

    method Reduce(x: nat, below: Limit, urandom: Duo) returns (r: nat)
      requires Live(ROMU, State().seeds) && Live(ROMU, urandom)
      modifies this
      ensures r <= x && Live(ROMU, State().seeds) && Reduces(old(State()), fixedSeed, urandom, below, x, r, State())
    {
      var a: nat := Below(below, urandom);
      r := Rest(x, a);
    }
  }

  // ----- the generator of 32-bit builds -----

  /** There every draw is below 2^32, so none is rejected ... */
  lemma NeverRejected(limit: Limit, x: nat)
    requires limit > 0 && x < U32
    ensures Accepted(limit, x)
  {
    LowAccepted(limit, x);
  }

  ghost predicate Even32(limit: Limit)
    requires limit > 0
  {
    forall r | 0 <= r < limit :: |Preimages(U32, limit, r)| == U32 / limit
  }

  /** ... and the result is unbiased exactly when the limit divides 2^32. */
  lemma Unbiased32(limit: Limit)
    requires limit > 0
    ensures Even32(limit) <==> U32 % limit == 0
  {
    forall r: nat | r < limit ensures |Preimages(U32, limit, r)| == U32 / limit + if r < U32 % limit then 1 else 0 {
      PreimageCount(U32, limit, r);
    }
    assert Even32(limit) ==> |Preimages(U32, limit, 0)| == U32 / limit;
  }

  datatype Gen32 = Gen32(seeds: Trio, count: Limit)

  function Reseeded32(g: Gen32, fixedSeed: bool, urandom: Trio): Gen32 {
    if g.count > 0 then g.(count := g.count - 1)
    else if fixedSeed then g.(count := U32 - 1)
    else Gen32(urandom, RESEED / 2 + urandom.y as nat % RESEED)
  }

  class Rng32 {
    var x: bv32
    var y: bv32
    var z: bv32
    var count: Limit
    const fixedSeed: bool

    constructor (seeds: Trio, count: Limit, fixedSeed: bool)
      ensures State() == Gen32(seeds, count) && this.fixedSeed == fixedSeed
    {
      x, y, z, this.count, this.fixedSeed := seeds.x, seeds.y, seeds.z, count, fixedSeed;
    }

    function State(): Gen32
      reads this
    {
      Gen32(Trio(x, y, z), count)
    }

    method Next() returns (r: nat)
      modifies `x, `y, `z
      ensures State() == old(State()).(seeds := StepT(old(State()).seeds)) && r == old(x) as nat
    {
      var xp, yp, zp := x, y, z;
      x := TimesT(zp);
      y := MinusT(yp, xp);
      y := Rotl6(y);
      z := MinusT(zp, yp);
      z := Rotl22(z);
      r := xp as nat;
    }

    method Reseed(urandom: Trio)
      modifies this
      ensures State() == Reseeded32(old(State()), fixedSeed, urandom)
    {
      var due := count == 0;
      count := if count == 0 then U32 - 1 else count - 1;
      if due && !fixedSeed {
        x, y, z := urandom.x, urandom.y, urandom.z;
        count := RESEED / 2 + y as nat % RESEED;
      }
    }

    /** The residue of the very next draw. */
    method Below(limit: Limit, urandom: Trio) returns (r: nat)
      modifies this
      ensures limit <= 1 ==> r == 0 && State() == old(State())
      ensures limit > 1 ==>
                var start := Reseeded32(old(State()), fixedSeed, urandom);
                && r < limit && r == start.seeds.x as nat % limit
                && State() == start.(seeds := StepT(start.seeds))
    {
      if limit <= 1 { return 0; }
      Reseed(urandom);
      var draw: nat := Next();
      NeverRejected(limit, draw);   // so the loop around the draw is never repeated
      r := draw % limit;
    }
  }
}
