/** Coverage guard IDs: how `__sanitizer_cov_trace_pc_guard_init` hands them out while shared memory is set up and
    re-sized around it.

    Every counter is a 32-bit word and wraps. The environment, the dice and the success of the system calls are
    parameters; of the shared memory only the two sizes are kept. */
module GuardIds {

  const U32: nat := 0x1_0000_0000
  const MAP_SIZE: nat := 65536
  const MAP_INITIAL: nat := 2097152
  const MAX_MAPSIZE: nat := 0x80_0000

  type Word = x: nat | x < U32

  /** ++ on a word. */
  function Next(x: Word): Word { if x + 1 == U32 then 0 else x + 1 }

  /** n cut to a word. */
  ghost function Wrap(n: nat): Word { if n < U32 then n else Wrap(n - U32) }

  lemma {:induction false} NextWraps(n: nat)
    ensures Next(Wrap(n)) == Wrap(n + 1)
  {
    if n >= U32 {
      NextWraps(n - U32);
    }
  }

  /** The process environment: under a fuzzer or not, AFL_MAP_SIZE (0 when unset), AFL_DUMP_MAP_SIZE,
      AFL_DISABLE_LLVM_INSTRUMENTATION, AFL_INST_RATIO (100 when unset) and the two "ignore problems" switches. */
  datatype Env = Env(fuzzer: bool, mapSize: Word, dump: bool, disabled: bool, ratio: Word, ignore: bool,
                     ignoreCov: bool)

  /** How the system calls of one set-up go: whether they succeed, and whether the fixed-address branch is taken. */
  datatype Setup = Setup(works: bool, fixedAddr: bool)

  /** The size bookkeeping. */
  datatype Sizes = Sizes(finalLoc: Word, mapSize: Word, first: Word, shm: bool, second: bool, early: bool,
                         running: bool)

  // ----- shared-memory set-up on values -----

  /** The map size chosen outside a fuzzer. */
  function Ceiling(env: Env, first: Word): Word {
    if env.mapSize > MAP_INITIAL then env.mapSize else if first > MAP_INITIAL then first else MAP_INITIAL
  }

  /** finalLoc after a set-up that does not exit. */
  function MappedLoc(env: Env, first: Word, loc: Word): Word {
    var up := if loc != 0 then Next(loc) else 0;
    if !env.fuzzer && Ceiling(env, first) > MAP_INITIAL && up < Ceiling(env, first) then Ceiling(env, first) else up
  }

  /** mapSize after a set-up that does not exit. */
  function MappedSize(env: Env, s: Sizes, setup: Setup): Word {
    var loc := MappedLoc(env, s.first, s.finalLoc);
    if env.fuzzer then if s.finalLoc != 0 then loc else s.mapSize
    else if !setup.fixedAddr && Reallocates(s, loc) then loc
    else Ceiling(env, s.first)
  }

  /** Outside a fuzzer and without a fixed address: whether a bigger dummy map is allocated. */
  predicate Reallocates(s: Sizes, loc: Word) { loc > MAP_INITIAL && loc > s.first }

  predicate SetupExits(env: Env, s: Sizes, setup: Setup) {
    var loc := MappedLoc(env, s.first, s.finalLoc);
    || env.dump
    || (env.fuzzer && s.finalLoc != 0 && loc > MAX_MAPSIZE && env.mapSize < loc)
    || (!setup.works && (env.fuzzer || setup.fixedAddr || Reallocates(s, loc)))
  }

  function Mapped(env: Env, s: Sizes, setup: Setup): Sizes {
    if s.shm then s
    else if SetupExits(env, s, setup) then s.(running := false)
    else s.(finalLoc := MappedLoc(env, s.first, s.finalLoc), mapSize := MappedSize(env, s, setup), shm := true)
  }

  function Seconded(env: Env, s: Sizes): Sizes {
    if s.second then s
    else if env.disabled || s.finalLoc <= MAP_INITIAL then s.(second := true)
    else s.(second := true, first := Next(s.finalLoc))
  }

  function Earlied(env: Env, s: Sizes, setup: Setup): Sizes {
    if s.early then s
    else if env.disabled then s.(early := true)
    else Mapped(env, s.(early := true), setup)
  }

  /** What a module initialisation does before it looks at its guards. */
  function Started(env: Env, s: Sizes, setup: Setup): Sizes {
    if env.dump then s else Earlied(env, Seconded(env, s), setup)
  }

  // ----- the IDs of one module -----

  /** The dice keep a guard: R(100) < AFL_INST_RATIO. */
  predicate Rolled(ratio: Word, roll: nat) { ratio == 100 || roll < ratio }

  function Range(n: nat): (r: set<nat>)
    ensures |r| == n && forall x: nat :: x in r <==> x < n
  {
    if n == 0 then {} else Range(n - 1) + {n - 1}
  }

  /** Of a hundred rolls, ratio many keep a guard. */
  lemma RollsKeepRatio(ratio: Word)
    requires ratio <= 100
    ensures |set r | r in Range(100) && Rolled(ratio, r)| == ratio
  {
    assert (set r | r in Range(100) && Rolled(ratio, r)) == Range(ratio);
  }

  predicate Kept(ratio: Word, rolls: seq<nat>, i: nat)
    requires i < |rolls|
  {
    i == 0 || Rolled(ratio, rolls[i])
  }

  /** How many of the first n guards get an ID. */
  function Count(ratio: Word, rolls: seq<nat>, n: nat): (c: nat)
    requires n <= |rolls|
    ensures c <= n
    ensures n > 0 ==> c > 0
  {
    if n == 0 then 0 else Count(ratio, rolls, n - 1) + if Kept(ratio, rolls, n - 1) then 1 else 0
  }

  ghost function Id(base: nat, ratio: Word, rolls: seq<nat>, i: nat): Word
    requires i < |rolls|
  {
    if Kept(ratio, rolls, i) then Wrap(base + Count(ratio, rolls, i + 1)) else 0
  }

  lemma {:induction false} CountMonotone(ratio: Word, rolls: seq<nat>, m: nat, n: nat)
    requires m <= n <= |rolls|
    ensures Count(ratio, rolls, m) <= Count(ratio, rolls, n)
    decreases n
  {
    if m < n {
      CountMonotone(ratio, rolls, m, n - 1);
    }
  }

  /** Counting up in steps of one passes every number. */
  lemma {:induction false} CountReaches(ratio: Word, rolls: seq<nat>, n: nat, c: nat) returns (i: nat)
    requires n <= |rolls| && 0 < c <= Count(ratio, rolls, n)
    ensures i < n && Kept(ratio, rolls, i) && Count(ratio, rolls, i + 1) == c
  {
    if c <= Count(ratio, rolls, n - 1) {
      i := CountReaches(ratio, rolls, n - 1, c);
    } else {
      i := n - 1;
    }
  }

  /** Without wrap-around the IDs are new and pairwise distinct. */
  lemma IdsDistinct(base: nat, ratio: Word, rolls: seq<nat>, i: nat, j: nat)
    requires i < j < |rolls| && base + Count(ratio, rolls, |rolls|) < U32
    ensures Id(base, ratio, rolls, i) != 0 ==> base < Id(base, ratio, rolls, i) <= base + Count(ratio, rolls, |rolls|)
    ensures Id(base, ratio, rolls, j) != 0 ==> base < Id(base, ratio, rolls, j) <= base + Count(ratio, rolls, |rolls|)
    ensures Id(base, ratio, rolls, i) != 0 ==> Id(base, ratio, rolls, i) != Id(base, ratio, rolls, j)
  {
    IdBounds(base, ratio, rolls, i);
    IdBounds(base, ratio, rolls, j);
    CountMonotone(ratio, rolls, i + 1, j);
  }

  lemma IdBounds(base: nat, ratio: Word, rolls: seq<nat>, i: nat)
    requires i < |rolls| && base + Count(ratio, rolls, |rolls|) < U32
    ensures Kept(ratio, rolls, i) ==> Id(base, ratio, rolls, i) == base + Count(ratio, rolls, i + 1)
    ensures Kept(ratio, rolls, i) ==> base < Id(base, ratio, rolls, i) <= base + Count(ratio, rolls, |rolls|)
  {
    CountMonotone(ratio, rolls, i + 1, |rolls|);
  }

  /** A well numbered range: the first guard is set, and IDs are at least 6, below `limit` and pairwise distinct. */
  ghost predicate Good(r: seq<Word>, limit: nat) {
    && r != [] && r[0] != 0
    && (forall i | 0 <= i < |r| && r[i] != 0 :: 6 <= r[i] < limit)
    && (forall i, j | 0 <= i < j < |r| && r[i] != 0 :: r[i] != r[j])
  }

  ghost predicate Capped(r: seq<Word>, cap: nat) { forall i | 0 <= i < |r| :: r[i] <= cap }

  ghost predicate Above(r: seq<Word>, base: nat) { forall i | 0 <= i < |r| && r[i] != 0 :: r[i] > base }

  /** No ID in common. */
  ghost predicate Apart(r: seq<Word>, q: seq<Word>) {
    forall i, j | 0 <= i < |r| && 0 <= j < |q| && r[i] != 0 :: r[i] != q[j]
  }

  ghost predicate Numbered(r: seq<Word>, base: nat, ratio: Word, rolls: seq<nat>) {
    |r| == |rolls| > 0 && forall i | 0 <= i < |r| :: r[i] == Id(base, ratio, rolls, i)
  }

  lemma NumberedGood(r: seq<Word>, base: nat, ratio: Word, rolls: seq<nat>, limit: nat)
    requires Numbered(r, base, ratio, rolls) && base >= 5
    requires base + Count(ratio, rolls, |rolls|) < limit <= U32
    ensures Good(r, limit) && Capped(r, base + Count(ratio, rolls, |rolls|))
    ensures Above(r, base)
  {
    forall i | 0 <= i < |r|
      ensures r[i] == 0 || base < r[i] <= base + Count(ratio, rolls, |rolls|)
      ensures i == 0 ==> r[i] != 0
    {
      IdBounds(base, ratio, rolls, i);
    }
    forall i, j | 0 <= i < j < |r| && r[i] != 0
      ensures r[i] != r[j]
    {
      IdsDistinct(base, ratio, rolls, i, j);
    }
  }

  /** A new range has nothing in common with a range numbered before, whose promise goes on holding. */
  lemma OldRange(q: seq<Word>, r: seq<Word>, cap: nat, limit: nat, newCap: nat, newLimit: nat)
    requires Good(q, limit) && Capped(q, cap) && Above(r, cap) && cap <= newCap && cap < newLimit
    ensures Good(q, newLimit) && Capped(q, newCap) && Apart(q, r) && Apart(r, q)
  {}

  // ----- one module initialisation on values -----

  function Base(s: Sizes): nat { if s.finalLoc < 5 then 5 else s.finalLoc }

  /** The sizes after the guards were numbered up to `loc`. */
  function Grown(env: Env, s: Sizes, loc: Word, setup: Setup): Sizes {
    var s := s.(finalLoc := loc);
    if !s.shm then s
    else
      var t := if loc > s.mapSize then Mapped(env, s.(shm := false), setup) else s;
      if t.running then t.(mapSize := Next(t.finalLoc)) else t
  }

  /** There is room for the IDs: a caller can compute this before the call. */
  predicate Room(env: Env, s: Sizes, kept: nat) {
    var loc := Base(s) + kept;
    && loc < U32
    && (s.shm ==> loc + 1 < U32)
    && (s.shm && loc > s.mapSize ==> loc + 2 < U32 && (env.fuzzer || Ceiling(env, s.first) + 1 < U32))
  }

  /** With room, the sizes only grow and the map covers every ID. */
  lemma GrownCovers(env: Env, s: Sizes, kept: nat, setup: Setup)
    requires Room(env, s, kept) && s.running
    requires Grown(env, s, Base(s) + kept, setup).running
    ensures var t := Grown(env, s, Base(s) + kept, setup);
            t.finalLoc >= Base(s) + kept && t.shm == s.shm && (t.shm ==> t.mapSize == t.finalLoc + 1)
  {}

  /** Without room some guard of the module is wrong: the first is zero, or one is too small, or one is outside the
      map. */
  lemma NoRoom(env: Env, s: Sizes, rolls: seq<nat>, setup: Setup) returns (i: nat)
    requires s.running && s.shm && |rolls| > 0
    requires !Room(env, s, Count(env.ratio, rolls, |rolls|))
    requires Grown(env, s, Wrap(Base(s) + Count(env.ratio, rolls, |rolls|)), setup).running
    ensures i < |rolls|
    ensures var kept := Count(env.ratio, rolls, |rolls|);
            var t := Grown(env, s, Wrap(Base(s) + kept), setup);
            var id := Id(Base(s), env.ratio, rolls, i);
            (i == 0 && id == 0) || 0 < id < 6 || (id != 0 && id >= t.mapSize)
  {
    var kept := Count(env.ratio, rolls, |rolls|);
    var loc := Base(s) + kept;
    if loc > U32 {
      i := CountReaches(env.ratio, rolls, |rolls|, U32 + 1 - Base(s));
      assert Wrap(U32 + 1) == 1;
    } else if loc == U32 {
      i := 0;
      assert Count(env.ratio, rolls, 1) == 1 && Wrap(U32) == 0;
    } else {
      i := CountReaches(env.ratio, rolls, |rolls|, kept);
    }
  }

  /** The sizes after a fresh range was numbered. */
  ghost function Assigned(env: Env, s: Sizes, rolls: seq<nat>, setup: Setup): Sizes {
    Grown(env, s, Wrap(Base(s) + Count(env.ratio, rolls, |rolls|)), setup)
  }

  lemma NoRoomNotGood(env: Env, s: Sizes, r: seq<Word>, rolls: seq<nat>, setup: Setup)
    requires s.running && s.shm && Numbered(r, Base(s), env.ratio, rolls)
    requires !Room(env, s, Count(env.ratio, rolls, |rolls|)) && Assigned(env, s, rolls, setup).running
    ensures !Good(r, Assigned(env, s, rolls, setup).mapSize)
  {
    var i := NoRoom(env, s, rolls, setup);
    assert r[i] == Id(Base(s), env.ratio, rolls, i);
  }

  // ----- whole runs on values -----

  /** No number the bookkeeping knows is above n. */
  ghost predicate AtMost(env: Env, s: Sizes, n: nat) {
    MAP_INITIAL <= n && (env.fuzzer || env.mapSize <= n) && s.first <= n && s.finalLoc <= n
  }

  lemma SecondedAtMost(env: Env, s: Sizes, n: nat)
    requires AtMost(env, s, n)
    ensures AtMost(env, Seconded(env, s), n + 1) && Seconded(env, s).finalLoc == s.finalLoc
  {}

  lemma EarliedAtMost(env: Env, s: Sizes, n: nat, setup: Setup)
    requires AtMost(env, s, n) && s.finalLoc + 1 <= n < U32
    ensures AtMost(env, Earlied(env, s, setup), n)
  {}

  lemma StartedAtMost(env: Env, s: Sizes, n: nat, setup: Setup)
    requires AtMost(env, s, n) && n + 1 < U32
    ensures AtMost(env, Started(env, s, setup), n + 1)
  {
    SecondedAtMost(env, s, n);
    EarliedAtMost(env, Seconded(env, s), n + 1, setup);
  }

  lemma GrownAtMost(env: Env, s: Sizes, loc: Word, n: nat, setup: Setup)
    requires AtMost(env, s, n) && loc <= n && n + 1 < U32
    ensures AtMost(env, Grown(env, s, loc, setup), n + 1)
  {}

  lemma RoomBelow(env: Env, s: Sizes, kept: nat, n: nat)
    requires AtMost(env, s, n) && n + kept + 2 < U32
    ensures Room(env, s, kept) && Wrap(Base(s) + kept) == Base(s) + kept <= n + kept
  {}

  lemma AssignedAtMost(env: Env, s: Sizes, rolls: seq<nat>, n: nat, setup: Setup)
    requires AtMost(env, s, n) && n + |rolls| + 2 < U32
    ensures Room(env, s, Count(env.ratio, rolls, |rolls|))
    ensures AtMost(env, Assigned(env, s, rolls, setup), n + |rolls| + 1)
  {
    var kept := Count(env.ratio, rolls, |rolls|);
    RoomBelow(env, s, kept, n);
    GrownAtMost(env, s, Wrap(Base(s) + kept), n + |rolls|, setup);
  }

  /** The first guard of the first module is 6. */
  lemma FirstGuard(s: Sizes, ratio: Word, rolls: seq<nat>)
    requires s.finalLoc <= 5 && rolls != []
    ensures Id(Base(s), ratio, rolls, 0) == 6
  {
    assert Count(ratio, rolls, 1) == 1;
  }

  /** Set-up in numbers: the map has 2097152 bytes outside a fuzzer unless something larger is asked for or known, and
      is as long as the guards under one, which gives up beyond 8388608 unless AFL_MAP_SIZE allows for it. */
  lemma SetupInNumbers(env: Env, s: Sizes, setup: Setup)
    requires !s.shm && s.running && setup.works && !setup.fixedAddr && !env.dump && s.finalLoc < 4294967295
    ensures var t := Mapped(env, s, setup);
            && (!env.fuzzer && env.mapSize <= 2097152 && s.first <= 2097152 && s.finalLoc < 2097152 ==>
                  t.mapSize == 2097152 && t.finalLoc == if s.finalLoc == 0 then 0 else s.finalLoc + 1)
            && (!env.fuzzer && env.mapSize > 2097152 && s.finalLoc < env.mapSize ==>
                  t.finalLoc == env.mapSize && t.mapSize == env.mapSize)
            && (env.fuzzer && s.finalLoc != 0 ==>
                  && (t.running <==> s.finalLoc + 1 <= 8388608 || env.mapSize >= s.finalLoc + 1)
                  && (t.running ==> t.mapSize == t.finalLoc == s.finalLoc + 1))
            && (env.fuzzer && s.finalLoc == 0 ==> t.running && t.mapSize == s.mapSize && t.finalLoc == 0)
  {
  }

  /** A program whose LTO pass fixed more than 2097152 locations, outside a fuzzer: the map covers them and one more. */
  lemma LtoStart(env: Env, loc: Word, setup: Setup)
    requires !env.fuzzer && !env.dump && !env.disabled && env.mapSize <= 2097152 && setup.works
    requires 2097152 < loc < 4294967295
    ensures Started(env, Sizes(loc, 65536, 0, false, false, false, true), setup) ==
            Sizes(loc + 1, loc + 1, loc + 1, true, true, true, true)
  {
  }

  /** Wrap-around does happen: outside a fuzzer, with AFL_MAP_SIZE set to -1 (which is 2^32 - 1 as a word), the very
      first module finds no room. */
  lemma NoRoomAtAll(setup: Setup)
    requires setup.works
    ensures var env := Env(false, U32 - 1, false, false, 100, false, false);
            var s := Started(env, Sizes(0, MAP_SIZE, 0, false, false, false, true), setup);
            s.running && s.shm && !Room(env, s, 1)
  {}

  // ----- the runtime -----

  /** The sizes now are the sizes wanted, or both say that the process has exited. */
  predicate Becomes(now: Sizes, want: Sizes) {
    now.running == want.running && (now.running ==> now == want)
  }

  /** IDs are below the map size once there is a map. */
  function Limit(s: Sizes): nat { if s.shm then s.mapSize else U32 }

  ghost predicate AllGood(ranges: set<array<Word>>, limit: nat, cap: nat)
    reads ranges
  {
    && (forall a <- ranges :: Good(a[..], limit) && Capped(a[..], cap))
    && (forall a <- ranges, b <- ranges | a != b :: Apart(a[..], b[..]))
  }

  /** One more range, numbered above all others. */
  lemma OneMore(ranges: set<array<Word>>, a: array<Word>, cap: nat, limit: nat, newCap: nat, newLimit: nat)
    requires AllGood(ranges, limit, cap) && cap <= newCap && cap < newLimit
    requires Good(a[..], newLimit) && Capped(a[..], newCap) && Above(a[..], cap)
    ensures AllGood(ranges + {a}, newLimit, newCap)
  {
    forall b <- ranges
      ensures Good(b[..], newLimit) && Capped(b[..], newCap) && Apart(a[..], b[..]) && Apart(b[..], a[..])
    {
      OldRange(b[..], a[..], cap, limit, newCap, newLimit);
    }
  }

  lemma AssignedCovers(env: Env, s: Sizes, r: seq<Word>, rolls: seq<nat>, setup: Setup)
    requires Numbered(r, Base(s), env.ratio, rolls)
    requires s.running && Room(env, s, Count(env.ratio, rolls, |rolls|)) && Assigned(env, s, rolls, setup).running
    ensures var t := Assigned(env, s, rolls, setup);
            && s.finalLoc < t.finalLoc < Limit(t) && t.shm == s.shm
            && Good(r, Limit(t)) && Capped(r, t.finalLoc) && Above(r, s.finalLoc)
  {
    GrownCovers(env, s, Count(env.ratio, rolls, |rolls|), setup);
    NumberedGood(r, Base(s), env.ratio, rolls, Limit(Assigned(env, s, rolls, setup)));
  }

  /** The new range makes everything good again if there was room, and only then. */
  lemma RangeAdded(env: Env, s: Sizes, t: Sizes, ranges: set<array<Word>>, a: array<Word>, rolls: seq<nat>,
                   setup: Setup)
    requires AllGood(ranges, Limit(s), s.finalLoc) && Numbered(a[..], Base(s), env.ratio, rolls)
    requires s.running && t.running && t == Assigned(env, s, rolls, setup)
    ensures t.shm == s.shm && t.early == s.early
    ensures Room(env, s, Count(env.ratio, rolls, |rolls|)) ==>
              s.finalLoc < t.finalLoc && AllGood(ranges + {a}, Limit(t), t.finalLoc)
    ensures t.shm && AllGood(ranges + {a}, Limit(t), U32) ==> Room(env, s, Count(env.ratio, rolls, |rolls|))
  {
    if Room(env, s, Count(env.ratio, rolls, |rolls|)) {
      AssignedCovers(env, s, a[..], rolls, setup);
      OneMore(ranges, a, s.finalLoc, Limit(s), t.finalLoc, Limit(t));
    } else if t.shm {
      NoRoomNotGood(env, s, a[..], rolls, setup);
    }
  }

  /** Not empty, and not numbered yet. */
  predicate Unnumbered(r: seq<Word>) { r != [] && r[0] == 0 }

  // ----- modules that come too late -----

  /** Numbers from 5 up to finalLoc, round and round: the one i places after `start`. */
  function Cycle(finalLoc: nat, start: nat, i: nat): nat
    requires start >= 5
  {
    if finalLoc <= 5 then 5 else 5 + (start - 5 + i) % (finalLoc - 5)
  }

  lemma Multiples(k: int, m: int)
    requires m > 0
    ensures k >= 1 ==> k * m >= m
    ensures k <= -1 ==> k * m <= -m
  {}

  /** A number in the q-th block of m. */
  lemma InBlock(x: nat, q: nat, m: nat)
    requires m > 0 && q * m <= x < q * m + m
    ensures x % m == x - q * m
  {
    Multiples(x / m - q, m);
  }

  lemma ModNext(x: nat, m: nat)
    requires m > 0
    ensures (x + 1) % m == if x % m + 1 == m then 0 else x % m + 1
  {
    var q, r := x / m, x % m;
    assert x == q * m + r;
    if r + 1 == m {
      assert x + 1 == (q + 1) * m;
      InBlock(x + 1, q + 1, m);
    } else {
      InBlock(x + 1, q, m);
    }
  }

  lemma CycleNext(finalLoc: nat, start: nat, i: nat)
    requires start >= 5
    ensures var x := Cycle(finalLoc, start, i);
            Cycle(finalLoc, start, i + 1) == if x + 1 >= finalLoc then 5 else x + 1
  {
    if finalLoc > 5 {
      ModNext(start - 5 + i, finalLoc - 5);
    }
  }

  lemma CycleStart(finalLoc: nat, start: nat)
    requires start == 5 || 5 < start < finalLoc
    ensures Cycle(finalLoc, start, 0) == start
  {
    if finalLoc > 5 {
      InBlock(start - 5, 0, finalLoc - 5);
    }
  }

  lemma CycleRange(finalLoc: nat, start: nat, i: nat)
    requires start >= 5
    ensures Cycle(finalLoc, start, i) == 5 || 5 < Cycle(finalLoc, start, i) < finalLoc
  {}

  /** Numbers come back after a whole round, and not before. */
  lemma CycleRepeats(finalLoc: nat, start: nat, i: nat, j: nat)
    requires start >= 5 && finalLoc > 5 && i < j <= i + (finalLoc - 5)
    ensures Cycle(finalLoc, start, i) == Cycle(finalLoc, start, j) <==> j == i + (finalLoc - 5)
  {
    var m, x := finalLoc - 5, start - 5 + i;
    var q, r := x / m, x % m;
    assert x == q * m + r && (q + 1) * m == q * m + m;
    var y := x + (j - i);
    if y < (q + 1) * m {
      InBlock(y, q, m);
    } else {
      assert (q + 2) * m == q * m + m + m;
      InBlock(y, q + 1, m);
    }
  }

  /** The guards of a module that came too late: guard i has the i-th number of the round, whether or not guards before
      it were skipped, or zero if it is skipped itself. */
  ghost predicate Late(r: seq<Word>, env: Env, rolls: seq<nat>, finalLoc: nat, start: nat)
    requires start >= 5
  {
    && |r| <= |rolls|
    && forall i | 0 <= i < |r| ::
         r[i] == if !env.ignoreCov && Rolled(env.ratio, rolls[i]) then Cycle(finalLoc, start, i) else 0
  }

  datatype Call =
    | Init(guards: array<Word>, rolls: seq<nat>, setup: Setup, again: Setup)
    | Second
    | Early(setup: Setup)
    | Fork
  {
    predicate Fits() { Init? ==> |rolls| == guards.Length }

    /** How much a call can raise the numbers. */
    function Cost(): nat { if Init? then |rolls| + 2 else 1 }
  }

  function Costs(calls: seq<Call>): nat { if calls == [] then 0 else calls[0].Cost() + Costs(calls[1..]) }

  function Touched(calls: seq<Call>): set<array<Word>> {
    if calls == [] then {} else (if calls[0].Init? then {calls[0].guards} else {}) + Touched(calls[1..])
  }

  class Runtime {
    const env: Env
    var finalLoc: Word
    var mapSize: Word
    var first: Word
    var shm: bool
    var second: bool
    var early: bool
    var running: bool
    var forkServer: bool
    var offset: Word           // where numbering goes on for modules loaded after the fork server started

    /** The guard ranges numbered before the fork server started. */
    ghost var numbered: set<array<Word>>

    function Now(): Sizes
      reads this
    {
      Sizes.Sizes(finalLoc, mapSize, first, shm, second, early, running)
    }

    /** What is promised of the guards: set, at least 6, inside the map, pairwise distinct. */
    ghost predicate Sound()
      reads this, numbered
    {
      AllGood(numbered, Limit(Now()), U32)
    }

    ghost predicate Valid()
      reads this, numbered
    {
      && AllGood(numbered, Limit(Now()), finalLoc)
      && (offset == 5 || 5 < offset < finalLoc)
      && (numbered != {} || offset != 5 ==> shm || env.dump || env.disabled)
      && (early && !shm ==> env.disabled)
    }

    /** The start of the process; the LTO pass may have fixed finalLoc. */
    constructor (env: Env, finalLoc: Word)
      ensures this.env == env && numbered == {} && Valid() && !forkServer && offset == 5
      ensures Now() == Sizes.Sizes(finalLoc, 65536, 0, false, false, false, true)
    {
      this.env, this.finalLoc, mapSize, first := env, finalLoc, MAP_SIZE, 0;
      shm, second, early, running, forkServer, offset, numbered := false, false, false, true, false, 5, {};
    }

    method MapShm(setup: Setup)
      requires running
      modifies `finalLoc, `mapSize, `shm, `running
      ensures Becomes(Now(), Mapped(env, old(Now()), setup))
    {
      if shm { return; }
      shm := true;
      if finalLoc != 0 {
        finalLoc := Next(finalLoc);
        mapSize := finalLoc;
        if env.dump {
          running := false;
          return;
        }
        if finalLoc > MAP_SIZE && env.mapSize < finalLoc && finalLoc > MAX_MAPSIZE && env.fuzzer {
          running := false;
          return;
        }
      } else if env.dump {
        running := false;
        return;
      }
      if !env.fuzzer {
        ChooseSize();
      }
      if env.fuzzer || setup.fixedAddr {
        running := setup.works;
      } else if finalLoc > MAP_INITIAL && finalLoc > first {
        mapSize := finalLoc;
        running := setup.works;
      }
    }

    method ChooseSize()
      modifies `finalLoc, `mapSize
      ensures mapSize == Ceiling(env, first)
      ensures finalLoc == if mapSize > MAP_INITIAL && old(finalLoc) < mapSize then mapSize else old(finalLoc)
    {
      if env.mapSize > MAP_INITIAL {
        mapSize := env.mapSize;
      } else if first > MAP_INITIAL {
        mapSize := first;
      } else {
        mapSize := MAP_INITIAL;
      }
      if mapSize > MAP_INITIAL && finalLoc < mapSize {
        finalLoc := mapSize;
      }
    }

    method AutoSecond()
      requires running
      modifies `first, `second
      ensures Now() == Seconded(env, old(Now()))
    {
      if second { return; }
      second := true;
      if env.disabled { return; }
      if finalLoc > MAP_INITIAL {
        first := Next(finalLoc);
      }
    }

    method AutoEarly(setup: Setup)
      requires running && Valid()
      modifies `finalLoc, `mapSize, `shm, `running, `early
      ensures Becomes(Now(), Earlied(env, old(Now()), setup))
      ensures running ==> Valid() && (shm || env.disabled)
    {
      if Earlied(env, Now(), setup).running {
        EarlyKeeps(Now(), setup);
      }
      if early { return; }
      early := true;
      if env.disabled { return; }
      MapShm(setup);
    }

    method Start(setup: Setup)
      requires running && Valid()
      modifies `finalLoc, `mapSize, `first, `shm, `second, `early, `running
      ensures Becomes(Now(), Started(env, old(Now()), setup))
      ensures running ==> Valid() && (shm || env.dump || env.disabled)
    {
      if !env.dump {
        AutoSecond();
        AutoEarly(setup);
      }
    }

    /** Number a fresh range. */
    method Number(guards: array<Word>, rolls: seq<nat>)
      requires guards.Length > 0 && |rolls| == guards.Length
      modifies `finalLoc, guards
      ensures finalLoc == Wrap(Base(old(Now())) + Count(env.ratio, rolls, |rolls|))
      ensures forall i :: 0 <= i < guards.Length ==> guards[i] == Id(Base(old(Now())), env.ratio, rolls, i)
    {
      ghost var base := Base(Now());
      if finalLoc < 5 {
        finalLoc := 5;
      }
      NextWraps(base);
      finalLoc := Next(finalLoc);
      guards[0] := finalLoc;
      var p := 1;
      assert Count(env.ratio, rolls, 1) == 1;
      while p < guards.Length
        invariant 1 <= p <= guards.Length
        invariant finalLoc == Wrap(base + Count(env.ratio, rolls, p))
        invariant forall i :: 0 <= i < p ==> guards[i] == Id(base, env.ratio, rolls, i)
      {
        if env.ratio == 100 || rolls[p] < env.ratio {
          NextWraps(base + Count(env.ratio, rolls, p));
          finalLoc := Next(finalLoc);
          guards[p] := finalLoc;
        } else {
          guards[p] := 0;
        }
        p := p + 1;
      }
    }

    /** Make the map cover the IDs. */
    method Grow(setup: Setup)
      requires running
      modifies `finalLoc, `mapSize, `shm, `running
      ensures Becomes(Now(), Grown(env, old(Now()), old(finalLoc), setup))
    {
      if shm {
        if finalLoc > mapSize {
          shm := false;
          MapShm(setup);
        }
        if running {
          mapSize := Next(finalLoc);
        }
      }
    }

    /** Number the guards of a module loaded after the fork server started. */
    method NumberLate(guards: array<Word>, rolls: seq<nat>)
      requires Valid() && (shm || env.dump || env.disabled)
      requires |rolls| == guards.Length > 0 && guards[0] == 0
      modifies `offset, guards
      ensures Valid() && guards !in numbered && Late(guards[..], env, rolls, finalLoc, old(offset))
      ensures offset == Cycle(finalLoc, old(offset), guards.Length)
    {
      assert guards !in numbered by { assert guards[..][0] == 0; }
      CycleStart(finalLoc, offset);
      for p := 0 to guards.Length
        invariant offset == Cycle(finalLoc, old(offset), p)
        invariant Late(guards[..p], env, rolls, finalLoc, old(offset))
      {
        CycleRange(finalLoc, old(offset), p);
        CycleNext(finalLoc, old(offset), p);
        guards[p] := if !env.ignoreCov && (env.ratio == 100 || rolls[p] < env.ratio) then offset else 0;
        offset := Next(offset);
        if offset >= finalLoc {
          offset := 5;
        }
      }
      CycleRange(finalLoc, old(offset), guards.Length);
    }

    /** Nothing numbered so far is touched by setting up shared memory. */
    lemma EarlyKeeps(s: Sizes, setup: Setup)
      requires Valid() && s == Now() && Earlied(env, s, setup).running
      ensures var t := Earlied(env, s, setup);
              && (numbered != {} || offset != 5 ==> t.finalLoc == finalLoc && t.mapSize == mapSize && t.shm == shm)
              && (t.shm || env.disabled)
    {}

    method NumberAndGrow(guards: array<Word>, rolls: seq<nat>, setup: Setup)
      requires running && guards.Length > 0 && |rolls| == guards.Length
      modifies `finalLoc, `mapSize, `shm, `running, guards
      ensures Numbered(guards[..], Base(old(Now())), env.ratio, rolls)
      ensures Becomes(Now(), Assigned(env, old(Now()), rolls, setup))
    {
      Number(guards, rolls);
      Grow(setup);
    }

    /** Number a fresh range and grow the map: with room everything promised holds again, and without room it does
        not. */
    method Assign(guards: array<Word>, rolls: seq<nat>, setup: Setup)
      requires running && Valid() && (shm || env.dump || env.disabled)
      requires guards.Length > 0 && guards[0] == 0 && |rolls| == guards.Length
      modifies `finalLoc, `mapSize, `shm, `running, `numbered, guards
      ensures numbered == old(numbered) + {guards}
      ensures Numbered(guards[..], Base(old(Now())), env.ratio, rolls)
      ensures Becomes(Now(), Assigned(env, old(Now()), rolls, setup))
      ensures running && Room(env, old(Now()), Count(env.ratio, rolls, |rolls|)) ==> Valid()
      ensures running && shm && Sound() ==> Room(env, old(Now()), Count(env.ratio, rolls, |rolls|))
    {
      ghost var s := Now();
      assert guards !in numbered by { assert guards[..][0] == 0; }
      NumberAndGrow(guards, rolls, setup);
      assert AllGood(numbered, Limit(s), s.finalLoc);
      if running {
        RangeAdded(env, s, Now(), numbered, guards, rolls, setup);
      }
      numbered := numbered + {guards};
    }

    /** The callback a module's constructor calls, any number of times. */
    method Init(guards: array<Word>, rolls: seq<nat>, setup: Setup, again: Setup)
      requires running && Valid() && |rolls| == guards.Length
      modifies `finalLoc, `mapSize, `first, `shm, `second, `early, `running, `offset, `numbered, guards
      // exits and repeated calls
      ensures running ==> Started(env, old(Now()), setup).running
      ensures running && !Unnumbered(old(guards[..])) ==>
                && Valid() && numbered == old(numbered) && guards[..] == old(guards[..])
                && Now() == Started(env, old(Now()), setup)
      ensures running && Unnumbered(old(guards[..])) ==> 1 <= env.ratio <= 100 && (forkServer ==> env.ignore)
      // after the fork server started: nothing numbered before changes
      ensures running && Unnumbered(old(guards[..])) && forkServer ==>
                && Valid() && numbered == old(numbered) && guards !in numbered
                && Now() == Started(env, old(Now()), setup)
                && Late(guards[..], env, rolls, finalLoc, old(offset))
                && offset == Cycle(finalLoc, old(offset), guards.Length)
      // before: exactly when there is room
      ensures running && Unnumbered(old(guards[..])) && !forkServer ==>
                && numbered == old(numbered) + {guards}
                && Numbered(guards[..], Base(Started(env, old(Now()), setup)), env.ratio, rolls)
                && Now() == Assigned(env, Started(env, old(Now()), setup), rolls, again)
                && (Room(env, Started(env, old(Now()), setup), Count(env.ratio, rolls, |rolls|)) ==> Valid())
                && (shm && Sound() ==> Room(env, Started(env, old(Now()), setup), Count(env.ratio, rolls, |rolls|)))
    {
      Start(setup);
      if !running { return; }
      if guards.Length == 0 || guards[0] != 0 { return; }
      if env.ratio == 0 || env.ratio > 100 {
        running := false;
        return;
      }
      if forkServer {
        if !env.ignore {
          running := false;
          return;
        }
        NumberLate(guards, rolls);
        return;
      }
      Assign(guards, rolls, again);
    }

    /** One call of any kind, within the budget. */
    method Do(call: Call, ghost n: nat)
      requires running && Valid() && call.Fits() && AtMost(env, Now(), n) && n + call.Cost() + 2 < U32
      modifies this, if call.Init? then {call.guards} else {}
      ensures running ==> Valid() && AtMost(env, Now(), n + call.Cost())
    {
      match call {
        case Init(guards, rolls, setup, again) =>
          StartedAtMost(env, Now(), n, setup);
          AssignedAtMost(env, Started(env, Now(), setup), rolls, n + 1, again);
          Init(guards, rolls, setup, again);
        case Second =>
          SecondedAtMost(env, Now(), n);
          AutoSecond();
        case Early(setup) =>
          EarliedAtMost(env, Now(), n + 1, setup);
          AutoEarly(setup);
        case Fork => forkServer := true;
      }
    }

    /** Whole runs: module initialisations, repeated ones too, mixed in any order with the runtime's own constructors
        and the start of the fork server. */
    method Run(calls: seq<Call>, ghost n: nat)
      requires running && Valid() && (forall c <- calls :: c.Fits())
      requires AtMost(env, Now(), n) && n + Costs(calls) + 2 < U32
      modifies this, Touched(calls)
      ensures running ==> Valid() && Sound()
      decreases |calls|
    {
      if calls != [] {
        Do(calls[0], n);
        if running {
          Run(calls[1..], n + calls[0].Cost());
        }
      }
    }
  }
}
