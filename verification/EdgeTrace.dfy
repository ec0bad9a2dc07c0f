/** Edge tracing: the 32-bit assembly, the 64-bit assembly and the C form of one basic-block visit, on a map of any
    size. A visit asks only that its index is inside the map.

    The assembly remembers a location in a full register. The C form remembers it in a PREV_LOC_T, which has 16 bits at
    the configured map size, so locations from 2^17 on are cut. */
module EdgeTrace {

  // ----- counters -----

  /** How often e was counted. */
  ghost function Hits(trace: seq<nat>, e: nat): nat {
    if trace == [] then 0
    else Hits(trace[..|trace| - 1], e) + if trace[|trace| - 1] == e then 1 else 0
  }

  /** A counter that never returns to zero: after n hits it holds this. */
  function Held(n: nat): nat { if n == 0 then 0 else (n - 1) % 255 + 1 }

  ghost predicate Counts(area: seq<bv8>, trace: seq<nat>) {
    forall e | 0 <= e < |area| :: area[e] as nat == Held(Hits(trace, e))
  }

  /** One more on a counter, skipping zero. */
  function Bump(b: bv8): bv8 { if b == 255 then 1 else b + 1 }

  lemma BumpValue(b: bv8)
    ensures Bump(b) as nat == if b as nat == 255 then 1 else b as nat + 1
  {}

  lemma HeldNext(n: nat)
    ensures Held(n + 1) == if Held(n) == 255 then 1 else Held(n) + 1
  {}

  lemma HitsNext(trace: seq<nat>, i: nat, e: nat)
    ensures Hits(trace + [i], e) == Hits(trace, e) + if i == e then 1 else 0
  {
    assert (trace + [i])[..|trace|] == trace;
  }

  lemma CountsNext(area: seq<bv8>, trace: seq<nat>, i: nat)
    requires Counts(area, trace) && i < |area|
    ensures Counts(area[i := Bump(area[i])], trace + [i])
  {
    forall e | 0 <= e < |area|
      ensures Held(Hits(trace + [i], e)) == if i == e then Bump(area[e]) as nat else area[e] as nat
    {
      HitsNext(trace, i, e);
      HeldNext(Hits(trace, e));
      BumpValue(area[e]);
    }
  }

  /** Two maps that count the same trace are the same map. */
  lemma SameMap(a: seq<bv8>, b: seq<bv8>, trace: seq<nat>)
    requires |a| == |b| && Counts(a, trace) && Counts(b, trace)
    ensures a == b
  {
    forall e | 0 <= e < |a|
      ensures a[e] == b[e]
    {
      assert a[e] as nat == b[e] as nat;
    }
  }

  // ----- edges -----

  /** The index a visit of loc counts under when p is remembered. */
  function Index(p: bv32, loc: bv32): nat { (p ^ loc) as nat }

  function Half32(x: bv32): bv32 { x >> 1 }

  /** What is remembered of the blocks visited so far. */
  ghost function Remembered(visited: seq<bv32>): bv32 {
    if visited == [] then 0 else Half32(visited[|visited| - 1])
  }

  ghost function Edges(visited: seq<bv32>): seq<nat> {
    if visited == [] then []
    else
      var before := visited[..|visited| - 1];
      Edges(before) + [Index(Remembered(before), visited[|visited| - 1])]
  }

  lemma EdgesNext(visited: seq<bv32>, loc: bv32)
    ensures Edges(visited + [loc]) == Edges(visited) + [Index(Remembered(visited), loc)]
  {
    assert (visited + [loc])[..|visited|] == visited;
  }

  // ----- what the C form remembers -----

  function Cut(x: bv32): bv16 { (x & 0xFFFF) as bv16 }
  function Widen32(x: bv16): bv32 { x as bv32 }

  ghost function RememberedC(visited: seq<bv32>): bv32 { Widen32(Cut(Remembered(visited))) }

  ghost function EdgesC(visited: seq<bv32>): seq<nat> {
    if visited == [] then []
    else
      var before := visited[..|visited| - 1];
      EdgesC(before) + [Index(RememberedC(before), visited[|visited| - 1])]
  }

  lemma EdgesCNext(visited: seq<bv32>, loc: bv32)
    ensures EdgesC(visited + [loc]) == EdgesC(visited) + [Index(RememberedC(visited), loc)]
  {
    assert (visited + [loc])[..|visited|] == visited;
  }

  predicate Small(loc: bv32) { loc < 0x20000 }

  lemma CutKeeps(loc: bv32)
    ensures Widen32(Cut(Half32(loc))) == Half32(loc) <==> Small(loc)
  {
    assert Widen32(Cut(loc >> 1)) == loc >> 1 <==> loc < 0x20000;
  }

  lemma CutZero()
    ensures Widen32(Cut(0)) == 0
  {}

  lemma SameIndex(p: bv32, q: bv32, loc: bv32)
    ensures Index(p, loc) == Index(q, loc) <==> p == q
  {
    if Index(p, loc) == Index(q, loc) {
      assert ((p ^ loc) as nat) as bv32 == ((q ^ loc) as nat) as bv32;
      XorCancels(p, q, loc);
    }
  }

  lemma XorCancels(p: bv32, q: bv32, loc: bv32)
    ensures p ^ loc == q ^ loc ==> p == q
  {}

  /** Every location that something was visited after is small. */
  ghost predicate SmallButLast(visited: seq<bv32>) {
    forall i | 0 <= i < |visited| - 1 :: Small(visited[i])
  }

  lemma StepAgrees(visited: seq<bv32>, loc: bv32)
    ensures Index(RememberedC(visited), loc) == Index(Remembered(visited), loc) <==>
            visited == [] || Small(visited[|visited| - 1])
  {
    SameIndex(RememberedC(visited), Remembered(visited), loc);
    if visited == [] {
      CutZero();
    } else {
      CutKeeps(visited[|visited| - 1]);
    }
  }

  lemma SmallNext(visited: seq<bv32>, loc: bv32)
    ensures SmallButLast(visited + [loc]) <==>
            SmallButLast(visited) && (visited == [] || Small(visited[|visited| - 1]))
  {
    var next := visited + [loc];
    assert visited != [] ==> next[|visited| - 1] == visited[|visited| - 1];
    assert forall i | 0 <= i < |visited| - 1 :: next[i] == visited[i];
  }

  /** The C form counts the assembly's indices exactly when no location but the last is cut. */
  lemma {:induction false} CAgreesExactly(visited: seq<bv32>)
    ensures |EdgesC(visited)| == |Edges(visited)| == |visited|
    ensures EdgesC(visited) == Edges(visited) <==> SmallButLast(visited)
  {
    if visited != [] {
      var before, loc := visited[..|visited| - 1], visited[|visited| - 1];
      assert visited == before + [loc];
      CAgreesExactly(before);
      EdgesNext(before, loc);
      EdgesCNext(before, loc);
      StepAgrees(before, loc);
      SmallNext(before, loc);
      LastSame(EdgesC(before), Edges(before), Index(RememberedC(before), loc), Index(Remembered(before), loc));
    }
  }

  lemma LastSame(a: seq<nat>, b: seq<nat>, x: nat, y: nat)
    requires |a| == |b|
    ensures a + [x] == b + [y] <==> a == b && x == y
  {
    if a + [x] == b + [y] {
      assert a == (a + [x])[..|a|] == (b + [y])[..|b|] == b;
      assert x == (a + [x])[|a|] == (b + [y])[|b|] == y;
    }
  }

  /** Where they differ: after location 2^17 the C form counts a visit of location 0 under 0, the assembly under
      2^16. */
  lemma CDisagrees()
    ensures InMap([0x20000, 0], 0x20001) && InMapC([0x20000, 0], 0x20001)
    ensures Edges([0x20000, 0]) == [0x20000, 0x10000] && EdgesC([0x20000, 0]) == [0x20000, 0]
  {
    EdgesOfTwo(0x20000, 0);
    var v: seq<bv32> := [0x20000, 0];
    assert v[..0] == [] && v[..1] == [0x20000];
    assert Remembered([0x20000]) == 0x10000 && Widen32(Cut(0x10000)) == 0 && Widen32(Cut(0)) == 0;
    assert Index(0, 0x20000) == 0x20000 && Index(0x10000, 0) == 0x10000 && Index(0, 0) == 0;
  }

  lemma EdgesOfTwo(a: bv32, b: bv32)
    ensures Edges([a, b]) == [Index(0, a), Index(Half32(a), b)]
    ensures EdgesC([a, b]) == [Index(Widen32(Cut(0)), a), Index(Widen32(Cut(Half32(a))), b)]
  {
    assert [] + [a] == [a] && [a] + [b] == [a, b];
    EdgesNext([], a);
    EdgesNext([a], b);
    EdgesCNext([], a);
    EdgesCNext([a], b);
  }

  ghost predicate InMap(visited: seq<bv32>, size: nat) {
    forall i | 0 <= i < |visited| :: Index(Remembered(visited[..i]), visited[i]) < size
  }

  ghost predicate InMapC(visited: seq<bv32>, size: nat) {
    forall i | 0 <= i < |visited| :: Index(RememberedC(visited[..i]), visited[i]) < size
  }

  predicate In16(loc: bv32) { loc < 0x10000 }

  lemma HalfStays(loc: bv32)
    requires In16(loc)
    ensures In16(Half32(loc)) && Small(loc) && Widen32(Cut(Half32(loc))) == Half32(loc)
  {
    assert loc >> 1 < 0x10000 && Widen32(Cut(loc >> 1)) == loc >> 1;
  }

  lemma IndexIn16(p: bv32, loc: bv32)
    requires In16(p) && Index(p, loc) < 0x10000
    ensures In16(loc)
  {
    BelowIsBelow(p ^ loc);
    XorIn16(p, loc);
  }

  lemma BelowIsBelow(x: bv32)
    requires x as nat < 0x10000
    ensures x < 0x10000
  {}

  lemma XorIn16(p: bv32, loc: bv32)
    requires p < 0x10000 && p ^ loc < 0x10000
    ensures loc < 0x10000
  {}

  lemma NextIn16(before: seq<bv32>, loc: bv32, size: nat)
    requires before == [] || In16(before[|before| - 1])
    requires Index(Remembered(before), loc) < size <= 0x10000
    ensures In16(loc) && RememberedC(before) == Remembered(before)
  {
    if before == [] {
      CutZero();
    } else {
      HalfStays(before[|before| - 1]);
    }
    IndexIn16(Remembered(before), loc);
  }

  lemma {:induction false} LocationIn16(visited: seq<bv32>, size: nat, i: nat)
    requires InMap(visited, size) && size <= 0x10000 && i < |visited|
    ensures In16(visited[i]) && RememberedC(visited[..i]) == Remembered(visited[..i])
  {
    if i > 0 {
      LocationIn16(visited, size, i - 1);
    }
    NextIn16(visited[..i], visited[i], size);
  }

  /** On a map of the configured size every location is below it, so nothing is cut. */
  lemma ConfiguredMapIsSmall(visited: seq<bv32>, size: nat)
    requires InMap(visited, size) && size <= 0x10000
    ensures SmallButLast(visited) && InMapC(visited, size)
  {
    forall i | 0 <= i < |visited|
      ensures Small(visited[i]) && Index(RememberedC(visited[..i]), visited[i]) < size
    {
      LocationIn16(visited, size, i);
      HalfStays(visited[i]);
    }
  }

  // ----- 32-bit locations in 64-bit registers -----

  function Xor32(x: bv32, y: bv32): bv32 { x ^ y }
  function Offset32(x: bv32): nat { x as nat }

  function Widen64(x: bv32): bv64 { x as bv64 }
  function Xor64(x: bv64, y: bv64): bv64 { x ^ y }
  function Half64(x: bv64): bv64 { x >> 1 }
  function Offset64(x: bv64): nat { x as nat }

  lemma Xor64Widens(p: bv32, x: bv32)
    ensures Xor64(Widen64(p), Widen64(x)) == Widen64(p ^ x)
    ensures Xor64(Widen64(p), Widen64(p ^ x)) == Widen64(x)
  {}

  lemma Half64Widens(x: bv32) ensures Half64(Widen64(x)) == Widen64(Half32(x)) {
    assert Half64(x as bv64) == Widen64(x >> 1);
  }
  lemma Offset64Widens(x: bv32) ensures Offset64(Widen64(x)) == x as nat {}

  /** Add one, then add the carry. */
  method AddWithCarry(area: array<bv8>, e: nat)
    requires e < area.Length
    modifies area
    ensures area[..] == old(area[..])[e := Bump(old(area[e]))]
  {
    var carry: bv8 := if area[e] == 255 then 1 else 0;
    area[e] := area[e] + 1;
    area[e] := area[e] + carry;
  }

  // ----- the three forms: registers first, then the counter -----

  method Registers32(prev: bv32, loc: bv32) returns (e: nat, next: bv32)
    ensures e == Index(prev, loc) && next == Half32(loc)
  {
    var ecx := loc;
    var edi := prev;
    edi := Xor32(edi, ecx);
    ecx := Half32(ecx);
    e, next := Offset32(edi), ecx;
  }

  /** The location goes into the remembered word by two exclusive ors. */
  method Registers64(prev: bv64, loc: bv32, ghost p: bv32) returns (e: nat, next: bv64)
    requires prev == Widen64(p)
    ensures e == Index(p, loc) && next == Widen64(Half32(loc))
  {
    Xor64Widens(p, loc);
    Half64Widens(loc);
    Offset64Widens(p ^ loc);
    var rcx := Widen64(loc);
    rcx := Xor64(prev, rcx);
    next := Xor64(prev, rcx);
    next := Half64(next);
    e := Offset64(rcx);
  }

  method RegistersC(prevLoc: bv16, x: bv32) returns (e: nat, next: bv16)
    ensures e == Index(Widen32(prevLoc), x) && next == Cut(Half32(x))
  {
    var prev := prevLoc;
    next := Cut(Half32(x));
    e := Offset32(Xor32(Widen32(prev), x));
  }

  class Asm32 {
    const area: array<bv8>
    var prev: bv32
    ghost var visited: seq<bv32>

    ghost predicate Valid()
      reads this, area
    {
      prev == Remembered(visited) && Counts(area[..], Edges(visited))
    }

    constructor (size: nat)
      ensures Valid() && visited == [] && fresh(area) && area.Length == size
    {
      area := new bv8[size](i => 0);
      prev := 0;
      visited := [];
    }

    /** The 32-bit assembly. */
    method Store(loc: bv32)
      requires Valid() && Index(Remembered(visited), loc) < area.Length
      modifies `prev, `visited, area
      ensures Valid() && visited == old(visited) + [loc]
    {
      EdgesNext(visited, loc);
      CountsNext(area[..], Edges(visited), Index(Remembered(visited), loc));
      var e;
      e, prev := Registers32(prev, loc);
      AddWithCarry(area, e);
      visited := visited + [loc];
    }
  }

  class Asm64 {
    const area: array<bv8>
    var prev: bv64
    ghost var visited: seq<bv32>

    ghost predicate Valid()
      reads this, area
    {
      prev == Widen64(Remembered(visited)) && Counts(area[..], Edges(visited))
    }

    constructor (size: nat)
      ensures Valid() && visited == [] && fresh(area) && area.Length == size
    {
      area := new bv8[size](i => 0);
      prev := 0;
      visited := [];
    }

    /** The 64-bit assembly. */
    method Store(loc: bv32)
      requires Valid() && Index(Remembered(visited), loc) < area.Length
      modifies `prev, `visited, area
      ensures Valid() && visited == old(visited) + [loc]
    {
      EdgesNext(visited, loc);
      CountsNext(area[..], Edges(visited), Index(Remembered(visited), loc));
      var e;
      e, prev := Registers64(prev, loc, Remembered(visited));
      AddWithCarry(area, e);
      visited := visited + [loc];
    }
  }

  class Trace {
    const area: array<bv8>
    var prevLoc: bv16
    ghost var visited: seq<bv32>

    ghost predicate Valid()
      reads this, area
    {
      prevLoc == Cut(Remembered(visited)) && Counts(area[..], EdgesC(visited))
    }

    constructor (size: nat)
      ensures Valid() && visited == [] && fresh(area) && area.Length == size
    {
      area := new bv8[size](i => 0);
      prevLoc := 0;
      visited := [];
    }

    /** The C function. */
    method Visit(loc: bv32)
      requires Valid() && Index(RememberedC(visited), loc) < area.Length
      modifies `prevLoc, `visited, area
      ensures Valid() && visited == old(visited) + [loc]
    {
      EdgesCNext(visited, loc);
      CountsNext(area[..], EdgesC(visited), Index(RememberedC(visited), loc));
      var e;
      e, prevLoc := RegistersC(prevLoc, loc);
      AddWithCarry(area, e);
      visited := visited + [loc];
    }
  }

  // ----- whole traces -----

  method TraceAsm32(locs: seq<bv32>, size: nat) returns (map_: seq<bv8>)
    requires InMap(locs, size)
    ensures |map_| == size && Counts(map_, Edges(locs))
  {
    var t := new Asm32(size);
    for i := 0 to |locs|
      invariant t.Valid() && fresh(t) && fresh(t.area) && t.visited == locs[..i]
    {
      t.Store(locs[i]);
    }
    assert locs[..|locs|] == locs;
    map_ := t.area[..];
  }

  method TraceAsm64(locs: seq<bv32>, size: nat) returns (map_: seq<bv8>)
    requires InMap(locs, size)
    ensures |map_| == size && Counts(map_, Edges(locs))
  {
    var t := new Asm64(size);
    for i := 0 to |locs|
      invariant t.Valid() && fresh(t) && fresh(t.area) && t.visited == locs[..i]
    {
      t.Store(locs[i]);
    }
    assert locs[..|locs|] == locs;
    map_ := t.area[..];
  }

  method TraceC(locs: seq<bv32>, size: nat) returns (map_: seq<bv8>)
    requires InMapC(locs, size)
    ensures |map_| == size && Counts(map_, EdgesC(locs))
  {
    var t := new Trace(size);
    for i := 0 to |locs|
      invariant t.Valid() && fresh(t) && fresh(t.area) && t.visited == locs[..i]
    {
      t.Visit(locs[i]);
    }
    assert locs[..|locs|] == locs;
    map_ := t.area[..];
  }

  /** For any sequence of locations the two assembly forms leave the same map, and it counts edges; so does the C form
      when no location but the last is cut, which is always so on a map of the configured size. */
  method AllAgree(locs: seq<bv32>, size: nat) returns (by32: seq<bv8>, by64: seq<bv8>, byC: seq<bv8>)
    requires InMap(locs, size) && (size > 0x10000 ==> InMapC(locs, size))
    ensures by32 == by64 && |by32| == |byC| == size && Counts(by32, Edges(locs)) && Counts(byC, EdgesC(locs))
    ensures SmallButLast(locs) || size <= 0x10000 ==> byC == by32
  {
    if size <= 0x10000 {
      ConfiguredMapIsSmall(locs, size);
    }
    by32 := TraceAsm32(locs, size);
    by64 := TraceAsm64(locs, size);
    byC := TraceC(locs, size);
    SameMap(by32, by64, Edges(locs));
    CAgreesExactly(locs);
    if SmallButLast(locs) {
      SameMap(by32, byC, Edges(locs));
    }
  }
}
