/** N-gram coverage: the history vector of the LLVM pass, its shuffle mask and the counter it selects.

    The vector's elements and the current location have the type of PREV_LOC_T, 16 bits at the configured map size, so
    the pass cuts every location it emits in this mode.

    `size` is N - 1, the number of remembered locations; the vector is at least that long, padded to a power of two. */
module Ngram {

  import opened EdgeTrace

  function Half(loc: bv16): bv16 { loc >> 1 }
  function Xor(x: bv16, y: bv16): bv16 { x ^ y }

  /** Both are widened to 32 bits first. */
  function Index16(p: bv16, loc: bv16): nat { Index(Widen32(p), Widen32(loc)) }

  // ----- what the vector should hold -----

  /** The i-th last location, shifted; zero when there is none. */
  ghost function Past(visited: seq<bv16>, i: nat): bv16 {
    if i < |visited| then Half(visited[|visited| - 1 - i]) else 0
  }

  /** The last `size` locations, shifted, then zeros. */
  ghost predicate IsHistory(v: seq<bv16>, visited: seq<bv16>, size: nat) {
    && size <= |v|
    && (forall i | 0 <= i < size :: v[i] == Past(visited, i))
    && (forall i | size <= i < |v| :: v[i] == 0)
  }

  /** The exclusive or of the last n locations, shifted. */
  ghost function XorPast(visited: seq<bv16>, n: nat): bv16 {
    if n == 0 || visited == [] then 0
    else Xor(Half(visited[|visited| - 1]), XorPast(visited[..|visited| - 1], n - 1))
  }

  ghost function Grams(visited: seq<bv16>, size: nat): seq<nat> {
    if visited == [] then []
    else
      var before := visited[..|visited| - 1];
      Grams(before, size) + [Index16(XorPast(before, size), visited[|visited| - 1])]
  }

  lemma GramsNext(visited: seq<bv16>, size: nat, loc: bv16)
    ensures Grams(visited + [loc], size) == Grams(visited, size) + [Index16(XorPast(visited, size), loc)]
  {
    assert (visited + [loc])[..|visited|] == visited;
  }

  // ----- the mask -----

  /** Position 0 is overwritten; the others move back by one; padding reads padding. */
  ghost predicate IsMask(mask: seq<nat>, size: nat, length: nat) {
    && |mask| == length && size <= length
    && (forall i | 0 < i < size :: mask[i] == i - 1)
    && (forall i | size <= i < length :: mask[i] == size)
  }

  method ShuffleMask(size: nat, length: nat) returns (mask: seq<nat>)
    requires 1 <= size <= length
    ensures IsMask(mask, size, length) && mask[0] == 0
  {
    mask := [0];
    for i := 0 to size - 1
      invariant |mask| == i + 1 && mask[0] == 0
      invariant forall j | 0 < j < |mask| :: mask[j] == j - 1
    {
      mask := mask + [i];
    }
    for i := size to length
      invariant |mask| == i && mask[0] == 0
      invariant forall j | 0 < j < size :: mask[j] == j - 1
      invariant forall j | size <= j < i :: mask[j] == size
    {
      mask := mask + [size];
    }
  }

  function Shuffle(v: seq<bv16>, mask: seq<nat>): seq<bv16>
    requires forall i | 0 <= i < |mask| :: mask[i] < |v|
  {
    seq(|mask|, i requires 0 <= i < |mask| => v[mask[i]])
  }

  lemma HistoryNext(v: seq<bv16>, visited: seq<bv16>, size: nat, mask: seq<nat>, loc: bv16)
    requires 1 <= size && IsHistory(v, visited, size) && IsMask(mask, size, |v|) && mask[0] == 0
    ensures IsHistory(Shuffle(v, mask)[0 := Half(loc)], visited + [loc], size)
  {
    var w := Shuffle(v, mask)[0 := Half(loc)];
    forall i | 0 < i < size
      ensures w[i] == Past(visited + [loc], i)
    {
      assert w[i] == v[i - 1];
    }
  }

  // ----- the index -----

  function XorReduce(v: seq<bv16>): bv16 { if v == [] then 0 else Xor(v[0], XorReduce(v[1..])) }

  lemma XorZero()
    ensures Xor(0, 0) == 0
  {}

  lemma {:induction false} ReduceZeros(v: seq<bv16>)
    requires forall i | 0 <= i < |v| :: v[i] == 0
    ensures XorReduce(v) == 0
  {
    if v != [] {
      ReduceZeros(v[1..]);
      XorZero();
    }
  }

  /** Reducing the vector gives the exclusive or of exactly the last `size` locations. */
  lemma {:induction false} ReduceHistory(v: seq<bv16>, visited: seq<bv16>, size: nat)
    requires IsHistory(v, visited, size)
    ensures XorReduce(v) == XorPast(visited, size)
    decreases size
  {
    if size == 0 || visited == [] {
      ReduceZeros(v);
    } else {
      ReduceHistory(v[1..], visited[..|visited| - 1], size - 1);
    }
  }

  lemma XorNothing(x: bv16)
    ensures Xor(x, 0) == x
  {}

  lemma LastOnly(visited: seq<bv16>)
    ensures XorPast(visited, 1) == Past(visited, 0)
  {
    if visited != [] {
      XorNothing(Half(visited[|visited| - 1]));
      assert XorPast(visited[..|visited| - 1], 0) == 0;
    }
  }

  // ----- 2-grams are edges -----

  function Cuts(locs: seq<bv32>): (r: seq<bv16>)
    ensures |r| == |locs| && forall i | 0 <= i < |r| :: r[i] == Cut(locs[i])
  {
    if locs == [] then [] else Cuts(locs[..|locs| - 1]) + [Cut(locs[|locs| - 1])]
  }

  lemma HalfWidens(y: bv16)
    ensures Widen32(Half(y)) == Half32(Widen32(y))
  {
    assert Widen32(y >> 1) == Half32(y as bv32);
  }

  lemma CutIn16(x: bv32)
    ensures Widen32(Cut(x)) == x <==> In16(x)
  {}

  lemma SameLocation(p: bv32, x: bv32, y: bv32)
    ensures Index(p, x) == Index(p, y) <==> x == y
  {
    if Index(p, x) == Index(p, y) {
      assert ((p ^ x) as nat) as bv32 == ((p ^ y) as nat) as bv32;
      XorCancelsLeft(p, x, y);
    }
  }

  lemma XorCancelsLeft(p: bv32, x: bv32, y: bv32)
    ensures p ^ x == p ^ y ==> x == y
  {}

  /** A 2-gram index is the edge's index exactly when the location is not cut. */
  lemma SameIndex16(p: bv16, x: bv32)
    ensures Index16(p, Cut(x)) == Index(Widen32(p), x) <==> In16(x)
  {
    SameLocation(Widen32(p), Widen32(Cut(x)), x);
    CutIn16(x);
  }

  ghost predicate AllIn16(locs: seq<bv32>) { forall i | 0 <= i < |locs| :: In16(locs[i]) }

  lemma RememberedIn16(locs: seq<bv32>)
    requires AllIn16(locs)
    ensures Widen32(Past(Cuts(locs), 0)) == Remembered(locs)
  {
    if locs != [] {
      HalfWidens(Cut(locs[|locs| - 1]));
      CutIn16(locs[|locs| - 1]);
    } else {
      assert Widen32(0) == 0;
    }
  }

  /** 2-grams are edges exactly when all locations have 16 bits. */
  lemma {:induction false} TwoGramsAreEdges(locs: seq<bv32>)
    ensures |Grams(Cuts(locs), 1)| == |Edges(locs)| == |locs|
    ensures Grams(Cuts(locs), 1) == Edges(locs) <==> AllIn16(locs)
  {
    if locs != [] {
      var before, loc := locs[..|locs| - 1], locs[|locs| - 1];
      assert locs == before + [loc];
      TwoGramsAreEdges(before);
      EdgesNext(before, loc);
      GramsNext(Cuts(before), 1, Cut(loc));
      LastOnly(Cuts(before));
      LastSame(Grams(Cuts(before), 1), Edges(before), Index16(Past(Cuts(before), 0), Cut(loc)),
               Index(Remembered(before), loc));
      if AllIn16(before) {
        RememberedIn16(before);
        SameIndex16(Past(Cuts(before), 0), loc);
      }
      AllIn16Next(before, loc);
    }
  }

  lemma AllIn16Next(before: seq<bv32>, loc: bv32)
    ensures AllIn16(before + [loc]) <==> AllIn16(before) && In16(loc)
  {
    var locs := before + [loc];
    assert locs[|before|] == loc && forall i | 0 <= i < |before| :: locs[i] == before[i];
  }

  // ----- a visit -----

  class Tracer {
    const size: nat
    const mask: seq<nat>
    const area: array<bv8>
    var prevLoc: seq<bv16>
    ghost var visited: seq<bv16>

    ghost predicate Valid()
      reads this, area
    {
      && 1 <= size && IsMask(mask, size, |prevLoc|) && mask != [] && mask[0] == 0
      && IsHistory(prevLoc, visited, size)
      && Counts(area[..], Grams(visited, size))
    }

    constructor (size: nat, length: nat, mapSize: nat)
      requires 1 <= size <= length
      ensures Valid() && visited == [] && this.size == size && fresh(area) && area.Length == mapSize
    {
      var m := ShuffleMask(size, length);
      this.size, mask := size, m;
      area := new bv8[mapSize](i => 0);
      prevLoc := seq(length, i => 0);
      visited := [];
    }

    /** The pass cuts the location; the emitted code does the rest. */
    method Visit(curLoc: bv32)
      requires Valid() && Index16(XorPast(visited, size), Cut(curLoc)) < area.Length
      modifies `prevLoc, `visited, area
      ensures Valid() && visited == old(visited) + [Cut(curLoc)]
    {
      var loc := Cut(curLoc);
      ReduceHistory(prevLoc, visited, size);
      HistoryNext(prevLoc, visited, size, mask, loc);
      GramsNext(visited, size, loc);
      CountsNext(area[..], Grams(visited, size), Index16(XorPast(visited, size), loc));
      var i := Index16(XorReduce(prevLoc), loc);
      AddWithCarry(area, i);
      prevLoc := Shuffle(prevLoc, mask)[0 := Half(loc)];
      visited := visited + [loc];
    }
  }

  /** 3-grams: the index is the exclusive or of the current location and the two before it, each shifted. */
  lemma ThreeGram(a: bv16, b: bv16, c: bv16)
    ensures XorPast([a, b], 2) == (b >> 1) ^ (a >> 1)
    ensures |Grams([a, b, c], 2)| == 3 && Grams([a, b, c], 2)[2] == Index16((b >> 1) ^ (a >> 1), c)
  {
    assert [a, b][..1] == [a] && [a][..0] == [] && [a, b, c][..2] == [a, b];
    XorNothing(Half(a));
    assert XorPast([a], 1) == Half(a);
    assert XorPast([a, b], 2) == Xor(Half(b), XorPast([a], 1));
    GramsLength([a, b], 2);
    GramsNext([a, b], 2, c);
    assert [a, b] + [c] == [a, b, c];
  }

  lemma {:induction false} GramsLength(visited: seq<bv16>, size: nat)
    ensures |Grams(visited, size)| == |visited|
  {
    if visited != [] {
      GramsLength(visited[..|visited| - 1], size);
    }
  }
}
