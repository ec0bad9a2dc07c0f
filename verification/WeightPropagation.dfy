/** Weights of interesting functions flow up the call graph, halved at every call, and are shared out over
    the coverage-map offsets of each function reached. Call graphs may be cyclic. */
module WeightPropagation {
  import opened Wrappers

  type Func = nat

  /** callers: getCallingFunctions, a set in some order of iteration; offsets: bitmap offsets found in the function. */
  datatype Program = Program(callers: Func -> seq<Func>, offsets: Func -> seq<nat>)

  function Callers(p: Program, f: Func): seq<Func> { p.callers(f) }

  function Offsets(p: Program, f: Func): seq<nat> { p.offsets(f) }

  ghost predicate ValidProgram(p: Program) {
    forall f, i, j | 0 <= i < j < |Callers(p, f)| :: Callers(p, f)[i] != Callers(p, f)[j]
  }

  datatype Tuple = Empty | Node(func: Func, offsets: seq<nat>, weight: int, callers: seq<Tuple>)

  datatype Entry = Entry(func: Func, offsets: seq<nat>, weight: int)

  /** How many levels the walk can go on: limited by the depth, or by the weight, which reaches zero.
      Without a depth limit only a weight that is not negative runs out. */
  function Levels(w: int, maxDepth: Option<nat>, depth: nat): nat
    requires maxDepth.Some? || w >= 0
  {
    match maxDepth
    case Some(m) => if depth < m then m - depth else 0
    case None => w
  }

  /** From the start: caller paths of fewer than maxDepth calls, or as many as the weight without a limit. */
  lemma LevelsFromStart(w: int, maxDepth: Option<nat>)
    requires maxDepth.Some? || w >= 0
    ensures Levels(w, maxDepth, 0) == if maxDepth.Some? then maxDepth.value else w
  {
  }

  function Walk(p: Program, f: Func, w: int, maxDepth: Option<nat>, depth: nat): Tuple
    requires maxDepth.Some? || w >= 0
    decreases Levels(w, maxDepth, depth), 0
  {
    if (maxDepth.Some? && depth >= maxDepth.value) || w == 0 then Empty
    else
      var callers := WalkAll(p, Callers(p, f), w / 2, maxDepth, depth + 1);
      var offsets := Offsets(p, f);
      Node(f, offsets, if |offsets| > 0 then w / |offsets| else 0, callers)
  }

  function WalkAll(p: Program, fs: seq<Func>, w: int, maxDepth: Option<nat>, depth: nat): seq<Tuple>
    requires maxDepth.Some? || w >= 0
    decreases Levels(w, maxDepth, depth), |fs| + 1
  {
    if fs == [] then [] else [Walk(p, fs[0], w, maxDepth, depth)] + WalkAll(p, fs[1..], w, maxDepth, depth)
  }

  function Unroll(t: Tuple): seq<Entry> {
    match t
    case Empty => []
    case Node(f, offsets, w, callers) => [Entry(f, offsets, w)] + UnrollAll(callers)
  }

  function UnrollAll(ts: seq<Tuple>): seq<Entry> {
    if ts == [] then [] else Unroll(ts[0]) + UnrollAll(ts[1..])
  }

  /** Sum of the weights recorded for g in entries with offsets. */
  function TotalFor(x: seq<Entry>, g: Func): int {
    if x == [] then 0
    else (if x[0].func == g && x[0].offsets != [] then x[0].weight else 0) + TotalFor(x[1..], g)
  }

  lemma {:induction false} TotalConcat(x: seq<Entry>, y: seq<Entry>, g: Func)
    ensures TotalFor(x + y, g) == TotalFor(x, g) + TotalFor(y, g)
  {
    if x == [] {
      assert x + y == y;
    } else {
      TotalConcat(x[1..], y, g);
      assert (x + y)[1..] == x[1..] + y;
    }
  }

  // ----- the reference: sums over caller paths -----

  /** floor(w / 2^d) */
  function Halve(w: int, d: nat): int
    decreases d
  {
    if d == 0 then w else Halve(w / 2, d - 1)
  }

  /** q leads from f to g through d callers. */
  predicate IsPath(p: Program, q: seq<Func>, f: Func, g: Func, d: nat) {
    |q| == d + 1 && q[0] == f && q[d] == g && forall i | 0 <= i < d :: q[i + 1] in Callers(p, q[i])
  }

  function Paths(p: Program, f: Func, g: Func, d: nat): set<seq<Func>>
    decreases d
  {
    if d == 0 then if f == g then {[f]} else {}
    else set c, q | c in Callers(p, f) && q in Paths(p, c, g, d - 1) :: [f] + q
  }

  /** Paths holds exactly the caller paths. */
  lemma {:induction false} PathsAreAll(p: Program, f: Func, g: Func, d: nat, q: seq<Func>)
    ensures q in Paths(p, f, g, d) <==> IsPath(p, q, f, g, d)
    decreases d
  {
    if d == 0 {
      if IsPath(p, q, f, g, d) {
        assert q == [f];
      }
    } else {
      if q in Paths(p, f, g, d) {
        var c, r :| c in Callers(p, f) && r in Paths(p, c, g, d - 1) && q == [f] + r;
        PathsAreAll(p, c, g, d - 1, r);
        forall i | 0 <= i < d ensures q[i + 1] in Callers(p, q[i]) {
          if i > 0 {
            assert r[i - 1 + 1] in Callers(p, r[i - 1]);
          }
        }
      }
      if IsPath(p, q, f, g, d) {
        var c, r := q[1], q[1..];
        assert q[0 + 1] in Callers(p, q[0]);
        forall i | 0 <= i < d - 1 ensures r[i + 1] in Callers(p, r[i]) {
          assert q[i + 1 + 1] in Callers(p, q[i + 1]);
        }
        PathsAreAll(p, c, g, d - 1, r);
        assert q == [f] + r;
      }
    }
  }

  function Share(p: Program, g: Func, v: int): int {
    if Offsets(p, g) == [] then 0 else v / |Offsets(p, g)|
  }

  /** The share is what each of k offsets gets of v, rounded down: no more than v is handed out, and less than k is
      lost. */
  lemma ShareIsFloor(p: Program, g: Func, v: int)
    requires Offsets(p, g) != []
    ensures var k := |Offsets(p, g)|; 0 <= v - k * Share(p, g, v) < k
  {
  }

  function Pow2(d: nat): (r: nat)
    ensures r > 0
  {
    if d == 0 then 1 else 2 * Pow2(d - 1)
  }

  /** Halving d times divides by 2^d, rounding down. */
  lemma {:induction false} HalveIsFloor(w: int, d: nat)
    ensures 0 <= w - Pow2(d) * Halve(w, d) < Pow2(d)
    decreases d
  {
    if d > 0 {
      HalveIsFloor(w / 2, d - 1);
      var a, b := Pow2(d - 1), Halve(w / 2, d - 1);
      assert (2 * a) * b == 2 * (a * b);
    }
  }

  /** Over all paths of length below n from f to g: the weight left at the end, divided over the offsets of g. */
  function PathSum(p: Program, f: Func, w: int, g: Func, n: nat): int {
    if n == 0 then 0 else PathSum(p, f, w, g, n - 1) + |Paths(p, f, g, n - 1)| * Share(p, g, Halve(w, n - 1))
  }

  function PathSums(p: Program, fs: seq<Func>, w: int, g: Func, n: nat): int {
    if fs == [] then 0 else PathSum(p, fs[0], w, g, n) + PathSums(p, fs[1..], w, g, n)
  }

  function CountPaths(p: Program, fs: seq<Func>, g: Func, d: nat): nat {
    if fs == [] then 0 else |Paths(p, fs[0], g, d)| + CountPaths(p, fs[1..], g, d)
  }

  function PathsVia(p: Program, f: Func, fs: seq<Func>, g: Func, d: nat): set<seq<Func>> {
    set c, q | c in fs && q in Paths(p, c, g, d) :: [f] + q
  }

  lemma {:induction false} PrependSize(f: Func, s: set<seq<Func>>)
    ensures |set q | q in s :: [f] + q| == |s|
  {
    var t := set q | q in s :: [f] + q;
    if s == {} {
      assert t == {};
    } else {
      var x :| x in s;
      PrependSize(f, s - {x});
      var t' := set q | q in s - {x} :: [f] + q;
      forall q | q in s && [f] + q == [f] + x ensures q == x {
        assert ([f] + q)[1..] == q && ([f] + x)[1..] == x;
      }
      assert [f] + x !in t';
      assert t == t' + {[f] + x};
    }
  }

  /** Different callers give different paths. */
  lemma {:induction false} ViaSize(p: Program, f: Func, fs: seq<Func>, g: Func, d: nat)
    requires forall i, j | 0 <= i < j < |fs| :: fs[i] != fs[j]
    ensures |PathsVia(p, f, fs, g, d)| == CountPaths(p, fs, g, d)
  {
    if fs == [] {
      assert PathsVia(p, f, fs, g, d) == {};
    } else {
      ViaSize(p, f, fs[1..], g, d);
      var first := set q | q in Paths(p, fs[0], g, d) :: [f] + q;
      var others := PathsVia(p, f, fs[1..], g, d);
      PrependSize(f, Paths(p, fs[0], g, d));
      ViaSplit(p, f, fs, g, d);
      ViaDisjoint(p, f, fs, g, d);
      assert |first + others| == |first| + |others|;
    }
  }

  lemma ViaSplit(p: Program, f: Func, fs: seq<Func>, g: Func, d: nat)
    requires fs != []
    ensures PathsVia(p, f, fs, g, d) == (set q | q in Paths(p, fs[0], g, d) :: [f] + q) + PathsVia(p, f, fs[1..], g, d)
  {
    assert fs == [fs[0]] + fs[1..];
  }

  lemma ViaDisjoint(p: Program, f: Func, fs: seq<Func>, g: Func, d: nat)
    requires fs != [] && forall i, j | 0 <= i < j < |fs| :: fs[i] != fs[j]
    ensures (set q | q in Paths(p, fs[0], g, d) :: [f] + q) !! PathsVia(p, f, fs[1..], g, d)
  {
    forall q, c, r | q in Paths(p, fs[0], g, d) && c in fs[1..] && r in Paths(p, c, g, d) ensures [f] + q != [f] + r {
      PathsAreAll(p, fs[0], g, d, q);
      PathsAreAll(p, c, g, d, r);
      assert ([f] + q)[1] == fs[0] && ([f] + r)[1] == c;
    }
  }

  lemma PathsStep(p: Program, f: Func, g: Func, d: nat)
    requires ValidProgram(p)
    ensures |Paths(p, f, g, d + 1)| == CountPaths(p, Callers(p, f), g, d)
  {
    ViaSize(p, f, Callers(p, f), g, d);
    assert Paths(p, f, g, d + 1) == PathsVia(p, f, Callers(p, f), g, d);
  }

  lemma {:induction false} SumsStep(p: Program, fs: seq<Func>, w: int, g: Func, n: nat)
    ensures PathSums(p, fs, w, g, n + 1) ==
            PathSums(p, fs, w, g, n) + CountPaths(p, fs, g, n) * Share(p, g, Halve(w, n))
  {
    if fs != [] {
      SumsStep(p, fs[1..], w, g, n);
    }
  }

  lemma {:induction false} SumsZero(p: Program, fs: seq<Func>, w: int, g: Func)
    ensures PathSums(p, fs, w, g, 0) == 0
  {
    if fs != [] {
      SumsZero(p, fs[1..], w, g);
    }
  }

  /** First-step decomposition of the path sum. */
  lemma {:induction false} PathSumStep(p: Program, f: Func, w: int, g: Func, n: nat)
    requires ValidProgram(p)
    ensures PathSum(p, f, w, g, n + 1) ==
            (if f == g then Share(p, g, w) else 0) + PathSums(p, Callers(p, f), w / 2, g, n)
  {
    if n == 0 {
      SumsZero(p, Callers(p, f), w / 2, g);
    } else {
      PathSumStep(p, f, w, g, n - 1);
      PathsStep(p, f, g, n - 1);
      SumsStep(p, Callers(p, f), w / 2, g, n - 1);
    }
  }

  lemma {:induction false} HalveRunsOut(w: nat, d: nat)
    requires d >= w
    ensures Halve(w, d) == 0
  {
    if d > 0 {
      HalveRunsOut(w / 2, d - 1);
    }
  }

  /** Longer paths add nothing once the weight has run out. */
  lemma {:induction false} PathSumTail(p: Program, f: Func, w: nat, g: Func, n: nat)
    requires n >= w
    ensures PathSum(p, f, w, g, n) == PathSum(p, f, w, g, w)
  {
    if n > w {
      PathSumTail(p, f, w, g, n - 1);
      HalveRunsOut(w, n - 1);
    }
  }

  lemma {:induction false} PathSumsTail(p: Program, fs: seq<Func>, w: nat, g: Func, n: nat)
    requires n >= w
    ensures PathSums(p, fs, w, g, n) == PathSums(p, fs, w, g, w)
  {
    if fs != [] {
      PathSumTail(p, fs[0], w, g, n);
      PathSumsTail(p, fs[1..], w, g, n);
    }
  }

  lemma {:induction false} PathSumOfNothing(p: Program, f: Func, g: Func, n: nat)
    ensures PathSum(p, f, 0, g, n) == 0
  {
    if n > 0 {
      PathSumOfNothing(p, f, g, n - 1);
      HalveRunsOut(0, n - 1);
    }
  }

  /** Main result: what the walk records for g is the sum over all caller paths from f to g. */
  lemma {:induction false} WalkIsPathSum(p: Program, f: Func, w: int, maxDepth: Option<nat>, depth: nat, g: Func)
    requires ValidProgram(p) && (maxDepth.Some? || w >= 0)
    ensures TotalFor(Unroll(Walk(p, f, w, maxDepth, depth)), g) == PathSum(p, f, w, g, Levels(w, maxDepth, depth))
    decreases Levels(w, maxDepth, depth), 0
  {
    var n := Levels(w, maxDepth, depth);
    if w == 0 {
      PathSumOfNothing(p, f, g, n);
    } else if n > 0 {
      var cs := Callers(p, f);
      WalkAllIsPathSums(p, cs, w / 2, maxDepth, depth + 1, g);
      var below := UnrollAll(WalkAll(p, cs, w / 2, maxDepth, depth + 1));
      var t := Walk(p, f, w, maxDepth, depth);
      var own := Entry(f, t.offsets, t.weight);
      TotalConcat([own], below, g);
      assert [own][1..] == [];
      PathSumStep(p, f, w, g, n - 1);
      if maxDepth.None? {
        PathSumsTail(p, cs, w / 2, g, n - 1);
      }
    }
  }

  lemma {:induction false} WalkAllIsPathSums(p: Program, fs: seq<Func>, w: int, maxDepth: Option<nat>, depth: nat,
                                             g: Func)
    requires ValidProgram(p) && (maxDepth.Some? || w >= 0)
    ensures TotalFor(UnrollAll(WalkAll(p, fs, w, maxDepth, depth)), g) ==
            PathSums(p, fs, w, g, Levels(w, maxDepth, depth))
    decreases Levels(w, maxDepth, depth), |fs| + 1
  {
    if fs != [] {
      WalkIsPathSum(p, fs[0], w, maxDepth, depth, g);
      WalkAllIsPathSums(p, fs[1..], w, maxDepth, depth, g);
      var ts := WalkAll(p, fs, w, maxDepth, depth);
      assert ts[1..] == WalkAll(p, fs[1..], w, maxDepth, depth);
      TotalConcat(Unroll(ts[0]), UnrollAll(ts[1..]), g);
    }
  }

  // ----- merging and the driver -----

  /** A function always comes with the same offsets. */
  ghost predicate Consistent(x: seq<Entry>) {
    forall i, j | 0 <= i < |x| && 0 <= j < |x| && x[i].func == x[j].func && x[i].offsets != [] && x[j].offsets != [] ::
      x[i].offsets == x[j].offsets
  }

  ghost predicate Mentions(x: seq<Entry>, g: Func) {
    x != [] && ((x[|x| - 1].func == g && x[|x| - 1].offsets != []) || Mentions(x[..|x| - 1], g))
  }

  lemma {:induction false} TotalLast(x: seq<Entry>, e: Entry, g: Func)
    ensures TotalFor(x + [e], g) == TotalFor(x, g) + if e.func == g && e.offsets != [] then e.weight else 0
  {
    TotalConcat(x, [e], g);
    assert [e][1..] == [];
  }

  lemma {:induction false} TotalUnmentioned(x: seq<Entry>, g: Func)
    requires !Mentions(x, g)
    ensures TotalFor(x, g) == 0
  {
    if x != [] {
      var n := |x| - 1;
      TotalUnmentioned(x[..n], g);
      TotalLast(x[..n], x[n], g);
      assert x == x[..n] + [x[n]];
    }
  }

  type Seen = map<Func, (seq<nat>, int)>

  /** The dictionary after some entries: every function mentioned, its offsets, the sum of its weights. */
  ghost predicate Merges(seen: Seen, x: seq<Entry>) {
    && (forall g :: g in seen <==> Mentions(x, g))
    && (forall e | e in x && e.offsets != [] :: e.func in seen && seen[e.func].0 == e.offsets)
    && (forall g | g in seen :: seen[g].1 == TotalFor(x, g))
  }

  function MergeInto(seen: Seen, e: Entry): Seen {
    if e.offsets == [] then seen
    else seen[e.func := (e.offsets, (if e.func in seen then seen[e.func].1 else 0) + e.weight)]
  }

  /** None is a failed assertion on differing offsets. */
  method MergeDuplicates(x: seq<Entry>) returns (r: Option<Seen>)
    ensures r.Some? <==> Consistent(x)
    ensures r.Some? ==> Merges(r.value, x)
  {
    var seen: Seen := map[];
    for k := 0 to |x|
      invariant Merges(seen, x[..k])
    {
      var t := x[k];
      if t.offsets != [] && t.func in seen && seen[t.func].0 != t.offsets {
        Conflict(x, k, seen);
        return None;
      }
      MergeStep(seen, x[..k], t);
      assert x[..k + 1] == x[..k] + [t];
      if t.offsets != [] {
        if t.func in seen {
          seen := seen[t.func := (t.offsets, seen[t.func].1 + t.weight)];
        } else {
          seen := seen[t.func := (t.offsets, t.weight)];
        }
      }
    }
    assert x[..|x|] == x;
    return Some(seen);
  }

  lemma {:induction false} MentionedBy(x: seq<Entry>, g: Func) returns (e: Entry)
    requires Mentions(x, g)
    ensures e in x && e.func == g && e.offsets != []
  {
    var n := |x| - 1;
    if x[n].func == g && x[n].offsets != [] {
      e := x[n];
    } else {
      e := MentionedBy(x[..n], g);
    }
  }

  lemma Conflict(x: seq<Entry>, k: nat, seen: Seen)
    requires k < |x| && Merges(seen, x[..k]) && x[k].offsets != [] && x[k].func in seen
    requires seen[x[k].func].0 != x[k].offsets
    ensures !Consistent(x)
  {
    var e := MentionedBy(x[..k], x[k].func);
    var i :| 0 <= i < k && x[i] == e;
  }

  lemma MergeStep(seen: Seen, x: seq<Entry>, e: Entry)
    requires Merges(seen, x)
    requires e.offsets != [] && e.func in seen ==> seen[e.func].0 == e.offsets
    ensures Merges(MergeInto(seen, e), x + [e])
  {
    var seen', y := MergeInto(seen, e), x + [e];
    assert y[..|x|] == x && y[|x|] == e;
    forall g | g in seen' ensures seen'[g].1 == TotalFor(y, g) {
      TotalLast(x, e, g);
      if g !in seen {
        TotalUnmentioned(x, g);
      }
    }
  }

  // ----- the driver -----

  /** One line of the input: a function, if the name is known, and its weight. */
  datatype Seed = Seed(func: Option<Func>, weight: int)

  function SeedSum(p: Program, seeds: seq<Seed>, maxDepth: Option<nat>, g: Func): int
    requires maxDepth.Some? || forall s | s in seeds :: s.weight >= 0
  {
    if seeds == [] then 0
    else
      var n := |seeds| - 1;
      assert seeds[n] in seeds;
      SeedSum(p, seeds[..n], maxDepth, g) +
      if seeds[n].func.None? then 0
      else PathSum(p, seeds[n].func.value, seeds[n].weight, g, Levels(seeds[n].weight, maxDepth, 0))
  }

  ghost predicate FromProgram(p: Program, x: seq<Entry>) {
    forall e | e in x :: e.offsets == Offsets(p, e.func)
  }

  lemma {:induction false} UnrollFromProgram(p: Program, f: Func, w: int, maxDepth: Option<nat>, depth: nat)
    requires maxDepth.Some? || w >= 0
    ensures FromProgram(p, Unroll(Walk(p, f, w, maxDepth, depth)))
    decreases Levels(w, maxDepth, depth), 0
  {
    if Walk(p, f, w, maxDepth, depth).Node? {
      UnrollAllFromProgram(p, Callers(p, f), w / 2, maxDepth, depth + 1);
    }
  }

  lemma {:induction false} UnrollAllFromProgram(p: Program, fs: seq<Func>, w: int, maxDepth: Option<nat>, depth: nat)
    requires maxDepth.Some? || w >= 0
    ensures FromProgram(p, UnrollAll(WalkAll(p, fs, w, maxDepth, depth)))
    decreases Levels(w, maxDepth, depth), |fs| + 1
  {
    if fs != [] {
      UnrollFromProgram(p, fs[0], w, maxDepth, depth);
      UnrollAllFromProgram(p, fs[1..], w, maxDepth, depth);
      var ts := WalkAll(p, fs, w, maxDepth, depth);
      assert ts[1..] == WalkAll(p, fs[1..], w, maxDepth, depth);
    }
  }

  /** The whole propagation: every function with offsets ends up with the path sum of all seeds, and the
      assertion on offsets never fails. A function without an entry has sum zero. */
  method Propagate(p: Program, seeds: seq<Seed>, maxDepth: Option<nat>) returns (weights: Seen)
    requires ValidProgram(p) && (maxDepth.Some? || forall s | s in seeds :: s.weight >= 0)
    ensures forall g | g in weights ::
              Offsets(p, g) != [] && weights[g] == (Offsets(p, g), SeedSum(p, seeds, maxDepth, g))
    ensures forall g | g !in weights :: SeedSum(p, seeds, maxDepth, g) == 0
  {
    var pre: seq<Entry> := [];
    for k := 0 to |seeds|
      invariant FromProgram(p, pre)
      invariant maxDepth.Some? || forall s | s in seeds[..k] :: s.weight >= 0
      invariant forall g :: TotalFor(pre, g) == SeedSum(p, seeds[..k], maxDepth, g)
    {
      ghost var before := pre;
      var s := seeds[k];
      assert seeds[..k + 1][..k] == seeds[..k];
      if s.func.Some? {
        UnrollFromProgram(p, s.func.value, s.weight, maxDepth, 0);
        pre := pre + Unroll(Walk(p, s.func.value, s.weight, maxDepth, 0));
        forall g
          ensures TotalFor(pre, g) ==
                  TotalFor(before, g) + PathSum(p, s.func.value, s.weight, g, Levels(s.weight, maxDepth, 0))
        {
          WalkIsPathSum(p, s.func.value, s.weight, maxDepth, 0, g);
          TotalConcat(before, Unroll(Walk(p, s.func.value, s.weight, maxDepth, 0)), g);
        }
      }
    }
    assert seeds[..|seeds|] == seeds;
    var merged := MergeDuplicates(pre);
    weights := merged.value;
    forall g ensures g !in weights ==> TotalFor(pre, g) == 0
             ensures g in weights ==> Offsets(p, g) != [] && weights[g].0 == Offsets(p, g) {
      if g !in weights {
        TotalUnmentioned(pre, g);
      } else {
        var e := MentionedBy(pre, g);
      }
    }
  }
}
