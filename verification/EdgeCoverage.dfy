/** Splitting critical edges before pruning turns block coverage into edge coverage of the original function. */
module EdgeCoverage {
  import opened CoveragePruning

  /** A function as the pass finds it. Block 0 is the entry; `succs[b]` lists the successor slots of the
      terminator of b, in order and with repetitions (several cases of a switch may share a target). */
  datatype Function = Function(succs: seq<seq<nat>>, unreachable: set<nat>)

  datatype Node = Block(b: nat) | Mid(src: nat, slot: nat)

  predicate Slot(f: Function, b: nat, k: nat) {
    b < |f.succs| && k < |f.succs[b]|
  }

  ghost predicate ValidFunction(f: Function) {
    && |f.succs| > 0
    && 0 !in f.unreachable
    && (forall b: nat, k: nat | Slot(f, b, k) :: 0 < f.succs[b][k] < |f.succs|)
    && (forall b | b in f.unreachable :: b < |f.succs| && f.succs[b] == [])
  }

  function Target(f: Function, b: nat, k: nat): nat
    requires Slot(f, b, k)
  {
    f.succs[b][k]
  }

  /** Another slot, of any block, has the same target. */
  predicate SharedTarget(f: Function, b: nat, k: nat)
    requires Slot(f, b, k)
  {
    exists b', k' | 0 <= b' < |f.succs| && 0 <= k' < |f.succs[b']| ::
      (b', k') != (b, k) && f.succs[b'][k'] == f.succs[b][k]
  }

  /** The edges SplitAllCriticalEdges splits with setIgnoreUnreachableDests. */
  predicate IsSplit(f: Function, b: nat, k: nat)
    requires Slot(f, b, k)
  {
    |f.succs[b]| >= 2 && SharedTarget(f, b, k) && Target(f, b, k) !in f.unreachable
  }

  /** The control-flow graph after splitting. */
  ghost function SplitGraph(f: Function, roots: set<Node>, noInsertion: set<Node>): Cfg<Node>
    requires ValidFunction(f)
  {
    var kept := set b, k | 0 <= b < |f.succs| && 0 <= k < |f.succs[b]| && !IsSplit(f, b, k) ::
                  (Block(b), Block(f.succs[b][k]));
    var before := set b, k | 0 <= b < |f.succs| && 0 <= k < |f.succs[b]| && IsSplit(f, b, k) ::
                    (Block(b), Mid(b, k));
    var after := set b, k | 0 <= b < |f.succs| && 0 <= k < |f.succs[b]| && IsSplit(f, b, k) ::
                   (Mid(b, k), Block(f.succs[b][k]));
    Cfg(Block(0),
        (set b | 0 <= b < |f.succs| :: Block(b)) +
        (set b, k | 0 <= b < |f.succs| && 0 <= k < |f.succs[b]| && IsSplit(f, b, k) :: Mid(b, k)),
        kept + before + after,
        roots,
        set b | b in f.unreachable :: Block(b),
        noInsertion)
  }

  /** One step of a run of the original function takes successor slot `slot` of block `b`. */
  datatype Step = Step(b: nat, slot: nat)

  predicate Walk(f: Function, w: seq<Step>, end: nat) {
    && (forall i | 0 <= i < |w| :: Slot(f, w[i].b, w[i].slot))
    && (forall i | 0 <= i < |w| - 1 :: Target(f, w[i].b, w[i].slot) == w[i+1].b)
    && (w == [] ==> end == 0)
    && (w != [] ==> w[0].b == 0 && Target(f, w[|w|-1].b, w[|w|-1].slot) == end)
  }

  /** A complete run of the original function. */
  predicate OriginalRun(f: Function, w: seq<Step>, end: nat) {
    Walk(f, w, end) && end < |f.succs| && f.succs[end] == [] && end !in f.unreachable
  }

  function Lift(f: Function, w: seq<Step>, end: nat): (p: seq<Node>)
    requires forall i | 0 <= i < |w| :: Slot(f, w[i].b, w[i].slot)
    ensures p != [] && Last(p) == Block(end)
  {
    if w == [] then [Block(end)]
    else
      (if IsSplit(f, w[0].b, w[0].slot) then [Block(w[0].b), Mid(w[0].b, w[0].slot)] else [Block(w[0].b)])
      + Lift(f, w[1..], end)
  }

  ghost predicate RootsCoverExits(f: Function, roots: set<Node>) {
    forall b | 0 <= b < |f.succs| && f.succs[b] == [] :: Block(b) in roots
  }

  ghost predicate Reached(f: Function, b: nat) {
    exists w :: Walk(f, w, b)
  }

  /** Dead code leads to no live block. */
  ghost predicate DeadCodeStaysDead(f: Function) {
    forall b, k | Slot(f, b, k) && Reached(f, Target(f, b, k)) :: Reached(f, b)
  }

  /** Every edge of the split graph belongs to one slot of the original. */
  ghost predicate EdgeOf(f: Function, e: (Node, Node), b: nat, k: nat) {
    && Slot(f, b, k)
    && (if IsSplit(f, b, k)
        then e == (Block(b), Mid(b, k)) || e == (Mid(b, k), Block(f.succs[b][k]))
        else e == (Block(b), Block(f.succs[b][k])))
  }

  lemma EdgeOrigin(f: Function, roots: set<Node>, ni: set<Node>, e: (Node, Node)) returns (b: nat, k: nat)
    requires ValidFunction(f) && e in SplitGraph(f, roots, ni).edges
    ensures EdgeOf(f, e, b, k)
  {
    if e.1.Mid? {
      b, k := e.1.src, e.1.slot;
    } else if e.0.Mid? {
      b, k := e.0.src, e.0.slot;
    } else {
      b := e.0.b;
      k :| 0 <= k < |f.succs[b]| && !IsSplit(f, b, k) && e == (Block(b), Block(f.succs[b][k]));
    }
  }

  lemma SlotEdges(f: Function, roots: set<Node>, ni: set<Node>, b: nat, k: nat)
    requires ValidFunction(f) && Slot(f, b, k)
    ensures var g := SplitGraph(f, roots, ni);
            if IsSplit(f, b, k)
            then
              && (Block(b), Mid(b, k)) in g.edges && (Mid(b, k), Block(f.succs[b][k])) in g.edges
              && Mid(b, k) in g.blocks
            else (Block(b), Block(f.succs[b][k])) in g.edges
  {
  }

  lemma SplitWellFormed(f: Function, roots: set<Node>, ni: set<Node>)
    requires ValidFunction(f) && RootsCoverExits(f, roots)
    ensures WellFormed(SplitGraph(f, roots, ni))
  {
    var g := SplitGraph(f, roots, ni);
    forall e | e in g.edges
      ensures e.0 in g.blocks && e.1 in g.blocks && e.1 != g.entry && e.0 !in g.unreachable
    {
      var b, k := EdgeOrigin(f, roots, ni, e);
    }
    forall u | u in g.blocks && !HasSucc(g, u) ensures u in g.roots {
      if u.Mid? {
        SlotEdges(f, roots, ni, u.src, u.slot);
      } else if f.succs[u.b] != [] {
        SlotEdges(f, roots, ni, u.b, 0);
      }
    }
  }

  /** After splitting only edges to `unreachable` blocks can be critical. */
  lemma SplitLeavesNoCriticalEdge(f: Function, roots: set<Node>, ni: set<Node>)
    requires ValidFunction(f)
    ensures CriticalEdgesSplit(SplitGraph(f, roots, ni))
  {
    var g := SplitGraph(f, roots, ni);
    forall e, out, into | e in g.edges && out in g.edges && into in g.edges &&
                          out.0 == e.0 && into.1 == e.1 && e.1 !in g.unreachable
      ensures out == e || into == e
    {
      var b, k := EdgeOrigin(f, roots, ni, e);
      var b1, k1 := EdgeOrigin(f, roots, ni, out);
      var b2, k2 := EdgeOrigin(f, roots, ni, into);
    }
  }

  /** The slot leaves a block that has another, and leads where another leads. */
  ghost predicate Critical(f: Function, b: nat, k: nat)
    requires Slot(f, b, k)
  {
    && (exists k': nat :: Slot(f, b, k') && k' != k)
    && (exists b': nat, k': nat :: Slot(f, b', k') && (b', k') != (b, k) && Target(f, b', k') == Target(f, b, k))
  }

  /** Exactly the critical edges that do not lead to an `unreachable` block are split. */
  lemma SplitsExactlyCritical(f: Function, roots: set<Node>, ni: set<Node>, b: nat, k: nat)
    requires ValidFunction(f) && Slot(f, b, k)
    ensures Mid(b, k) in SplitGraph(f, roots, ni).blocks <==> Critical(f, b, k) && Target(f, b, k) !in f.unreachable
  {
    if |f.succs[b]| >= 2 {
      var other := if k == 0 then 1 else 0;
      assert Slot(f, b, other);
    }
    if IsSplit(f, b, k) {
      var b', k' :| 0 <= b' < |f.succs| && 0 <= k' < |f.succs[b']| && (b', k') != (b, k) &&
                    f.succs[b'][k'] == f.succs[b][k];
      assert Slot(f, b', k') && Target(f, b', k') == Target(f, b, k);
    }
    if Critical(f, b, k) {
      var b': nat, k': nat :| Slot(f, b', k') && (b', k') != (b, k) && Target(f, b', k') == Target(f, b, k);
      assert SharedTarget(f, b, k);
    }
  }

  lemma LiftIsPath(f: Function, roots: set<Node>, ni: set<Node>, w: seq<Step>, end: nat)
    requires ValidFunction(f)
    requires forall i | 0 <= i < |w| :: Slot(f, w[i].b, w[i].slot)
    requires forall i | 0 <= i < |w| - 1 :: Target(f, w[i].b, w[i].slot) == w[i+1].b
    requires w != [] ==> Target(f, w[|w|-1].b, w[|w|-1].slot) == end
    ensures PathFromTo(SplitGraph(f, roots, ni), Lift(f, w, end), Block(if w == [] then end else w[0].b), Block(end))
  {
    var g := SplitGraph(f, roots, ni);
    if w != [] {
      var b, k := w[0].b, w[0].slot;
      LiftIsPath(f, roots, ni, w[1..], end);
      SlotEdges(f, roots, ni, b, k);
      if IsSplit(f, b, k) {
        PathJoin(g, [Block(b), Mid(b, k)], Lift(f, w[1..], end));
      } else {
        PathJoin(g, [Block(b)], Lift(f, w[1..], end));
      }
    }
  }

  lemma LiftIsRun(f: Function, roots: set<Node>, ni: set<Node>, w: seq<Step>, end: nat)
    requires ValidFunction(f) && OriginalRun(f, w, end)
    ensures Run(SplitGraph(f, roots, ni), Lift(f, w, end))
  {
    LiftIsPath(f, roots, ni, w, end);
    var g := SplitGraph(f, roots, ni);
    forall e | e in g.edges ensures e.0 != Block(end) {
      var b, k := EdgeOrigin(f, roots, ni, e);
    }
  }

  lemma WalkOn(f: Function, b: nat, k: nat)
    requires Reached(f, b) && Slot(f, b, k)
    ensures Reached(f, Target(f, b, k))
  {
    var w :| Walk(f, w, b);
    assert Walk(f, w + [Step(b, k)], Target(f, b, k));
  }

  /** The original block a node belongs to. */
  function Origin(u: Node): nat { if u.Mid? then u.src else u.b }

  /** A path of the split graph follows a walk of the original. */
  lemma {:induction false} PathIsWalk(f: Function, roots: set<Node>, ni: set<Node>, p: seq<Node>, n: nat)
    requires ValidFunction(f) && IsPath(SplitGraph(f, roots, ni), p) && p[0] == Block(0) && n < |p|
    ensures Reached(f, Origin(p[n]))
  {
    if n == 0 {
      assert Walk(f, [], 0);
    } else {
      PathIsWalk(f, roots, ni, p, n - 1);
      assert (p[n-1], p[n]) in SplitGraph(f, roots, ni).edges;
      var b, k := EdgeOrigin(f, roots, ni, (p[n-1], p[n]));
      if p[n].Block? {
        WalkOn(f, b, k);
      }
    }
  }

  lemma ReachedIsReachable(f: Function, roots: set<Node>, ni: set<Node>, b: nat)
    requires ValidFunction(f) && Reached(f, b)
    ensures Reachable(SplitGraph(f, roots, ni), Block(b))
    ensures forall k | Slot(f, b, k) && IsSplit(f, b, k) :: Reachable(SplitGraph(f, roots, ni), Mid(b, k))
  {
    var w :| Walk(f, w, b);
    LiftIsPath(f, roots, ni, w, b);
    forall k | Slot(f, b, k) && IsSplit(f, b, k) ensures Reachable(SplitGraph(f, roots, ni), Mid(b, k)) {
      SlotEdges(f, roots, ni, b, k);
      PathJoin(SplitGraph(f, roots, ni), Lift(f, w, b), [Mid(b, k)]);
    }
  }

  lemma SplitKeepsReachability(f: Function, roots: set<Node>, ni: set<Node>)
    requires ValidFunction(f) && DeadCodeStaysDead(f)
    ensures DeadStaysDead(SplitGraph(f, roots, ni))
  {
    var g := SplitGraph(f, roots, ni);
    forall e | e in g.edges && Reachable(g, e.1) ensures Reachable(g, e.0) {
      var b, k := EdgeOrigin(f, roots, ni, e);
      var p :| PathFromTo(g, p, g.entry, e.1);
      PathIsWalk(f, roots, ni, p, |p| - 1);
      assert Reached(f, b);
      ReachedIsReachable(f, roots, ni, b);
    }
  }

  /** What the lifted run says about the original one. */
  lemma LiftMembers(f: Function, w: seq<Step>, end: nat, u: Node)
    requires forall i | 0 <= i < |w| :: Slot(f, w[i].b, w[i].slot)
    ensures u in Lift(f, w, end) <==>
              match u
              case Block(b) => b == end || exists i | 0 <= i < |w| :: w[i].b == b
              case Mid(b, k) => Step(b, k) in w && IsSplit(f, b, k)
  {
    if w != [] {
      LiftMembers(f, w[1..], end, u);
      assert w == [w[0]] + w[1..];
    }
  }

  lemma IncomingStep(f: Function, w: seq<Step>, end: nat, t: nat) returns (j: nat)
    requires Walk(f, w, end) && t != 0
    requires t == end || exists i | 0 <= i < |w| :: w[i].b == t
    ensures j < |w| && Target(f, w[j].b, w[j].slot) == t
  {
    if t == end {
      j := |w| - 1;
    } else {
      var i :| 0 <= i < |w| && w[i].b == t;
      j := i - 1;
    }
  }

  /** An edge that was not split is told by its source or by its target. */
  lemma UnsplitEdgeTaken(f: Function, w: seq<Step>, end: nat, b: nat, k: nat)
    requires ValidFunction(f) && OriginalRun(f, w, end)
    requires Slot(f, b, k) && !IsSplit(f, b, k) && Target(f, b, k) !in f.unreachable
    requires Block(b) in Lift(f, w, end) && Block(Target(f, b, k)) in Lift(f, w, end)
    ensures Step(b, k) in w
  {
    var t := Target(f, b, k);
    LiftMembers(f, w, end, Block(b));
    LiftMembers(f, w, end, Block(t));
    if |f.succs[b]| == 1 {
      var j :| 0 <= j < |w| && w[j].b == b;
      assert w[j] == Step(b, k);
    } else {
      var j := IncomingStep(f, w, end, t);
      assert w[j] == Step(b, k);
    }
  }

  lemma StepInLift(f: Function, w: seq<Step>, end: nat, i: nat)
    requires ValidFunction(f) && OriginalRun(f, w, end) && i < |w|
    ensures var Step(b, k) := w[i];
            && Block(b) in Lift(f, w, end)
            && Block(Target(f, b, k)) in Lift(f, w, end)
            && Target(f, b, k) !in f.unreachable
            && (IsSplit(f, b, k) ==> Mid(b, k) in Lift(f, w, end))
  {
    var Step(b, k) := w[i];
    LiftMembers(f, w, end, Block(b));
    LiftMembers(f, w, end, Block(Target(f, b, k)));
    LiftMembers(f, w, end, Mid(b, k));
    if i + 1 < |w| {
      assert w[i+1].b == Target(f, b, k);
    }
  }

  lemma EdgesBound(f: Function, w: seq<Step>, end: nat, w': seq<Step>, end': nat, i: nat)
    requires ValidFunction(f) && OriginalRun(f, w, end) && OriginalRun(f, w', end') && i < |w|
    requires forall u | u in Lift(f, w, end) :: u in Lift(f, w', end')
    ensures w[i] in w'
  {
    var Step(b, k) := w[i];
    StepInLift(f, w, end, i);
    if IsSplit(f, b, k) {
      LiftMembers(f, w', end', Mid(b, k));
    } else {
      UnsplitEdgeTaken(f, w', end', b, k);
    }
  }

  /** The end-to-end promise of edge mode: after splitting and pruning, the probes a complete run hits
      determine which successor slots of the original function it took, parallel edges included. */
  lemma ProbesDetermineEdges(f: Function, o: Options, roots: set<Node>, ni: set<Node>,
                             w: seq<Step>, end: nat, w': seq<Step>, end': nat)
    requires ValidFunction(f) && DeadCodeStaysDead(f) && RootsCoverExits(f, roots)
    requires ProbesFit(SplitGraph(f, roots, ni))
    requires OriginalRun(f, w, end) && OriginalRun(f, w', end')
    requires SameHits(SplitGraph(f, roots, ni), o, Lift(f, w, end), Lift(f, w', end'))
    ensures forall s :: s in w <==> s in w'
  {
    var g := SplitGraph(f, roots, ni);
    SplitWellFormed(f, roots, ni);
    SplitLeavesNoCriticalEdge(f, roots, ni);
    SplitKeepsReachability(f, roots, ni);
    LiftIsRun(f, roots, ni, w, end);
    LiftIsRun(f, roots, ni, w', end');
    PruningLosesNoCoverage(g, o, Lift(f, w, end), Lift(f, w', end'));
    forall i | 0 <= i < |w| ensures w[i] in w' {
      EdgesBound(f, w, end, w', end', i);
    }
    forall i | 0 <= i < |w'| ensures w'[i] in w {
      EdgesBound(f, w', end', w, end, i);
    }
  }
}
