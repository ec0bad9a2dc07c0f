/** Which basic blocks the sanitizer-coverage passes leave without a probe, and why nothing is lost.

    Dominance is stated by paths. Post-dominance is stated by paths to a set of roots: LLVM's
    post-dominator tree uses all exits as roots and adds more for code that never leaves a loop,
    so the set is only required to contain every exit. */
module CoveragePruning {

  datatype Cfg<!B> = Cfg(
    entry: B,
    blocks: set<B>,
    edges: set<(B, B)>,
    roots: set<B>,        // roots of the post-dominator tree
    unreachable: set<B>,  // blocks holding nothing but `unreachable`
    noInsertion: set<B>)  // blocks without an insertion point (catchswitch)

  datatype Rule = PcGuard | Lto

  datatype Options = Options(rule: Rule, noPrune: bool)

  predicate HasSucc<B>(g: Cfg<B>, b: B) {
    exists e | e in g.edges :: e.0 == b
  }

  predicate HasPred<B>(g: Cfg<B>, b: B) {
    exists e | e in g.edges :: e.1 == b
  }

  /** BasicBlock::getSinglePredecessor() is not null. */
  predicate SinglePred<B>(g: Cfg<B>, b: B) {
    && HasPred(g, b)
    && forall e, e' | e in g.edges && e' in g.edges && e.1 == b && e'.1 == b :: e == e'
  }

  predicate WellFormed<B>(g: Cfg<B>) {
    && g.entry in g.blocks
    && g.entry !in g.unreachable
    && (forall e | e in g.edges :: e.0 in g.blocks && e.1 in g.blocks)
    && !HasPred(g, g.entry)
    && (forall b | b in g.unreachable :: !HasSucc(g, b))
    && (forall b | b in g.blocks && !HasSucc(g, b) :: b in g.roots)
  }

  /** What critical-edge splitting leaves behind: an edge from a block with another successor to a
      block with another predecessor may only lead to an `unreachable` block. */
  predicate CriticalEdgesSplit<B>(g: Cfg<B>) {
    forall e, out, into | e in g.edges && out in g.edges && into in g.edges &&
                          out.0 == e.0 && into.1 == e.1 && e.1 !in g.unreachable
      :: out == e || into == e
  }

  // ----- paths, dominance -----

  ghost predicate IsPath<B(!new)>(g: Cfg<B>, p: seq<B>) {
    p != [] && forall i | 0 <= i < |p| - 1 :: (p[i], p[i+1]) in g.edges
  }

  function Last<B>(p: seq<B>): B
    requires p != []
  {
    p[|p|-1]
  }

  ghost predicate PathFromTo<B(!new)>(g: Cfg<B>, p: seq<B>, a: B, b: B) {
    IsPath(g, p) && p[0] == a && Last(p) == b
  }

  ghost predicate Reachable<B(!new)>(g: Cfg<B>, b: B) {
    exists p :: PathFromTo(g, p, g.entry, b)
  }

  /** Dead code leads to no live block. */
  ghost predicate DeadStaysDead<B(!new)>(g: Cfg<B>) {
    forall e | e in g.edges && Reachable(g, e.1) :: Reachable(g, e.0)
  }

  ghost predicate Dominates<B(!new)>(g: Cfg<B>, a: B, b: B) {
    forall p | PathFromTo(g, p, g.entry, b) :: a in p
  }

  ghost predicate PathToRoot<B(!new)>(g: Cfg<B>, p: seq<B>, b: B) {
    IsPath(g, p) && p[0] == b && Last(p) in g.roots
  }

  ghost predicate PostDominates<B(!new)>(g: Cfg<B>, a: B, b: B) {
    forall p | PathToRoot(g, p, b) :: a in p
  }

  ghost predicate FullDominator<B(!new)>(g: Cfg<B>, b: B) {
    HasSucc(g, b) && forall e | e in g.edges && e.0 == b :: Dominates(g, b, e.1)
  }

  ghost predicate FullPostDominator<B(!new)>(g: Cfg<B>, b: B) {
    HasPred(g, b) && forall e | e in g.edges && e.1 == b :: PostDominates(g, b, e.0)
  }

  ghost predicate Prunable<B(!new)>(g: Cfg<B>, b: B) {
    FullDominator(g, b) || (FullPostDominator(g, b) && !SinglePred(g, b))
  }

  /** shouldInstrumentBlock of either pass. */
  ghost predicate ShouldInstrument<B(!new)>(g: Cfg<B>, o: Options, b: B) {
    if b in g.unreachable then false
    else if b in g.noInsertion then false
    else if o.rule.Lto? && !o.noPrune && b == g.entry && |g.blocks| > 1 then false
    else if o.noPrune || b == g.entry then true
    else !FullDominator(g, b) && !(FullPostDominator(g, b) && !SinglePred(g, b))
  }

  // ----- the selection loop of instrumentFunction -----

  /** The two trees as LLVM hands them over: relations that agree with the path definitions. */
  ghost predicate TreesOf<B(!new)>(g: Cfg<B>, dt: set<(B, B)>, pdt: set<(B, B)>) {
    forall a, b | a in g.blocks && b in g.blocks ::
      && ((a, b) in dt <==> Dominates(g, a, b))
      && ((a, b) in pdt <==> PostDominates(g, a, b))
  }

  predicate Decide<B>(g: Cfg<B>, o: Options, b: B, dt: set<(B, B)>, pdt: set<(B, B)>) {
    var fullDom := HasSucc(g, b) && forall e | e in g.edges && e.0 == b :: (b, e.1) in dt;
    var fullPostDom := HasPred(g, b) && forall e | e in g.edges && e.1 == b :: (b, e.0) in pdt;
    if b in g.unreachable then false
    else if b in g.noInsertion then false
    else if o.rule.Lto? && !o.noPrune && b == g.entry && |g.blocks| > 1 then false
    else if o.noPrune || b == g.entry then true
    else !fullDom && !(fullPostDom && !SinglePred(g, b))
  }

  // ----- runs -----

  /** A complete run of the function: entry to an exit that is really executed. */
  ghost predicate Run<B(!new)>(g: Cfg<B>, p: seq<B>) {
    IsPath(g, p) && p[0] == g.entry && !HasSucc(g, Last(p)) && Last(p) in g.blocks && Last(p) !in g.unreachable
  }

  ghost predicate HitsWithin<B(!new)>(g: Cfg<B>, o: Options, p: seq<B>, q: seq<B>) {
    forall b | b in p && ShouldInstrument(g, o, b) :: b in q
  }

  ghost predicate SameHits<B(!new)>(g: Cfg<B>, o: Options, p: seq<B>, q: seq<B>) {
    forall b | ShouldInstrument(g, o, b) :: b in p <==> b in q
  }

  /** Blocks without an insertion point are only tolerable where no probe was wanted. */
  ghost predicate ProbesFit<B(!new)>(g: Cfg<B>) {
    forall b | b in g.noInsertion :: b == g.entry || Prunable(g, b)
  }

  ghost predicate Admissible<B(!new)>(g: Cfg<B>) {
    WellFormed(g) && CriticalEdgesSplit(g) && DeadStaysDead(g) && ProbesFit(g)
  }

  lemma PathPrefix<B(!new)>(g: Cfg<B>, p: seq<B>, n: nat)
    requires IsPath(g, p) && n < |p|
    ensures PathFromTo(g, p[..n+1], p[0], p[n])
    ensures PathFromTo(g, p[n..], p[n], Last(p))
  {
    forall i | 0 <= i < |p[n..]| - 1 ensures (p[n..][i], p[n..][i+1]) in g.edges {
      assert (p[n+i], p[n+i+1]) in g.edges;
    }
  }

  lemma PathJoin<B(!new)>(g: Cfg<B>, p: seq<B>, q: seq<B>)
    requires IsPath(g, p) && IsPath(g, q) && (Last(p), q[0]) in g.edges
    ensures PathFromTo(g, p + q, p[0], Last(q))
  {
    var r := p + q;
    forall i | 0 <= i < |r| - 1 ensures (r[i], r[i+1]) in g.edges {
      if i < |p| - 1 {
        assert (p[i], p[i+1]) in g.edges;
      } else if i >= |p| {
        assert (q[i - |p|], q[i - |p| + 1]) in g.edges;
      }
    }
  }

  /** Every block on a run is a real block and not an `unreachable` one. */
  lemma RunBlocks<B(!new)>(g: Cfg<B>, p: seq<B>, i: nat)
    requires WellFormed(g) && Run(g, p) && i < |p|
    ensures p[i] in g.blocks && p[i] !in g.unreachable
    ensures i < |p| - 1 ==> (p[i], p[i+1]) in g.edges && HasSucc(g, p[i])
    ensures i < |p| - 1 <==> HasSucc(g, p[i])
    ensures i > 0 ==> (p[i-1], p[i]) in g.edges && HasPred(g, p[i])
    ensures i > 0 <==> p[i] != g.entry
  {
    if i > 0 { assert (p[i-1], p[i]) in g.edges; }
    if i < |p| - 1 { assert (p[i], p[i+1]) in g.edges; }
  }

  lemma UninstrumentedIsPrunable<B(!new)>(g: Cfg<B>, o: Options, b: B)
    requires WellFormed(g) && ProbesFit(g)
    requires b != g.entry && b !in g.unreachable && !ShouldInstrument(g, o, b)
    ensures Prunable(g, b)
  {
  }

  /** A dominator of a block that a run executes is executed by that run. */
  lemma RunHitsDominators<B(!new)>(g: Cfg<B>, q: seq<B>, a: B, b: B)
    requires Run(g, q) && b in q && Dominates(g, a, b)
    ensures a in q
  {
    var n :| 0 <= n < |q| && q[n] == b;
    PathPrefix(g, q, n);
    assert a in q[..n+1];
  }

  lemma RunHitsPostDominators<B(!new)>(g: Cfg<B>, q: seq<B>, a: B, b: B)
    requires WellFormed(g) && Run(g, q) && b in q && PostDominates(g, a, b)
    ensures a in q
  {
    var n :| 0 <= n < |q| && q[n] == b;
    PathPrefix(g, q, n);
    assert PathToRoot(g, q[n..], b);
    assert a in q[n..];
  }

  /** The first block of `p` that `q` misses cannot be a full post-dominator. */
  lemma FirstMissIsFullDominator<B(!new)>(g: Cfg<B>, o: Options, p: seq<B>, q: seq<B>, i: nat)
    requires Admissible(g) && Run(g, p) && Run(g, q) && HitsWithin(g, o, p, q)
    requires i < |p| && p[i] !in q && forall j | 0 <= j < i :: p[j] in q
    ensures FullDominator(g, p[i])
  {
    RunBlocks(g, p, i);
    UninstrumentedIsPrunable(g, o, p[i]);
    if FullPostDominator(g, p[i]) {
      assert (p[i-1], p[i]) in g.edges;
      assert PostDominates(g, p[i], p[i-1]);
      RunHitsPostDominators(g, q, p[i], p[i-1]);
    }
  }

  lemma LastIndex<B>(p: seq<B>, b: B) returns (k: nat)
    requires b in p
    ensures k < |p| && p[k] == b && b !in p[k+1..]
  {
    var n := |p| - 1;
    if p[n] == b {
      k := n;
    } else {
      assert p == p[..n] + [p[n]];
      k := LastIndex(p[..n], b);
      assert p[k+1..] == p[..n][k+1..] + [p[n]];
    }
  }

  /** The two readings of "the edge (a, b) is not critical". */
  lemma OnlyWayIn<B(!new)>(g: Cfg<B>, a: B, b: B, c: B)
    requires WellFormed(g) && CriticalEdgesSplit(g)
    requires (a, b) in g.edges && (a, c) in g.edges && b != c && b !in g.unreachable
    ensures SinglePred(g, b) && Dominates(g, a, b)
  {
    assert forall e | e in g.edges && e.1 == b :: e == (a, b);
    forall t | PathFromTo(g, t, g.entry, b) ensures a in t {
      assert |t| != 1;
      assert (t[|t|-2], t[|t|-1]) in g.edges;
    }
  }

  lemma OnlyWayOut<B(!new)>(g: Cfg<B>, a: B, b: B, c: B)
    requires CriticalEdgesSplit(g)
    requires (a, b) in g.edges && (c, b) in g.edges && a != c && b !in g.unreachable
    ensures forall e | e in g.edges && e.0 == a :: e.1 == b
  {
    forall e | e in g.edges && e.0 == a ensures e.1 == b {
      assert e == (a, b) || (c, b) == (a, b);
    }
  }

  /** If `x` dominates `y` and leads nowhere else, `y` dominates its other predecessors. */
  lemma HeaderDominatesLatch<B(!new)>(g: Cfg<B>, x: B, y: B, l: B)
    requires x != y && Dominates(g, x, y)
    requires forall e | e in g.edges && e.0 == x :: e.1 == y
    requires (l, y) in g.edges && l != x
    ensures Dominates(g, y, l)
  {
    forall p | PathFromTo(g, p, g.entry, l) ensures y in p {
      PathJoin(g, p, [y]);
      assert x in p + [y];
      var n :| 0 <= n < |p| && p[n] == x;
      assert (p[n], p[n+1]) in g.edges;
    }
  }

  /** A header that is left by one edge only dominates where that edge goes, as soon as it has a latch. */
  lemma SingleExitHeaderDominates<B(!new)>(g: Cfg<B>, y: B, s: B, l: B)
    requires forall e | e in g.edges && e.0 == y :: e.1 == s
    requires l != y && Reachable(g, l) && Dominates(g, y, l)
    ensures Dominates(g, y, s)
  {
    var t :| PathFromTo(g, t, g.entry, l);
    var k := LastIndex(t, y);
    assert (t[k], t[k+1]) in g.edges;
    var q := t[k+1..];
    PathPrefix(g, t, k + 1);
    forall p | PathFromTo(g, p, g.entry, s) ensures y in p {
      if |q| > 1 {
        assert (q[0], q[1]) in g.edges;
        PathPrefix(g, q, 1);
        PathJoin(g, p, q[1..]);
        assert y in p + q[1..];
        assert forall b | b in q[1..] :: b in q;
      }
    }
  }

  lemma OtherPredecessor<B(!new)>(g: Cfg<B>, x: B, y: B) returns (l: B)
    requires (x, y) in g.edges && !SinglePred(g, y)
    ensures (l, y) in g.edges && l != x
  {
    var e, e' :| e in g.edges && e' in g.edges && e.1 == y && e'.1 == y && e != e';
    l := if e.0 != x then e.0 else e'.0;
    assert e == (e.0, y) && e' == (e'.0, y);
  }

  /** A block that dominates another reachable block can be left. */
  lemma DominatorHasSucc<B(!new)>(g: Cfg<B>, y: B, l: B)
    requires Dominates(g, y, l) && Reachable(g, l) && (l == y ==> HasSucc(g, y))
    ensures HasSucc(g, y)
  {
    var t :| PathFromTo(g, t, g.entry, l);
    if l != y {
      var n :| 0 <= n < |t| && t[n] == y;
      assert (t[n], t[n+1]) in g.edges;
    }
  }

  lemma EntersFromElsewhere<B(!new)>(g: Cfg<B>, y: B, s: B) returns (n: B)
    requires WellFormed(g) && (y, s) in g.edges && !Dominates(g, y, s)
    ensures (n, s) in g.edges && n != y
  {
    var t :| PathFromTo(g, t, g.entry, s) && y !in t;
    assert |t| != 1;
    n := t[|t|-2];
    assert (t[|t|-2], t[|t|-1]) in g.edges;
  }

  /** A full post-dominator `y` behind a full dominator `x` is a loop header with `x` as its only way in. */
  lemma MergeIsHeader<B(!new)>(g: Cfg<B>, x: B, y: B) returns (l: B)
    requires WellFormed(g) && CriticalEdgesSplit(g) && DeadStaysDead(g) && Reachable(g, y)
    requires (x, y) in g.edges && x != y && Dominates(g, x, y) && y !in g.unreachable && !SinglePred(g, y)
    ensures (l, y) in g.edges && Reachable(g, l) && Dominates(g, y, l) && HasSucc(g, y)
  {
    l := OtherPredecessor(g, x, y);
    OnlyWayOut(g, x, y, l);
    HeaderDominatesLatch(g, x, y, l);
    DominatorHasSucc(g, y, l);
  }

  /** Leaving a header that does not dominate all its successors, a run enters by the only way in. */
  lemma HeaderExit<B(!new)>(g: Cfg<B>, y: B, z: B, l: B)
    requires WellFormed(g) && CriticalEdgesSplit(g)
    requires (l, y) in g.edges && Reachable(g, l) && Dominates(g, y, l)
    requires (y, z) in g.edges && z !in g.unreachable && !FullDominator(g, y)
    ensures SinglePred(g, z) && Dominates(g, y, z)
  {
    var e :| e in g.edges && e.0 == y && !Dominates(g, y, e.1);
    var s := e.1;
    assert e == (y, s);
    if s == z {
      var n := EntersFromElsewhere(g, y, s);
      OnlyWayOut(g, y, s, n);
      assert s != y;
      SingleExitHeaderDominates(g, y, s, l);
    } else {
      OnlyWayIn(g, y, z, s);
    }
  }

  ghost predicate Missed<B(!new)>(g: Cfg<B>, p: seq<B>, q: seq<B>, i: int) {
    0 <= i < |p| && p[i] !in q && FullDominator(g, p[i])
  }

  lemma NotHit<B(!new)>(g: Cfg<B>, o: Options, p: seq<B>, q: seq<B>, i: nat)
    requires Admissible(g) && Run(g, p) && Run(g, q) && HitsWithin(g, o, p, q)
    requires 0 < i < |p| && p[i-1] !in q && Dominates(g, p[i-1], p[i])
    ensures p[i] !in q && Prunable(g, p[i])
  {
    if p[i] in q {
      RunHitsDominators(g, q, p[i-1], p[i]);
    }
    RunBlocks(g, p, i);
    UninstrumentedIsPrunable(g, o, p[i]);
  }

  lemma StepFromFullDominator<B(!new)>(g: Cfg<B>, o: Options, p: seq<B>, q: seq<B>, i: nat)
    requires Admissible(g) && Run(g, p) && Run(g, q) && HitsWithin(g, o, p, q)
    requires Missed(g, p, q, i)
    ensures i + 1 < |p| && (p[i], p[i+1]) in g.edges && p[i+1] !in g.unreachable
    ensures Dominates(g, p[i], p[i+1]) && p[i+1] !in q && Prunable(g, p[i+1])
  {
    RunBlocks(g, p, i);
    RunBlocks(g, p, i + 1);
    NotHit(g, o, p, q, i + 1);
  }

  lemma StepFromHeader<B(!new)>(g: Cfg<B>, o: Options, p: seq<B>, q: seq<B>, i: nat, l: B)
    requires Admissible(g) && Run(g, p) && Run(g, q) && HitsWithin(g, o, p, q)
    requires i < |p| && p[i] !in q && HasSucc(g, p[i]) && !FullDominator(g, p[i])
    requires (l, p[i]) in g.edges && Reachable(g, l) && Dominates(g, p[i], l)
    ensures Missed(g, p, q, i + 1)
  {
    RunBlocks(g, p, i);
    RunBlocks(g, p, i + 1);
    HeaderExit(g, p[i], p[i+1], l);
    NotHit(g, o, p, q, i + 1);
  }

  /** After a full dominator that `q` misses, `p` comes to another one within two steps. */
  lemma NextFullDominator<B(!new)>(g: Cfg<B>, o: Options, p: seq<B>, q: seq<B>, i: nat) returns (j: nat)
    requires Admissible(g) && Run(g, p) && Run(g, q) && HitsWithin(g, o, p, q)
    requires Missed(g, p, q, i)
    ensures i < j && Missed(g, p, q, j)
  {
    StepFromFullDominator(g, o, p, q, i);
    j := i + 1;
    if !FullDominator(g, p[i+1]) {
      PathPrefix(g, p, i + 1);
      var l := MergeIsHeader(g, p[i], p[i+1]);
      StepFromHeader(g, o, p, q, i + 1, l);
      j := i + 2;
    }
  }

  /** Full dominators missed by `q` can be followed along `p` for ever, so there is none. */
  lemma NoMissedFullDominator<B(!new)>(g: Cfg<B>, o: Options, p: seq<B>, q: seq<B>, i: nat)
    requires Admissible(g) && Run(g, p) && Run(g, q) && HitsWithin(g, o, p, q)
    ensures !Missed(g, p, q, i)
    decreases |p| - i
  {
    if Missed(g, p, q, i) {
      var j := NextFullDominator(g, o, p, q, i);
      NoMissedFullDominator(g, o, p, q, j);
    }
  }

  /** Main result, one-sided: the probes a run hits bound the blocks it executes. */
  lemma HitsBoundBlocks<B(!new)>(g: Cfg<B>, o: Options, p: seq<B>, q: seq<B>, n: nat)
    requires Admissible(g) && Run(g, p) && Run(g, q) && HitsWithin(g, o, p, q)
    requires n <= |p|
    ensures forall i | 0 <= i < n :: p[i] in q
  {
    if n > 0 {
      HitsBoundBlocks(g, o, p, q, n - 1);
      if p[n-1] !in q {
        FirstMissIsFullDominator(g, o, p, q, n - 1);
        NoMissedFullDominator(g, o, p, q, n - 1);
      }
    }
  }

  /** Two complete runs that hit the same probes execute exactly the same blocks. */
  lemma PruningLosesNoCoverage<B(!new)>(g: Cfg<B>, o: Options, p: seq<B>, q: seq<B>)
    requires Admissible(g) && Run(g, p) && Run(g, q) && SameHits(g, o, p, q)
    ensures forall b :: b in p <==> b in q
  {
    HitsBoundBlocks(g, o, p, q, |p|);
    HitsBoundBlocks(g, o, q, p, |q|);
  }

  // ----- what the selection amounts to -----

  /** A block that can hold a probe and is not known to be unreachable. */
  predicate CanProbe<B>(g: Cfg<B>, b: B) {
    b in g.blocks && b !in g.unreachable && b !in g.noInsertion
  }

  /** The entry is always probed, except that the LTO pass with pruning probes it only when it is the only block. */
  predicate EntryProbed<B>(g: Cfg<B>, o: Options) {
    g.entry !in g.noInsertion && (o.rule.PcGuard? || o.noPrune || g.blocks == {g.entry})
  }

  /** There is a way from the entry to s that does not pass b. */
  ghost predicate Bypassed<B(!new)>(g: Cfg<B>, b: B, s: B) {
    exists p :: PathFromTo(g, p, g.entry, s) && b !in p
  }

  /** There is a way from a to a root that does not pass b. */
  ghost predicate Leaves<B(!new)>(g: Cfg<B>, a: B, b: B) {
    exists p :: PathToRoot(g, p, a) && b !in p
  }

  /** Every successor can only be come to through b, or every predecessor, of which there are several, can only be left
      through b: other blocks tell whether b is executed. */
  ghost predicate ToldByOthers<B(!new)>(g: Cfg<B>, b: B) {
    || (HasSucc(g, b) && forall e | e in g.edges && e.0 == b :: !Bypassed(g, b, e.1))
    || (Merges(g, b) && forall e | e in g.edges && e.1 == b :: !Leaves(g, e.0, b))
  }

  ghost predicate Merges<B(!new)>(g: Cfg<B>, b: B) {
    exists e, e' :: e in g.edges && e' in g.edges && e.1 == b && e'.1 == b && e.0 != e'.0
  }

  lemma PrunableIsTold<B(!new)>(g: Cfg<B>, b: B)
    ensures Prunable(g, b) <==> ToldByOthers(g, b)
  {
    forall e | e in g.edges ensures Dominates(g, b, e.1) <==> !Bypassed(g, b, e.1) {
    }
    forall e | e in g.edges ensures PostDominates(g, b, e.0) <==> !Leaves(g, e.0, b) {
    }
    MergesIsMany(g, b);
  }

  lemma MergesIsMany<B(!new)>(g: Cfg<B>, b: B)
    ensures Merges(g, b) <==> HasPred(g, b) && !SinglePred(g, b)
  {
    if HasPred(g, b) && !SinglePred(g, b) {
      var e, e' :| e in g.edges && e' in g.edges && e.1 == b && e'.1 == b && e != e';
      assert e == (e.0, b) && e' == (e'.0, b);
      assert e.0 != e'.0;
    }
  }

  lemma EntrySize<B>(g: Cfg<B>)
    requires g.entry in g.blocks
    ensures |g.blocks| > 1 <==> g.blocks != {g.entry}
  {
    if g.blocks != {g.entry} {
      var b :| b in g.blocks && b != g.entry;
      assert {g.entry, b} <= g.blocks;
      assert |g.blocks - {g.entry, b}| == |g.blocks| - 2;
    }
  }

  ghost predicate EveryRunHits<B(!new)>(g: Cfg<B>, chosen: seq<B>) {
    forall p | Run(g, p) :: HitsSome(p, chosen)
  }

  ghost predicate HitsSome<B(!new)>(p: seq<B>, chosen: seq<B>) {
    exists b :: b in p && b in chosen
  }

  /** From p[i] on, the run has no choice. */
  ghost predicate Forced<B(!new)>(g: Cfg<B>, p: seq<B>, i: nat) {
    forall j, e | i <= j < |p| - 1 && e in g.edges && e.0 == p[j] :: e.1 == p[j+1]
  }

  /** A run without a choice that comes back never ends. */
  lemma {:induction false} NoReturn<B(!new)>(g: Cfg<B>, p: seq<B>, i: nat, a: nat, b: nat)
    requires WellFormed(g) && Run(g, p) && Forced(g, p, i) && i <= a < b < |p|
    ensures p[a] != p[b]
    decreases |p| - b
  {
    RunBlocks(g, p, a);
    RunBlocks(g, p, b);
    if p[a] == p[b] && b < |p| - 1 {
      assert (p[b], p[b+1]) in g.edges && p[b+1] == p[a+1];
      NoReturn(g, p, i, a + 1, b + 1);
    }
  }

  /** Every path from there follows the run. */
  lemma {:induction false} FollowsRun<B(!new)>(g: Cfg<B>, p: seq<B>, i: nat, t: seq<B>, m: nat)
    requires WellFormed(g) && Run(g, p) && Forced(g, p, i) && i < |p|
    requires IsPath(g, t) && t[0] == p[i] && m < |t|
    ensures i + m < |p| && t[m] == p[i + m]
  {
    if m > 0 {
      FollowsRun(g, p, i, t, m - 1);
      assert (t[m-1], t[m]) in g.edges;
      RunBlocks(g, p, i + m - 1);
    }
  }

  /** What p[i] dominates lies on the run behind it. */
  lemma DominatedIsAhead<B(!new)>(g: Cfg<B>, p: seq<B>, i: nat, l: B) returns (j: nat)
    requires WellFormed(g) && Run(g, p) && Forced(g, p, i) && i < |p| && Dominates(g, p[i], l) && Reachable(g, l)
    ensures i <= j < |p| && p[j] == l
  {
    var t :| PathFromTo(g, t, g.entry, l);
    var k :| 0 <= k < |t| && t[k] == p[i];
    PathPrefix(g, t, k);
    FollowsRun(g, p, i, t[k..], |t| - 1 - k);
    j := i + |t| - 1 - k;
  }

  /** So nothing there leads back to p[i]. */
  lemma NoWayBack<B(!new)>(g: Cfg<B>, p: seq<B>, i: nat, l: B)
    requires WellFormed(g) && Run(g, p) && Forced(g, p, i) && i < |p| && Dominates(g, p[i], l) && Reachable(g, l)
    ensures (l, p[i]) !in g.edges
  {
    var j := DominatedIsAhead(g, p, i, l);
    RunBlocks(g, p, j);
    if (l, p[i]) in g.edges {
      NoReturn(g, p, i, i, j + 1);
    }
  }

  /** If all of a run from p[i-1] on is forced and p[i-1] dominates p[i], there is no other way into p[i]. */
  lemma ForcedIsEntered<B(!new)>(g: Cfg<B>, p: seq<B>, i: nat, l: B)
    requires WellFormed(g) && DeadStaysDead(g) && Run(g, p) && 0 < i < |p|
    requires Forced(g, p, i - 1) && Dominates(g, p[i-1], p[i]) && (l, p[i]) in g.edges
    ensures l == p[i-1]
  {
    if l != p[i-1] {
      NoReturn(g, p, i - 1, i - 1, i);
      RunBlocks(g, p, i - 1);
      HeaderDominatesLatch(g, p[i-1], p[i], l);
      PathPrefix(g, p, i);
      NoWayBack(g, p, i, l);
    }
  }

  lemma ForcedFurther<B(!new)>(g: Cfg<B>, p: seq<B>, i: nat)
    requires CriticalEdgesSplit(g) && 0 < i < |p| && Forced(g, p, i) && (p[i-1], p[i]) in g.edges
    requires p[i] !in g.unreachable && !SinglePred(g, p[i])
    ensures Forced(g, p, i - 1)
  {
    var l := OtherPredecessor(g, p[i-1], p[i]);
    OnlyWayOut(g, p[i-1], p[i], l);
  }

  /** Walking back from the exit: as long as blocks need no probe, they merge several ways and are left by one. */
  lemma {:induction false} Unprunable<B(!new)>(g: Cfg<B>, p: seq<B>, i: nat) returns (j: nat)
    requires WellFormed(g) && CriticalEdgesSplit(g) && DeadStaysDead(g) && Run(g, p) && 0 < i < |p|
    requires Forced(g, p, i) && (i < |p| - 1 ==> !SinglePred(g, p[i+1]))
    ensures 0 < j < |p| && !Prunable(g, p[j])
  {
    RunBlocks(g, p, i);
    j := i;
    if Prunable(g, p[i]) {
      ForcedIsNoDominator(g, p, i);
      ForcedFurther(g, p, i);
      if i > 1 {
        j := Unprunable(g, p, i - 1);
      } else {
        EntryIsOnlyWay(g, p);
      }
    }
  }

  lemma ForcedIsNoDominator<B(!new)>(g: Cfg<B>, p: seq<B>, i: nat)
    requires WellFormed(g) && DeadStaysDead(g) && Run(g, p) && 0 < i < |p|
    requires Forced(g, p, i) && (i < |p| - 1 ==> !SinglePred(g, p[i+1]))
    ensures !FullDominator(g, p[i])
  {
    RunBlocks(g, p, i);
    if FullDominator(g, p[i]) {
      RunBlocks(g, p, i + 1);
      var l := OtherPredecessor(g, p[i], p[i+1]);
      ForcedIsEntered(g, p, i + 1, l);
    }
  }

  lemma EntryIsOnlyWay<B(!new)>(g: Cfg<B>, p: seq<B>)
    requires WellFormed(g) && DeadStaysDead(g) && Run(g, p) && |p| > 1 && Forced(g, p, 0)
    ensures SinglePred(g, p[1])
  {
    RunBlocks(g, p, 1);
    assert Dominates(g, p[0], p[1]);
    forall e | e in g.edges && e.1 == p[1] ensures e == (p[0], p[1]) {
      assert e == (e.0, p[1]);
      ForcedIsEntered(g, p, 1, e.0);
    }
  }

  lemma SelectionHits<B(!new)>(g: Cfg<B>, o: Options, chosen: seq<B>)
    requires Admissible(g) && forall b :: b in chosen <==> b in g.blocks && ShouldInstrument(g, o, b)
    ensures EveryRunHits(g, chosen) <==> EntryProbed(g, o) || HasSucc(g, g.entry)
  {
    EntrySize(g);
    if EntryProbed(g, o) {
      forall p | Run(g, p) ensures HitsSome(p, chosen) {
        assert g.entry in p && g.entry in chosen;
      }
    } else if HasSucc(g, g.entry) {
      forall p | Run(g, p) ensures HitsSome(p, chosen) {
        RunBlocks(g, p, 0);
        var j := Unprunable(g, p, |p| - 1);
        RunBlocks(g, p, j);
        assert p[j] in p && p[j] in chosen;
      }
    } else {
      assert Run(g, [g.entry]);
      assert !HitsSome([g.entry], chosen);
    }
  }

  method BlocksToInstrument<B(!new, ==)>(g: Cfg<B>, o: Options, order: seq<B>, dt: set<(B, B)>, pdt: set<(B, B)>)
    returns (chosen: seq<B>)
    requires WellFormed(g) && TreesOf(g, dt, pdt)
    requires forall b :: b in order <==> b in g.blocks
    ensures forall b :: b in chosen <==> b in g.blocks && ShouldInstrument(g, o, b)
    ensures (forall i, j | 0 <= i < j < |order| :: order[i] != order[j]) ==>
              forall i, j | 0 <= i < j < |chosen| :: chosen[i] != chosen[j]
    ensures g.entry in chosen <==> EntryProbed(g, o)
    ensures o.noPrune ==> forall b :: b in chosen <==> CanProbe(g, b)
    ensures !o.noPrune ==> forall b | b != g.entry :: b in chosen <==> CanProbe(g, b) && !ToldByOthers(g, b)
    ensures Admissible(g) ==> (EveryRunHits(g, chosen) <==> EntryProbed(g, o) || HasSucc(g, g.entry))
  {
    chosen := SelectBlocks(g, o, order, dt, pdt);
    forall b | b != g.entry && CanProbe(g, b) ensures Prunable(g, b) <==> ToldByOthers(g, b) {
      PrunableIsTold(g, b);
    }
    EntrySize(g);
    if Admissible(g) {
      SelectionHits(g, o, chosen);
    }
  }

  method SelectBlocks<B(!new, ==)>(g: Cfg<B>, o: Options, order: seq<B>, dt: set<(B, B)>, pdt: set<(B, B)>)
    returns (chosen: seq<B>)
    requires WellFormed(g) && TreesOf(g, dt, pdt)
    requires forall b :: b in order <==> b in g.blocks
    ensures forall b :: b in chosen <==> b in g.blocks && ShouldInstrument(g, o, b)
    ensures (forall i, j | 0 <= i < j < |order| :: order[i] != order[j]) ==>
              forall i, j | 0 <= i < j < |chosen| :: chosen[i] != chosen[j]
  {
    chosen := [];
    for n := 0 to |order|
      invariant forall b :: b in chosen <==> b in order[..n] && ShouldInstrument(g, o, b)
      invariant (forall i, j | 0 <= i < j < |order| :: order[i] != order[j]) ==>
                  forall i, j | 0 <= i < j < |chosen| :: chosen[i] != chosen[j]
    {
      assert order[..n+1] == order[..n] + [order[n]];
      assert order[n] in g.blocks;
      assert Decide(g, o, order[n], dt, pdt) <==> ShouldInstrument(g, o, order[n]);
      if Decide(g, o, order[n], dt, pdt) {
        chosen := chosen + [order[n]];
      }
    }
    assert order[..|order|] == order;
  }

  /** Where a run hits nothing: the LTO pass, an entry that is the whole live function, and dead code beside it. */
  lemma DeadCodeHidesEntry()
    ensures var g, o := Cfg(0, {0, 1}, {}, {0, 1}, {}, {}), Options(Lto, false);
            && Admissible(g) && Run(g, [0]) && g.entry !in g.noInsertion
            && !ShouldInstrument(g, o, 0)
  {
    var g := Cfg(0, {0, 1}, {}, {0, 1}, {}, {});
    assert !HasSucc(g, 0) && !HasPred(g, 0);
    assert {0, 1} == {0} + {1};
    EntrySize(g);
  }

  /** Two diamonds whose merge blocks each have one predecessor that nothing reaches. */
  function DeadPredecessors(): Cfg<nat> {
    Cfg(0, {0, 1, 2, 3, 4, 5, 6}, {(0, 1), (0, 3), (1, 2), (3, 4), (5, 2), (6, 4)}, {2, 4}, {}, {})
  }

  lemma DeadPredecessorsEdges(a: nat, b: nat)
    requires a == 1 || a == 3
    requires b == a + 1
    ensures Dominates(DeadPredecessors(), a, b) && !SinglePred(DeadPredecessors(), b)
    ensures PostDominates(DeadPredecessors(), b, a) && PostDominates(DeadPredecessors(), b, (b + 8) / 2)
  {
    var g := DeadPredecessors();
    var d := (b + 8) / 2;
    assert (a, b) in g.edges && (d, b) in g.edges;
    forall p | PathFromTo(g, p, g.entry, b) ensures a in p {
      var n := |p| - 2;
      assert (p[n], p[n+1]) in g.edges;
      if n > 0 {
        assert (p[n-1], p[n]) in g.edges;
      }
    }
    forall p, c | (c == a || c == d) && PathToRoot(g, p, c) ensures b in p {
      assert (p[0], p[1]) in g.edges;
    }
  }

  /** The only edges out of a and into b. */
  lemma DeadPredecessorsEnds(e: (nat, nat))
    requires e in DeadPredecessors().edges
    ensures e.0 == 1 || e.0 == 3 ==> e.1 == e.0 + 1
    ensures e.1 == 2 || e.1 == 4 ==> e.0 == e.1 - 1 || e.0 == (e.1 + 8) / 2
  {}

  lemma DeadPredecessorsPrunesHead(a: nat)
    requires a == 1 || a == 3
    ensures FullDominator(DeadPredecessors(), a)
  {
    var g := DeadPredecessors();
    DeadPredecessorsEdges(a, a + 1);
    assert (a, a + 1) in g.edges;
    forall e | e in g.edges && e.0 == a ensures Dominates(g, a, e.1) {
      DeadPredecessorsEnds(e);
    }
  }

  lemma DeadPredecessorsPrunesTail(b: nat)
    requires b == 2 || b == 4
    ensures FullPostDominator(DeadPredecessors(), b) && !SinglePred(DeadPredecessors(), b)
  {
    var g := DeadPredecessors();
    DeadPredecessorsEdges(b - 1, b);
    assert (b - 1, b) in g.edges;
    forall e | e in g.edges && e.1 == b ensures PostDominates(g, b, e.0) {
      DeadPredecessorsEnds(e);
    }
  }

  lemma DeadPredecessorsPrunesAll(b: nat)
    requires 1 <= b <= 4
    ensures Prunable(DeadPredecessors(), b)
  {
    if b == 1 || b == 3 {
      DeadPredecessorsPrunesHead(b);
    } else {
      DeadPredecessorsPrunesTail(b);
    }
  }

  lemma DeadPredecessorsAreSplit()
    ensures CriticalEdgesSplit(DeadPredecessors())
  {
    var g := DeadPredecessors();
    forall e, out | e in g.edges && out in g.edges && out.0 == e.0 ensures out == e || e.0 == 0 {
    }
    forall e, into | e in g.edges && into in g.edges && into.1 == e.1 ensures into == e || e.0 != 0 {
    }
  }

  lemma DeadPredecessorsRun(a: nat)
    requires a == 1 || a == 3
    ensures Run(DeadPredecessors(), [0, a, a + 1])
  {
    var g := DeadPredecessors();
    var p := [0, a, a + 1];
    assert (0, a) in g.edges && (a, a + 1) in g.edges;
    forall i | 0 <= i < |p| - 1 ensures (p[i], p[i+1]) in g.edges {
      assert i == 0 || i == 1;
    }
    assert Last(p) == a + 1;
  }

  lemma DeadPredecessorsHaveNext(b: nat)
    requires b in {0, 1, 3, 5, 6}
    ensures HasSucc(DeadPredecessors(), b)
  {
    var g := DeadPredecessors();
    assert (0, 1) in g.edges && (1, 2) in g.edges && (3, 4) in g.edges && (5, 2) in g.edges && (6, 4) in g.edges;
  }

  lemma DeadPredecessorsWellFormed()
    ensures WellFormed(DeadPredecessors()) && ProbesFit(DeadPredecessors())
  {
    DeadPredecessorsHaveNext(0);
    DeadPredecessorsHaveNext(1);
    DeadPredecessorsHaveNext(3);
    DeadPredecessorsHaveNext(5);
    DeadPredecessorsHaveNext(6);
  }

  /** Dead predecessors of live blocks cannot be allowed: these two runs of a well-formed graph without critical edges
      hit at most the entry's probe. */
  lemma DeadPredecessorsHideRuns(o: Options)
    requires !o.noPrune
    ensures SameHits(DeadPredecessors(), o, [0, 1, 2], [0, 3, 4])
    ensures Run(DeadPredecessors(), [0, 1, 2]) && Run(DeadPredecessors(), [0, 3, 4])
    ensures WellFormed(DeadPredecessors()) && CriticalEdgesSplit(DeadPredecessors()) && ProbesFit(DeadPredecessors())
  {
    DeadPredecessorsWellFormed();
    DeadPredecessorsAreSplit();
    DeadPredecessorsRun(1);
    DeadPredecessorsRun(3);
    forall b: nat | 1 <= b <= 4 ensures !ShouldInstrument(DeadPredecessors(), o, b) {
      DeadPredecessorsPrunesAll(b);
    }
  }

  /** A diamond whose two sides have no insertion point. */
  function Unprobed(): Cfg<nat> {
    Cfg(0, {0, 1, 2, 3}, {(0, 1), (0, 2), (1, 3), (2, 3)}, {3}, {}, {1, 2})
  }

  lemma UnprobedPaths(b: nat)
    requires b == 1 || b == 2
    ensures Run(Unprobed(), [0, b, 3])
    ensures PostDominates(Unprobed(), 3, b) && Reachable(Unprobed(), b)
  {
    var g := Unprobed();
    assert (0, b) in g.edges && (b, 3) in g.edges;
    var p := [0, b, 3];
    forall i | 0 <= i < |p| - 1 ensures (p[i], p[i+1]) in g.edges {
      assert i == 0 || i == 1;
    }
    assert Last(p) == 3;
    PathPrefix(g, p, 1);
    assert p[..2] == [0, b];
    assert PathFromTo(g, [0, b], 0, b);
  }

  lemma UnprobedWellFormed()
    ensures WellFormed(Unprobed())
  {
    var g := Unprobed();
    assert (0, 1) in g.edges && (1, 3) in g.edges && (2, 3) in g.edges;
    assert HasSucc(g, 0) && HasSucc(g, 1) && HasSucc(g, 2);
  }

  lemma UnprobedIsSplit()
    ensures CriticalEdgesSplit(Unprobed())
  {
    var g := Unprobed();
    forall e, out | e in g.edges && out in g.edges && out.0 == e.0 ensures out == e || e.0 == 0 {
    }
    forall e, into | e in g.edges && into in g.edges && into.1 == e.1 ensures into == e || e.0 != 0 {
    }
  }

  lemma UnprobedIsLive()
    ensures DeadStaysDead(Unprobed())
  {
    var g := Unprobed();
    UnprobedPaths(1);
    UnprobedPaths(2);
    assert PathFromTo(g, [0], 0, 0);
    forall e | e in g.edges ensures Reachable(g, e.0) {
      assert e.0 == 0 || e.0 == 1 || e.0 == 2;
    }
  }

  lemma UnprobedMerge()
    ensures FullPostDominator(Unprobed(), 3) && !SinglePred(Unprobed(), 3)
  {
    var g := Unprobed();
    UnprobedPaths(1);
    UnprobedPaths(2);
    assert (1, 3) in g.edges && (2, 3) in g.edges;
    forall e | e in g.edges && e.1 == 3 ensures PostDominates(g, 3, e.0) {
      assert e.0 == 1 || e.0 == 2;
    }
  }

  lemma UnprobedProbes(o: Options)
    requires !o.noPrune
    ensures SameHits(Unprobed(), o, [0, 1, 3], [0, 2, 3])
  {
    UnprobedMerge();
    forall b | ShouldInstrument(Unprobed(), o, b) ensures b != 1 && b != 2 {
    }
  }

  /** Blocks without an insertion point hide runs unless they needed no probe: here everything else is as it should
      be. */
  lemma UnprobedHidesRuns(o: Options)
    requires !o.noPrune
    ensures WellFormed(Unprobed()) && CriticalEdgesSplit(Unprobed()) && DeadStaysDead(Unprobed())
    ensures Run(Unprobed(), [0, 1, 3]) && Run(Unprobed(), [0, 2, 3])
    ensures SameHits(Unprobed(), o, [0, 1, 3], [0, 2, 3])
  {
    UnprobedWellFormed();
    UnprobedIsSplit();
    UnprobedIsLive();
    UnprobedPaths(1);
    UnprobedPaths(2);
    UnprobedProbes(o);
  }
}
