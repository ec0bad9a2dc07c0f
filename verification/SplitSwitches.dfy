/** The split-switches pass on a function body: new blocks, branches, and repair of PHI nodes in place. */
module SplitSwitches {
  import opened SwitchTree
  import opened Wrappers

  datatype Terminator =
    | Switch(cases: seq<Case>, dflt: nat, bits: nat)
    | Goto(dst: nat)
    | IfEq(idx: nat, byte: nat, yes: nat, no: nat)  // byte idx of the switched value == byte
    | IfLt(idx: nat, byte: nat, yes: nat, no: nat)  // byte idx of the switched value < byte
    | Other(succs: seq<nat>)

  /** Incoming values and, position by position, the blocks they come from. */
  datatype Phi = Phi(values: seq<nat>, blocks: seq<nat>)

  // ----- edges -----

  function CasesTo(cases: seq<Case>, t: nat): nat {
    if cases == [] then 0 else CasesTo(cases[..|cases| - 1], t) + (if cases[|cases| - 1].bb == t then 1 else 0)
  }

  /** How many edges a terminator has to block t. */
  function EdgesTo(term: Terminator, t: nat): nat {
    match term
    case Switch(cases, dflt, _) => CasesTo(cases, t) + (if dflt == t then 1 else 0)
    case Goto(dst) => if dst == t then 1 else 0
    case IfEq(_, _, yes, no) => (if yes == t then 1 else 0) + (if no == t then 1 else 0)
    case IfLt(_, _, yes, no) => (if yes == t then 1 else 0) + (if no == t then 1 else 0)
    case Other(succs) => multiset(succs)[t]
  }

  function EdgesFrom(terms: map<nat, Terminator>, b: nat, t: nat): nat {
    if b in terms then EdgesTo(terms[b], t) else 0
  }

  // ----- PHI repair -----

  function Count(blocks: seq<nat>, b: nat): nat {
    if blocks == [] then 0 else (if blocks[0] == b then 1 else 0) + Count(blocks[1..], b)
  }

  /** Only the first occurrence is updated. */
  function RenameFirst(blocks: seq<nat>, old_: nat, new_: nat): (r: seq<nat>)
    ensures |r| == |blocks|
    ensures forall i | 0 <= i < |r| :: r[i] == blocks[i] || (blocks[i] == old_ && r[i] == new_)
  {
    if blocks == [] then []
    else if blocks[0] == old_ then [new_] + blocks[1..]
    else [blocks[0]] + RenameFirst(blocks[1..], old_, new_)
  }

  lemma {:induction false} RenameFirstCounts(blocks: seq<nat>, old_: nat, new_: nat, b: nat)
    requires Count(blocks, old_) > 0 && new_ != old_
    ensures Count(RenameFirst(blocks, old_, new_), b) ==
            Count(blocks, b) + (if b == new_ then 1 else 0) - (if b == old_ then 1 else 0)
  {
    if blocks[0] != old_ {
      RenameFirstCounts(blocks[1..], old_, new_, b);
    }
  }

  function RenameAll(phis: seq<Phi>, old_: nat, new_: nat): (r: seq<Phi>)
    ensures |r| == |phis|
    ensures forall i | 0 <= i < |r| :: r[i] == phis[i].(blocks := RenameFirst(phis[i].blocks, old_, new_))
  {
    if phis == [] then []
    else [phis[0].(blocks := RenameFirst(phis[0].blocks, old_, new_))] + RenameAll(phis[1..], old_, new_)
  }

  /** At least two cases, and a condition of whole bytes, at most eight of them. */
  predicate Qualifies(term: Terminator) {
    term.Switch? && |term.cases| >= 2 && term.bits % 8 == 0 && term.bits <= 64
  }

  type PhiTable = map<nat, seq<Phi>>

  function RenameIn(phis: PhiTable, t: nat, old_: nat, new_: nat): PhiTable {
    if t in phis then phis[t := RenameAll(phis[t], old_, new_)] else phis
  }

  function RenameLeaves(phis: PhiTable, old_: nat, leaves: seq<Leaf>): PhiTable {
    if leaves == [] then phis
    else
      var n := |leaves| - 1;
      RenameIn(RenameLeaves(phis, old_, leaves[..n]), leaves[n].c.bb, old_, leaves[n].id)
  }

  lemma {:induction false} RenameLeavesConcat(phis: PhiTable, old_: nat, l: seq<Leaf>, r: seq<Leaf>)
    ensures RenameLeaves(phis, old_, l + r) == RenameLeaves(RenameLeaves(phis, old_, l), old_, r)
  {
    if r == [] {
      assert l + r == l;
    } else {
      var n := |r| - 1;
      var both := l + r;
      RenameLeavesConcat(phis, old_, l, r[..n]);
      assert both[..|both| - 1] == l + r[..n] && both[|both| - 1] == r[n];
    }
  }

  // ----- the blocks of a tree -----

  function TermsOf(t: Tree, newDefault: nat): map<nat, Terminator> {
    match t
    case Match(id, idx, byte, c) => map[id := IfEq(idx, byte, c.bb, newDefault)]
    case Check(id, idx, byte, next) => TermsOf(next, newDefault)[id := IfEq(idx, byte, next.id, newDefault)]
    case Split(id, idx, pivot, l, r) =>
      (TermsOf(l, newDefault) + TermsOf(r, newDefault))[id := IfLt(idx, pivot, l.id, r.id)]
  }

  lemma {:induction false} TermKeys(t: Tree, newDefault: nat, lo: nat, hi: nat)
    requires Numbered(t, lo, hi)
    ensures forall b :: b in TermsOf(t, newDefault) <==> lo <= b < hi
  {
    match t
    case Match(_, _, _, _) =>
    case Check(_, _, _, next) => TermKeys(next, newDefault, lo + 1, hi);
    case Split(_, _, _, l, r) =>
      TermKeys(l, newDefault, lo + 1, r.id);
      TermKeys(r, newDefault, r.id, hi);
  }

  // ----- running the branches -----

  function Next(term: Terminator, v: nat): Option<nat> {
    match term
    case Switch(cases, dflt, _) => (match Lookup(cases, v) case Some(bb) => Some(bb) case None => Some(dflt))
    case Goto(dst) => Some(dst)
    case IfEq(idx, byte, yes, no) => Some(if ByteAt(v, idx) == byte then yes else no)
    case IfLt(idx, byte, yes, no) => Some(if ByteAt(v, idx) < byte then yes else no)
    case Other(_) => None
  }

  /** p is the way control takes from its first to its last block while the switched value is v. */
  ghost predicate Trail(terms: map<nat, Terminator>, v: nat, p: seq<nat>) {
    p != [] && forall i | 0 <= i < |p| - 1 :: p[i] in terms && Next(terms[p[i]], v) == Some(p[i + 1])
  }

  /** Control goes from a to b in at least one step, and only through blocks from lo up to hi on the way. */
  ghost predicate LeadsTo(terms: map<nat, Terminator>, v: nat, a: nat, b: nat, lo: nat, hi: nat) {
    exists p :: TrailFromTo(terms, v, p, a, b, lo, hi)
  }

  ghost predicate TrailFromTo(terms: map<nat, Terminator>, v: nat, p: seq<nat>, a: nat, b: nat, lo: nat, hi: nat) {
    && |p| >= 2 && Trail(terms, v, p) && p[0] == a && p[|p| - 1] == b
    && forall i | 0 < i < |p| - 1 :: lo <= p[i] < hi
  }

  lemma LeadsDirectly(terms: map<nat, Terminator>, v: nat, a: nat, b: nat, lo: nat, hi: nat)
    requires a in terms && Next(terms[a], v) == Some(b)
    ensures LeadsTo(terms, v, a, b, lo, hi)
  {
    assert TrailFromTo(terms, v, [a, b], a, b, lo, hi);
  }

  lemma LeadsOn(terms: map<nat, Terminator>, v: nat, a: nat, b: nat, c: nat, lo: nat, hi: nat)
    requires a in terms && Next(terms[a], v) == Some(b) && lo <= b < hi && LeadsTo(terms, v, b, c, lo, hi)
    ensures LeadsTo(terms, v, a, c, lo, hi)
  {
    var p :| TrailFromTo(terms, v, p, b, c, lo, hi);
    var q := [a] + p;
    assert q[|q| - 1] == c;
    assert TrailFromTo(terms, v, q, a, c, lo, hi);
  }

  /** Control has one way to go, so two trails agree as far as both go. */
  lemma {:induction false} TrailsAgree(terms: map<nat, Terminator>, v: nat, p: seq<nat>, q: seq<nat>, i: nat)
    requires Trail(terms, v, p) && Trail(terms, v, q) && p[0] == q[0] && i < |p| && i < |q|
    ensures p[i] == q[i]
  {
    if i > 0 {
      TrailsAgree(terms, v, p, q, i - 1);
      assert Next(terms[p[i - 1]], v) == Some(p[i]) && Next(terms[q[i - 1]], v) == Some(q[i]);
    }
  }

  /** The first block below lo that control comes to is determined. */
  lemma LeadsToOne(terms: map<nat, Terminator>, v: nat, a: nat, b: nat, c: nat, lo: nat, hi: nat)
    requires LeadsTo(terms, v, a, b, lo, hi) && LeadsTo(terms, v, a, c, lo, hi) && b < lo && c < lo
    ensures b == c
  {
    var p :| TrailFromTo(terms, v, p, a, b, lo, hi);
    var q :| TrailFromTo(terms, v, q, a, c, lo, hi);
    var n := if |p| <= |q| then |p| - 1 else |q| - 1;
    TrailsAgree(terms, v, p, q, n);
  }

  ghost predicate Contains(terms: map<nat, Terminator>, part: map<nat, Terminator>) {
    forall b | b in part :: b in terms && terms[b] == part[b]
  }

  lemma ContainsSides(terms: map<nat, Terminator>, t: Tree, newDefault: nat, lo: nat, hi: nat)
    requires t.Split? && Numbered(t, lo, hi) && Contains(terms, TermsOf(t, newDefault))
    ensures Contains(terms, TermsOf(t.left, newDefault)) && Contains(terms, TermsOf(t.right, newDefault))
  {
    TermKeys(t.left, newDefault, lo + 1, t.right.id);
    TermKeys(t.right, newDefault, t.right.id, hi);
    var part, l, r := TermsOf(t, newDefault), TermsOf(t.left, newDefault), TermsOf(t.right, newDefault);
    forall b | b in l ensures part[b] == l[b] {
      assert b !in r && b != t.id;
      assert (l + r)[b] == l[b];
    }
    forall b | b in r ensures part[b] == r[b] {
      assert (l + r)[b] == r[b];
    }
  }

  /** The blocks of a tree take control where Eval says, and through no other block on the way. */
  lemma {:induction false} TreeLeadsTo(terms: map<nat, Terminator>, t: Tree, newDefault: nat, lo: nat, hi: nat, v: nat,
                                       from: nat, to: nat)
    requires Numbered(t, lo, hi) && Contains(terms, TermsOf(t, newDefault))
    requires from <= lo && hi <= to
    ensures LeadsTo(terms, v, t.id, match Eval(t, v) case Some(bb) => bb case None => newDefault, from, to)
  {
    var part := TermsOf(t, newDefault);
    TermKeys(t, newDefault, lo, hi);
    match t
    case Match(id, idx, byte, c) =>
      assert part[id] == IfEq(idx, byte, c.bb, newDefault);
      LeadsDirectly(terms, v, id, if ByteAt(v, idx) == byte then c.bb else newDefault, from, to);
    case Check(id, idx, byte, next) =>
      TermKeys(next, newDefault, lo + 1, hi);
      assert part[id] == IfEq(idx, byte, next.id, newDefault);
      if ByteAt(v, idx) == byte {
        TreeLeadsTo(terms, next, newDefault, lo + 1, hi, v, from, to);
        LeadsOn(terms, v, id, next.id, match Eval(next, v) case Some(bb) => bb case None => newDefault, from, to);
      } else {
        LeadsDirectly(terms, v, id, newDefault, from, to);
      }
    case Split(id, idx, pivot, l, r) =>
      ContainsSides(terms, t, newDefault, lo, hi);
      assert part[id] == IfLt(idx, pivot, l.id, r.id);
      if ByteAt(v, idx) < pivot {
        TreeLeadsTo(terms, l, newDefault, lo + 1, r.id, v, from, to);
        LeadsOn(terms, v, id, l.id, match Eval(l, v) case Some(bb) => bb case None => newDefault, from, to);
      } else {
        TreeLeadsTo(terms, r, newDefault, r.id, hi, v, from, to);
        LeadsOn(terms, v, id, r.id, match Eval(r, v) case Some(bb) => bb case None => newDefault, from, to);
      }
  }

  // ----- PHI bookkeeping -----

  /** The leaves that branch to t. */
  function LeavesTo(leaves: seq<Leaf>, t: nat): seq<nat> {
    if leaves == [] then []
    else
      var n := |leaves| - 1;
      LeavesTo(leaves[..n], t) + if leaves[n].c.bb == t then [leaves[n].id] else []
  }

  function RenameMany(blocks: seq<nat>, old_: nat, ids: seq<nat>): (r: seq<nat>)
    ensures |r| == |blocks|
    ensures forall i | 0 <= i < |r| :: r[i] == blocks[i] || blocks[i] == old_
  {
    if ids == [] then blocks
    else RenameFirst(RenameMany(blocks, old_, ids[..|ids| - 1]), old_, ids[|ids| - 1])
  }

  lemma {:induction false} CountLast(s: seq<nat>, b: nat)
    requires s != []
    ensures Count(s, b) == Count(s[..|s| - 1], b) + (if s[|s| - 1] == b then 1 else 0)
  {
    if |s| > 1 {
      CountLast(s[1..], b);
      assert s[1..][..|s| - 2] == s[..|s| - 1][1..];
    }
  }

  lemma {:induction false} RenameManyCounts(blocks: seq<nat>, old_: nat, ids: seq<nat>, b: nat)
    requires |ids| <= Count(blocks, old_) && Count(ids, old_) == 0
    ensures Count(RenameMany(blocks, old_, ids), b) ==
            Count(blocks, b) + Count(ids, b) - (if b == old_ then |ids| else 0)
  {
    if ids != [] {
      var n := |ids| - 1;
      CountLast(ids, b);
      CountLast(ids, old_);
      RenameManyCounts(blocks, old_, ids[..n], b);
      RenameManyCounts(blocks, old_, ids[..n], old_);
      RenameFirstCounts(RenameMany(blocks, old_, ids[..n]), old_, ids[n], b);
    }
  }

  /** Each PHI of t sees exactly the renames for the leaves that branch to t; its values stay. */
  lemma {:induction false} RenameLeavesAt(phis: PhiTable, old_: nat, leaves: seq<Leaf>, t: nat)
    requires t in phis
    ensures var r := RenameLeaves(phis, old_, leaves);
            && r.Keys == phis.Keys && |r[t]| == |phis[t]|
            && forall j | 0 <= j < |phis[t]| ::
                 r[t][j] == phis[t][j].(blocks := RenameMany(phis[t][j].blocks, old_, LeavesTo(leaves, t)))
  {
    if leaves != [] {
      var n := |leaves| - 1;
      RenameLeavesAt(phis, old_, leaves[..n], t);
      var ids := LeavesTo(leaves, t);
      if leaves[n].c.bb == t {
        assert ids[..|ids| - 1] == LeavesTo(leaves[..n], t);
      } else {
        assert ids == LeavesTo(leaves[..n], t);
      }
    }
  }

  // ----- new edges -----

  lemma {:induction false} LeavesToConcat(l: seq<Leaf>, r: seq<Leaf>, t: nat)
    ensures LeavesTo(l + r, t) == LeavesTo(l, t) + LeavesTo(r, t)
  {
    if r == [] {
      assert l + r == l;
    } else {
      var n := |r| - 1;
      var both := l + r;
      LeavesToConcat(l, r[..n], t);
      assert both[..|both| - 1] == l + r[..n] && both[|both| - 1] == r[n];
    }
  }

  lemma {:induction false} CountConcat(l: seq<nat>, r: seq<nat>, b: nat)
    ensures Count(l + r, b) == Count(l, b) + Count(r, b)
  {
    if l == [] {
      assert l + r == r;
    } else {
      CountConcat(l[1..], r, b);
      assert (l + r)[1..] == l[1..] + r;
    }
  }

  lemma CasesToSide(cases: seq<Case>, idx: nat, p: nat, below: bool, t: nat)
    requires cases != []
    ensures var n := |cases| - 1;
            CasesTo(Side(cases, idx, p, below), t) == CasesTo(Side(cases[..n], idx, p, below), t) +
            if (ByteAt(cases[n].val, idx) < p) == below && cases[n].bb == t then 1 else 0
  {
    var n := |cases| - 1;
    var front, side := Side(cases[..n], idx, p, below), Side(cases, idx, p, below);
    if (ByteAt(cases[n].val, idx) < p) == below {
      assert side == front + [cases[n]] && side[..|side| - 1] == front;
    }
  }

  lemma {:induction false} CasesToSides(cases: seq<Case>, idx: nat, p: nat, t: nat)
    ensures CasesTo(Side(cases, idx, p, true), t) + CasesTo(Side(cases, idx, p, false), t) == CasesTo(cases, t)
  {
    if cases != [] {
      CasesToSides(cases[..|cases| - 1], idx, p, t);
      CasesToSide(cases, idx, p, true, t);
      CasesToSide(cases, idx, p, false, t);
    }
  }

  /** As many leaves branch to t as cases did. */
  lemma {:induction false} LeavesPerTarget(cases: seq<Case>, checked: seq<bool>, id0: nat, t: nat)
    requires Callable(cases, checked)
    ensures |LeavesTo(Leaves(Convert(cases, checked, id0).0), t)| == CasesTo(cases, t)
    decreases Unchecked(checked), |cases|
  {
    CheckStep(cases, checked);
    var tree := Convert(cases, checked, id0).0;
    var idx := Pick(cases, checked);
    AtLeastOneByte(cases, idx);
    if |BytesOf(cases, idx)| == 1 {
      var after := checked[idx := true];
      if AllChecked(after) {
        assert cases[..0] == [];
      } else {
        LeavesPerTarget(cases, after, id0 + 1, t);
      }
    } else {
      SplitStep(cases, checked);
      var p := Pivot(BytesOf(cases, idx));
      var (l, n) := Convert(Side(cases, idx, p, true), checked, id0 + 1);
      LeavesPerTarget(Side(cases, idx, p, true), checked, id0 + 1, t);
      LeavesPerTarget(Side(cases, idx, p, false), checked, n, t);
      CasesToSides(cases, idx, p, t);
      LeavesToConcat(Leaves(tree.left), Leaves(tree.right), t);
    }
  }

  lemma CheckEdges(tree: Tree, nd: nat, lo: nat, hi: nat, t: nat, b: nat)
    requires tree.Check? && Numbered(tree, lo, hi) && t < nd < lo
    ensures EdgesFrom(TermsOf(tree, nd), b, t) == EdgesFrom(TermsOf(tree.next, nd), b, t)
  {
    var part, sub := TermsOf(tree, nd), TermsOf(tree.next, nd);
    TermKeys(tree.next, nd, lo + 1, hi);
    assert part == sub[lo := IfEq(tree.idx, tree.byte, tree.next.id, nd)];
    if b == lo {
      assert part[b] == IfEq(tree.idx, tree.byte, tree.next.id, nd);
    } else {
      assert b in part <==> b in sub;
    }
  }

  lemma SplitEdges(tree: Tree, nd: nat, lo: nat, hi: nat, t: nat, b: nat)
    requires tree.Split? && Numbered(tree, lo, hi) && t < nd < lo
    ensures EdgesFrom(TermsOf(tree, nd), b, t) ==
            EdgesFrom(TermsOf(tree.left, nd), b, t) + EdgesFrom(TermsOf(tree.right, nd), b, t)
  {
    var part, l, r := TermsOf(tree, nd), TermsOf(tree.left, nd), TermsOf(tree.right, nd);
    TermKeys(tree.left, nd, lo + 1, tree.right.id);
    TermKeys(tree.right, nd, tree.right.id, hi);
    assert part == (l + r)[lo := IfLt(tree.idx, tree.pivot, tree.left.id, tree.right.id)];
    if b == lo {
      assert part[b] == IfLt(tree.idx, tree.pivot, tree.left.id, tree.right.id);
    } else if b in r {
      assert part[b] == (l + r)[b] == r[b];
    } else if b in l {
      assert part[b] == (l + r)[b] == l[b];
    } else {
      assert b !in part;
    }
  }

  /** An old block is entered from the tree exactly once per leaf that branches to it. */
  lemma {:induction false} TreeEdges(tree: Tree, nd: nat, lo: nat, hi: nat, t: nat, b: nat)
    requires Numbered(tree, lo, hi) && t < nd < lo
    ensures Count(LeavesTo(Leaves(tree), t), b) == EdgesFrom(TermsOf(tree, nd), b, t)
  {
    match tree
    case Match(id, _, _, c) =>
      var leaf := Leaf(id, c);
      assert [leaf][..0] == [] && LeavesTo([], t) == [];
    case Check(_, _, _, next) =>
      TreeEdges(next, nd, lo + 1, hi, t, b);
      CheckEdges(tree, nd, lo, hi, t, b);
    case Split(_, _, _, l, r) =>
      TreeEdges(l, nd, lo + 1, r.id, t, b);
      TreeEdges(r, nd, r.id, hi, t, b);
      SplitEdges(tree, nd, lo, hi, t, b);
      LeavesToConcat(Leaves(l), Leaves(r), t);
      CountConcat(LeavesTo(Leaves(l), t), LeavesTo(Leaves(r), t), b);
  }

  // ----- the rewritten function -----

  function Untested(bits: nat): seq<bool> {
    seq((7 + bits) / 8, _ => false)
  }

  /** Terminators after the rewrite of the switch in block orig; nd is the new default block. */
  function NewTerms(terms: map<nat, Terminator>, orig: nat, dflt: nat, nd: nat, tree: Tree): map<nat, Terminator> {
    (terms[nd := Goto(dflt)] + TermsOf(tree, nd))[orig := Goto(tree.id)]
  }

  function NewPhis(phis: PhiTable, orig: nat, dflt: nat, nd: nat, tree: Tree): PhiTable {
    RenameIn(RenameLeaves(phis, orig, Leaves(tree)), dflt, orig, nd)
  }

  lemma NewTermsAre(terms: map<nat, Terminator>, orig: nat, dflt: nat, nd: nat, tree: Tree, hi: nat)
    requires Numbered(tree, nd + 1, hi) && orig < nd && orig in terms && forall b | b in terms :: b < nd
    ensures var r := NewTerms(terms, orig, dflt, nd, tree);
            && (forall b :: b in r <==> b in terms || nd <= b < hi)
            && r[orig] == Goto(tree.id) && r[nd] == Goto(dflt)
            && Contains(r, TermsOf(tree, nd))
            && forall b | b in terms && b != orig :: r[b] == terms[b]
  {
    TermKeys(tree, nd, nd + 1, hi);
    assert nd !in TermsOf(tree, nd);
  }

  /** Control leaves the rewritten block for the same target as the switch did, through new blocks only. */
  lemma RewriteMeaning(terms: map<nat, Terminator>, orig: nat, sw: Terminator, nd: nat, tree: Tree, hi: nat, v: nat)
    requires orig in terms && orig < nd && forall b | b in terms :: b < nd
    requires sw.Switch? && Numbered(tree, nd + 1, hi) && Eval(tree, v) == Lookup(sw.cases, v)
    ensures LeadsTo(NewTerms(terms, orig, sw.dflt, nd, tree), v, orig, Next(sw, v).value, nd, hi)
  {
    var r := NewTerms(terms, orig, sw.dflt, nd, tree);
    NewTermsAre(terms, orig, sw.dflt, nd, tree, hi);
    TreeLeadsTo(r, tree, nd, nd + 1, hi, v, nd, hi);
    if Eval(tree, v).None? {
      LeadsDirectly(r, v, nd, sw.dflt, nd, hi);
      LeadsThrough(r, v, tree.id, nd, sw.dflt, nd, hi);
    }
    LeadsOn(r, v, orig, tree.id, Next(sw, v).value, nd, hi);
  }

  lemma LeadsThrough(terms: map<nat, Terminator>, v: nat, a: nat, b: nat, c: nat, lo: nat, hi: nat)
    requires LeadsTo(terms, v, a, b, lo, hi) && LeadsTo(terms, v, b, c, lo, hi) && lo <= b < hi
    ensures LeadsTo(terms, v, a, c, lo, hi)
  {
    var p :| TrailFromTo(terms, v, p, a, b, lo, hi);
    var q :| TrailFromTo(terms, v, q, b, c, lo, hi);
    var r := p + q[1..];
    forall i | 0 <= i < |r| - 1
      ensures r[i] in terms && Next(terms[r[i]], v) == Some(r[i + 1]) && (i > 0 ==> lo <= r[i] < hi)
    {
      if i >= |p| - 1 {
        var k := i - (|p| - 1);
        assert r[i] == q[k] && r[i + 1] == q[k + 1];
      }
    }
    assert TrailFromTo(terms, v, r, a, c, lo, hi);
  }

  // ----- every branch leads to a block -----

  ghost predicate Closed(terms: map<nat, Terminator>) {
    forall b, t | b in terms && EdgesTo(terms[b], t) > 0 :: t in terms
  }

  lemma {:induction false} TreeTargets(tree: Tree, nd: nat, lo: nat, hi: nat, b: nat, t: nat)
    requires Numbered(tree, lo, hi) && EdgesFrom(TermsOf(tree, nd), b, t) > 0
    ensures t == nd || lo <= t < hi || LeavesTo(Leaves(tree), t) != []
  {
    match tree
    case Match(id, _, _, c) =>
      assert [Leaf(id, c)][..0] == [];
    case Check(id, _, _, next) =>
      if b != id {
        TreeTargets(next, nd, lo + 1, hi, b, t);
      }
    case Split(id, _, _, l, r) =>
      LeavesToConcat(Leaves(l), Leaves(r), t);
      if b != id {
        if b in TermsOf(r, nd) {
          TreeTargets(r, nd, r.id, hi, b, t);
        } else {
          TreeTargets(l, nd, lo + 1, r.id, b, t);
        }
      }
  }

  lemma RewriteStaysClosed(terms: map<nat, Terminator>, orig: nat, sw: Terminator, nd: nat, tree: Tree, hi: nat)
    requires orig in terms && terms[orig] == sw && sw.Switch? && Numbered(tree, nd + 1, hi)
    requires Closed(terms) && forall b | b in terms :: b < nd
    requires forall t :: |LeavesTo(Leaves(tree), t)| == CasesTo(sw.cases, t)
    ensures Closed(NewTerms(terms, orig, sw.dflt, nd, tree))
  {
    var r := NewTerms(terms, orig, sw.dflt, nd, tree);
    NewTermsAre(terms, orig, sw.dflt, nd, tree, hi);
    TermKeys(tree, nd, nd + 1, hi);
    assert EdgesTo(sw, sw.dflt) > 0;
    forall b, t | b in r && EdgesTo(r[b], t) > 0
      ensures t in r
    {
      if b in TermsOf(tree, nd) {
        TreeTargets(tree, nd, nd + 1, hi, b, t);
        assert LeavesTo(Leaves(tree), t) != [] ==> EdgesTo(sw, t) > 0;
      } else if b == orig {
        assert r[b] == Goto(tree.id);
      } else if b == nd {
        assert r[b] == Goto(sw.dflt);
      } else {
        assert b in terms && r[b] == terms[b];
      }
    }
  }

  lemma {:induction false} CaseHasEdge(cases: seq<Case>, c: Case)
    requires c in cases
    ensures CasesTo(cases, c.bb) > 0
  {
    var n := |cases| - 1;
    if c != cases[n] {
      CaseHasEdge(cases[..n], c);
    }
  }

  lemma {:induction false} LookupCase(cases: seq<Case>, v: nat) returns (c: Case)
    requires Lookup(cases, v).Some?
    ensures c in cases && Lookup(cases, v) == Some(c.bb)
  {
    if cases[0].val == v {
      c := cases[0];
    } else {
      c := LookupCase(cases[1..], v);
    }
  }

  lemma SwitchTargetExists(terms: map<nat, Terminator>, b: nat, v: nat)
    requires Closed(terms) && b in terms && terms[b].Switch?
    ensures Next(terms[b], v).value in terms
  {
    var cases := terms[b].cases;
    assert EdgesTo(terms[b], terms[b].dflt) > 0;
    if Lookup(cases, v).Some? {
      var c := LookupCase(cases, v);
      CaseHasEdge(cases, c);
      assert EdgesTo(terms[b], c.bb) > 0;
    }
  }

  ghost predicate PhisMatch(terms: map<nat, Terminator>, phis: PhiTable) {
    forall t, j, b: nat | t in phis && 0 <= j < |phis[t]| :: Count(phis[t][j].blocks, b) == EdgesFrom(terms, b, t)
  }

  /** Incoming blocks of a PHI after the rewrite. */
  function NewBlocks(blocks: seq<nat>, orig: nat, ids: seq<nat>, toDefault: bool, nd: nat): seq<nat> {
    if toDefault then RenameFirst(RenameMany(blocks, orig, ids), orig, nd) else RenameMany(blocks, orig, ids)
  }

  lemma NewPhisAt(phis: PhiTable, orig: nat, dflt: nat, nd: nat, tree: Tree, t: nat)
    requires t in phis
    ensures var r := NewPhis(phis, orig, dflt, nd, tree);
            && t in r && |r[t]| == |phis[t]|
            && forall j | 0 <= j < |phis[t]| ::
                 && r[t][j].values == phis[t][j].values
                 && r[t][j].blocks == NewBlocks(phis[t][j].blocks, orig, LeavesTo(Leaves(tree), t), t == dflt, nd)
  {
    RenameLeavesAt(phis, orig, Leaves(tree), t);
  }

  /** Entry counts of one PHI after the rewrite, block by block. */
  lemma NewBlocksCounts(blocks: seq<nat>, orig: nat, ids: seq<nat>, toDefault: bool, nd: nat, b: nat)
    requires Count(blocks, orig) == |ids| + (if toDefault then 1 else 0)
    requires Count(ids, orig) == 0 && nd != orig
    ensures Count(NewBlocks(blocks, orig, ids, toDefault, nd), b) ==
            if b == orig then 0
            else Count(blocks, b) + Count(ids, b) + (if toDefault && b == nd then 1 else 0)
  {
    RenameManyCounts(blocks, orig, ids, b);
    RenameManyCounts(blocks, orig, ids, orig);
    if toDefault {
      RenameFirstCounts(RenameMany(blocks, orig, ids), orig, nd, b);
    }
  }

  lemma NewEdges(terms: map<nat, Terminator>, orig: nat, dflt: nat, nd: nat, tree: Tree, hi: nat, t: nat, b: nat)
    requires Numbered(tree, nd + 1, hi) && t < nd && orig < nd && orig in terms && forall b | b in terms :: b < nd
    ensures EdgesFrom(NewTerms(terms, orig, dflt, nd, tree), b, t) ==
            if b == orig then 0
            else EdgesFrom(terms, b, t) + Count(LeavesTo(Leaves(tree), t), b) + (if dflt == t && b == nd then 1 else 0)
  {
    NewTermsAre(terms, orig, dflt, nd, tree, hi);
    TermKeys(tree, nd, nd + 1, hi);
    TreeEdges(tree, nd, nd + 1, hi, t, b);
  }

  lemma OldBlockIsNoLeaf(tree: Tree, nd: nat, hi: nat, t: nat, orig: nat)
    requires Numbered(tree, nd + 1, hi) && t < nd && orig < nd
    ensures Count(LeavesTo(Leaves(tree), t), orig) == 0
  {
    TermKeys(tree, nd, nd + 1, hi);
    TreeEdges(tree, nd, nd + 1, hi, t, orig);
  }

  lemma RewriteKeepsPhi(terms: map<nat, Terminator>, blocks: seq<nat>, orig: nat, dflt: nat, nd: nat,
                        tree: Tree, hi: nat, t: nat, b: nat)
    requires orig in terms && orig < nd && Numbered(tree, nd + 1, hi) && forall b | b in terms :: b < nd
    requires t < nd && Count(blocks, b) == EdgesFrom(terms, b, t)
    requires Count(blocks, orig) == |LeavesTo(Leaves(tree), t)| + (if t == dflt then 1 else 0)
    ensures Count(NewBlocks(blocks, orig, LeavesTo(Leaves(tree), t), t == dflt, nd), b) ==
            EdgesFrom(NewTerms(terms, orig, dflt, nd, tree), b, t)
  {
    NewEdges(terms, orig, dflt, nd, tree, hi, t, b);
    OldBlockIsNoLeaf(tree, nd, hi, t, orig);
    NewBlocksCounts(blocks, orig, LeavesTo(Leaves(tree), t), t == dflt, nd, b);
  }

  /** PHI conservation: the rewrite keeps one PHI entry per incoming edge, for every block and every PHI. */
  lemma RewriteKeepsPhis(terms: map<nat, Terminator>, phis: PhiTable, orig: nat, sw: Terminator, nd: nat, tree: Tree,
                         hi: nat)
    requires orig in terms && terms[orig] == sw && sw.Switch? && Numbered(tree, nd + 1, hi)
    requires (forall b | b in terms :: b < nd) && (forall t | t in phis :: t < nd)
    requires PhisMatch(terms, phis)
    requires forall t :: |LeavesTo(Leaves(tree), t)| == CasesTo(sw.cases, t)
    ensures PhisMatch(NewTerms(terms, orig, sw.dflt, nd, tree), NewPhis(phis, orig, sw.dflt, nd, tree))
  {
    var terms' := NewTerms(terms, orig, sw.dflt, nd, tree);
    var phis': PhiTable := NewPhis(phis, orig, sw.dflt, nd, tree);
    NewPhisKeys(phis, orig, sw.dflt, nd, tree);
    forall t: nat, j: nat, b: nat | t in phis' && j < |phis'[t]|
      ensures Count(phis'[t][j].blocks, b) == EdgesFrom(terms', b, t)
    {
      NewPhisAt(phis, orig, sw.dflt, nd, tree, t);
      assert Count(phis[t][j].blocks, orig) == EdgesFrom(terms, orig, t);
      assert Count(phis[t][j].blocks, b) == EdgesFrom(terms, b, t);
      RewriteKeepsPhi(terms, phis[t][j].blocks, orig, sw.dflt, nd, tree, hi, t, b);
    }
  }

  lemma {:induction false} RenameLeavesKeys(phis: PhiTable, old_: nat, leaves: seq<Leaf>)
    ensures RenameLeaves(phis, old_, leaves).Keys == phis.Keys
  {
    if leaves != [] {
      RenameLeavesKeys(phis, old_, leaves[..|leaves| - 1]);
    }
  }

  lemma NewPhisKeys(phis: PhiTable, orig: nat, dflt: nat, nd: nat, tree: Tree)
    ensures NewPhis(phis, orig, dflt, nd, tree).Keys == phis.Keys
  {
    RenameLeavesKeys(phis, orig, Leaves(tree));
  }

  // ----- the loops of switchConvert -----

  method CollectBytes(cases: seq<Case>, n: nat) returns (sets: seq<set<nat>>)
    ensures |sets| == n && forall i | 0 <= i < n :: sets[i] == BytesOf(cases, i)
  {
    sets := seq(n, _ => {});
    for k := 0 to |cases|
      invariant |sets| == n && forall i | 0 <= i < n :: sets[i] == BytesOf(cases[..k], i)
    {
      assert cases[..k + 1] == cases[..k] + [cases[k]];
      for i := 0 to n
        invariant |sets| == n
        invariant forall j | 0 <= j < i :: sets[j] == BytesOf(cases[..k + 1], j)
        invariant forall j | i <= j < n :: sets[j] == BytesOf(cases[..k], j)
      {
        assert BytesOf(cases[..k + 1], i) == BytesOf(cases[..k], i) + {ByteAt(cases[k].val, i)};
        sets := sets[i := sets[i] + {ByteAt(cases[k].val, i)}];
      }
    }
    assert cases[..|cases|] == cases;
  }

  method Smallest(sets: seq<set<nat>>, checked: seq<bool>, ghost cases: seq<Case>) returns (index: nat, size: nat)
    requires |sets| == |checked| && forall i | 0 <= i < |sets| :: sets[i] == BytesOf(cases, i)
    requires Callable(cases, checked)
    ensures index == Pick(cases, checked) && index < |checked| && size == |sets[index]|
  {
    index, size := 0, 257;
    for i := 0 to |sets|
      invariant index <= i && (size == 257 || (index < i && size == |sets[index]|))
      invariant size == 257 ==> forall j | 0 <= j < i :: checked[j]
      invariant PickFrom(cases, checked, i, index, size) == Pick(cases, checked)
    {
      RangeSize(sets[i], 256);
      if checked[i] { continue; }
      if |sets[i]| < size {
        index, size := i, |sets[i]|;
      }
    }
  }

  method Sorted(s: set<nat>) returns (v: seq<nat>)
    ensures v == SortedFrom(s, 0)
  {
    v := [];
    for b := 0 to 256
      invariant v + SortedFrom(s, b) == SortedFrom(s, 0)
    {
      if b in s {
        v := v + [b];
      }
    }
  }

  method MiddleByte(s: set<nat>) returns (p: nat)
    requires |s| >= 2 && forall b | b in s :: b < 256
    ensures p == Pivot(s)
  {
    var v := Sorted(s);
    IncreasingSize(v);
    assert s == Elements(v);
    p := v[|v| / 2];
  }

  method Divide(cases: seq<Case>, idx: nat, pivot: nat) returns (lhs: seq<Case>, rhs: seq<Case>)
    ensures lhs == Side(cases, idx, pivot, true) && rhs == Side(cases, idx, pivot, false)
  {
    lhs, rhs := [], [];
    for k := 0 to |cases|
      invariant lhs == Side(cases[..k], idx, pivot, true) && rhs == Side(cases[..k], idx, pivot, false)
    {
      assert cases[..k + 1][..k] == cases[..k];
      if ByteAt(cases[k].val, idx) < pivot {
        lhs := lhs + [cases[k]];
      } else {
        rhs := rhs + [cases[k]];
      }
    }
    assert cases[..|cases|] == cases;
  }

  // ----- the pass -----

  class Body {
    var terms: map<nat, Terminator>
    var phis: PhiTable
    var next: nat

    /** Block numbers in use are below next, and every branch leads to a block. */
    ghost predicate Valid()
      reads this
    {
      && (forall b | b in terms :: b < next)
      && (forall t | t in phis :: t < next)
      && Closed(terms)
    }

    /** The rule for PHI nodes: one entry per incoming edge. */
    ghost predicate PhiConsistent()
      reads this
    {
      PhisMatch(terms, phis)
    }

    /** For every PHI of t, the first entry for the block from becomes to. */
    method UpdatePhis(t: nat, from: nat, to: nat)
      modifies `phis
      ensures phis == RenameIn(old(phis), t, from, to)
    {
      if t in phis {
        var ps := phis[t];
        var out := [];
        for i := 0 to |ps|
          invariant phis == old(phis)
          invariant |out| == i
          invariant forall j | 0 <= j < i :: out[j] == ps[j].(blocks := RenameFirst(ps[j].blocks, from, to))
        {
          var p := UpdateFirst(ps[i], from, to);
          out := out + [p];
        }
        assert out == RenameAll(ps, from, to);
        phis := phis[t := out];
      }
    }

    method SwitchConvert(cases: seq<Case>, bytesChecked: seq<bool>, orig: nat, newDefault: nat)
      returns (node: nat, ghost tree: Tree)
      requires Callable(cases, bytesChecked)
      modifies this
      ensures (tree, next) == Convert(cases, bytesChecked, old(next)) && node == tree.id
      ensures terms == old(terms) + TermsOf(tree, newDefault)
      ensures phis == RenameLeaves(old(phis), orig, Leaves(tree))
      decreases Unchecked(bytesChecked), |cases|, 1
    {
      var byteSets := CollectBytes(cases, |bytesChecked|);
      var idx, size := Smallest(byteSets, bytesChecked, cases);
      node := next;
      if size == 1 {
        tree := TestByte(cases, bytesChecked, orig, newDefault, idx, byteSets[idx]);
      } else {
        tree := DivideCases(cases, bytesChecked, orig, newDefault, idx, byteSets[idx]);
      }
    }

    /** Only one byte is possible at idx: test for it. */
    method TestByte(cases: seq<Case>, bytesChecked: seq<bool>, orig: nat, newDefault: nat, idx: nat, bytes: set<nat>)
      returns (ghost tree: Tree)
      requires Callable(cases, bytesChecked) && idx == Pick(cases, bytesChecked)
      requires bytes == BytesOf(cases, idx) && |bytes| == 1
      modifies this
      ensures (tree, next) == Convert(cases, bytesChecked, old(next))
      ensures terms == old(terms) + TermsOf(tree, newDefault)
      ensures phis == RenameLeaves(old(phis), orig, Leaves(tree))
      decreases Unchecked(bytesChecked), |cases|, 0
    {
      CheckStep(cases, bytesChecked);
      var node := next;
      next := next + 1;
      var byte :| byte in bytes;
      var after := bytesChecked[idx := true];
      if AllChecked(after) {
        UpdatePhis(cases[0].bb, orig, node);
        terms := terms[node := IfEq(idx, byte, cases[0].bb, newDefault)];
        tree := Match(node, idx, byte, cases[0]);
        assert Leaves(tree)[..0] == [];
      } else {
        var bb; ghost var sub;
        bb, sub := SwitchConvert(cases, after, orig, newDefault);
        AddNode(old(terms), TermsOf(sub, newDefault), node, IfEq(idx, byte, bb, newDefault));
        terms := terms[node := IfEq(idx, byte, bb, newDefault)];
        tree := Check(node, idx, byte, sub);
      }
    }

    /** Several bytes are possible at idx: divide the cases at the middle one. */
    method DivideCases(cases: seq<Case>, bytesChecked: seq<bool>, orig: nat, newDefault: nat, idx: nat, bytes: set<nat>)
      returns (ghost tree: Tree)
      requires Callable(cases, bytesChecked) && idx == Pick(cases, bytesChecked)
      requires bytes == BytesOf(cases, idx) && |bytes| != 1
      modifies this
      ensures (tree, next) == Convert(cases, bytesChecked, old(next))
      ensures terms == old(terms) + TermsOf(tree, newDefault)
      ensures phis == RenameLeaves(old(phis), orig, Leaves(tree))
      decreases Unchecked(bytesChecked), |cases|, 0
    {
      AtLeastOneByte(cases, idx);
      SplitStep(cases, bytesChecked);
      var node := next;
      next := next + 1;
      var pivot := MiddleByte(bytes);
      var lhs, rhs := Divide(cases, idx, pivot);
      var lbb, rbb; ghost var l, r;
      lbb, l := SwitchConvert(lhs, bytesChecked, orig, newDefault);
      rbb, r := SwitchConvert(rhs, bytesChecked, orig, newDefault);
      AddSides(old(terms), TermsOf(l, newDefault), TermsOf(r, newDefault), node, IfLt(idx, pivot, lbb, rbb));
      terms := terms[node := IfLt(idx, pivot, lbb, rbb)];
      tree := Split(node, idx, pivot, l, r);
      RenameLeavesConcat(old(phis), orig, Leaves(l), Leaves(r));
    }

    /** What the IR verifier knows about a switch instruction in block orig. */
    ghost predicate GoodSwitch(orig: nat)
      reads this
    {
      orig in terms && GoodSwitchTerm(terms[orig])
    }

    /** Rewrite the switch that ends block orig. */
    method SplitSwitch(orig: nat) returns (done: bool)
      requires Valid() && PhiConsistent() && GoodSwitch(orig)
      modifies this
      ensures Valid() && PhiConsistent() && next >= old(next)
      ensures done <==> var sw := old(terms)[orig]; |sw.cases| >= 2 && sw.bits % 8 == 0 && sw.bits <= 64
      ensures done ==> orig in terms && terms[orig].Goto?
      ensures !done ==> terms == old(terms) && phis == old(phis) && next == old(next)
      ensures forall b | b in old(terms) && b != orig :: b in terms && terms[b] == old(terms)[b]
      ensures SameTargets(terms, orig, old(terms)[orig], old(next), next)
      ensures SameValues(phis, old(phis))
    {
      var Switch(cases, dflt, bits) := terms[orig];
      if |cases| < 2 || bits % 8 != 0 || bits > 64 {
        SwitchAsIs(terms, orig, next);
        return false;
      }
      Rewrite(orig, cases, dflt, bits);
      return true;
    }

    method Rewrite(orig: nat, cases: seq<Case>, dflt: nat, bits: nat)
      requires Valid() && PhiConsistent() && GoodSwitch(orig)
      requires terms[orig] == Switch(cases, dflt, bits) && |cases| >= 2
      modifies this
      ensures Valid() && PhiConsistent() && next >= old(next) && orig in terms && terms[orig].Goto?
      ensures forall b | b in old(terms) && b != orig :: b in terms && terms[b] == old(terms)[b]
      ensures SameTargets(terms, orig, old(terms)[orig], old(next), next)
      ensures SameValues(phis, old(phis))
    {
      SwitchIsCallable(terms[orig]);
      ghost var sw, nd := terms[orig], next;
      ghost var tree := Link(orig, cases, dflt, bits);
      ConvertFacts(sw, nd, tree, next);
      RewriteCorrect(old(terms), old(phis), orig, sw, nd, tree, next);
    }

    /** New default block, tree, branch to it in place of the switch, PHI nodes of the default. */
    method Link(orig: nat, cases: seq<Case>, dflt: nat, bits: nat) returns (ghost tree: Tree)
      requires Callable(cases, Untested(bits))
      modifies this
      ensures (tree, next) == Convert(cases, Untested(bits), old(next) + 1)
      ensures terms == NewTerms(old(terms), orig, dflt, old(next), tree)
      ensures phis == NewPhis(old(phis), orig, dflt, old(next), tree)
    {
      var newDefault := next;
      next := next + 1;
      terms := terms[newDefault := Goto(dflt)];
      var switchBlock;
      switchBlock, tree := SwitchConvert(cases, Untested(bits), orig, newDefault);
      terms := terms[orig := Goto(switchBlock)];
      UpdatePhis(dflt, orig, newDefault);
    }

    /** The loop of splitSwitches: every switch that qualifies is gone, control still goes from each switch to the
        target it would have chosen, and PHI nodes are consistent all along. The blocks made for the i-th switch are
        those from starts[i] up to starts[i + 1]: they test its value and no other. */
    method SplitAll(switches: seq<nat>) returns (ghost starts: seq<nat>)
      requires Valid() && PhiConsistent()
      requires forall i | 0 <= i < |switches| :: GoodSwitch(switches[i])
      requires forall i, j | 0 <= i < j < |switches| :: switches[i] != switches[j]
      modifies this
      ensures Valid() && PhiConsistent()
      ensures forall b | b in old(terms) ::
                b in terms && (terms[b] == old(terms)[b] || (b in switches && Qualifies(old(terms)[b])))
      ensures forall b | b in switches ::
                && b in terms
                && (terms[b].Switch? ==> |terms[b].cases| < 2 || terms[b].bits % 8 != 0 || terms[b].bits > 64)
      ensures |starts| == |switches| + 1 && starts[0] == old(next) && starts[|switches|] == next
      ensures forall i | 0 <= i < |switches| ::
                && switches[i] in old(terms) && old(next) <= starts[i] <= starts[i + 1]
                && SameTargets(terms, switches[i], old(terms)[switches[i]], starts[i], starts[i + 1])
      ensures SameValues(phis, old(phis))
    {
      starts := [next];
      for i := 0 to |switches|
        invariant Valid() && PhiConsistent() && SameValues(phis, old(phis))
        invariant Progress(terms, old(terms), switches, i)
        invariant |starts| == i + 1 && starts[0] == old(next) && starts[i] == next && next >= old(next)
        invariant Rewritten(terms, switches, old(terms), starts, i, old(next))
      {
        ghost var before := terms;
        assert GoodSwitchTerm(old(terms)[switches[i]]);
        var done := SplitSwitch(switches[i]);
        ProgressStep(before, terms, old(terms), switches, i);
        RewrittenOneMore(before, terms, switches, old(terms), starts, i, old(next), next);
        starts := starts + [next];
      }
    }
  }

  /** The first n switches that qualify are gone, and nothing else has changed. */
  ghost predicate Progress(terms: map<nat, Terminator>, before: map<nat, Terminator>, switches: seq<nat>, n: nat) {
    && (forall b | b in before ::
          b in terms && (terms[b] == before[b] || (b in switches && Qualifies(before[b]))))
    && (forall k | n <= k < |switches| ::
          switches[k] in before && switches[k] in terms && terms[switches[k]] == before[switches[k]])
    && (forall k | 0 <= k < n && k < |switches| :: switches[k] in terms && !Qualifies(terms[switches[k]]))
  }

  lemma ProgressStep(terms: map<nat, Terminator>, terms': map<nat, Terminator>, before: map<nat, Terminator>,
                     switches: seq<nat>, n: nat)
    requires n < |switches| && Progress(terms, before, switches, n)
    requires forall i, j | 0 <= i < j < |switches| :: switches[i] != switches[j]
    requires forall x | x in terms && x != switches[n] :: x in terms' && terms'[x] == terms[x]
    requires switches[n] in terms' && !Qualifies(terms'[switches[n]])
    requires terms'[switches[n]] == terms[switches[n]] || Qualifies(terms[switches[n]])
    ensures Progress(terms', before, switches, n + 1)
  {
    forall k | 0 <= k < n ensures switches[k] in terms' && !Qualifies(terms'[switches[k]]) {
      assert switches[k] != switches[n];
    }
    forall k | n < k < |switches| ensures switches[k] in terms' && terms'[switches[k]] == terms[switches[k]] {
      assert switches[k] != switches[n];
    }
  }

  /** The first n switches go where they went before, each through blocks of its own. */
  ghost predicate Rewritten(terms: map<nat, Terminator>, switches: seq<nat>, before: map<nat, Terminator>,
                            starts: seq<nat>, n: nat, start: nat)
  {
    && n <= |switches| && n < |starts|
    && forall k | 0 <= k < n ::
         && switches[k] in before && start <= starts[k] <= starts[k + 1]
         && SameTargets(terms, switches[k], before[switches[k]], starts[k], starts[k + 1])
  }

  /** Rewriting another switch disturbs no trail: its block is not on it. */
  lemma TargetsKept(terms: map<nat, Terminator>, terms': map<nat, Terminator>, b: nat, sw: Terminator, lo: nat,
                    hi: nat, orig: nat)
    requires SameTargets(terms, b, sw, lo, hi) && b != orig && orig < lo
    requires forall x | x in terms && x != orig :: x in terms' && terms'[x] == terms[x]
    ensures SameTargets(terms', b, sw, lo, hi)
  {
    forall v | Fits(v, (7 + sw.bits) / 8)
      ensures LeadsTo(terms', v, b, Next(sw, v).value, lo, hi)
    {
      var p :| TrailFromTo(terms, v, p, b, Next(sw, v).value, lo, hi);
      assert TrailFromTo(terms', v, p, b, Next(sw, v).value, lo, hi);
    }
  }

  lemma RewrittenOneMore(terms: map<nat, Terminator>, terms': map<nat, Terminator>, switches: seq<nat>,
                         before: map<nat, Terminator>, starts: seq<nat>, n: nat, start: nat, end: nat)
    requires n < |switches| && |starts| == n + 1 && Rewritten(terms, switches, before, starts, n, start)
    requires forall i, j | 0 <= i < j < |switches| :: switches[i] != switches[j]
    requires switches[n] in before && switches[n] < start <= starts[n] <= end
    requires forall x | x in terms && x != switches[n] :: x in terms' && terms'[x] == terms[x]
    requires SameTargets(terms', switches[n], before[switches[n]], starts[n], end)
    ensures Rewritten(terms', switches, before, starts + [end], n + 1, start)
  {
    forall k | 0 <= k < n
      ensures SameTargets(terms', switches[k], before[switches[k]], starts[k], starts[k + 1])
    {
      TargetsKept(terms, terms', switches[k], before[switches[k]], starts[k], starts[k + 1], switches[n]);
    }
  }

  /** What the IR verifier knows about a switch instruction. */
  ghost predicate GoodSwitchTerm(sw: Terminator) {
    && sw.Switch? && sw.bits >= 1 && DistinctValues(sw.cases)
    && forall c | c in sw.cases :: Fits(c.val, (7 + sw.bits) / 8)
  }

  /** From block b, control reaches the target the switch sw would have chosen, for every value, and passes only through
      blocks from lo up to hi on the way; the target itself is below lo. */
  ghost predicate SameTargets(terms: map<nat, Terminator>, b: nat, sw: Terminator, lo: nat, hi: nat) {
    && sw.Switch?
    && forall v | Fits(v, (7 + sw.bits) / 8) ::
         LeadsTo(terms, v, b, Next(sw, v).value, lo, hi) && Next(sw, v).value < lo
  }

  /** Which is to say: the next old block after b is the one the switch chooses, and no other. */
  lemma SameTargetsOnly(terms: map<nat, Terminator>, b: nat, sw: Terminator, lo: nat, hi: nat, v: nat, t: nat)
    requires SameTargets(terms, b, sw, lo, hi) && Fits(v, (7 + sw.bits) / 8) && t < lo
    ensures LeadsTo(terms, v, b, t, lo, hi) <==> t == Next(sw, v).value
  {
    if LeadsTo(terms, v, b, t, lo, hi) {
      LeadsToOne(terms, v, b, t, Next(sw, v).value, lo, hi);
    }
  }

  /** PHI nodes keep their incoming values, in place. */
  ghost predicate SameValues(phis: PhiTable, before: PhiTable) {
    && phis.Keys == before.Keys
    && (forall t | t in phis :: |phis[t]| == |before[t]|)
    && (forall t, j | t in phis && 0 <= j < |phis[t]| :: phis[t][j].values == before[t][j].values)
  }

  lemma SwitchAsIs(terms: map<nat, Terminator>, b: nat, lo: nat)
    requires b in terms && terms[b].Switch? && Closed(terms) && forall x | x in terms :: x < lo
    ensures SameTargets(terms, b, terms[b], lo, lo)
  {
    forall v ensures LeadsTo(terms, v, b, Next(terms[b], v).value, lo, lo) && Next(terms[b], v).value < lo {
      LeadsDirectly(terms, v, b, Next(terms[b], v).value, lo, lo);
      SwitchTargetExists(terms, b, v);
    }
  }

  lemma SwitchIsCallable(sw: Terminator)
    requires GoodSwitchTerm(sw) && sw.cases != []
    ensures Callable(sw.cases, Untested(sw.bits))
  {
    assert !Untested(sw.bits)[0];
  }

  /** What the rewrite needs to know about the tree. */
  ghost predicate TreeFor(tree: Tree, sw: Terminator, lo: nat, hi: nat) {
    && sw.Switch? && Numbered(tree, lo, hi)
    && (forall t :: |LeavesTo(Leaves(tree), t)| == CasesTo(sw.cases, t))
    && (forall v | Fits(v, (7 + sw.bits) / 8) :: Eval(tree, v) == Lookup(sw.cases, v))
  }

  lemma ConvertFacts(sw: Terminator, nd: nat, tree: Tree, hi: nat)
    requires sw.Switch? && Callable(sw.cases, Untested(sw.bits))
    requires (tree, hi) == Convert(sw.cases, Untested(sw.bits), nd + 1)
    ensures TreeFor(tree, sw, nd + 1, hi)
  {
    ConvertNumbers(sw.cases, Untested(sw.bits), nd + 1);
    forall t ensures |LeavesTo(Leaves(tree), t)| == CasesTo(sw.cases, t) {
      LeavesPerTarget(sw.cases, Untested(sw.bits), nd + 1, t);
    }
    forall v | Fits(v, (7 + sw.bits) / 8) ensures Eval(tree, v) == Lookup(sw.cases, v) {
      ConvertPreservesMeaning(sw.cases, Untested(sw.bits), nd + 1, v);
    }
  }

  /** Everything the rewrite of one switch promises. */
  lemma RewriteCorrect(terms: map<nat, Terminator>, phis: PhiTable, orig: nat, sw: Terminator, nd: nat, tree: Tree,
                       hi: nat)
    requires orig in terms && terms[orig] == sw && TreeFor(tree, sw, nd + 1, hi)
    requires (forall b | b in terms :: b < nd) && (forall t | t in phis :: t < nd)
    requires Closed(terms) && PhisMatch(terms, phis)
    ensures Closed(NewTerms(terms, orig, sw.dflt, nd, tree))
    ensures PhisMatch(NewTerms(terms, orig, sw.dflt, nd, tree), NewPhis(phis, orig, sw.dflt, nd, tree))
    ensures SameTargets(NewTerms(terms, orig, sw.dflt, nd, tree), orig, sw, nd, hi)
    ensures SameValues(NewPhis(phis, orig, sw.dflt, nd, tree), phis)
    ensures var r := NewTerms(terms, orig, sw.dflt, nd, tree);
            && (forall b :: b in r <==> b in terms || nd <= b < hi)
            && (forall b | b in terms && b != orig :: r[b] == terms[b])
            && r[orig].Goto?
  {
    RewriteKeepsPhis(terms, phis, orig, sw, nd, tree, hi);
    NewTermsAre(terms, orig, sw.dflt, nd, tree, hi);
    RewriteStaysClosed(terms, orig, sw, nd, tree, hi);
    RewriteKeepsTargets(terms, orig, sw, nd, tree, hi);
    RewriteKeepsValues(phis, orig, sw.dflt, nd, tree);
  }

  lemma RewriteKeepsTargets(terms: map<nat, Terminator>, orig: nat, sw: Terminator, nd: nat, tree: Tree, hi: nat)
    requires orig in terms && terms[orig] == sw && sw.Switch? && Closed(terms) && forall b | b in terms :: b < nd
    requires Numbered(tree, nd + 1, hi)
    requires forall v | Fits(v, (7 + sw.bits) / 8) :: Eval(tree, v) == Lookup(sw.cases, v)
    ensures SameTargets(NewTerms(terms, orig, sw.dflt, nd, tree), orig, sw, nd, hi)
  {
    forall v | Fits(v, (7 + sw.bits) / 8)
      ensures LeadsTo(NewTerms(terms, orig, sw.dflt, nd, tree), v, orig, Next(sw, v).value, nd, hi)
      ensures Next(sw, v).value < nd
    {
      RewriteMeaning(terms, orig, sw, nd, tree, hi, v);
      SwitchTargetExists(terms, orig, v);
    }
  }

  lemma RewriteKeepsValues(phis: PhiTable, orig: nat, dflt: nat, nd: nat, tree: Tree)
    ensures SameValues(NewPhis(phis, orig, dflt, nd, tree), phis)
  {
    NewPhisKeys(phis, orig, dflt, nd, tree);
    forall t | t in phis
      ensures |NewPhis(phis, orig, dflt, nd, tree)[t]| == |phis[t]|
      ensures forall j | 0 <= j < |phis[t]| :: NewPhis(phis, orig, dflt, nd, tree)[t][j].values == phis[t][j].values
    {
      NewPhisAt(phis, orig, dflt, nd, tree, t);
    }
  }

  lemma AddNode(m: map<nat, Terminator>, part: map<nat, Terminator>, b: nat, term: Terminator)
    ensures (m + part)[b := term] == m + part[b := term]
  {
  }

  lemma AddSides(m: map<nat, Terminator>, l: map<nat, Terminator>, r: map<nat, Terminator>, b: nat, term: Terminator)
    ensures ((m + l) + r)[b := term] == m + (l + r)[b := term]
  {
  }

  method UpdateFirst(p: Phi, from: nat, to: nat) returns (q: Phi)
    ensures q == p.(blocks := RenameFirst(p.blocks, from, to))
  {
    var k := 0;
    while k < |p.blocks| && p.blocks[k] != from
      invariant k <= |p.blocks| && from !in p.blocks[..k]
    {
      assert p.blocks[..k + 1] == p.blocks[..k] + [p.blocks[k]];
      k := k + 1;
    }
    RenameFirstAt(p.blocks, from, to, k);
    q := if k < |p.blocks| then p.(blocks := p.blocks[k := to]) else p;
  }

  lemma {:induction false} RenameFirstAt(blocks: seq<nat>, from: nat, to: nat, k: nat)
    requires k <= |blocks| && from !in blocks[..k] && (k < |blocks| ==> blocks[k] == from)
    ensures RenameFirst(blocks, from, to) == if k < |blocks| then blocks[k := to] else blocks
  {
    if k > 0 {
      assert blocks[0] in blocks[..k];
      assert forall x | x in blocks[1..][..k - 1] :: x in blocks[..k];
      RenameFirstAt(blocks[1..], from, to, k - 1);
      assert blocks == [blocks[0]] + blocks[1..];
    }
  }
}
