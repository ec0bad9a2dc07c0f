/** The decision tree of byte tests that the split-switches pass makes out of a switch, and its meaning. */
module SwitchTree {
  import opened Wrappers

  datatype Case = Case(val: nat, bb: nat)

  /** Every constructor is one NodeBlock; a test that fails in Match or Check goes to the new default block. */
  datatype Tree =
    | Match(id: nat, idx: nat, byte: nat, c: Case)
    | Check(id: nat, idx: nat, byte: nat, next: Tree)
    | Split(id: nat, idx: nat, pivot: nat, left: Tree, right: Tree)

  // ----- bytes of a value -----

  /** (v >> (i * 8)) & 0xFF */
  function ByteAt(v: nat, i: nat): (b: nat)
    ensures b < 256
  {
    if i == 0 then v % 256 else ByteAt(v / 256, i - 1)
  }

  /** v is a value of an n-byte integer type. */
  predicate Fits(v: nat, n: nat) {
    if n == 0 then v == 0 else Fits(v / 256, n - 1)
  }

  lemma {:induction false} BytesDetermine(v: nat, w: nat, n: nat)
    requires Fits(v, n) && Fits(w, n)
    requires forall i | 0 <= i < n :: ByteAt(v, i) == ByteAt(w, i)
    ensures v == w
  {
    if n > 0 {
      assert ByteAt(v, 0) == ByteAt(w, 0);
      forall i | 0 <= i < n - 1 ensures ByteAt(v / 256, i) == ByteAt(w / 256, i) {
        assert ByteAt(v, i + 1) == ByteAt(w, i + 1);
      }
      BytesDetermine(v / 256, w / 256, n - 1);
    }
  }

  function Pow256(n: nat): (p: nat)
    ensures p > 0
  {
    if n == 0 then 1 else 256 * Pow256(n - 1)
  }

  lemma {:induction false} FitsIsBelow(v: nat, n: nat)
    ensures Fits(v, n) <==> v < Pow256(n)
  {
    if n > 0 {
      FitsIsBelow(v / 256, n - 1);
    }
  }

  /** The value with these bytes, lowest first. */
  function Value(bytes: seq<nat>): nat {
    if bytes == [] then 0 else bytes[0] + 256 * Value(bytes[1..])
  }

  function BytesFrom(v: nat, n: nat): (r: seq<nat>)
    ensures |r| == n && forall i | 0 <= i < n :: r[i] == ByteAt(v, i)
  {
    seq(n, i requires 0 <= i < n => ByteAt(v, i))
  }

  /** The bytes of a value put together again, lowest first, are the value. */
  lemma {:induction false} BytesRebuild(v: nat, n: nat)
    requires Fits(v, n)
    ensures Value(BytesFrom(v, n)) == v
  {
    if n > 0 {
      BytesRebuild(v / 256, n - 1);
      assert BytesFrom(v, n)[1..] == BytesFrom(v / 256, n - 1);
    }
  }

  /** Byte i is what is left of the value below 256 after i shifts by eight bits. */
  lemma {:induction false} ByteIsShifted(v: nat, i: nat)
    ensures ByteAt(v, i) == Shifted(v, i) % 256
  {
    if i > 0 {
      ByteIsShifted(v / 256, i - 1);
    }
  }

  function Shifted(v: nat, i: nat): nat { if i == 0 then v else Shifted(v / 256, i - 1) }

  // ----- choosing the byte to test -----

  function BytesOf(cases: seq<Case>, i: nat): (s: set<nat>)
    ensures forall b | b in s :: b < 256
  {
    set c | c in cases :: ByteAt(c.val, i)
  }

  lemma {:induction false} RangeSize(s: set<nat>, n: nat)
    requires forall b | b in s :: b < n
    ensures |s| <= n
  {
    if n > 0 {
      RangeSize(s - {n - 1}, n - 1);
    } else {
      assert s == {};
    }
  }

  /** The unchecked position, from i on, with the fewest possible bytes; the first one among equals. */
  function PickFrom(cases: seq<Case>, checked: seq<bool>, i: nat, best: nat, size: nat): (r: nat)
    requires i <= |checked|
    decreases |checked| - i
  {
    if i == |checked| then best
    else if !checked[i] && |BytesOf(cases, i)| < size then PickFrom(cases, checked, i + 1, i, |BytesOf(cases, i)|)
    else PickFrom(cases, checked, i + 1, best, size)
  }

  function Pick(cases: seq<Case>, checked: seq<bool>): nat {
    PickFrom(cases, checked, 0, 0, 257)
  }

  lemma PickFromUnchecked(cases: seq<Case>, checked: seq<bool>, i: nat, best: nat, size: nat)
    requires i <= |checked|
    requires (best < |checked| && !checked[best]) || (size == 257 && exists j | i <= j < |checked| :: !checked[j])
    ensures var r := PickFrom(cases, checked, i, best, size); r < |checked| && !checked[r]
    decreases |checked| - i
  {
    if i < |checked| {
      RangeSize(BytesOf(cases, i), 256);
    }
  }

  /** No unchecked position has fewer bytes than the best so far and those from i on. */
  lemma {:induction false} PickFromSmallest(cases: seq<Case>, checked: seq<bool>, i: nat, best: nat, size: nat, j: nat)
    requires i <= j < |checked| && !checked[j]
    requires size == 257 || (best < i && size == |BytesOf(cases, best)|)
    ensures var r := PickFrom(cases, checked, i, best, size);
            && |BytesOf(cases, r)| <= |BytesOf(cases, j)| && |BytesOf(cases, r)| <= size
            && (r > j ==> |BytesOf(cases, r)| < |BytesOf(cases, j)|)
    decreases |checked| - i
  {
    RangeSize(BytesOf(cases, i), 256);
    RangeSize(BytesOf(cases, j), 256);
    var b, z := best, size;
    if !checked[i] && |BytesOf(cases, i)| < size {
      b, z := i, |BytesOf(cases, i)|;
    }
    if j > i {
      PickFromSmallest(cases, checked, i + 1, b, z, j);
    } else {
      PickFromKeeps(cases, checked, i + 1, b, z);
    }
  }

  lemma {:induction false} PickFromKeeps(cases: seq<Case>, checked: seq<bool>, i: nat, best: nat, size: nat)
    requires i <= |checked| && best < i && size == |BytesOf(cases, best)|
    ensures var r := PickFrom(cases, checked, i, best, size);
            |BytesOf(cases, r)| <= size && (r >= i ==> |BytesOf(cases, r)| < size) && (r < i ==> r == best)
    decreases |checked| - i
  {
    if i < |checked| {
      if !checked[i] && |BytesOf(cases, i)| < size {
        PickFromKeeps(cases, checked, i + 1, i, |BytesOf(cases, i)|);
      } else {
        PickFromKeeps(cases, checked, i + 1, best, size);
      }
    }
  }

  /** The position picked has the fewest bytes of all unchecked ones, and is the first such. */
  lemma PickIsSmallest(cases: seq<Case>, checked: seq<bool>, j: nat)
    requires j < |checked| && !checked[j]
    ensures var r := Pick(cases, checked);
            |BytesOf(cases, r)| <= |BytesOf(cases, j)| && (r > j ==> |BytesOf(cases, r)| < |BytesOf(cases, j)|)
  {
    PickFromSmallest(cases, checked, 0, 0, 257, j);
  }

  // ----- the pivot -----

  /** The bytes of s from b on, in order. */
  function SortedFrom(s: set<nat>, b: nat): (r: seq<nat>)
    requires b <= 256
    ensures forall x :: x in r <==> x in s && b <= x < 256
    ensures forall i, j | 0 <= i < j < |r| :: r[i] < r[j]
    decreases 256 - b
  {
    if b == 256 then []
    else
      var rest := SortedFrom(s, b + 1);
      assert forall j | 0 <= j < |rest| :: rest[j] in rest;
      if b in s then [b] + rest else rest
  }

  function Elements(r: seq<nat>): set<nat> {
    set x | x in r
  }

  lemma {:induction false} IncreasingSize(r: seq<nat>)
    requires forall i, j | 0 <= i < j < |r| :: r[i] < r[j]
    ensures |Elements(r)| == |r|
  {
    if r == [] {
      assert Elements(r) == {};
    } else {
      var n := |r| - 1;
      IncreasingSize(r[..n]);
      assert r == r[..n] + [r[n]];
      assert r[n] !in Elements(r[..n]);
      assert Elements(r) == Elements(r[..n]) + {r[n]};
    }
  }

  function Pivot(s: set<nat>): (p: nat)
    requires |s| >= 2 && forall b | b in s :: b < 256
    ensures p in s && exists b | b in s :: b < p
  {
    var v := SortedFrom(s, 0);
    IncreasingSize(v);
    assert s == Elements(v);
    assert v[0] in s && v[0] < v[|v| / 2] && v[|v| / 2] in v;
    v[|v| / 2]
  }

  lemma FirstOnes(v: seq<nat>, h: nat, x: nat)
    requires h < |v| && forall i, j | 0 <= i < j < |v| :: v[i] < v[j]
    ensures x in Elements(v[..h]) <==> x in Elements(v) && x < v[h]
  {
    if x in v && x < v[h] {
      var i :| 0 <= i < |v| && v[i] == x;
      assert v[..h][i] == x;
    }
    if x in v[..h] {
      var i :| 0 <= i < h && v[..h][i] == x;
      assert v[i] == x;
    }
  }

  /** The bytes of s below p. */
  function Lower(s: set<nat>, p: nat): set<nat> { set b | b in s && b < p }

  /** Half of the bytes, rounded down, are below the pivot. */
  lemma PivotIsMedian(s: set<nat>)
    requires |s| >= 2 && forall b | b in s :: b < 256
    ensures |Lower(s, Pivot(s))| == |s| / 2
  {
    var v := SortedFrom(s, 0);
    var h := |v| / 2;
    IncreasingSize(v);
    assert s == Elements(v);
    IncreasingSize(v[..h]);
    forall x ensures x in Lower(s, Pivot(s)) <==> x in Elements(v[..h]) {
      if x >= 0 {
        FirstOnes(v, h, x);
      }
    }
    assert Lower(s, Pivot(s)) == Elements(v[..h]);
  }

  // ----- dividing the cases -----

  function Side(cases: seq<Case>, idx: nat, pivot: nat, below: bool): (r: seq<Case>)
    ensures forall c :: c in r <==> c in cases && (ByteAt(c.val, idx) < pivot) == below
    ensures |r| <= |cases|
  {
    if cases == [] then []
    else
      var n := |cases| - 1;
      var front := Side(cases[..n], idx, pivot, below);
      assert cases == cases[..n] + [cases[n]];
      if (ByteAt(cases[n].val, idx) < pivot) == below then front + [cases[n]] else front
  }

  /** Sides keep the order of the cases. */
  lemma SideLast(a: seq<Case>, c: Case, idx: nat, pivot: nat, below: bool)
    ensures Side(a + [c], idx, pivot, below) ==
            Side(a, idx, pivot, below) + if (ByteAt(c.val, idx) < pivot) == below then [c] else []
  {
    assert (a + [c])[..|a|] == a;
  }

  ghost predicate DistinctValues(cases: seq<Case>) {
    forall i, j | 0 <= i < j < |cases| :: cases[i].val != cases[j].val
  }

  lemma {:induction false} SideDistinct(cases: seq<Case>, idx: nat, pivot: nat, below: bool)
    requires DistinctValues(cases)
    ensures DistinctValues(Side(cases, idx, pivot, below))
  {
    if cases != [] {
      var n := |cases| - 1;
      SideDistinct(cases[..n], idx, pivot, below);
      forall c | c in Side(cases[..n], idx, pivot, below) ensures c.val != cases[n].val {
        assert c in cases[..n];
      }
    }
  }

  lemma {:induction false} SidesPartition(cases: seq<Case>, idx: nat, pivot: nat)
    ensures multiset(Side(cases, idx, pivot, true)) + multiset(Side(cases, idx, pivot, false)) == multiset(cases)
    ensures |Side(cases, idx, pivot, true)| + |Side(cases, idx, pivot, false)| == |cases|
  {
    if cases != [] {
      var n := |cases| - 1;
      SidesPartition(cases[..n], idx, pivot);
      assert cases == cases[..n] + [cases[n]];
    }
  }

  // ----- switchConvert -----

  function Unchecked(checked: seq<bool>): nat {
    if checked == [] then 0 else (if checked[0] then 0 else 1) + Unchecked(checked[1..])
  }

  lemma {:induction false} MarkingDecreases(checked: seq<bool>, i: nat)
    requires i < |checked| && !checked[i]
    ensures Unchecked(checked[i := true]) < Unchecked(checked)
  {
    if i > 0 {
      MarkingDecreases(checked[1..], i - 1);
      assert checked[i := true][1..] == checked[1..][i - 1 := true];
    }
  }

  /** What holds in every recursive call. */
  ghost predicate Callable(cases: seq<Case>, checked: seq<bool>) {
    && cases != [] && DistinctValues(cases)
    && (exists i | 0 <= i < |checked| :: !checked[i])
    && (forall c | c in cases :: Fits(c.val, |checked|))
    && (forall i, c, d | 0 <= i < |checked| && checked[i] && c in cases && d in cases ::
          ByteAt(c.val, i) == ByteAt(d.val, i))
  }

  predicate AllChecked(checked: seq<bool>) {
    forall i | 0 <= i < |checked| :: checked[i]
  }

  lemma PickIsUnchecked(cases: seq<Case>, checked: seq<bool>)
    requires Callable(cases, checked)
    ensures Pick(cases, checked) < |checked| && !checked[Pick(cases, checked)]
  {
    PickFromUnchecked(cases, checked, 0, 0, 257);
  }

  lemma OneByteLeft(cases: seq<Case>, idx: nat)
    requires cases != [] && |BytesOf(cases, idx)| == 1
    ensures BytesOf(cases, idx) == {ByteAt(cases[0].val, idx)}
  {
    var b := ByteAt(cases[0].val, idx);
    assert cases[0] in cases;
    var rest := BytesOf(cases, idx) - {b};
    assert |rest| == 0;
    assert BytesOf(cases, idx) == rest + {b};
  }

  /** Both assertions of the source hold, and the recursive calls are again callable, on less. */
  lemma CheckStep(cases: seq<Case>, checked: seq<bool>)
    requires Callable(cases, checked)
    ensures var idx := Pick(cases, checked);
            && idx < |checked| && !checked[idx]
            && (|BytesOf(cases, idx)| == 1 ==>
                  && Unchecked(checked[idx := true]) < Unchecked(checked)
                  && BytesOf(cases, idx) == {ByteAt(cases[0].val, idx)}
                  && (AllChecked(checked[idx := true]) ==> |cases| == 1)
                  && (!AllChecked(checked[idx := true]) ==> Callable(cases, checked[idx := true])))
  {
    PickIsUnchecked(cases, checked);
    var idx := Pick(cases, checked);
    if |BytesOf(cases, idx)| == 1 {
      var after := checked[idx := true];
      MarkingDecreases(checked, idx);
      OneByteLeft(cases, idx);
      forall c | c in cases ensures ByteAt(c.val, idx) == ByteAt(cases[0].val, idx) {
        assert ByteAt(c.val, idx) in BytesOf(cases, idx);
      }
      if AllChecked(after) && |cases| > 1 {
        forall i | 0 <= i < |checked| ensures ByteAt(cases[0].val, i) == ByteAt(cases[1].val, i) {
          assert after[i];
        }
        BytesDetermine(cases[0].val, cases[1].val, |checked|);
      }
    }
  }

  lemma SideCallable(cases: seq<Case>, checked: seq<bool>, idx: nat, p: nat, below: bool, c: Case)
    requires Callable(cases, checked) && c in cases && (ByteAt(c.val, idx) < p) == below
    ensures Callable(Side(cases, idx, p, below), checked)
  {
    SideDistinct(cases, idx, p, below);
    assert c in Side(cases, idx, p, below);
  }

  lemma SplitStep(cases: seq<Case>, checked: seq<bool>)
    requires Callable(cases, checked) && |BytesOf(cases, Pick(cases, checked))| >= 2
    ensures var idx := Pick(cases, checked); var p := Pivot(BytesOf(cases, idx));
            forall below :: Callable(Side(cases, idx, p, below), checked) && |Side(cases, idx, p, below)| < |cases|
  {
    var idx := Pick(cases, checked);
    var p := Pivot(BytesOf(cases, idx));
    var b :| b in BytesOf(cases, idx) && b < p;
    var c :| c in cases && ByteAt(c.val, idx) == b;
    var d :| d in cases && ByteAt(d.val, idx) == p;
    SideCallable(cases, checked, idx, p, true, c);
    SideCallable(cases, checked, idx, p, false, d);
    SidesPartition(cases, idx, p);
  }

  lemma AtLeastOneByte(cases: seq<Case>, idx: nat)
    requires cases != []
    ensures |BytesOf(cases, idx)| >= 1
  {
    assert ByteAt(cases[0].val, idx) in BytesOf(cases, idx);
  }

  /** The tree for `cases`, with block numbers from `id0` on in the order the source creates them. */
  function Convert(cases: seq<Case>, checked: seq<bool>, id0: nat): (r: (Tree, nat))
    requires Callable(cases, checked)
    ensures r.0.id == id0 < r.1
    decreases Unchecked(checked), |cases|
  {
    CheckStep(cases, checked);
    AtLeastOneByte(cases, Pick(cases, checked));
    var idx := Pick(cases, checked);
    var bytes := BytesOf(cases, idx);
    if |bytes| == 1 then
      var byte := ByteAt(cases[0].val, idx);
      var after := checked[idx := true];
      if AllChecked(after) then (Match(id0, idx, byte, cases[0]), id0 + 1)
      else
        var (t, n) := Convert(cases, after, id0 + 1);
        (Check(id0, idx, byte, t), n)
    else
      SplitStep(cases, checked);
      var p := Pivot(bytes);
      var (l, n) := Convert(Side(cases, idx, p, true), checked, id0 + 1);
      var (r, m) := Convert(Side(cases, idx, p, false), checked, n);
      (Split(id0, idx, p, l, r), m)
  }

  // ----- meaning -----

  /** The case block that the tests lead to for a switched value, or none for the default. */
  function Eval(t: Tree, v: nat): Option<nat> {
    match t
    case Match(_, idx, byte, c) => if ByteAt(v, idx) == byte then Some(c.bb) else None
    case Check(_, idx, byte, next) => if ByteAt(v, idx) == byte then Eval(next, v) else None
    case Split(_, idx, pivot, l, r) => if ByteAt(v, idx) < pivot then Eval(l, v) else Eval(r, v)
  }

  /** What a switch instruction does. */
  function Lookup(cases: seq<Case>, v: nat): Option<nat> {
    if cases == [] then None else if cases[0].val == v then Some(cases[0].bb) else Lookup(cases[1..], v)
  }

  lemma {:induction false} LookupFinds(cases: seq<Case>, v: nat)
    requires DistinctValues(cases)
    ensures forall c | c in cases && c.val == v :: Lookup(cases, v) == Some(c.bb)
    ensures (forall c | c in cases :: c.val != v) ==> Lookup(cases, v) == None
  {
    if cases != [] {
      LookupFinds(cases[1..], v);
      assert cases == [cases[0]] + cases[1..];
      forall c | c in cases && c.val == v ensures Lookup(cases, v) == Some(c.bb) {
        if c != cases[0] {
          assert c in cases[1..];
        }
      }
    }
  }

  ghost predicate AgreesOnChecked(cases: seq<Case>, checked: seq<bool>, v: nat) {
    forall i, c | 0 <= i < |checked| && checked[i] && c in cases :: ByteAt(v, i) == ByteAt(c.val, i)
  }

  lemma LookupMisses(cases: seq<Case>, idx: nat, v: nat)
    requires DistinctValues(cases) && forall c | c in cases :: ByteAt(c.val, idx) != ByteAt(v, idx)
    ensures Lookup(cases, v) == None
  {
    LookupFinds(cases, v);
  }

  lemma LookupInSide(cases: seq<Case>, idx: nat, p: nat, v: nat)
    requires DistinctValues(cases)
    ensures Lookup(cases, v) == Lookup(Side(cases, idx, p, ByteAt(v, idx) < p), v)
  {
    var side := Side(cases, idx, p, ByteAt(v, idx) < p);
    SideDistinct(cases, idx, p, ByteAt(v, idx) < p);
    LookupFinds(cases, v);
    LookupFinds(side, v);
    if c :| c in cases && c.val == v {
      assert c in side;
    }
  }

  /** Main result: the tree reaches the block of the matching case, or the default when none matches. */
  lemma {:induction false} ConvertPreservesMeaning(cases: seq<Case>, checked: seq<bool>, id0: nat, v: nat)
    requires Callable(cases, checked) && Fits(v, |checked|) && AgreesOnChecked(cases, checked, v)
    ensures Eval(Convert(cases, checked, id0).0, v) == Lookup(cases, v)
    decreases Unchecked(checked), |cases|
  {
    CheckStep(cases, checked);
    var idx := Pick(cases, checked);
    AtLeastOneByte(cases, idx);
    if |BytesOf(cases, idx)| == 1 {
      ChecksPreserveMeaning(cases, checked, id0, v);
    } else {
      SplitStep(cases, checked);
      var p := Pivot(BytesOf(cases, idx));
      LookupInSide(cases, idx, p, v);
      var (l, n) := Convert(Side(cases, idx, p, true), checked, id0 + 1);
      if ByteAt(v, idx) < p {
        ConvertPreservesMeaning(Side(cases, idx, p, true), checked, id0 + 1, v);
      } else {
        ConvertPreservesMeaning(Side(cases, idx, p, false), checked, n, v);
      }
    }
  }

  lemma ChecksPreserveMeaning(cases: seq<Case>, checked: seq<bool>, id0: nat, v: nat)
    requires Callable(cases, checked) && Fits(v, |checked|) && AgreesOnChecked(cases, checked, v)
    requires |BytesOf(cases, Pick(cases, checked))| == 1
    ensures Eval(Convert(cases, checked, id0).0, v) == Lookup(cases, v)
    decreases Unchecked(checked), |cases|, 0
  {
    CheckStep(cases, checked);
    var idx := Pick(cases, checked);
    var after := checked[idx := true];
    forall c | c in cases ensures ByteAt(c.val, idx) == ByteAt(cases[0].val, idx) {
      assert ByteAt(c.val, idx) in BytesOf(cases, idx);
    }
    if ByteAt(v, idx) != ByteAt(cases[0].val, idx) {
      LookupMisses(cases, idx, v);
    } else if AllChecked(after) {
      forall i | 0 <= i < |checked| ensures ByteAt(v, i) == ByteAt(cases[0].val, i) {
        assert after[i];
      }
      BytesDetermine(v, cases[0].val, |checked|);
    } else {
      ConvertPreservesMeaning(cases, after, id0 + 1, v);
    }
  }

  // ----- leaves and block numbers -----

  /** A block that branches to the block of a case. */
  datatype Leaf = Leaf(id: nat, c: Case)

  /** In the order they are created. */
  function Leaves(t: Tree): seq<Leaf> {
    match t
    case Match(id, _, _, c) => [Leaf(id, c)]
    case Check(_, _, _, next) => Leaves(next)
    case Split(_, _, _, l, r) => Leaves(l) + Leaves(r)
  }

  function CasesOf(t: Tree): multiset<Case> {
    match t
    case Match(_, _, _, c) => multiset{c}
    case Check(_, _, _, next) => CasesOf(next)
    case Split(_, _, _, l, r) => CasesOf(l) + CasesOf(r)
  }

  /** Each case owns exactly one leaf. */
  lemma {:induction false} LeavesOwnCases(cases: seq<Case>, checked: seq<bool>, id0: nat)
    requires Callable(cases, checked)
    ensures CasesOf(Convert(cases, checked, id0).0) == multiset(cases)
    decreases Unchecked(checked), |cases|
  {
    CheckStep(cases, checked);
    var t := Convert(cases, checked, id0).0;
    var idx := Pick(cases, checked);
    AtLeastOneByte(cases, idx);
    if |BytesOf(cases, idx)| == 1 {
      var after := checked[idx := true];
      if AllChecked(after) {
        assert cases == [cases[0]];
      } else {
        LeavesOwnCases(cases, after, id0 + 1);
      }
    } else {
      SplitStep(cases, checked);
      var p := Pivot(BytesOf(cases, idx));
      var (l, n) := Convert(Side(cases, idx, p, true), checked, id0 + 1);
      LeavesOwnCases(Side(cases, idx, p, true), checked, id0 + 1);
      LeavesOwnCases(Side(cases, idx, p, false), checked, n);
      SidesPartition(cases, idx, p);
    }
  }

  /** Blocks are numbered in the order of creation, without gaps: lo is the root, hi the next free number. */
  predicate Numbered(t: Tree, lo: nat, hi: nat) {
    && t.id == lo < hi
    && match t
       case Match(_, _, _, _) => hi == lo + 1
       case Check(_, _, _, next) => Numbered(next, lo + 1, hi)
       case Split(_, _, _, l, r) => lo < r.id < hi && Numbered(l, lo + 1, r.id) && Numbered(r, r.id, hi)
  }

  lemma {:induction false} ConvertNumbers(cases: seq<Case>, checked: seq<bool>, id0: nat)
    requires Callable(cases, checked)
    ensures Numbered(Convert(cases, checked, id0).0, id0, Convert(cases, checked, id0).1)
    decreases Unchecked(checked), |cases|
  {
    CheckStep(cases, checked);
    var idx := Pick(cases, checked);
    AtLeastOneByte(cases, idx);
    if |BytesOf(cases, idx)| == 1 {
      var after := checked[idx := true];
      if !AllChecked(after) {
        ConvertNumbers(cases, after, id0 + 1);
      }
    } else {
      SplitStep(cases, checked);
      var p := Pivot(BytesOf(cases, idx));
      var (l, n) := Convert(Side(cases, idx, p, true), checked, id0 + 1);
      ConvertNumbers(Side(cases, idx, p, true), checked, id0 + 1);
      ConvertNumbers(Side(cases, idx, p, false), checked, n);
    }
  }
}
