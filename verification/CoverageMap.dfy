/** What the coverage-map operations mean, byte by byte, and what that adds up to over a campaign. */
module CoverageMap {

  type Bytes = seq<bv8>

  /** count_class_lookup8 */
  function ClassOf(b: bv8): bv8 {
    if b <= 2 then b
    else if b == 3 then 4
    else if b <= 7 then 8
    else if b <= 15 then 16
    else if b <= 31 then 32
    else if b <= 127 then 64
    else 128
  }

  /**
    * The class of a count is the power of two that stands for its bucket: 1, 2, 3, 4-7, 8-15, 16-31, 32-127,
    * 128-255.
    */
  lemma ClassBuckets(b: bv8)
    ensures ClassOf(b) == 0 <==> b == 0
    ensures ClassOf(b) == 1 <==> b == 1
    ensures ClassOf(b) == 2 <==> b == 2
    ensures ClassOf(b) == 4 <==> b == 3
    ensures ClassOf(b) == 8 <==> 4 <= b <= 7
    ensures ClassOf(b) == 16 <==> 8 <= b <= 15
    ensures ClassOf(b) == 32 <==> 16 <= b <= 31
    ensures ClassOf(b) == 64 <==> 32 <= b <= 127
    ensures ClassOf(b) == 128 <==> 128 <= b
  {
  }

  /** Classes are ordered as counts are, and two counts share a bit exactly when they share a class. */
  lemma ClassesApart(a: bv8, b: bv8)
    ensures a <= b ==> ClassOf(a) <= ClassOf(b)
    ensures Hits(ClassOf(a), ClassOf(b)) <==> ClassOf(a) == ClassOf(b) && a != 0
  {
  }

  function Classified(m: Bytes): Bytes {
    seq(|m|, i requires 0 <= i < |m| => ClassOf(m[i]))
  }

  predicate Hits(c: bv8, v: bv8) { c & v != 0 }

  predicate HitsFresh(c: bv8, v: bv8) { c != 0 && v == 0xff }

  function Minus(v: bv8, c: bv8): bv8 { v & !c }

  function Plus(a: bv8, b: bv8): bv8 { a | b }

  predicate Within(a: bv8, b: bv8) { a & b == a }

  /** Some byte that was hit is untouched in the virgin map. */
  ghost predicate NewTuple(cur: Bytes, vir: Bytes)
    requires |cur| == |vir|
  {
    exists i | 0 <= i < |cur| :: HitsFresh(cur[i], vir[i])
  }

  /** Some bit that was hit is not yet cleared in the virgin map. */
  ghost predicate NewBit(cur: Bytes, vir: Bytes)
    requires |cur| == |vir|
  {
    exists i | 0 <= i < |cur| :: Hits(cur[i], vir[i])
  }

  ghost function Novelty(cur: Bytes, vir: Bytes): nat
    requires |cur| == |vir|
  {
    if NewTuple(cur, vir) then 2 else if NewBit(cur, vir) then 1 else 0
  }

  function Cleared(cur: Bytes, vir: Bytes): Bytes
    requires |cur| == |vir|
  {
    seq(|cur|, i requires 0 <= i < |cur| => Minus(vir[i], cur[i]))
  }

  // ----- pieces -----

  lemma NoveltyConcat(a: Bytes, b: Bytes, c: Bytes, d: Bytes)
    requires |a| == |c| && |b| == |d|
    ensures NewTuple(a + b, c + d) <==> NewTuple(a, c) || NewTuple(b, d)
    ensures NewBit(a + b, c + d) <==> NewBit(a, c) || NewBit(b, d)
    ensures Cleared(a + b, c + d) == Cleared(a, c) + Cleared(b, d)
  {
    if NewTuple(a, c) {
      var i :| 0 <= i < |a| && HitsFresh(a[i], c[i]);
      assert (a + b)[i] == a[i] && (c + d)[i] == c[i];
    }
    if NewTuple(b, d) {
      var i :| 0 <= i < |b| && HitsFresh(b[i], d[i]);
      assert (a + b)[|a| + i] == b[i] && (c + d)[|a| + i] == d[i];
    }
    if NewBit(a, c) {
      var i :| 0 <= i < |a| && Hits(a[i], c[i]);
      assert (a + b)[i] == a[i] && (c + d)[i] == c[i];
    }
    if NewBit(b, d) {
      var i :| 0 <= i < |b| && Hits(b[i], d[i]);
      assert (a + b)[|a| + i] == b[i] && (c + d)[|a| + i] == d[i];
    }
  }

  function Max(a: nat, b: nat): nat { if a < b then b else a }

  /** Looking at bytes up to b instead of up to a: the verdict is raised by the bytes between, and only they are cleared
      in addition. */
  lemma LongerPrefix(t: Bytes, v: Bytes, a: nat, b: nat)
    requires |t| == |v| && a <= b <= |t|
    ensures Novelty(t[..b], v[..b]) == Max(Novelty(t[..a], v[..a]), Novelty(t[a..b], v[a..b]))
    ensures Cleared(t[..b], v[..b]) == Cleared(t[..a], v[..a]) + Cleared(t[a..b], v[a..b])
  {
    assert t[..b] == t[..a] + t[a..b] && v[..b] == v[..a] + v[a..b];
    NoveltyConcat(t[..a], t[a..b], v[..a], v[a..b]);
  }

  /** A look at the first m bytes: the verdict, and the virgin map afterwards. */
  ghost predicate Looked(t: Bytes, v: Bytes, m: nat, ret: nat, out: Bytes) {
    m <= |t| == |v| && ret == Novelty(t[..m], v[..m]) && out == Cleared(t[..m], v[..m]) + v[m..]
  }

  /** A look at more bytes: only the bytes between can raise the verdict and are cleared in addition; if they hold no
      news, nothing differs. */
  lemma LookedFurther(t: Bytes, v: Bytes, a: nat, b: nat, ret: nat, out: Bytes, further: nat, out': Bytes)
    requires a <= b && Looked(t, v, a, ret, out) && Looked(t, v, b, further, out')
    ensures further == Max(ret, Novelty(t[a..b], v[a..b]))
    ensures out' == Cleared(t[..a], v[..a]) + Cleared(t[a..b], v[a..b]) + v[b..]
    ensures !NewBit(t[a..b], v[a..b]) ==> further == ret && out' == out
  {
    LongerPrefix(t, v, a, b);
    if !NewBit(t[a..b], v[a..b]) {
      NothingCleared(t[a..b], v[a..b]);
      assert v[a..b] + v[b..] == v[a..];
    }
  }

  /** Bytes rounded up to whole words of 4 and of 8. */
  function Up4(x: nat): (r: nat)
    ensures x <= r < x + 4
  {
    4 * ((x + 3) / 4)
  }

  function Up8(x: nat): (r: nat)
    ensures x <= r < x + 8
  {
    8 * ((x + 7) / 8)
  }

  lemma UpBoth(x: nat)
    ensures Up4(x) <= Up8(x) <= Up4(x) + 4
  {
    Multiples(x, (x + 3) / 4, (x + 7) / 8);
  }

  lemma Multiples(x: nat, q: nat, p: nat)
    requires x <= 4 * q < x + 4 && x <= 8 * p < x + 8
    ensures 4 * q <= 8 * p <= 4 * q + 4
  {
  }

  lemma NothingCleared(t: Bytes, v: Bytes)
    requires |t| == |v| && !NewBit(t, v)
    ensures Novelty(t, v) == 0 && Cleared(t, v) == v
  {
    assert t + [] == t && v + [] == v;
    NothingNew(t, [], v, []);
  }

  /** Groups of bytes, one per word. */
  ghost predicate Groups(words: seq<Bytes>, n: nat) {
    forall k | 0 <= k < |words| :: |words[k]| == n
  }

  function Flat(words: seq<Bytes>): Bytes {
    if words == [] then [] else Flat(words[..|words| - 1]) + words[|words| - 1]
  }

  lemma {:induction false} FlatLength(words: seq<Bytes>, n: nat)
    requires Groups(words, n)
    ensures |Flat(words)| == n * |words|
  {
    if words != [] {
      FlatLength(words[..|words| - 1], n);
      assert n * |words| == n * (|words| - 1) + n;
    }
  }

  /** Novelty word by word is novelty of the whole map. */
  lemma {:induction false} FlatNovelty(cur: seq<Bytes>, vir: seq<Bytes>, n: nat)
    requires |cur| == |vir| && Groups(cur, n) && Groups(vir, n)
    ensures |Flat(cur)| == |Flat(vir)|
    ensures NewTuple(Flat(cur), Flat(vir)) <==> exists k | 0 <= k < |cur| :: NewTuple(cur[k], vir[k])
    ensures NewBit(Flat(cur), Flat(vir)) <==> exists k | 0 <= k < |cur| :: NewBit(cur[k], vir[k])
  {
    FlatLength(cur, n);
    FlatLength(vir, n);
    if cur != [] {
      var m := |cur| - 1;
      FlatNovelty(cur[..m], vir[..m], n);
      NoveltyConcat(Flat(cur[..m]), cur[m], Flat(vir[..m]), vir[m]);
      assert forall k | 0 <= k < m :: cur[..m][k] == cur[k] && vir[..m][k] == vir[k];
    }
  }

  lemma {:induction false} FlatCleared(cur: seq<Bytes>, vir: seq<Bytes>, out: seq<Bytes>, n: nat)
    requires |cur| == |vir| == |out| && Groups(cur, n) && Groups(vir, n)
    requires forall k | 0 <= k < |cur| :: out[k] == Cleared(cur[k], vir[k])
    ensures |Flat(cur)| == |Flat(vir)| && Flat(out) == Cleared(Flat(cur), Flat(vir))
  {
    FlatLength(cur, n);
    FlatLength(vir, n);
    if cur != [] {
      var m := |cur| - 1;
      FlatCleared(cur[..m], vir[..m], out[..m], n);
      NoveltyConcat(Flat(cur[..m]), cur[m], Flat(vir[..m]), vir[m]);
    }
  }

  lemma {:induction false} FlatClassified(a: seq<Bytes>, b: seq<Bytes>)
    requires |a| == |b| && forall k | 0 <= k < |a| :: b[k] == Classified(a[k])
    ensures Flat(b) == Classified(Flat(a))
  {
    if a != [] {
      var m := |a| - 1;
      FlatClassified(a[..m], b[..m]);
      assert Classified(Flat(a[..m]) + a[m]) == Classified(Flat(a[..m])) + Classified(a[m]);
    }
  }

  lemma {:induction false} FlatConcat(a: seq<Bytes>, b: seq<Bytes>)
    ensures Flat(a + b) == Flat(a) + Flat(b)
  {
    if b == [] {
      assert a + b == a;
    } else {
      var m := |b| - 1;
      FlatConcat(a, b[..m]);
      assert (a + b)[..|a| + m] == a + b[..m];
    }
  }

  lemma {:induction false} FlatOnes(words: seq<Bytes>, n: nat, i: nat)
    requires Groups(words, n) && (forall k | 0 <= k < |words| :: AllOnes(words[k])) && i < |Flat(words)|
    ensures Flat(words)[i] == 0xff
  {
    var m := |words| - 1;
    if i < |Flat(words[..m])| {
      FlatOnes(words[..m], n, i);
    } else {
      assert AllOnes(words[m]);
    }
  }

  ghost predicate AllOnes(m: Bytes) { forall i | 0 <= i < |m| :: m[i] == 0xff }

  /** Some of the first k words has a new tuple, or a new bit. */
  ghost predicate TupleBelow(cur: seq<Bytes>, vir: seq<Bytes>, n: nat, k: nat)
    requires k <= |cur| == |vir| && Groups(cur, n) && Groups(vir, n)
  {
    exists j | 0 <= j < k :: NewTuple(cur[j], vir[j])
  }

  ghost predicate BitBelow(cur: seq<Bytes>, vir: seq<Bytes>, n: nat, k: nat)
    requires k <= |cur| == |vir| && Groups(cur, n) && Groups(vir, n)
  {
    exists j | 0 <= j < k :: NewBit(cur[j], vir[j])
  }

  ghost function FoundBelow(cur: seq<Bytes>, vir: seq<Bytes>, n: nat, k: nat): nat
    requires k <= |cur| == |vir| && Groups(cur, n) && Groups(vir, n)
  {
    if TupleBelow(cur, vir, n, k) then 2 else if BitBelow(cur, vir, n, k) then 1 else 0
  }

  /** A verdict so far, and what one more word makes of it. */
  ghost function Raised(ret: nat, cur: Bytes, vir: Bytes): nat
    requires |cur| == |vir|
  {
    if NewTuple(cur, vir) || ret == 2 then 2 else if NewBit(cur, vir) || ret == 1 then 1 else 0
  }

  lemma FoundStep(cur: seq<Bytes>, vir: seq<Bytes>, n: nat, k: nat)
    requires k < |cur| == |vir| && Groups(cur, n) && Groups(vir, n)
    ensures FoundBelow(cur, vir, n, k + 1) == Raised(FoundBelow(cur, vir, n, k), cur[k], vir[k])
  {
    BelowStep(cur, vir, n, k);
  }

  lemma BelowStep(cur: seq<Bytes>, vir: seq<Bytes>, n: nat, k: nat)
    requires k < |cur| == |vir| && Groups(cur, n) && Groups(vir, n)
    ensures TupleBelow(cur, vir, n, k + 1) <==> TupleBelow(cur, vir, n, k) || NewTuple(cur[k], vir[k])
    ensures BitBelow(cur, vir, n, k + 1) <==> BitBelow(cur, vir, n, k) || NewBit(cur[k], vir[k])
  {
  }

  /** Word-level verdicts and updates are those of the byte map. */
  lemma WordsToBytes(cur: seq<Bytes>, vir: seq<Bytes>, out: seq<Bytes>, n: nat)
    requires |cur| == |vir| == |out| && Groups(cur, n) && Groups(vir, n)
    requires forall k | 0 <= k < |cur| :: out[k] == Cleared(cur[k], vir[k])
    ensures |Flat(cur)| == |Flat(vir)| && FoundBelow(cur, vir, n, |cur|) == Novelty(Flat(cur), Flat(vir))
    ensures Flat(out) == Cleared(Flat(cur), Flat(vir))
  {
    FlatNovelty(cur, vir, n);
    FlatCleared(cur, vir, out, n);
  }

  function ClassifiedWords(words: seq<Bytes>): seq<Bytes> {
    seq(|words|, k requires 0 <= k < |words| => Classified(words[k]))
  }

  /** Skimming word by word looks for news in the whole classified map. */
  lemma NewsToBytes(cur: seq<Bytes>, vir: seq<Bytes>, n: nat)
    requires |cur| == |vir| && Groups(cur, n) && Groups(vir, n)
    ensures |Classified(Flat(cur))| == |Flat(vir)|
    ensures NewBit(Classified(Flat(cur)), Flat(vir)) <==> BitBelow(ClassifiedWords(cur), vir, n, |cur|)
  {
    FlatClassified(cur, ClassifiedWords(cur));
    FlatNovelty(ClassifiedWords(cur), vir, n);
  }

  /** A hit on an untouched byte is a new bit. */
  lemma TupleIsBit(cur: Bytes, vir: Bytes)
    requires |cur| == |vir| && NewTuple(cur, vir)
    ensures NewBit(cur, vir)
  {
    var i :| 0 <= i < |cur| && HitsFresh(cur[i], vir[i]);
    assert cur[i] & vir[i] == cur[i] by {
      AndOnes(cur[i]);
    }
  }

  lemma AndOnes(b: bv8)
    ensures b & 0xff == b
  {
  }

  lemma PrefixOf(a: Bytes, b: Bytes, c: Bytes, d: Bytes)
    requires a + b == c + d && |a| == |c|
    ensures a == c && b == d
  {
    assert (a + b)[..|a|] == a && (c + d)[..|a|] == c;
    assert (a + b)[|a|..] == b && (c + d)[|a|..] == d;
  }

  /** Without a new bit anywhere, the first part alone is no news and clears nothing. */
  lemma NothingNew(a: Bytes, b: Bytes, c: Bytes, d: Bytes)
    requires |a| == |c| && |b| == |d| && !NewBit(a + b, c + d)
    ensures Novelty(a, c) == 0 && Cleared(a, c) == c
  {
    NoveltyConcat(a, b, c, d);
    if NewTuple(a, c) {
      TupleIsBit(a, c);
    }
    forall i | 0 <= i < |a| ensures Minus(c[i], a[i]) == c[i] {
      assert !Hits(a[i], c[i]);
      ClearsNothing(a[i], c[i]);
    }
  }

  lemma ClearsNothing(a: bv8, c: bv8)
    requires !Hits(a, c)
    ensures Minus(c, a) == c
  {
  }

  // ----- campaigns -----

  predicate AllSized(traces: seq<Bytes>, n: nat) { forall i | 0 <= i < |traces| :: |traces[i]| == n }

  /** All bits any of the traces has hit. */
  function Union(traces: seq<Bytes>, n: nat): (u: Bytes)
    requires AllSized(traces, n)
    ensures |u| == n
  {
    if traces == [] then seq(n, _ => 0)
    else
      var k := |traces| - 1;
      var before := Union(traces[..k], n);
      seq(n, i requires 0 <= i < n => Plus(before[i], traces[k][i]))
  }

  /** The virgin map after processing the traces in order, from all ones. */
  function VirginAfter(traces: seq<Bytes>, n: nat): (v: Bytes)
    requires AllSized(traces, n)
    ensures |v| == n
  {
    if traces == [] then seq(n, _ => 0xff)
    else
      var k := |traces| - 1;
      Cleared(traces[k], VirginAfter(traces[..k], n))
  }

  lemma {:induction false} VirginIsComplement(traces: seq<Bytes>, n: nat, i: nat)
    requires AllSized(traces, n) && i < n
    ensures VirginAfter(traces, n)[i] == !Union(traces, n)[i]
  {
    if traces != [] {
      var k := |traces| - 1;
      VirginIsComplement(traces[..k], n, i);
      DeMorgan(Union(traces[..k], n)[i], traces[k][i]);
    }
  }

  lemma DeMorgan(a: bv8, b: bv8)
    ensures Minus(!a, b) == !Plus(a, b)
  {
  }

  lemma ComplementFacts(u: bv8)
    ensures !u == 0xff <==> u == 0
  {
    assert u == !!u;
  }

  /** The verdict on the next trace of a campaign, in terms of the traces alone: 2 exactly when it hits a byte
      that no earlier trace hit, otherwise 1 exactly when it hits a bit that no earlier trace hit. */
  ghost function Verdict(traces: seq<Bytes>, t: Bytes, n: nat): nat
    requires AllSized(traces, n) && |t| == n
  {
    var u := Union(traces, n);
    if exists i | 0 <= i < n :: t[i] != 0 && u[i] == 0 then 2
    else if exists i | 0 <= i < n :: Minus(t[i], u[i]) != 0 then 1
    else 0
  }

  lemma CampaignVerdict(traces: seq<Bytes>, t: Bytes, n: nat)
    requires AllSized(traces, n) && |t| == n
    ensures Novelty(t, VirginAfter(traces, n)) == Verdict(traces, t, n)
  {
    var u, v := Union(traces, n), VirginAfter(traces, n);
    forall i | 0 <= i < n ensures v[i] == !u[i] && (v[i] == 0xff <==> u[i] == 0) {
      VirginIsComplement(traces, n, i);
      ComplementFacts(u[i]);
    }
    assert forall i | 0 <= i < n :: HitsFresh(t[i], v[i]) <==> t[i] != 0 && u[i] == 0;
    assert forall i | 0 <= i < n :: Hits(t[i], v[i]) <==> Minus(t[i], u[i]) != 0;
  }

  /** The first k verdicts are as the traces before each say. */
  ghost predicate VerdictsOk(verdicts: seq<nat>, traces: seq<Bytes>, n: nat, k: nat)
    requires AllSized(traces, n)
  {
    k <= |traces| && k <= |verdicts| && forall j | 0 <= j < k :: verdicts[j] == Verdict(traces[..j], traces[j], n)
  }

  ghost predicate IsComplement(v: Bytes, u: Bytes) { |v| == |u| && forall i | 0 <= i < |v| :: v[i] == !u[i] }

  lemma VirginOfAll(traces: seq<Bytes>, n: nat)
    requires AllSized(traces, n)
    ensures IsComplement(VirginAfter(traces, n), Union(traces, n))
  {
    forall i | 0 <= i < n ensures VirginAfter(traces, n)[i] == !Union(traces, n)[i] {
      VirginIsComplement(traces, n, i);
    }
  }

  lemma VerdictsNext(verdicts: seq<nat>, traces: seq<Bytes>, n: nat, k: nat)
    requires AllSized(traces, n) && k < |traces| && |verdicts| == k && VerdictsOk(verdicts, traces, n, k)
    ensures VerdictsOk(verdicts + [Verdict(traces[..k], traces[k], n)], traces, n, k + 1)
  {
  }

  lemma VirginNext(traces: seq<Bytes>, n: nat, k: nat)
    requires AllSized(traces, n) && k < |traces|
    ensures VirginAfter(traces[..k + 1], n) == Cleared(traces[k], VirginAfter(traces[..k], n))
  {
    assert traces[..k + 1][..k] == traces[..k];
  }

  /** What the next trace of a campaign does to verdicts and virgin map. */
  lemma CampaignStep(verdicts: seq<nat>, traces: seq<Bytes>, n: nat, k: nat)
    requires AllSized(traces, n) && k < |traces| && |verdicts| == k && VerdictsOk(verdicts, traces, n, k)
    ensures VerdictsOk(verdicts + [Novelty(traces[k], VirginAfter(traces[..k], n))], traces, n, k + 1)
    ensures VirginAfter(traces[..k + 1], n) == Cleared(traces[k], VirginAfter(traces[..k], n))
  {
    CampaignVerdict(traces[..k], traces[k], n);
    VerdictsNext(verdicts, traces, n, k);
    VirginNext(traces, n, k);
  }

  /** Seeing the same trace again is never news. */
  lemma SameTraceIsOld(traces: seq<Bytes>, t: Bytes, n: nat)
    requires AllSized(traces, n) && t in traces
    ensures Novelty(t, VirginAfter(traces, n)) == 0
  {
    var u := Union(traces, n);
    forall i | 0 <= i < n ensures Minus(t[i], u[i]) == 0 && (t[i] != 0 ==> u[i] != 0) {
      UnionCovers(traces, t, n, i);
      Covered(t[i], u[i]);
    }
    CampaignVerdict(traces, t, n);
  }

  lemma {:induction false} UnionCovers(traces: seq<Bytes>, t: Bytes, n: nat, i: nat)
    requires AllSized(traces, n) && t in traces && i < n
    ensures Within(t[i], Union(traces, n)[i])
  {
    var k := |traces| - 1;
    var before := Union(traces[..k], n);
    assert traces == traces[..k] + [traces[k]];
    if t in traces[..k] {
      UnionCovers(traces[..k], t, n, i);
      Absorbs(t[i], before[i], traces[k][i]);
    } else {
      AbsorbsRight(t[i], before[i]);
    }
  }

  lemma Absorbs(t: bv8, u: bv8, w: bv8)
    requires Within(t, u)
    ensures Within(t, Plus(u, w))
  {
  }

  lemma AbsorbsRight(t: bv8, u: bv8)
    ensures Within(t, Plus(u, t))
  {
  }

  lemma Covered(t: bv8, u: bv8)
    requires Within(t, u)
    ensures Minus(t, u) == 0 && (t != 0 ==> u != 0)
  {
  }
}
