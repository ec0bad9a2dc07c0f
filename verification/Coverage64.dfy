/** The 64-bit word forms of the coverage-map operations, against the byte-level meaning. */
module Coverage64 {
  import opened CoverageMap

  type Word = bv64

  // The bytes of a word in memory order (little endian).
  function B0(w: Word): bv8 { (w & 0xff) as bv8 }
  function B1(w: Word): bv8 { ((w >> 8) & 0xff) as bv8 }
  function B2(w: Word): bv8 { ((w >> 16) & 0xff) as bv8 }
  function B3(w: Word): bv8 { ((w >> 24) & 0xff) as bv8 }
  function B4(w: Word): bv8 { ((w >> 32) & 0xff) as bv8 }
  function B5(w: Word): bv8 { ((w >> 40) & 0xff) as bv8 }
  function B6(w: Word): bv8 { ((w >> 48) & 0xff) as bv8 }
  function B7(w: Word): bv8 { ((w >> 56) & 0xff) as bv8 }

  /** The k low bytes of a word, lowest first. */
  function LowBytes(w: Word, k: nat): (b: Bytes)
    ensures |b| == k
  {
    if k == 0 then [] else [B0(w)] + LowBytes(w >> 8, k - 1)
  }

  function WordBytes(w: Word): (b: Bytes)
    ensures |b| == 8
  {
    LowBytes(w, 8)
  }

  lemma Tail7(w: Word)
    ensures LowBytes(w >> 56, 1) == [B7(w)]
  {
    assert B0(w >> 56) == B7(w);
  }

  lemma Tail6(w: Word)
    ensures LowBytes(w >> 48, 2) == [B6(w), B7(w)]
  {
    assert B0(w >> 48) == B6(w);
    assert (w >> 48) >> 8 == w >> 56;
    Tail7(w);
  }

  lemma Tail5(w: Word)
    ensures LowBytes(w >> 40, 3) == [B5(w), B6(w), B7(w)]
  {
    assert B0(w >> 40) == B5(w);
    assert (w >> 40) >> 8 == w >> 48;
    Tail6(w);
  }

  lemma Tail4(w: Word)
    ensures LowBytes(w >> 32, 4) == [B4(w), B5(w), B6(w), B7(w)]
  {
    assert B0(w >> 32) == B4(w);
    assert (w >> 32) >> 8 == w >> 40;
    Tail5(w);
  }

  lemma Tail3(w: Word)
    ensures LowBytes(w >> 24, 5) == [B3(w), B4(w), B5(w), B6(w), B7(w)]
  {
    assert B0(w >> 24) == B3(w);
    assert (w >> 24) >> 8 == w >> 32;
    Tail4(w);
  }

  lemma Tail2(w: Word)
    ensures LowBytes(w >> 16, 6) == [B2(w), B3(w), B4(w), B5(w), B6(w), B7(w)]
  {
    assert B0(w >> 16) == B2(w);
    assert (w >> 16) >> 8 == w >> 24;
    Tail3(w);
  }

  lemma Tail1(w: Word)
    ensures LowBytes(w >> 8, 7) == [B1(w), B2(w), B3(w), B4(w), B5(w), B6(w), B7(w)]
  {
    assert B0(w >> 8) == B1(w);
    assert (w >> 8) >> 8 == w >> 16;
    Tail2(w);
  }

  lemma WordBytesAre(w: Word)
    ensures WordBytes(w) == [B0(w), B1(w), B2(w), B3(w), B4(w), B5(w), B6(w), B7(w)]
  {
    Tail1(w);
  }

  function WordsOf(m: seq<Word>): seq<Bytes> {
    seq(|m|, k requires 0 <= k < |m| => WordBytes(m[k]))
  }

  /** A map of words as the bytes it holds. */
  function MapBytes(m: seq<Word>): Bytes {
    Flat(WordsOf(m))
  }

  lemma MapLength(m: seq<Word>)
    ensures |MapBytes(m)| == 8 * |m|
  {
    FlatLength(WordsOf(m), 8);
  }

  // ----- single words -----

  /** count_class_lookup16, as init_count_class16 fills it. */
  function Lookup16(h: bv16): bv16 {
    ((ClassOf((h >> 8) as bv8) as bv16) << 8) | (ClassOf((h & 0xff) as bv8) as bv16)
  }

  function ClassifyWord(w: Word): Word {
    (Lookup16((w & 0xffff) as bv16) as Word) |
    ((Lookup16(((w >> 16) & 0xffff) as bv16) as Word) << 16) |
    ((Lookup16(((w >> 32) & 0xffff) as bv16) as Word) << 32) |
    ((Lookup16(((w >> 48) & 0xffff) as bv16) as Word) << 48)
  }

  lemma AndWord(c: Word, v: Word)
    ensures c & v != 0 <==>
            Hits(B0(c), B0(v)) || Hits(B1(c), B1(v)) || Hits(B2(c), B2(v)) || Hits(B3(c), B3(v)) ||
            Hits(B4(c), B4(v)) || Hits(B5(c), B5(v)) || Hits(B6(c), B6(v)) || Hits(B7(c), B7(v))
  {
  }

  lemma ClearWord(c: Word, v: Word)
    ensures B0(v & !c) == Minus(B0(v), B0(c))
    ensures B1(v & !c) == Minus(B1(v), B1(c))
    ensures B2(v & !c) == Minus(B2(v), B2(c))
    ensures B3(v & !c) == Minus(B3(v), B3(c))
    ensures B4(v & !c) == Minus(B4(v), B4(c))
    ensures B5(v & !c) == Minus(B5(v), B5(c))
    ensures B6(v & !c) == Minus(B6(v), B6(c))
    ensures B7(v & !c) == Minus(B7(v), B7(c))
  {
  }

  lemma ClassifyBytes(w: Word)
    ensures B0(ClassifyWord(w)) == ClassOf(B0(w))
    ensures B1(ClassifyWord(w)) == ClassOf(B1(w))
    ensures B2(ClassifyWord(w)) == ClassOf(B2(w))
    ensures B3(ClassifyWord(w)) == ClassOf(B3(w))
    ensures B4(ClassifyWord(w)) == ClassOf(B4(w))
    ensures B5(ClassifyWord(w)) == ClassOf(B5(w))
    ensures B6(ClassifyWord(w)) == ClassOf(B6(w))
    ensures B7(ClassifyWord(w)) == ClassOf(B7(w))
  {
  }

  lemma AndIsBytewise(c: Word, v: Word)
    ensures c & v != 0 <==> NewBit(WordBytes(c), WordBytes(v))
  {
    AndWord(c, v);
    WordBytesAre(c);
    WordBytesAre(v);
    SomeByte(WordBytes(c), WordBytes(v));
  }

  lemma SomeByte(c: Bytes, v: Bytes)
    requires |c| == |v| == 8
    ensures NewBit(c, v) <==>
            Hits(c[0], v[0]) || Hits(c[1], v[1]) || Hits(c[2], v[2]) || Hits(c[3], v[3]) ||
            Hits(c[4], v[4]) || Hits(c[5], v[5]) || Hits(c[6], v[6]) || Hits(c[7], v[7])
    ensures NewTuple(c, v) <==>
            HitsFresh(c[0], v[0]) || HitsFresh(c[1], v[1]) || HitsFresh(c[2], v[2]) || HitsFresh(c[3], v[3]) ||
            HitsFresh(c[4], v[4]) || HitsFresh(c[5], v[5]) || HitsFresh(c[6], v[6]) || HitsFresh(c[7], v[7])
  {
  }

  lemma ClearIsBytewise(c: Word, v: Word)
    ensures WordBytes(v & !c) == Cleared(WordBytes(c), WordBytes(v))
  {
    ClearWord(c, v);
    WordBytesAre(c);
    WordBytesAre(v);
    WordBytesAre(v & !c);
  }

  method Classify(w: Word) returns (r: Word)
    ensures WordBytes(r) == Classified(WordBytes(w))
  {
    ClassifyBytes(w);
    r := ClassifyWord(w);
    WordBytesAre(w);
    WordBytesAre(r);
  }

  /** discover_word: the new verdict and the new virgin word. */
  method DiscoverWord(ret: nat, current: Word, virgin: Word) returns (ret': nat, virgin': Word)
    requires ret <= 2
    ensures ret' == Raised(ret, WordBytes(current), WordBytes(virgin))
    ensures WordBytes(virgin') == Cleared(WordBytes(current), WordBytes(virgin))
  {
    AndIsBytewise(current, virgin);
    ClearIsBytewise(current, virgin);
    ret', virgin' := ret, virgin;
    var cur, vir := WordBytes(current), WordBytes(virgin);
    SomeByte(cur, vir);
    if NewTuple(cur, vir) {
      TupleIsBit(cur, vir);
    }
    if current & virgin != 0 {
      if ret < 2 {
        if HitsFresh(cur[0], vir[0]) ||
           HitsFresh(cur[1], vir[1]) ||
           HitsFresh(cur[2], vir[2]) ||
           HitsFresh(cur[3], vir[3]) ||
           HitsFresh(cur[4], vir[4]) ||
           HitsFresh(cur[5], vir[5]) ||
           HitsFresh(cur[6], vir[6]) ||
           HitsFresh(cur[7], vir[7]) {
          ret' := 2;
        } else {
          ret' := 1;
        }
      }
      virgin' := virgin & !current;
    } else {
      KeepAll(current, virgin);
    }
  }

  // ----- whole maps -----

  method ClassifyCounts(trace: array<Word>)
    modifies trace
    ensures MapBytes(trace[..]) == Classified(old(MapBytes(trace[..])))
  {
    ghost var before := trace[..];
    for k := 0 to trace.Length
      invariant forall j | 0 <= j < k :: WordBytes(trace[j]) == Classified(WordBytes(before[j]))
      invariant forall j | k <= j < trace.Length :: trace[j] == before[j]
    {
      if trace[k] != 0 {
        trace[k] := Classify(trace[k]);
      } else {
        ZeroIsClassified(trace[k]);
      }
    }
    FlatClassified(WordsOf(before), WordsOf(trace[..]));
  }

  /** has_new_bits over the first n words: the verdict, and the virgin map with all hit bits cleared. */
  method HasNewBits(trace: array<Word>, virgin: array<Word>, n: nat) returns (ret: nat)
    requires trace != virgin && n <= trace.Length && n <= virgin.Length
    modifies virgin
    ensures |MapBytes(trace[..n])| == |old(MapBytes(virgin[..n]))|
    ensures ret == Novelty(MapBytes(trace[..n]), old(MapBytes(virgin[..n])))
    ensures MapBytes(virgin[..n]) == Cleared(MapBytes(trace[..n]), old(MapBytes(virgin[..n])))
    ensures virgin[n..] == old(virgin[n..])
  {
    ghost var cur, vir := WordsOf(trace[..n]), WordsOf(virgin[..n]);
    ret := DiscoverWords(trace, virgin, n, cur, vir);
    WordsToBytes(cur, vir, WordsOf(virgin[..n]), 8);
  }

  method DiscoverWords(trace: array<Word>, virgin: array<Word>, n: nat, ghost cur: seq<Bytes>, ghost vir: seq<Bytes>)
    returns (ret: nat)
    requires trace != virgin && n <= trace.Length && n <= virgin.Length && |cur| == |vir| == n
    requires Groups(cur, 8) && Groups(vir, 8)
    requires forall j | 0 <= j < n :: cur[j] == WordBytes(trace[j]) && vir[j] == WordBytes(virgin[j])
    modifies virgin
    ensures ret == FoundBelow(cur, vir, 8, n)
    ensures forall j | 0 <= j < n :: WordBytes(virgin[j]) == Cleared(cur[j], vir[j])
    ensures forall j | n <= j < virgin.Length :: virgin[j] == old(virgin[j])
  {
    ret := 0;
    for k := 0 to n
      invariant ret == FoundBelow(cur, vir, 8, k)
      invariant forall j | 0 <= j < k :: WordBytes(virgin[j]) == Cleared(cur[j], vir[j])
      invariant forall j | k <= j < virgin.Length :: virgin[j] == old(virgin[j])
    {
      FoundStep(cur, vir, 8, k);
      ret, virgin[k] := DiscoverHit(ret, trace[k], virgin[k]);
    }
  }

  /** Words that were not hit are skipped. */
  method DiscoverHit(ret: nat, current: Word, virgin: Word) returns (ret': nat, virgin': Word)
    requires ret <= 2
    ensures ret' == Raised(ret, WordBytes(current), WordBytes(virgin))
    ensures WordBytes(virgin') == Cleared(WordBytes(current), WordBytes(virgin))
  {
    ret', virgin' := ret, virgin;
    if current != 0 {
      ret', virgin' := DiscoverWord(ret, current, virgin);
    } else {
      NoHits(current, virgin);
    }
  }

  lemma KeepAll(c: Word, v: Word)
    requires c & v == 0
    ensures v & !c == v
  {
  }

  lemma ZeroAnd(v: Word)
    ensures 0 & v == 0
  {
  }

  lemma NoHits(c: Word, v: Word)
    requires c == 0
    ensures !NewTuple(WordBytes(c), WordBytes(v)) && !NewBit(WordBytes(c), WordBytes(v))
    ensures WordBytes(v) == Cleared(WordBytes(c), WordBytes(v))
  {
    ZeroAnd(v);
    AndIsBytewise(c, v);
    if NewTuple(WordBytes(c), WordBytes(v)) {
      TupleIsBit(WordBytes(c), WordBytes(v));
    }
    KeepAll(c, v);
    ClearIsBytewise(c, v);
  }

  lemma ZeroIsClassified(w: Word)
    requires w == 0
    ensures WordBytes(w) == Classified(WordBytes(w))
  {
    ClassifyBytes(w);
    ClassifyZero();
    WordBytesAre(w);
  }

  lemma ClassifyZero()
    ensures ClassifyWord(0) == 0
  {
  }

  /** The scalar skim: four words at a time, nothing written. */
  method Skim(virgin: array<Word>, current: array<Word>) returns (r: nat)
    requires virgin.Length == current.Length && current.Length % 4 == 0
    ensures |Classified(MapBytes(current[..]))| == |MapBytes(virgin[..])|
    ensures r == if NewBit(Classified(MapBytes(current[..])), MapBytes(virgin[..])) then 1 else 0
  {
    ghost var cur, vir := ClassifiedWords(WordsOf(current[..])), WordsOf(virgin[..]);
    NewsToBytes(WordsOf(current[..]), vir, 8);
    var k := 0;
    while k < current.Length
      invariant k % 4 == 0 && k <= current.Length && !BitBelow(cur, vir, 8, k)
    {
      var found := SkimFour(virgin, current, k, cur, vir);
      if found { return 1; }
      k := k + 4;
    }
    return 0;
  }

  method SkimFour(virgin: array<Word>, current: array<Word>, k: nat, ghost cur: seq<Bytes>, ghost vir: seq<Bytes>)
    returns (found: bool)
    requires virgin.Length == current.Length && k + 4 <= current.Length
    requires cur == ClassifiedWords(WordsOf(current[..])) && vir == WordsOf(virgin[..]) && !BitBelow(cur, vir, 8, k)
    ensures if found then BitBelow(cur, vir, 8, |cur|) else !BitBelow(cur, vir, 8, k + 4)
  {
    for i := 0 to 4
      invariant !BitBelow(cur, vir, 8, k + i)
    {
      found := SkimWord(virgin[k + i], current[k + i]);
      BelowStep(cur, vir, 8, k + i);
      if found { return true; }
    }
    return false;
  }

  method SkimWord(virgin: Word, current: Word) returns (found: bool)
    ensures found <==> NewBit(Classified(WordBytes(current)), WordBytes(virgin))
  {
    var cls := Classify(current);
    AndIsBytewise(cls, virgin);
    if current == 0 {
      ZeroIsClassified(current);
      NoHits(current, virgin);
    }
    found := current != 0 && cls & virgin != 0;
  }

  /** has_new_bits_unclassified: the fast path never changes the verdict or the virgin map. The scan covers the whole
      map, the verdict only the first `real_` words of it; so the trace is kept as it was exactly when nothing in the
      whole map is new, and classified otherwise, even if the verdict is 0. */
  method HasNewBitsUnclassified(trace: array<Word>, virgin: array<Word>, real_: nat) returns (ret: nat)
    requires trace != virgin && trace.Length == virgin.Length && trace.Length % 4 == 0 && real_ <= trace.Length
    modifies trace, virgin
    ensures |old(MapBytes(trace[..real_]))| == |old(MapBytes(virgin[..real_]))|
    ensures ret == Novelty(Classified(old(MapBytes(trace[..real_]))), old(MapBytes(virgin[..real_])))
    ensures MapBytes(virgin[..real_]) ==
            Cleared(Classified(old(MapBytes(trace[..real_]))), old(MapBytes(virgin[..real_])))
    ensures |Classified(old(MapBytes(trace[..])))| == |old(MapBytes(virgin[..]))|
    ensures NewBit(Classified(old(MapBytes(trace[..]))), old(MapBytes(virgin[..]))) ==>
              MapBytes(trace[..]) == Classified(old(MapBytes(trace[..])))
    ensures !NewBit(Classified(old(MapBytes(trace[..]))), old(MapBytes(virgin[..]))) ==>
              ret == 0 && trace[..] == old(trace[..])
  {
    ghost var cur, vir := trace[..], virgin[..];
    MapSplit(cur, real_);
    MapSplit(vir, real_);
    var hot := Skim(virgin, trace);
    if hot == 0 {
      NothingNew(Classified(MapBytes(cur[..real_])), Classified(MapBytes(cur[real_..])),
                 MapBytes(vir[..real_]), MapBytes(vir[real_..]));
      assert trace[..real_] == cur[..real_] && virgin[..real_] == vir[..real_];
      return 0;
    }
    ClassifyCounts(trace);
    MapSplit(trace[..], real_);
    PrefixOf(MapBytes(trace[..real_]), MapBytes(trace[real_..]),
             Classified(MapBytes(cur[..real_])), Classified(MapBytes(cur[real_..])));
    assert trace[..][..real_] == trace[..real_] && trace[..][real_..] == trace[real_..];
    assert virgin[..real_] == vir[..real_];
    ret := HasNewBits(trace, virgin, real_);
  }

  lemma MapSplit(m: seq<Word>, n: nat)
    requires n <= |m|
    ensures MapBytes(m) == MapBytes(m[..n]) + MapBytes(m[n..])
    ensures |MapBytes(m[..n])| == 8 * n && |MapBytes(m[n..])| == 8 * (|m| - n)
    ensures Classified(MapBytes(m)) == Classified(MapBytes(m[..n])) + Classified(MapBytes(m[n..]))
  {
    FlatConcat(WordsOf(m[..n]), WordsOf(m[n..]));
    assert WordsOf(m) == WordsOf(m[..n]) + WordsOf(m[n..]);
    MapLength(m[..n]);
    MapLength(m[n..]);
  }

  // ----- campaigns -----

  lemma OnesBytes()
    ensures AllOnes(WordBytes(0xffffffffffffffff))
  {
    WordBytesAre(0xffffffffffffffff);
  }

  function TraceBytes(traces: seq<seq<Word>>): seq<Bytes> {
    seq(|traces|, i requires 0 <= i < |traces| => MapBytes(traces[i]))
  }

  lemma TraceSizes(traces: seq<seq<Word>>, n: nat)
    requires forall i | 0 <= i < |traces| :: |traces[i]| == n
    ensures AllSized(TraceBytes(traces), 8 * n)
  {
    forall i | 0 <= i < |traces| ensures |TraceBytes(traces)[i]| == 8 * n {
      MapLength(traces[i]);
    }
  }

  method PristineMap(n: nat) returns (virgin: array<Word>)
    ensures fresh(virgin) && virgin.Length == n && MapBytes(virgin[..]) == VirginAfter([], 8 * n)
  {
    virgin := new Word[n](_ => 0xffffffffffffffff);
    OnesBytes();
    MapLength(virgin[..]);
    forall i | 0 <= i < 8 * n ensures MapBytes(virgin[..])[i] == 0xff {
      FlatOnes(WordsOf(virgin[..]), 8, i);
    }
  }

  /** A whole campaign over classified traces: each verdict is as the earlier traces say, and in the end the virgin map
      is the complement of everything that was hit. */
  method Campaign(traces: seq<seq<Word>>, n: nat) returns (verdicts: seq<nat>, virgin: array<Word>)
    requires forall i | 0 <= i < |traces| :: |traces[i]| == n
    ensures AllSized(TraceBytes(traces), 8 * n)
    ensures |verdicts| == |traces| && VerdictsOk(verdicts, TraceBytes(traces), 8 * n, |traces|)
    ensures IsComplement(MapBytes(virgin[..]), Union(TraceBytes(traces), 8 * n))
  {
    TraceSizes(traces, n);
    virgin := PristineMap(n);
    verdicts := RunAll(traces, n, virgin, TraceBytes(traces), 8 * n);
    VirginOfAll(TraceBytes(traces), 8 * n);
  }

  method RunAll(traces: seq<seq<Word>>, n: nat, virgin: array<Word>, ghost bytes: seq<Bytes>, ghost size: nat)
    returns (verdicts: seq<nat>)
    requires virgin.Length == n && size == 8 * n && AllSized(bytes, size) && |bytes| == |traces|
    requires forall i | 0 <= i < |traces| :: |traces[i]| == n && bytes[i] == MapBytes(traces[i])
    requires MapBytes(virgin[..]) == VirginAfter([], size)
    modifies virgin
    ensures |verdicts| == |traces| && VerdictsOk(verdicts, bytes, size, |bytes|)
    ensures MapBytes(virgin[..]) == VirginAfter(bytes, size)
  {
    verdicts := [];
    for k := 0 to |traces|
      invariant |verdicts| == k && VerdictsOk(verdicts, bytes, size, k)
      invariant MapBytes(virgin[..]) == VirginAfter(bytes[..k], size)
    {
      CampaignStep(verdicts, bytes, size, k);
      var v := OneTrace(traces[k], virgin);
      verdicts := verdicts + [v];
    }
    assert bytes[..|bytes|] == bytes;
  }

  /** The map holds this trace, and it is looked at. */
  method OneTrace(trace: seq<Word>, virgin: array<Word>) returns (v: nat)
    requires |trace| == virgin.Length
    modifies virgin
    ensures |MapBytes(trace)| == |old(MapBytes(virgin[..]))|
    ensures v == Novelty(MapBytes(trace), old(MapBytes(virgin[..])))
    ensures MapBytes(virgin[..]) == Cleared(MapBytes(trace), old(MapBytes(virgin[..])))
  {
    var bits := new Word[|trace|](i requires 0 <= i < |trace| => trace[i]);
    assert bits[..|trace|] == trace && virgin[..|trace|] == virgin[..];
    v := HasNewBits(bits, virgin, |trace|);
    assert virgin[..|trace|] == virgin[..];
  }

  // ----- the real size -----

  /** has_new_bits on a map of which `real_` bytes are in use, rounded up to words, in terms of the map's bytes. */
  method HasNewBitsReal(trace: array<Word>, virgin: array<Word>, real_: nat) returns (ret: nat)
    requires trace != virgin && trace.Length == virgin.Length && real_ <= 8 * trace.Length
    modifies virgin
    ensures Looked(MapBytes(trace[..]), old(MapBytes(virgin[..])), Up8(real_), ret, MapBytes(virgin[..]))
  {
    var k := (real_ + 7) / 8;
    MapSplit(trace[..], k);
    MapSplit(virgin[..], k);
    assert trace[..][..k] == trace[..k] && virgin[..][..k] == virgin[..k] && virgin[..][k..] == virgin[k..];
    ret := HasNewBits(trace, virgin, k);
    MapSplit(virgin[..], k);
    assert virgin[..][..k] == virgin[..k] && virgin[..][k..] == virgin[k..];
  }
}
