/** The step of XXH3_rrmxmx that mixes the length in, for every 64-bit length: which lengths make two words collide. */
module AddLength {

  function High(x: bv64): bv64 { x >> 35 }
  function Low(x: bv64): bv64 { x & 0x7_FFFF_FFFF }
  function Plus(x: bv64, y: bv64): bv64 { x + y }
  function Xor(x: bv64, y: bv64): bv64 { x ^ y }

  function AddLen(x: bv64, len: bv64): bv64 { Xor(x, Plus(High(x), len)) }

  /** The inverse, as long as no sum carries into the high part. */
  function UnaddLen(y: bv64, len: bv64): bv64 { Xor(y, Plus(Xor(High(y), High(len)), len)) }

  predicate Fits(z: bv64) { z < 0x2000_0000 }
  predicate NoCarry(len: bv64) { Low(len) <= 0x7_E000_0000 }

  /** The high part of len after a carry. */
  function Carried(len: bv64): bv64 { (High(len) + 1) & 0x1FFF_FFFF }

  /** The bits a carry flips: a run of ones at the low end. */
  function Flipped(len: bv64): bv64 { Xor(High(len), Carried(len)) }

  /** From here on a number carries when len is added. */
  function Threshold(len: bv64): bv64 { 0x8_0000_0000 - Low(len) }

  predicate Apart(t: bv64, m: bv64) { t & m == 0 }
  predicate Below(z: bv64, t: bv64) { z < t }
  predicate Ones(m: bv64) { m & (m + 1) == 0 }
  predicate Carries(z: bv64, len: bv64) { !Below(z, Threshold(len)) }

  /** Nothing carries, or the carry starts at a multiple of the block it flips. */
  predicate Fine(len: bv64) { NoCarry(len) || Apart(Threshold(len), Flipped(len)) }

  // ----- bits -----

  lemma HighXor(x: bv64, y: bv64)
    ensures High(Xor(x, y)) == Xor(High(x), High(y))
  {
    assert High(x ^ y) == (x >> 35) ^ (y >> 35);
  }

  lemma LowXor(x: bv64, y: bv64)
    ensures Low(Xor(x, y)) == Xor(Low(x), Low(y))
  {
    assert Low(x ^ y) == (x & 0x7_FFFF_FFFF) ^ (y & 0x7_FFFF_FFFF);
  }

  lemma XorTwice(x: bv64, y: bv64)
    ensures Xor(Xor(x, y), y) == x
  {
    assert Xor(x ^ y, y) == x;
  }

  lemma XorCancels(x: bv64, y: bv64, s: bv64)
    requires Xor(x, s) == Xor(y, s)
    ensures x == y
  {
    XorTwice(x, s);
    XorTwice(y, s);
  }

  lemma XorSwaps(a: bv64, p: bv64, b: bv64, q: bv64)
    requires Xor(a, p) == Xor(b, q)
    ensures Xor(a, b) == Xor(p, q)
  {
    assert Xor(Xor(a, p), Xor(p, b)) == Xor(a, b) by { XorMiddle(a, p, b); }
    assert Xor(Xor(b, q), Xor(p, b)) == Xor(p, q) by { XorOuter(b, q, p); }
  }

  lemma XorMiddle(a: bv64, p: bv64, b: bv64)
    ensures Xor(Xor(a, p), Xor(p, b)) == Xor(a, b)
  {
    assert Xor(a ^ p, p ^ b) == a ^ b;
  }

  lemma XorOuter(b: bv64, q: bv64, p: bv64)
    ensures Xor(Xor(b, q), Xor(p, b)) == Xor(p, q)
  {
    assert Xor(b ^ q, p ^ b) == p ^ q;
  }

  lemma HighFits(x: bv64)
    ensures Fits(High(x))
  {
    assert x >> 35 < 0x2000_0000;
  }

  lemma XorFits(x: bv64, y: bv64)
    requires Fits(x) && Fits(y)
    ensures Fits(Xor(x, y))
  {}

  lemma BothParts(x: bv64, y: bv64)
    requires High(x) == High(y) && Low(x) == Low(y)
    ensures x == y
  {}

  lemma NoCarryHigh(z: bv64, len: bv64)
    requires Fits(z) && !Carries(z, len)
    ensures High(Plus(z, len)) == High(len)
  {}

  lemma CarryHigh(z: bv64, len: bv64)
    requires Fits(z) && Carries(z, len)
    ensures High(Plus(z, len)) == Carried(len)
  {}

  lemma NeverCarries(z: bv64, len: bv64)
    requires Fits(z) && NoCarry(len)
    ensures !Carries(z, len)
  {}

  // ----- two-sided inverse without carries -----

  lemma AddLenUndone(x: bv64, len: bv64)
    requires NoCarry(len)
    ensures UnaddLen(AddLen(x, len), len) == x
  {
    HighFits(x);
    NeverCarries(High(x), len);
    NoCarryHigh(High(x), len);
    HighAfter(x, Plus(High(x), len), len);
    XorTwice(High(x), High(len));
    XorTwice(x, Plus(High(x), len));
  }

  lemma HighAfter(x: bv64, s: bv64, len: bv64)
    requires High(s) == High(len)
    ensures High(Xor(x, s)) == Xor(High(x), High(len))
  {
    HighXor(x, s);
  }

  lemma UnaddLenUndone(y: bv64, len: bv64)
    requires NoCarry(len)
    ensures AddLen(UnaddLen(y, len), len) == y
  {
    var z := Xor(High(y), High(len));
    HighFits(y);
    HighFits(len);
    XorFits(High(y), High(len));
    NeverCarries(z, len);
    NoCarryHigh(z, len);
    HighAfter(y, Plus(z, len), len);
    XorTwice(y, Plus(z, len));
  }

  // ----- injective exactly for fine lengths -----

  lemma HighAdd(x: bv64, len: bv64)
    ensures High(AddLen(x, len)) == Xor(High(x), if Carries(High(x), len) then Carried(len) else High(len))
  {
    HighFits(x);
    HighXor(x, Plus(High(x), len));
    if Carries(High(x), len) {
      CarryHigh(High(x), len);
    } else {
      NoCarryHigh(High(x), len);
    }
  }

  lemma FlippedIsRun(len: bv64)
    ensures Ones(Flipped(len)) && Fits(Flipped(len))
  {}

  lemma RunStaysBelow(h: bv64, t: bv64, m: bv64)
    requires Ones(m) && Apart(t, m) && Below(h, t)
    ensures Below(h | m, t)
  {}

  lemma FlipStaysInRun(h: bv64, k: bv64, m: bv64)
    requires Xor(h, k) == m
    ensures !Below(h | m, k)
  {}

  lemma StaysBelow(h: bv64, k: bv64, t: bv64, m: bv64)
    requires Ones(m) && Apart(t, m) && Below(h, t) && Xor(h, k) == m
    ensures Below(k, t)
  {
    RunStaysBelow(h, t, m);
    FlipStaysInRun(h, k, m);
    Between(k, h | m, t);
  }

  lemma Between(k: bv64, r: bv64, t: bv64)
    requires !Below(r, k) && Below(r, t)
    ensures Below(k, t)
  {}

  /** Without a carry on one side there is none on the other. */
  lemma OneSide(h: bv64, k: bv64, len: bv64)
    requires Fits(h) && Fits(k) && Fine(len) && !Carries(h, len)
    requires Xor(h, High(len)) == Xor(k, Carried(len))
    ensures !Carries(k, len)
  {
    if NoCarry(len) {
      NeverCarries(k, len);
    } else {
      XorSwaps(h, High(len), k, Carried(len));
      FlippedIsRun(len);
      StaysBelow(h, k, Threshold(len), Flipped(len));
    }
  }

  lemma SameSide(x: bv64, y: bv64, len: bv64)
    requires Fine(len) && AddLen(x, len) == AddLen(y, len)
    ensures Carries(High(x), len) <==> Carries(High(y), len)
  {
    HighFits(x);
    HighFits(y);
    HighAdd(x, len);
    HighAdd(y, len);
    if !Carries(High(x), len) && Carries(High(y), len) {
      OneSide(High(x), High(y), len);
    } else if Carries(High(x), len) && !Carries(High(y), len) {
      OneSide(High(y), High(x), len);
    }
  }

  lemma SameHighParts(x: bv64, y: bv64, len: bv64)
    requires Fine(len) && AddLen(x, len) == AddLen(y, len)
    ensures High(x) == High(y)
  {
    SameSide(x, y, len);
    HighAdd(x, len);
    HighAdd(y, len);
    XorCancels(High(x), High(y), if Carries(High(x), len) then Carried(len) else High(len));
  }

  lemma AddLenInjective(x: bv64, y: bv64, len: bv64)
    requires Fine(len) && AddLen(x, len) == AddLen(y, len)
    ensures x == y
  {
    SameHighParts(x, y, len);
    XorCancels(x, y, Plus(High(x), len));
  }

  function Word(h: bv64, l: bv64): bv64 { (h << 35) | l }

  lemma WordParts(h: bv64, l: bv64)
    requires Fits(h) && l <= 0x7_FFFF_FFFF
    ensures High(Word(h, l)) == h && Low(Word(h, l)) == l
  {}

  function Bottom(t: bv64, m: bv64): bv64 { t & !m }
  function Top(t: bv64, m: bv64): bv64 { (t & !m) | m }

  lemma BottomBelow(t: bv64, m: bv64)
    requires !Apart(t, m)
    ensures Below(Bottom(t, m), t)
  {}

  lemma TopNotBelow(t: bv64, m: bv64)
    ensures !Below(Top(t, m), t)
  {}

  lemma Flips(t: bv64, m: bv64)
    ensures Xor(Bottom(t, m), Top(t, m)) == m
  {
    assert (t & !m) ^ ((t & !m) | m) == m;
  }

  lemma CornersFit(t: bv64, m: bv64)
    requires Fits(t) && Fits(m)
    ensures Fits(Bottom(t, m)) && Fits(Top(t, m))
  {}

  lemma ThresholdFits(len: bv64)
    requires !NoCarry(len)
    ensures Fits(Threshold(len))
  {}

  lemma LowSmall(x: bv64)
    ensures Low(x) <= 0x7_FFFF_FFFF && Low(Low(x)) == Low(x)
  {}

  lemma LowZero()
    ensures Low(0) == 0
  {}

  lemma XorZero(x: bv64)
    ensures Xor(0, x) == x
  {}

  lemma Corners(len: bv64)
    requires !Fine(len)
    ensures var h, k := Bottom(Threshold(len), Flipped(len)), Top(Threshold(len), Flipped(len));
            Fits(h) && Fits(k) && !Carries(h, len) && Carries(k, len)
  {
    var t, m := Threshold(len), Flipped(len);
    ThresholdFits(len);
    FlippedIsRun(len);
    CornersFit(t, m);
    BottomBelow(t, m);
    TopNotBelow(t, m);
  }

  /** For every other length there is a collision. */
  lemma AddLenCollides(len: bv64) returns (x: bv64, y: bv64)
    requires !Fine(len)
    ensures x != y && AddLen(x, len) == AddLen(y, len)
  {
    Corners(len);
    var h, k := Bottom(Threshold(len), Flipped(len)), Top(Threshold(len), Flipped(len));
    var s := Low(Xor(Plus(h, len), Plus(k, len)));
    LowSmall(Xor(Plus(h, len), Plus(k, len)));
    x, y := Word(h, 0), Word(k, s);
    WordParts(h, 0);
    WordParts(k, s);
    SameHigh(x, y, len);
    SameLow(x, y, len);
    BothParts(AddLen(x, len), AddLen(y, len));
  }

  lemma SameHigh(x: bv64, y: bv64, len: bv64)
    requires High(x) == Bottom(Threshold(len), Flipped(len)) && High(y) == Top(Threshold(len), Flipped(len))
    requires !Carries(High(x), len) && Carries(High(y), len)
    ensures High(AddLen(x, len)) == High(AddLen(y, len))
  {
    HighAdd(x, len);
    HighAdd(y, len);
    Flips(Threshold(len), Flipped(len));
    XorSwaps(High(x), High(y), High(len), Carried(len));
  }

  lemma SameLow(x: bv64, y: bv64, len: bv64)
    requires Low(x) == 0 && Low(y) == Low(Xor(Plus(High(x), len), Plus(High(y), len)))
    ensures Low(AddLen(x, len)) == Low(AddLen(y, len))
  {
    var p, q := Plus(High(x), len), Plus(High(y), len);
    LowXor(x, p);
    LowXor(y, q);
    LowXor(p, q);
    XorZero(Low(p));
    XorTwice(Low(p), Low(q));
  }
}
