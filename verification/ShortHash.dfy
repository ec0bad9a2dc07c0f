/** XXH3-64 of short inputs: the final mixes are bijections, so inputs of 1 to 3 bytes never collide with each other,
    nor do two inputs of one length from 4 to 8. */
module ShortHash {
  import L = AddLength

  // ----- the steps of the mixes and their inverses -----

  function Shift33(x: bv64): bv64 { x ^ (x >> 33) }
  function Shift32(x: bv64): bv64 { x ^ (x >> 32) }
  function Shift29(x: bv64): bv64 { x ^ (x >> 29) }
  function Unshift29(x: bv64): bv64 { x ^ (x >> 29) ^ (x >> 58) }
  function Shift28(x: bv64): bv64 { x ^ (x >> 28) }
  function Unshift28(x: bv64): bv64 { x ^ (x >> 28) ^ (x >> 56) }

  // multiplications by the odd constants, and by their inverses modulo 2^64
  function Times2(x: bv64): bv64 { x * 0xC2B2AE3D27D4EB4F }
  function Untimes2(x: bv64): bv64 { x * 0x0BA79078168D4BAF }
  function Times3(x: bv64): bv64 { x * 0x165667B19E3779F9 }
  function Untimes3(x: bv64): bv64 { x * 0xE9E9F4C41D6DF849 }
  function TimesR(x: bv64): bv64 { x * 0x9FB21C651E98DF25 }
  function UntimesR(x: bv64): bv64 { x * 0x02AB9C720D1024AD }

  lemma Shift33Twice(x: bv64)
    ensures Shift33(Shift33(x)) == x
  {
    assert Shift33(x ^ (x >> 33)) == x;
  }

  lemma Shift32Twice(x: bv64)
    ensures Shift32(Shift32(x)) == x
  {
    assert Shift32(x ^ (x >> 32)) == x;
  }

  lemma Shift29Undone(x: bv64)
    ensures Unshift29(Shift29(x)) == x && Shift29(Unshift29(x)) == x
  {
    assert Unshift29(x ^ (x >> 29)) == x;
    assert Shift29(x ^ (x >> 29) ^ (x >> 58)) == x;
  }

  lemma Shift28Undone(x: bv64)
    ensures Unshift28(Shift28(x)) == x && Shift28(Unshift28(x)) == x
  {
    assert Unshift28(x ^ (x >> 28)) == x;
    assert Shift28(x ^ (x >> 28) ^ (x >> 56)) == x;
  }

  lemma Times2Undone(x: bv64)
    ensures Untimes2(Times2(x)) == x && Times2(Untimes2(x)) == x
  {
    assert Untimes2(x * 0xC2B2AE3D27D4EB4F) == x && Times2(x * 0x0BA79078168D4BAF) == x;
  }

  lemma Times3Undone(x: bv64)
    ensures Untimes3(Times3(x)) == x && Times3(Untimes3(x)) == x
  {
    assert Untimes3(x * 0x165667B19E3779F9) == x && Times3(x * 0xE9E9F4C41D6DF849) == x;
  }

  lemma TimesRUndone(x: bv64)
    ensures UntimesR(TimesR(x)) == x && TimesR(UntimesR(x)) == x
  {
    assert UntimesR(x * 0x9FB21C651E98DF25) == x && TimesR(x * 0x02AB9C720D1024AD) == x;
  }

  // h ^ rotl(h, 49) ^ rotl(h, 24) and its powers: doubling both rotations squares the map
  function Twist1(x: bv64): bv64 { x ^ (((x << 49) | (x >> 15)) ^ ((x << 24) | (x >> 40))) }
  function Twist2(x: bv64): bv64 { x ^ (((x << 34) | (x >> 30)) ^ ((x << 48) | (x >> 16))) }
  function Twist4(x: bv64): bv64 { x ^ (((x << 4) | (x >> 60)) ^ ((x << 32) | (x >> 32))) }
  function Rotl8(x: bv64): bv64 { (x << 8) | (x >> 56) }
  function Rotl56(x: bv64): bv64 { (x << 56) | (x >> 8) }
  function Untwist(x: bv64): bv64 { Rotl56(Twist1(Twist2(Twist4(x)))) }

  predicate Same(x: bv64, y: bv64) { x == y }

  lemma Twist1Again(x: bv64)
    ensures var t := x ^ (((x << 49) | (x >> 15)) ^ ((x << 24) | (x >> 40)));
            Same(t ^ (((t << 49) | (t >> 15)) ^ ((t << 24) | (t >> 40))),
                 x ^ (((x << 34) | (x >> 30)) ^ ((x << 48) | (x >> 16))))
  {}

  lemma Twist1Squared(x: bv64)
    ensures Twist1(Twist1(x)) == Twist2(x)
  {
    Twist1Again(x);
    assert Same(Twist1(x ^ (((x << 49) | (x >> 15)) ^ ((x << 24) | (x >> 40)))),
                x ^ (((x << 34) | (x >> 30)) ^ ((x << 48) | (x >> 16))));
  }

  lemma Twist2Squared(x: bv64)
    ensures Twist2(Twist2(x)) == Twist4(x)
  {
    assert Twist2(x ^ (((x << 34) | (x >> 30)) ^ ((x << 48) | (x >> 16)))) ==
           x ^ (((x << 4) | (x >> 60)) ^ ((x << 32) | (x >> 32)));
  }

  lemma Twist4Squared(x: bv64)
    ensures Twist4(Twist4(x)) == Rotl8(x)
  {
    assert Twist4(x ^ (((x << 4) | (x >> 60)) ^ ((x << 32) | (x >> 32)))) == (x << 8) | (x >> 56);
  }

  lemma Rotated(x: bv64)
    ensures Rotl56(Rotl8(x)) == x
  {
    assert Rotl56((x << 8) | (x >> 56)) == x;
  }

  lemma TwistRotated(x: bv64)
    ensures Twist1(Rotl56(x)) == Rotl56(Twist1(x))
  {
    assert Twist1((x << 56) | (x >> 8)) == Rotl56(x ^ (((x << 49) | (x >> 15)) ^ ((x << 24) | (x >> 40))));
  }

  /** The twist is an eighth root of a rotation, so it has an inverse. */
  lemma TwistUndone(x: bv64)
    ensures Untwist(Twist1(x)) == x && Twist1(Untwist(x)) == x
  {
    TwistTo8(x);
    Rotated(x);
    TwistRotated(Twist1(Twist2(Twist4(x))));
  }

  lemma TwistTo8(x: bv64)
    ensures Twist1(Twist1(Twist2(Twist4(x)))) == Rotl8(x)
    ensures Twist1(Twist2(Twist4(Twist1(x)))) == Rotl8(x)
  {
    Twist1Squared(Twist2(Twist4(x)));
    Twist2Squared(Twist4(x));
    Twist4Squared(x);
    Twist14(x);
    Twist12(Twist4(x));
  }

  lemma Twist12(x: bv64)
    ensures Twist1(Twist2(x)) == Twist2(Twist1(x))
  {
    Twist1Squared(x);
    Twist1Squared(Twist1(x));
  }

  lemma Twist14(x: bv64)
    ensures Twist1(Twist4(x)) == Twist4(Twist1(x))
  {
    Twist2Squared(x);
    Twist2Squared(Twist1(x));
    Twist12(x);
    Twist12(Twist2(x));
  }

  // ----- the mixes -----

  function Avalanche(h: bv64): bv64 { Shift32(Times3(Shift29(Times2(Shift33(h))))) }
  function Unavalanche(h: bv64): bv64 { Shift33(Untimes2(Unshift29(Untimes3(Shift32(h))))) }

  /** XXH64_avalanche is a bijection on 64-bit words. */
  lemma AvalancheBijective(h: bv64)
    ensures Unavalanche(Avalanche(h)) == h && Avalanche(Unavalanche(h)) == h
  {
    Shift33Twice(h);
    Times2Undone(Shift33(h));
    Shift29Undone(Times2(Shift33(h)));
    Times3Undone(Shift29(Times2(Shift33(h))));
    Shift32Twice(Times3(Shift29(Times2(Shift33(h)))));
    Shift32Twice(h);
    Times3Undone(Shift32(h));
    Shift29Undone(Untimes3(Shift32(h)));
    Times2Undone(Unshift29(Untimes3(Shift32(h))));
    Shift33Twice(Untimes2(Unshift29(Untimes3(Shift32(h)))));
  }

  function Rrmxmx(h: bv64, len: bv64): bv64 { Shift28(TimesR(L.AddLen(TimesR(Twist1(h)), len))) }
  function Unrrmxmx(h: bv64, len: bv64): bv64 { Untwist(UntimesR(L.UnaddLen(UntimesR(Unshift28(h)), len))) }

  lemma RrmxmxUndone(h: bv64, len: bv64)
    requires L.NoCarry(len)
    ensures Unrrmxmx(Rrmxmx(h, len), len) == h
  {
    TwistUndone(h);
    TimesRUndone(Twist1(h));
    L.AddLenUndone(TimesR(Twist1(h)), len);
    TimesRUndone(L.AddLen(TimesR(Twist1(h)), len));
    Shift28Undone(TimesR(L.AddLen(TimesR(Twist1(h)), len)));
  }

  lemma UnrrmxmxUndone(h: bv64, len: bv64)
    requires L.NoCarry(len)
    ensures Rrmxmx(Unrrmxmx(h, len), len) == h
  {
    Shift28Undone(h);
    TimesRUndone(Unshift28(h));
    L.UnaddLenUndone(UntimesR(Unshift28(h)), len);
    TimesRUndone(L.UnaddLen(UntimesR(Unshift28(h)), len));
    TwistUndone(UntimesR(L.UnaddLen(UntimesR(Unshift28(h)), len)));
  }

  /** For a fixed length whose low 35 bits are at most 2^35 - 2^29, XXH3_rrmxmx is a bijection on 64-bit words. */
  lemma RrmxmxBijective(h: bv64, len: bv64)
    requires L.NoCarry(len)
    ensures Unrrmxmx(Rrmxmx(h, len), len) == h && Rrmxmx(Unrrmxmx(h, len), len) == h
  {
    RrmxmxUndone(h, len);
    UnrrmxmxUndone(h, len);
  }

  lemma TimesRInjective(x: bv64, y: bv64)
    requires TimesR(x) == TimesR(y)
    ensures x == y
  {
    TimesRUndone(x);
    TimesRUndone(y);
  }

  lemma Shift28Injective(x: bv64, y: bv64)
    requires Shift28(x) == Shift28(y)
    ensures x == y
  {
    Shift28Undone(x);
    Shift28Undone(y);
  }

  lemma TwistInjective(x: bv64, y: bv64)
    requires Twist1(x) == Twist1(y)
    ensures x == y
  {
    TwistUndone(x);
    TwistUndone(y);
  }

  /** Two words never collide if the length is fine ... */
  lemma RrmxmxInjective(a: bv64, b: bv64, len: bv64)
    requires L.Fine(len) && Rrmxmx(a, len) == Rrmxmx(b, len)
    ensures a == b
  {
    var x, y := TimesR(Twist1(a)), TimesR(Twist1(b));
    Shift28Injective(TimesR(L.AddLen(x, len)), TimesR(L.AddLen(y, len)));
    TimesRInjective(L.AddLen(x, len), L.AddLen(y, len));
    L.AddLenInjective(x, y, len);
    TimesRInjective(Twist1(a), Twist1(b));
    TwistInjective(a, b);
  }

  /** ... and some two do if it is not. */
  lemma RrmxmxCollides(len: bv64) returns (a: bv64, b: bv64)
    requires !L.Fine(len)
    ensures a != b && Rrmxmx(a, len) == Rrmxmx(b, len)
  {
    var x, y := L.AddLenCollides(len);
    a, b := Untwist(UntimesR(x)), Untwist(UntimesR(y));
    TwistUndone(UntimesR(x));
    TwistUndone(UntimesR(y));
    TimesRUndone(x);
    TimesRUndone(y);
  }

  lemma ShortLengthsAreFine(len: bv64)
    requires len <= 8
    ensures L.NoCarry(len) && L.Fine(len)
  {
    assert len & 0x7_FFFF_FFFF <= 8;
  }

  /** A length that is not fine. */
  lemma CollidingLength()
    ensures !L.Fine(0x7_FFFF_FFFF)
  {
    assert L.Low(0x7_FFFF_FFFF) == 0x7_FFFF_FFFF && L.High(0x7_FFFF_FFFF) == 0;
    assert L.Threshold(0x7_FFFF_FFFF) == 1 && L.Flipped(0x7_FFFF_FFFF) == 1;
  }

  // ----- the hashes -----

  type Bytes = seq<bv8>

  /** At least the smallest secret the library accepts. */
  type Secret = s: Bytes | |s| >= 136 witness seq(136, i => 0)

  function Word(b0: bv8, b1: bv8, b2: bv8, b3: bv8): bv32 {
    (b0 as bv32) | ((b1 as bv32) << 8) | ((b2 as bv32) << 16) | ((b3 as bv32) << 24)
  }

  function Read32(s: Bytes, i: nat): bv32
    requires i + 4 <= |s|
  {
    Word(s[i], s[i + 1], s[i + 2], s[i + 3])
  }

  function Join(hi: bv32, lo: bv32): bv64 { (lo as bv64) + ((hi as bv64) << 32) }

  function Read64(s: Bytes, i: nat): bv64
    requires i + 8 <= |s|
  {
    Join(Read32(s, i + 4), Read32(s, i))
  }

  function Swap(x: bv32): bv32 {
    ((x << 24) & 0xFF000000) | ((x << 8) & 0x00FF0000) | ((x >> 8) & 0x0000FF00) | ((x >> 24) & 0x000000FF)
  }

  function Combined(c1: bv8, c2: bv8, c3: bv8, len: bv8): bv32 {
    ((c1 as bv32) << 16) | ((c2 as bv32) << 24) | (c3 as bv32) | ((len as bv32) << 8)
  }

  function Plus(x: bv64, y: bv64): bv64 { x + y }
  function Minus(x: bv64, y: bv64): bv64 { x - y }
  function Xor(x: bv64, y: bv64): bv64 { x ^ y }
  function Xor32(x: bv32, y: bv32): bv32 { x ^ y }

  /** The seed with its low half, byte-swapped, mixed into its high half. */
  function Spread(seed: bv64): bv64 { seed ^ ((Swap((seed & 0xFFFFFFFF) as bv32) as bv64) << 32) }

  function Flip1to3(secret: Secret, seed: bv64): bv64 { Plus(Wide(Xor32(Read32(secret, 0), Read32(secret, 4))), seed) }

  function Flip4to8(secret: Secret, seed: bv64): bv64 {
    Minus(Xor(Read64(secret, 8), Read64(secret, 16)), Spread(seed))
  }

  function Wide(x: bv32): bv64 { x as bv64 }
  function Keyed(x: bv64, flip: bv64): bv64 { x ^ flip }

  function Mix1to3(c1: bv8, c2: bv8, c3: bv8, len: bv8, flip: bv64): bv64 {
    Avalanche(Keyed(Wide(Combined(c1, c2, c3, len)), flip))
  }

  function Mix4to8(input1: bv32, input2: bv32, len: bv64, flip: bv64): bv64 {
    Rrmxmx(Keyed(Join(input1, input2), flip), len)
  }

  function Len1to3(input: Bytes, secret: Secret, seed: bv64): bv64
    requires 1 <= |input| <= 3
  {
    Flipped1to3(input, Flip1to3(secret, seed))
  }

  function Flipped1to3(input: Bytes, flip: bv64): bv64
    requires 1 <= |input| <= 3
  {
    var c1 := input[0];
    var c2 := input[|input| / 2];
    var c3 := input[|input| - 1];
    Mix1to3(c1, c2, c3, LengthByte(|input|), flip)
  }

  function LengthByte(n: nat): bv8
    requires n <= 3
  {
    n as bv8
  }

  function Len4to8(input: Bytes, secret: Secret, seed: bv64): bv64
    requires 4 <= |input| <= 8
  {
    Flipped4to8(input, Flip4to8(secret, seed))
  }

  function Flipped4to8(input: Bytes, flip: bv64): bv64
    requires 4 <= |input| <= 8
  {
    var input1 := Read32(input, 0);
    var input2 := Read32(input, |input| - 4);
    Mix4to8(input1, input2, LengthWord(|input|), flip)
  }

  function LengthWord(n: nat): (w: bv64)
    requires n <= 8
    ensures w <= 8
  {
    n as bv64
  }

  /** XXH3_64bits of at most eight bytes. */
  function Hash(input: Bytes, secret: Secret, seed: bv64): bv64
    requires |input| <= 8
  {
    if |input| >= 4 then Len4to8(input, secret, seed)
    else if |input| > 0 then Len1to3(input, secret, seed)
    else Avalanche(seed ^ (Read64(secret, 56) ^ Read64(secret, 64)))
  }

  // ----- no collisions -----

  lemma CombinedInjective(c1: bv8, c2: bv8, c3: bv8, len: bv8, d1: bv8, d2: bv8, d3: bv8, len': bv8)
    requires Combined(c1, c2, c3, len) == Combined(d1, d2, d3, len')
    ensures c1 == d1 && c2 == d2 && c3 == d3 && len == len'
  {}

  lemma WordInjective(a0: bv8, a1: bv8, a2: bv8, a3: bv8, b0: bv8, b1: bv8, b2: bv8, b3: bv8)
    requires Word(a0, a1, a2, a3) == Word(b0, b1, b2, b3)
    ensures a0 == b0 && a1 == b1 && a2 == b2 && a3 == b3
  {}

  lemma JoinInjective(hi: bv32, lo: bv32, hi': bv32, lo': bv32)
    requires Join(hi, lo) == Join(hi', lo')
    ensures hi == hi' && lo == lo'
  {}

  lemma WideInjective(a: bv32, b: bv32)
    requires Wide(a) == Wide(b)
    ensures a == b
  {}

  lemma KeyedInjective(a: bv64, b: bv64, flip: bv64)
    requires Keyed(a, flip) == Keyed(b, flip)
    ensures a == b
  {}

  lemma AvalancheInjective(a: bv64, b: bv64)
    requires Avalanche(a) == Avalanche(b)
    ensures a == b
  {
    AvalancheBijective(a);
    AvalancheBijective(b);
  }

  lemma Mix1to3Injective(c1: bv8, c2: bv8, c3: bv8, len: bv8, d1: bv8, d2: bv8, d3: bv8, len': bv8, flip: bv64)
    requires Mix1to3(c1, c2, c3, len, flip) == Mix1to3(d1, d2, d3, len', flip)
    ensures c1 == d1 && c2 == d2 && c3 == d3 && len == len'
  {
    AvalancheInjective(Keyed(Wide(Combined(c1, c2, c3, len)), flip), Keyed(Wide(Combined(d1, d2, d3, len')), flip));
    KeyedInjective(Wide(Combined(c1, c2, c3, len)), Wide(Combined(d1, d2, d3, len')), flip);
    WideInjective(Combined(c1, c2, c3, len), Combined(d1, d2, d3, len'));
    CombinedInjective(c1, c2, c3, len, d1, d2, d3, len');
  }

  lemma Mix4to8Injective(a1: bv32, a2: bv32, b1: bv32, b2: bv32, len: bv64, flip: bv64)
    requires Mix4to8(a1, a2, len, flip) == Mix4to8(b1, b2, len, flip) && len <= 8
    ensures a1 == b1 && a2 == b2
  {
    ShortLengthsAreFine(len);
    RrmxmxInjective(Keyed(Join(a1, a2), flip), Keyed(Join(b1, b2), flip), len);
    KeyedInjective(Join(a1, a2), Join(b1, b2), flip);
    JoinInjective(a1, a2, b1, b2);
  }

  lemma LengthByteInjective(m: nat, n: nat)
    requires 1 <= m <= 3 && 1 <= n <= 3 && LengthByte(m) == LengthByte(n)
    ensures m == n
  {}

  lemma Window(a: Bytes, b: Bytes, i: nat)
    requires i + 4 <= |a| == |b| && Read32(a, i) == Read32(b, i)
    ensures a[i..i + 4] == b[i..i + 4]
  {
    WordInjective(a[i], a[i + 1], a[i + 2], a[i + 3], b[i], b[i + 1], b[i + 2], b[i + 3]);
  }

  lemma TwoWindows(a: Bytes, b: Bytes)
    requires 4 <= |a| == |b| <= 8 && a[..4] == b[..4] && a[|a| - 4..] == b[|a| - 4..]
    ensures a == b
  {
    forall i | 0 <= i < |a|
      ensures a[i] == b[i]
    {
      assert if i < 4 then a[i] == a[..4][i] && b[i] == b[..4][i]
             else a[i] == a[|a| - 4..][i - (|a| - 4)] && b[i] == b[|a| - 4..][i - (|a| - 4)];
    }
  }

  lemma FromWords(a: Bytes, b: Bytes)
    requires 4 <= |a| == |b| <= 8 && Read32(a, 0) == Read32(b, 0) && Read32(a, |a| - 4) == Read32(b, |a| - 4)
    ensures a == b
  {
    Window(a, b, 0);
    Window(a, b, |a| - 4);
    TwoWindows(a, b);
  }

  lemma SameInput(a: Bytes, b: Bytes, flip: bv64)
    requires 4 <= |a| == |b| <= 8 && Flipped4to8(a, flip) == Flipped4to8(b, flip)
    ensures a == b
  {
    Mix4to8Injective(Read32(a, 0), Read32(a, |a| - 4), Read32(b, 0), Read32(b, |b| - 4), LengthWord(|a|), flip);
    FromWords(a, b);
  }

  lemma SameParts(a: Bytes, b: Bytes, flip: bv64)
    requires 1 <= |a| <= 3 && 1 <= |b| <= 3 && Flipped1to3(a, flip) == Flipped1to3(b, flip)
    ensures a[0] == b[0] && a[|a| / 2] == b[|b| / 2] && a[|a| - 1] == b[|b| - 1] && LengthByte(|a|) == LengthByte(|b|)
  {
    Mix1to3Injective(a[0], a[|a| / 2], a[|a| - 1], LengthByte(|a|), b[0], b[|b| / 2], b[|b| - 1], LengthByte(|b|),
                     flip);
  }

  lemma FromParts(a: Bytes, b: Bytes)
    requires 1 <= |a| <= 3 && 1 <= |b| <= 3 && LengthByte(|a|) == LengthByte(|b|)
    requires a[0] == b[0] && a[|a| / 2] == b[|b| / 2] && a[|a| - 1] == b[|b| - 1]
    ensures a == b
  {
    LengthByteInjective(|a|, |b|);
  }

  lemma SameShortInput(a: Bytes, b: Bytes, flip: bv64)
    requires 1 <= |a| <= 3 && 1 <= |b| <= 3 && Flipped1to3(a, flip) == Flipped1to3(b, flip)
    ensures a == b
  {
    SameParts(a, b, flip);
    FromParts(a, b);
  }

  lemma HashShort(a: Bytes, secret: Secret, seed: bv64)
    requires 1 <= |a| <= 3
    ensures Hash(a, secret, seed) == Flipped1to3(a, Flip1to3(secret, seed))
  {}

  /** For a fixed secret and seed XXH3_64bits has no collision among inputs of one to three bytes ... */
  lemma NoCollision1to3(a: Bytes, b: Bytes, secret: Secret, seed: bv64)
    requires 1 <= |a| <= 3 && 1 <= |b| <= 3
    requires Hash(a, secret, seed) == Hash(b, secret, seed)
    ensures a == b
  {
    HashShort(a, secret, seed);
    HashShort(b, secret, seed);
    SameShortInput(a, b, Flip1to3(secret, seed));
  }

  /** ... nor among inputs of any one length from four to eight. */
  lemma NoCollision4to8(a: Bytes, b: Bytes, secret: Secret, seed: bv64)
    requires 4 <= |a| == |b| <= 8
    requires Hash(a, secret, seed) == Hash(b, secret, seed)
    ensures a == b
  {
    assert Len4to8(a, secret, seed) == Len4to8(b, secret, seed);
    SameInput(a, b, Flip4to8(secret, seed));
  }

  // ----- seed and secret matter -----

  lemma PlusUndone(a: bv64, x: bv64)
    ensures Minus(Plus(a, x), x) == a && Minus(Plus(a, x), a) == x
  {
    assert Minus(a + x, x) == a && Minus(a + x, a) == x;
  }

  lemma MinusUndone(a: bv64, x: bv64)
    ensures Plus(Minus(a, x), x) == a && Minus(a, Minus(a, x)) == x
  {
    assert Plus(a - x, x) == a && Minus(a, a - x) == x;
  }

  lemma XorTwice(x: bv64, y: bv64)
    ensures (x ^ y) ^ y == x
  {}

  lemma HighOnly(x: bv64, y: bv32)
    ensures (x ^ ((y as bv64) << 32)) & 0xFFFFFFFF == x & 0xFFFFFFFF
  {}

  /** No two seeds are spread to the same word. */
  lemma SpreadTwice(seed: bv64)
    ensures Spread(Spread(seed)) == seed
  {
    HighOnly(seed, Swap((seed & 0xFFFFFFFF) as bv32));
    XorTwice(seed, (Swap((seed & 0xFFFFFFFF) as bv32) as bv64) << 32);
  }

  lemma SpreadInjective(x: bv64, y: bv64)
    requires Spread(x) == Spread(y)
    ensures x == y
  {
    SpreadTwice(x);
    SpreadTwice(y);
  }

  lemma KeyedFlip(x: bv64, f: bv64, g: bv64)
    requires Keyed(x, f) == Keyed(x, g)
    ensures f == g
  {}

  lemma SameFlip1to3(a: Bytes, f: bv64, g: bv64)
    requires 1 <= |a| <= 3 && Flipped1to3(a, f) == Flipped1to3(a, g)
    ensures f == g
  {
    var x := Wide(Combined(a[0], a[|a| / 2], a[|a| - 1], LengthByte(|a|)));
    AvalancheInjective(Keyed(x, f), Keyed(x, g));
    KeyedFlip(x, f, g);
  }

  lemma SameFlip4to8(a: Bytes, f: bv64, g: bv64)
    requires 4 <= |a| <= 8 && Flipped4to8(a, f) == Flipped4to8(a, g)
    ensures f == g
  {
    var x, n := Join(Read32(a, 0), Read32(a, |a| - 4)), LengthWord(|a|);
    ShortLengthsAreFine(n);
    RrmxmxInjective(Keyed(x, f), Keyed(x, g), n);
    KeyedFlip(x, f, g);
  }

  lemma HashMedium(a: Bytes, secret: Secret, seed: bv64)
    requires 4 <= |a| <= 8
    ensures Hash(a, secret, seed) == Flipped4to8(a, Flip4to8(secret, seed))
  {}

  /** Two seeds never give one input the same hash. */
  lemma SeedMatters(a: Bytes, secret: Secret, x: bv64, y: bv64)
    requires 1 <= |a| <= 8 && Hash(a, secret, x) == Hash(a, secret, y)
    ensures x == y
  {
    if |a| <= 3 {
      HashShort(a, secret, x);
      HashShort(a, secret, y);
      SameFlip1to3(a, Flip1to3(secret, x), Flip1to3(secret, y));
      SameSeed1to3(secret, x, y);
    } else {
      HashMedium(a, secret, x);
      HashMedium(a, secret, y);
      SameFlip4to8(a, Flip4to8(secret, x), Flip4to8(secret, y));
      SameSeed4to8(secret, x, y);
    }
  }

  lemma SameSeed1to3(secret: Secret, x: bv64, y: bv64)
    requires Flip1to3(secret, x) == Flip1to3(secret, y)
    ensures x == y
  {
    var w := Wide(Xor32(Read32(secret, 0), Read32(secret, 4)));
    PlusUndone(w, x);
    PlusUndone(w, y);
  }

  lemma SameSeed4to8(secret: Secret, x: bv64, y: bv64)
    requires Flip4to8(secret, x) == Flip4to8(secret, y)
    ensures x == y
  {
    var w := Xor(Read64(secret, 8), Read64(secret, 16));
    MinusUndone(w, Spread(x));
    MinusUndone(w, Spread(y));
    SpreadInjective(x, y);
  }

  /** The parts of a secret that one to three, and four to eight bytes meet. */
  function Part1to3(s: Secret): bv32 { Xor32(Read32(s, 0), Read32(s, 4)) }
  function Part4to8(s: Secret): bv64 { Xor(Read64(s, 8), Read64(s, 16)) }

  lemma SamePart1to3(s: Secret, t: Secret, seed: bv64)
    ensures Flip1to3(s, seed) == Flip1to3(t, seed) <==> Part1to3(s) == Part1to3(t)
  {
    if Flip1to3(s, seed) == Flip1to3(t, seed) {
      PlusUndone(Wide(Part1to3(s)), seed);
      PlusUndone(Wide(Part1to3(t)), seed);
      WideInjective(Part1to3(s), Part1to3(t));
    }
  }

  lemma SamePart4to8(s: Secret, t: Secret, seed: bv64)
    ensures Flip4to8(s, seed) == Flip4to8(t, seed) <==> Part4to8(s) == Part4to8(t)
  {
    if Flip4to8(s, seed) == Flip4to8(t, seed) {
      MinusUndone(Part4to8(s), Spread(seed));
      MinusUndone(Part4to8(t), Spread(seed));
    }
  }

  /** Two secrets give one input the same hash exactly when these parts are the same. */
  lemma SecretMatters1to3(a: Bytes, s: Secret, t: Secret, seed: bv64)
    requires 1 <= |a| <= 3
    ensures Hash(a, s, seed) == Hash(a, t, seed) <==> Part1to3(s) == Part1to3(t)
  {
    HashShort(a, s, seed);
    HashShort(a, t, seed);
    SamePart1to3(s, t, seed);
    if Flipped1to3(a, Flip1to3(s, seed)) == Flipped1to3(a, Flip1to3(t, seed)) {
      SameFlip1to3(a, Flip1to3(s, seed), Flip1to3(t, seed));
    }
  }

  lemma SecretMatters4to8(a: Bytes, s: Secret, t: Secret, seed: bv64)
    requires 4 <= |a| <= 8
    ensures Hash(a, s, seed) == Hash(a, t, seed) <==> Part4to8(s) == Part4to8(t)
  {
    HashMedium(a, s, seed);
    HashMedium(a, t, seed);
    SamePart4to8(s, t, seed);
    if Flipped4to8(a, Flip4to8(s, seed)) == Flipped4to8(a, Flip4to8(t, seed)) {
      SameFlip4to8(a, Flip4to8(s, seed), Flip4to8(t, seed));
    }
  }

  // ----- hashes worked out, with the default secret -----

  /** The default secret begins like this. */
  predicate BeginsDefault(s: Secret) {
    s[..24] == [0xb8, 0xfe, 0x6c, 0x39, 0x23, 0xa4, 0x4b, 0xbe, 0x7c, 0x01, 0x81, 0x2c,
                0xf7, 0x21, 0xad, 0x1c, 0xde, 0xd4, 0x6d, 0xe9, 0x83, 0x90, 0x97, 0xdb]
  }

  lemma ReadAt(s: Bytes, i: nat, b0: bv8, b1: bv8, b2: bv8, b3: bv8)
    requires i + 4 <= |s| && s[i] == b0 && s[i + 1] == b1 && s[i + 2] == b2 && s[i + 3] == b3
    ensures Read32(s, i) == Word(b0, b1, b2, b3)
  {}

  lemma DefaultPart1to3(s: Secret)
    requires BeginsDefault(s)
    ensures Part1to3(s) == 0x87275a9b
  {
    assert forall i | 0 <= i < 8 :: s[i] == s[..24][i];
    ReadAt(s, 0, 0xb8, 0xfe, 0x6c, 0x39);
    ReadAt(s, 4, 0x23, 0xa4, 0x4b, 0xbe);
    DefaultWords();
  }

  lemma DefaultPart4to8(s: Secret)
    requires BeginsDefault(s)
    ensures Part4to8(s) == 0xc73ab174c5ecd5a2
  {
    assert forall i | 0 <= i < 24 :: s[i] == s[..24][i];
    ReadAt(s, 8, 0x7c, 0x01, 0x81, 0x2c);
    ReadAt(s, 12, 0xf7, 0x21, 0xad, 0x1c);
    ReadAt(s, 16, 0xde, 0xd4, 0x6d, 0xe9);
    ReadAt(s, 20, 0x83, 0x90, 0x97, 0xdb);
    DefaultWords();
  }

  lemma DefaultWords()
    ensures Xor32(Word(0xb8, 0xfe, 0x6c, 0x39), Word(0x23, 0xa4, 0x4b, 0xbe)) == 0x87275a9b
    ensures Xor(Join(Word(0xf7, 0x21, 0xad, 0x1c), Word(0x7c, 0x01, 0x81, 0x2c)),
                Join(Word(0x83, 0x90, 0x97, 0xdb), Word(0xde, 0xd4, 0x6d, 0xe9))) == 0xc73ab174c5ecd5a2
  {}

  lemma HashByPart1to3(a: Bytes, s: Secret, seed: bv64)
    requires 1 <= |a| <= 3 && BeginsDefault(s)
    ensures Hash(a, s, seed) == Flipped1to3(a, Plus(Wide(0x87275a9b), seed))
  {
    HashShort(a, s, seed);
    DefaultPart1to3(s);
  }

  lemma HashByPart4to8(a: Bytes, s: Secret, seed: bv64)
    requires 4 <= |a| <= 8 && BeginsDefault(s)
    ensures Hash(a, s, seed) == Flipped4to8(a, Minus(0xc73ab174c5ecd5a2, Spread(seed)))
  {
    HashMedium(a, s, seed);
    DefaultPart4to8(s);
  }

  lemma Lengths()
    ensures LengthByte(3) == 3 && LengthWord(5) == 5
  {}

  lemma FlippedThree(a: Bytes, f: bv64)
    requires |a| == 3
    ensures Flipped1to3(a, f) == Mix1to3(a[0], a[1], a[2], LengthByte(3), f)
  {}

  lemma FlippedAbc(f: bv64)
    ensures Flipped1to3([0x61, 0x62, 0x63], f) == Mix1to3(0x61, 0x62, 0x63, 3, f)
  {
    var a: Bytes := [0x61, 0x62, 0x63];
    FlippedThree(a, f);
    Lengths();
    assert a[0] == 0x61 && a[1] == 0x62 && a[2] == 0x63;
  }

  lemma FlippedAbcde(f: bv64)
    ensures Flipped4to8([0x61, 0x62, 0x63, 0x64, 0x65], f) ==
            Mix4to8(Word(0x61, 0x62, 0x63, 0x64), Word(0x62, 0x63, 0x64, 0x65), 5, f)
  {
    Lengths();
  }

  lemma MixOfAbc()
    ensures Mix1to3(0x61, 0x62, 0x63, 3, Plus(Wide(0x87275a9b), 0)) == 0x78af5f94892f3950
    ensures Mix1to3(0x61, 0x62, 0x63, 3, Plus(Wide(0x87275a9b), 0x123456789abcdef0)) == 0xfdc1d43821ba04d4
  {}

  lemma MixOfAbcde()
    ensures Mix4to8(Word(0x61, 0x62, 0x63, 0x64), Word(0x62, 0x63, 0x64, 0x65), 5,
                    Minus(0xc73ab174c5ecd5a2, Spread(0))) == 0x55c65158ee9e652d
    ensures Mix4to8(Word(0x61, 0x62, 0x63, 0x64), Word(0x62, 0x63, 0x64, 0x65), 5,
                    Minus(0xc73ab174c5ecd5a2, Spread(0x123456789abcdef0))) == 0x7126c564e1cef618
  {}

  /** "abc" with seed zero and with another. */
  lemma HashOfAbc(s: Secret)
    requires BeginsDefault(s)
    ensures Hash([0x61, 0x62, 0x63], s, 0) == 0x78af5f94892f3950
    ensures Hash([0x61, 0x62, 0x63], s, 0x123456789abcdef0) == 0xfdc1d43821ba04d4
  {
    HashByPart1to3([0x61, 0x62, 0x63], s, 0);
    HashByPart1to3([0x61, 0x62, 0x63], s, 0x123456789abcdef0);
    FlippedAbc(Plus(Wide(0x87275a9b), 0));
    FlippedAbc(Plus(Wide(0x87275a9b), 0x123456789abcdef0));
    MixOfAbc();
  }

  /** "abcde" with seed zero and with another. */
  lemma HashOfAbcde(s: Secret)
    requires BeginsDefault(s)
    ensures Hash([0x61, 0x62, 0x63, 0x64, 0x65], s, 0) == 0x55c65158ee9e652d
    ensures Hash([0x61, 0x62, 0x63, 0x64, 0x65], s, 0x123456789abcdef0) == 0x7126c564e1cef618
  {
    HashByPart4to8([0x61, 0x62, 0x63, 0x64, 0x65], s, 0);
    HashByPart4to8([0x61, 0x62, 0x63, 0x64, 0x65], s, 0x123456789abcdef0);
    FlippedAbcde(Minus(0xc73ab174c5ecd5a2, Spread(0)));
    FlippedAbcde(Minus(0xc73ab174c5ecd5a2, Spread(0x123456789abcdef0)));
    MixOfAbcde();
  }
}
