/** The portable 64 by 64 to 128 bit product of xxhash.h. Words are numbers below 2^64 and every sum wraps. */
module WideProduct {

  const B: nat := 0x1_0000_0000
  const U64: nat := 0x1_0000_0000_0000_0000

  type Word = x: nat | x < U64

  function Lo(x: Word): (r: nat) ensures r < B { x % B }
  function Hi(x: Word): (r: nat) ensures r < B { x / B }

  /** 64-bit addition and the shift left by 32, both cut to 64 bits. */
  function Add(x: Word, y: Word): Word { (x + y) % U64 }
  function Up(x: Word): Word { Lo(x) * B }

  /** A product of two 32-bit numbers leaves room for two more 32-bit numbers. */
  lemma SmallProduct(a: nat, b: nat)
    requires a < B && b < B
    ensures a * b <= MAX_PRODUCT
  {
    Monotone(a, B - 1, b);
    Monotone(b, B - 1, B - 1);
  }

  lemma Monotone(x: nat, y: nat, z: nat)
    requires x <= y
    ensures x * z <= y * z
  {}

  function Product32(a: nat, b: nat): (r: Word)
    requires a < B && b < B
    ensures r == a * b <= MAX_PRODUCT
  {
    SmallProduct(a, b);
    a * b
  }

  lemma Halves(x: Word)
    ensures x == Hi(x) * B + Lo(x)
  {}

  lemma AddExact(x: Word, y: Word)
    ensures x + y < U64 ==> Add(x, y) == x + y
  {}

  const MAX_PRODUCT: nat := (B - 1) * (B - 1)

  /** Adding up the partial products: neither sum wraps. */
  method Sum(lolo: Word, hilo: Word, lohi: Word, hihi: Word) returns (low: Word, high: Word)
    requires lolo <= MAX_PRODUCT && hilo <= MAX_PRODUCT && lohi <= MAX_PRODUCT && hihi <= MAX_PRODUCT
    ensures high * U64 + low == hihi * U64 + (hilo + lohi) * B + lolo
  {
    Halves(lolo);
    Halves(hilo);
    AddExact(Hi(lolo), Lo(hilo));
    AddExact(Hi(lolo) + Lo(hilo), lohi);
    var cross := Add(Add(Hi(lolo), Lo(hilo)), lohi);
    Halves(cross);
    AddExact(Hi(hilo), Hi(cross));
    AddExact(Hi(hilo) + Hi(cross), hihi);
    var upper := Add(Add(Hi(hilo), Hi(cross)), hihi);
    assert cross == Hi(lolo) + Lo(hilo) + lohi && upper == Hi(hilo) + Hi(cross) + hihi;
    low := Up(cross) + Lo(lolo);   // the low half of Up is empty, so adding is or-ing
    high := upper;
  }

  /** The two words are the product. */
  method Multiply(lhs: Word, rhs: Word) returns (low: Word, high: Word)
    ensures high * U64 + low == lhs * rhs
  {
    low, high := Sum(Product32(Lo(lhs), Lo(rhs)), Product32(Hi(lhs), Lo(rhs)),
                     Product32(Lo(lhs), Hi(rhs)), Product32(Hi(lhs), Hi(rhs)));
    Whole(lhs, rhs);
  }

  lemma Whole(lhs: Word, rhs: Word)
    ensures lhs * rhs == Hi(lhs) * Hi(rhs) * U64 + (Hi(lhs) * Lo(rhs) + Lo(lhs) * Hi(rhs)) * B + Lo(lhs) * Lo(rhs)
  {
    Halves(lhs);
    Halves(rhs);
    Schoolbook(Hi(lhs), Lo(lhs), Hi(rhs), Lo(rhs));
  }

  lemma Schoolbook(a: nat, b: nat, c: nat, d: nat)
    ensures (a * B + b) * (c * B + d) == a * c * U64 + (a * d + b * c) * B + b * d
  {
    calc {
      (a * B + b) * (c * B + d);
      a * B * (c * B + d) + b * (c * B + d);
      a * B * (c * B) + a * B * d + b * (c * B) + b * d;
      { assert a * B * (c * B) == a * c * (B * B); assert a * B * d == a * d * B; assert b * (c * B) == b * c * B; }
      a * c * U64 + a * d * B + b * c * B + b * d;
    }
  }
}
