/** The two word sizes agree on every map. */
module CoverageAgreement {
  import opened CoverageMap
  import Coverage32
  import Coverage64

  /** Same bytes in. Both round the bytes in use up to whole words, so the 64-bit form may look at four bytes more:
      these alone can raise its verdict, and these alone it clears in addition. If they hold no news, verdicts and
      virgin bytes are the same. */
  method BothWordSizes(t64: array<bv64>, v64: array<bv64>, t32: array<bv32>, v32: array<bv32>, real_: nat)
    returns (r64: nat, r32: nat)
    requires t64 != v64 && t32 != v32 && t64.Length == v64.Length && t32.Length == v32.Length
    requires real_ <= 8 * t64.Length && real_ <= 4 * t32.Length
    requires Coverage64.MapBytes(t64[..]) == Coverage32.MapBytes(t32[..])
    requires Coverage64.MapBytes(v64[..]) == Coverage32.MapBytes(v32[..])
    modifies v64, v32
    ensures var t, v := Coverage64.MapBytes(t64[..]), old(Coverage64.MapBytes(v64[..]));
            && Looked(t, v, Up8(real_), r64, Coverage64.MapBytes(v64[..]))
            && Looked(t, v, Up4(real_), r32, Coverage32.MapBytes(v32[..]))
    ensures Further(Coverage64.MapBytes(t64[..]), old(Coverage64.MapBytes(v64[..])), real_,
                    r64, Coverage64.MapBytes(v64[..]), r32, Coverage32.MapBytes(v32[..]))
  {
    ghost var t, v := Coverage64.MapBytes(t64[..]), Coverage64.MapBytes(v64[..]);
    r64 := Coverage64.HasNewBitsReal(t64, v64, real_);
    r32 := Coverage32.HasNewBitsReal(t32, v32, real_);
    UpBoth(real_);
    LookedFurther(t, v, Up4(real_), Up8(real_), r32, Coverage32.MapBytes(v32[..]), r64, Coverage64.MapBytes(v64[..]));
  }

  ghost predicate Further(t: Bytes, v: Bytes, real_: nat, r64: nat, out64: Bytes, r32: nat, out32: Bytes) {
    var a, b := Up4(real_), Up8(real_);
    && a <= b <= a + 4 && b <= |t| == |v|
    && r64 == Max(r32, Novelty(t[a..b], v[a..b]))
    && out64 == Cleared(t[..a], v[..a]) + Cleared(t[a..b], v[a..b]) + v[b..]
    && (!NewBit(t[a..b], v[a..b]) ==> r64 == r32 && out64 == out32)
  }
}
