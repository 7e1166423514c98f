/** MatchCIDRBits: comparing the first bits of two addresses (RFC 4632 section 3.1). */
module Cidr {
  import opened Bits

  /** Bit j of a byte, counted from the most significant. */
  function HighBit(j: nat): bv8
    requires j < 8
  {
    if j == 0 then 0x80 else if j == 1 then 0x40 else if j == 2 then 0x20 else if j == 3 then 0x10
    else if j == 4 then 0x08 else if j == 5 then 0x04 else if j == 6 then 0x02 else 0x01
  }

  /** The most significant bit, shifted down. */
  lemma HighBitIsShifted(j: nat)
    requires j < 8
    ensures HighBit(j) == (0x80 as bv8) >> j
  {
    if j == 0 {} else if j == 1 {} else if j == 2 {} else if j == 3 {}
    else if j == 4 {} else if j == 5 {} else if j == 6 {}
  }

  predicate Bit(a: seq<bv8>, i: nat)
    requires i < 8 * |a|
  {
    HasBit(a[i / 8], HighBit(i % 8))
  }

  /** The table inverted_bits. */
  function InvertedBits(r: nat): bv8
    requires r < 8
  {
    if r == 0 then 0x00 else if r == 1 then 0x80 else if r == 2 then 0xC0 else if r == 3 then 0xE0
    else if r == 4 then 0xF0 else if r == 5 then 0xF8 else if r == 6 then 0xFC else 0xFE
  }

  predicate MatchCIDRBits(address: seq<bv8>, mask: seq<bv8>, maskBits: nat)
    requires maskBits <= 8 * |address| && maskBits <= 8 * |mask|
  {
    var divisor, modulus := maskBits / 8, maskBits % 8;
    if modulus != 0 && address[divisor] & InvertedBits(modulus) != mask[divisor] & InvertedBits(modulus) then false
    else address[..divisor] == mask[..divisor]
  }

  ghost predicate SameBit(x: bv8, y: bv8, j: nat)
    requires j < 8
  {
    HasBit(x, HighBit(j)) <==> HasBit(y, HighBit(j))
  }

  predicate SameMasked(x: bv8, y: bv8, p: bv8) { x & p == y & p }

  ghost predicate Grows(x: bv8, y: bv8, r: nat)
    requires r < 7
  {
    SameMasked(x, y, InvertedBits(r + 1)) <==>
      SameMasked(x, y, InvertedBits(r)) && (HasBit(x, HighBit(r)) <==> HasBit(y, HighBit(r)))
  }

  /** One more bit in the mask compares one more bit. */
  lemma MaskGrows(x: bv8, y: bv8, r: nat)
    requires r < 7
    ensures Grows(x, y, r)
  {
    hide Grows;
    if r < 4 { HighMasks(x, y, r); } else { LowMasks(x, y, r); }
  }

  lemma HighMasks(x: bv8, y: bv8, r: nat)
    requires r < 4
    ensures Grows(x, y, r)
  {
    if r == 0 {} else if r == 1 {} else if r == 2 {}
  }

  lemma LowMasks(x: bv8, y: bv8, r: nat)
    requires 4 <= r < 7
    ensures Grows(x, y, r)
  {
    if r == 4 {} else if r == 5 {}
  }

  /** The first r bits of two bytes agree exactly when the masked bytes are equal. */
  lemma {:induction false} BytePrefix(x: bv8, y: bv8, r: nat)
    requires r < 8
    ensures SameMasked(x, y, InvertedBits(r)) <==> forall j :: 0 <= j < r ==> SameBit(x, y, j)
  {
    hide SameMasked, InvertedBits, HighBit, HasBit;
    if r == 0 {
      NoMask(x, y);
    } else {
      BytePrefix(x, y, r - 1);
      MaskGrows(x, y, r - 1);
      assert SameBit(x, y, r - 1) <==> (HasBit(x, HighBit(r - 1)) <==> HasBit(y, HighBit(r - 1)));
    }
  }

  lemma NoMask(x: bv8, y: bv8)
    ensures SameMasked(x, y, InvertedBits(0))
  {
  }

  lemma ByteEquality(x: bv8, y: bv8)
    ensures x == y <==> forall j :: 0 <= j < 8 ==> SameBit(x, y, j)
  {
    if forall j :: 0 <= j < 8 ==> SameBit(x, y, j) {
      BytePrefix(x, y, 7);
      assert SameBit(x, y, 7);
      assert x & 0xFE == y & 0xFE;
    }
  }

  ghost predicate AgreeUpTo(a: seq<bv8>, b: seq<bv8>, n: nat)
    requires n <= 8 * |a| && n <= 8 * |b|
  {
    forall i :: 0 <= i < n ==> (Bit(a, i) <==> Bit(b, i))
  }

  /** The whole bytes are equal exactly when their bits agree. */
  lemma WholeBytes(a: seq<bv8>, b: seq<bv8>, d: nat)
    requires d <= |a| && d <= |b|
    ensures a[..d] == b[..d] <==> AgreeUpTo(a, b, 8 * d)
  {
    hide HighBit, HasBit;
    if AgreeUpTo(a, b, 8 * d) {
      forall k | 0 <= k < d ensures a[k] == b[k] {
        forall j | 0 <= j < 8 ensures SameBit(a[k], b[k], j) {
          assert (8 * k + j) / 8 == k && (8 * k + j) % 8 == j;
          assert Bit(a, 8 * k + j) <==> Bit(b, 8 * k + j);
        }
        ByteEquality(a[k], b[k]);
      }
    }
    if a[..d] == b[..d] {
      forall i | 0 <= i < 8 * d ensures Bit(a, i) <==> Bit(b, i) {
        assert a[i / 8] == a[..d][i / 8] == b[..d][i / 8];
      }
    }
  }

  /** MatchCIDRBits holds exactly when the first maskBits bits agree, for every number of bits. */
  lemma MatchIffBitsAgree(a: seq<bv8>, m: seq<bv8>, n: nat)
    requires n <= 8 * |a| && n <= 8 * |m|
    ensures MatchCIDRBits(a, m, n) <==> AgreeUpTo(a, m, n)
  {
    hide HighBit, InvertedBits, AgreeUpTo, SameBit, HasBit;
    var d, r := n / 8, n % 8;
    WholeBytes(a, m, d);
    if r == 0 {
      assert n == 8 * d;
    } else {
      BytePrefix(a[d], m[d], r);
      LastByte(a, m, d, r);
      assert n == 8 * d + r;
    }
  }

  /** Agreement on d bytes and r bits is agreement on the bytes and on the bits. */
  lemma LastByte(a: seq<bv8>, m: seq<bv8>, d: nat, r: nat)
    requires d < |a| && d < |m| && r < 8
    ensures AgreeUpTo(a, m, 8 * d + r) <==>
              AgreeUpTo(a, m, 8 * d) && forall j :: 0 <= j < r ==> SameBit(a[d], m[d], j)
  {
    hide HighBit, HasBit;
    if AgreeUpTo(a, m, 8 * d + r) {
      forall j | 0 <= j < r ensures SameBit(a[d], m[d], j) {
        assert (8 * d + j) / 8 == d && (8 * d + j) % 8 == j;
        assert Bit(a, 8 * d + j) <==> Bit(m, 8 * d + j);
      }
    }
    if AgreeUpTo(a, m, 8 * d) && forall j :: 0 <= j < r ==> SameBit(a[d], m[d], j) {
      forall i | 0 <= i < 8 * d + r ensures Bit(a, i) <==> Bit(m, i) {
        if i >= 8 * d {
          assert i / 8 == d && i % 8 == i - 8 * d;
          assert SameBit(a[d], m[d], i - 8 * d);
        }
      }
    }
  }

  /** For a fixed number of bits the match is an equivalence, and a match on more bits is a
      match on fewer: a shorter prefix covers every block of a longer one. */
  lemma PrefixesAreBlocks(a: seq<bv8>, b: seq<bv8>, c: seq<bv8>, n: nat, shorter: nat)
    requires n <= 8 * |a| && n <= 8 * |b| && n <= 8 * |c| && shorter <= n
    ensures MatchCIDRBits(a, a, n)
    ensures MatchCIDRBits(a, b, n) <==> MatchCIDRBits(b, a, n)
    ensures MatchCIDRBits(a, b, n) && MatchCIDRBits(b, c, n) ==> MatchCIDRBits(a, c, n)
    ensures MatchCIDRBits(a, b, n) ==> MatchCIDRBits(a, b, shorter)
  {
    hide Bit, MatchCIDRBits;
    MatchIffBitsAgree(a, a, n);
    MatchIffBitsAgree(a, b, n);
    MatchIffBitsAgree(b, a, n);
    MatchIffBitsAgree(b, c, n);
    MatchIffBitsAgree(a, c, n);
    MatchIffBitsAgree(a, b, shorter);
  }
}
