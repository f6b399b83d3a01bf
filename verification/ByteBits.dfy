/** The bits of a byte, and what shifts and masks do to them. */
module ByteBits {
  function Mask(i: nat): bv8
    requires i < 8
  {
    match i
    case 0 => 0x01
    case 1 => 0x02
    case 2 => 0x04
    case 3 => 0x08
    case 4 => 0x10
    case 5 => 0x20
    case 6 => 0x40
    case _ => 0x80
  }

  /** Bit i of a byte, the least significant first. */
  predicate BitOf(b: bv8, i: nat)
    requires i < 8
  {
    b & Mask(i) != 0
  }

  /** b << n. */
  function Shl(b: bv8, n: nat): bv8
    requires n <= 8
  {
    match n
    case 0 => b
    case 1 => b << 1
    case 2 => b << 2
    case 3 => b << 3
    case 4 => b << 4
    case 5 => b << 5
    case 6 => b << 6
    case 7 => b << 7
    case _ => 0
  }

  /** b >> n. */
  function Shr(b: bv8, n: nat): bv8
    requires n <= 8
  {
    match n
    case 0 => b
    case 1 => b >> 1
    case 2 => b >> 2
    case 3 => b >> 3
    case 4 => b >> 4
    case 5 => b >> 5
    case 6 => b >> 6
    case 7 => b >> 7
    case _ => 0
  }

  /** The n lowest bits: 0xFF >> (8 - n), or (1 << n) - 1. */
  function LowMask(n: nat): bv8
    requires n <= 8
  {
    Shr(0xFF, 8 - n)
  }

  lemma ShlBit(b: bv8, n: nat, i: nat)
    requires n <= 8 && i < 8
    ensures BitOf(Shl(b, n), i) <==> i >= n && BitOf(b, i - n)
  {
  }

  lemma ShrBit(b: bv8, n: nat, i: nat)
    requires n <= 8 && i < 8
    ensures BitOf(Shr(b, n), i) <==> i + n < 8 && BitOf(b, i + n)
  {
  }

  lemma LowMaskBit(n: nat, i: nat)
    requires n <= 8 && i < 8
    ensures BitOf(LowMask(n), i) <==> i < n
  {
    ShrBit(0xFF, 8 - n, i);
  }

  lemma AndBit(a: bv8, b: bv8, i: nat)
    requires i < 8
    ensures BitOf(a & b, i) <==> BitOf(a, i) && BitOf(b, i)
  {
    var m := Mask(i);
    MaskAnd(a, b, m);
  }

  lemma MaskAnd(a: bv8, b: bv8, m: bv8)
    requires m == 1 || m == 2 || m == 4 || m == 8 || m == 16 || m == 32 || m == 64 || m == 128
    ensures (a & b) & m != 0 <==> a & m != 0 && b & m != 0
  {
  }

  lemma OrBit(a: bv8, b: bv8, i: nat)
    requires i < 8
    ensures BitOf(a | b, i) <==> BitOf(a, i) || BitOf(b, i)
  {
    MaskOr(a, b, Mask(i));
  }

  lemma MaskOr(a: bv8, b: bv8, m: bv8)
    ensures (a | b) & m != 0 <==> a & m != 0 || b & m != 0
  {
  }

  lemma NotBit(a: bv8, i: nat)
    requires i < 8
    ensures BitOf(!a, i) <==> !BitOf(a, i)
  {
    MaskNot(a, Mask(i));
  }

  lemma MaskNot(a: bv8, m: bv8)
    requires m == 1 || m == 2 || m == 4 || m == 8 || m == 16 || m == 32 || m == 64 || m == 128
    ensures (!a) & m != 0 <==> a & m == 0
  {
  }

  /** The byte with these bits. */
  function Pack(bits: seq<bool>): bv8
    requires |bits| == 8
  {
    (if bits[0] then 0x01 else 0) | (if bits[1] then 0x02 else 0) | (if bits[2] then 0x04 else 0)
      | (if bits[3] then 0x08 else 0)
    | (if bits[4] then 0x10 else 0) | (if bits[5] then 0x20 else 0) | (if bits[6] then 0x40 else 0)
      | (if bits[7] then 0x80 else 0)
  }

  lemma PackBit(bits: seq<bool>, i: nat)
    requires |bits| == 8 && i < 8
    ensures BitOf(Pack(bits), i) == bits[i]
  {
  }

  /** Selecting bits by a mask: those of s where m has a one, else those of d. */
  lemma SelectBit(d: bv8, s: bv8, m: bv8, i: nat)
    requires i < 8
    ensures BitOf((d & !m) | (s & m), i) <==> if BitOf(m, i) then BitOf(s, i) else BitOf(d, i)
  {
    hide Mask;
    MaskPower(i);
    MaskSelect(d, s, m, Mask(i));
  }

  lemma MaskPower(i: nat)
    requires i < 8
    ensures var b := Mask(i); b == 1 || b == 2 || b == 4 || b == 8 || b == 16 || b == 32 || b == 64 || b == 128
  {
  }

  lemma MaskSelect(d: bv8, s: bv8, m: bv8, b: bv8)
    requires b == 1 || b == 2 || b == 4 || b == 8 || b == 16 || b == 32 || b == 64 || b == 128
    ensures ((d & !m) | (s & m)) & b != 0 <==> if m & b != 0 then s & b != 0 else d & b != 0
  {
  }

  lemma SelectBitSwapped(d: bv8, s: bv8, m: bv8, i: nat)
    requires i < 8
    ensures BitOf((s & m) | (d & !m), i) <==> if BitOf(m, i) then BitOf(s, i) else BitOf(d, i)
  {
    assert (s & m) | (d & !m) == (d & !m) | (s & m);
    SelectBit(d, s, m, i);
    hide *;
  }
}
