/** Numbers as bits, the least significant first, as BitStream writes them. */
module BitFields {
  function Pow2(n: nat): (p: nat)
    ensures p >= 1
  {
    if n == 0 then 1 else 2 * Pow2(n - 1)
  }

  lemma {:induction false} Pow2Grows(a: nat, b: nat)
    requires a <= b
    ensures Pow2(a) <= Pow2(b)
  {
    if a < b { Pow2Grows(a, b - 1); }
  }

  function Field(value: nat, width: nat): (bits: seq<bool>)
    ensures |bits| == width
  {
    if width == 0 then [] else [value % 2 == 1] + Field(value / 2, width - 1)
  }

  function ValueOf(bits: seq<bool>): nat {
    if bits == [] then 0 else (if bits[0] then 1 else 0) + 2 * ValueOf(bits[1..])
  }

  /** Bit k of the field is the one worth Pow2(k): the least significant bit comes first. */
  lemma {:induction false} FieldBit(value: nat, width: nat, k: nat)
    requires k < width
    ensures Field(value, width)[k] <==> value / Pow2(k) % 2 == 1
    decreases width
  {
    if k > 0 {
      FieldBit(value / 2, width - 1, k - 1);
      DivTwice(value, Pow2(k - 1));
    }
  }

  lemma DivTwice(v: nat, p: nat)
    requires p > 0
    ensures v / (2 * p) == v / 2 / p
  {
    var q, r := v / 2 / p, v / 2 % p;
    assert v / 2 == q * p + r;
    assert v == 2 * (q * p) + (2 * r + v % 2);
    assert 2 * (q * p) == q * (2 * p);
    assert 0 <= 2 * r + v % 2 < 2 * p;
    Remainder(v, 2 * p, q, 2 * r + v % 2);
    assert v / (2 * p) * (2 * p) == q * (2 * p);
    Multiple(v / (2 * p) - q, 2 * p);
    assert (v / (2 * p) - q) * (2 * p) == v / (2 * p) * (2 * p) - q * (2 * p);
  }

  /** A number comes back if it fits the field, and reduced to the field's width if not. */
  lemma {:induction false} FieldValue(value: nat, width: nat)
    ensures ValueOf(Field(value, width)) == value % Pow2(width)
    decreases width
  {
    if width > 0 {
      FieldValue(value / 2, width - 1);
      assert Field(value, width)[1..] == Field(value / 2, width - 1);
      HalfMod(value, Pow2(width - 1));
    }
  }

  lemma HalfMod(v: nat, p: nat)
    requires p > 0
    ensures v % (2 * p) == v % 2 + 2 * (v / 2 % p)
  {
    var q, r := v / 2 / p, v / 2 % p;
    assert v / 2 == q * p + r;
    assert v == 2 * (q * p) + (2 * r + v % 2);
    assert 2 * (q * p) == q * (2 * p);
    var s := 2 * r + v % 2;
    assert 0 <= s < 2 * p;
    Remainder(v, 2 * p, q, s);
  }

  lemma Remainder(v: nat, m: nat, q: nat, s: nat)
    requires m > 0 && v == q * m + s && s < m
    ensures v % m == s
  {
    var d := v / m - q;
    assert v / m * m == d * m + q * m;
    Multiple(d, m);
  }

  lemma Multiple(d: int, m: int)
    requires m > 0
    ensures d >= 1 ==> d * m >= m
    ensures d <= -1 ==> d * m <= -m
  {
    if d >= 1 { assert d * m == (d - 1) * m + m; }
    if d <= -1 { assert d * m == (d + 1) * m - m; }
  }

  /** One byte. */
  lemma ByteField(value: nat)
    requires value < 256
    ensures ValueOf(Field(value, 8)) == value
  {
    FieldValue(value, 8);
    assert Pow2(8) == 256;
  }
}
