/** Bytes, Go strings (which are byte strings) and the integer encodings built on them. */
module ByteStrings {

  type byte = b: int | 0 <= b < 256
  type Bytes = seq<byte>

  datatype Option<+T> = None | Some(value: T)

  datatype Result<+T, +E> = Ok(value: T) | Err(error: E)

  /** The bytes of an ASCII literal. */
  function Ascii(s: string): (b: Bytes)
    ensures |b| == |s|
  {
    seq(|s|, i requires 0 <= i < |s| => (s[i] as int) % 256)
  }

  function Concat(parts: seq<Bytes>): Bytes {
    if parts == [] then [] else parts[0] + Concat(parts[1..])
  }

  const INT64_LIMIT := 0x8000_0000_0000_0000

  function Pow256(n: nat): (p: nat)
    ensures p > 0
  {
    if n == 0 then 1 else 256 * Pow256(n - 1)
  }

  /** The low `n` bytes of `v`, most significant first. */
  function BigEndian(v: nat, n: nat): (b: Bytes)
    ensures |b| == n
  {
    if n == 0 then [] else BigEndian(v / 256, n - 1) + [v % 256]
  }

  /** The number whose base-256 digits are `b`, most significant first. */
  function FromBigEndian(b: Bytes): nat {
    if b == [] then 0 else 256 * FromBigEndian(b[..|b| - 1]) + b[|b| - 1]
  }

  lemma {:induction false} BigEndianRoundTrip(v: nat, n: nat)
    requires v < Pow256(n)
    ensures FromBigEndian(BigEndian(v, n)) == v
  {
    if n > 0 {
      BigEndianRoundTrip(v / 256, n - 1);
      assert BigEndian(v, n)[..n - 1] == BigEndian(v / 256, n - 1);
    }
  }

  /** The low `n` bytes of `v`, least significant first. */
  function LittleEndian(v: nat, n: nat): (b: Bytes)
    ensures |b| == n
  {
    if n == 0 then [] else [v % 256] + LittleEndian(v / 256, n - 1)
  }

  function FromLittleEndian(b: Bytes): nat {
    if b == [] then 0 else b[0] + 256 * FromLittleEndian(b[1..])
  }

  function IntBytes(v: nat, n: nat, littleEndian: bool): (b: Bytes)
    ensures |b| == n
  {
    if littleEndian then LittleEndian(v, n) else BigEndian(v, n)
  }

  function FromIntBytes(b: Bytes, littleEndian: bool): nat {
    if littleEndian then FromLittleEndian(b) else FromBigEndian(b)
  }

  lemma {:induction false} LittleEndianRoundTrip(v: nat, n: nat)
    requires v < Pow256(n)
    ensures FromLittleEndian(LittleEndian(v, n)) == v
  {
    if n > 0 {
      LittleEndianRoundTrip(v / 256, n - 1);
      assert LittleEndian(v, n)[1..] == LittleEndian(v / 256, n - 1);
    }
  }

  /** In either order the bytes of a number that fits read back as the number. */
  lemma IntBytesRoundTrip(v: nat, n: nat, littleEndian: bool)
    requires v < Pow256(n)
    ensures FromIntBytes(IntBytes(v, n, littleEndian), littleEndian) == v
  {
    LittleEndianRoundTrip(v, n);
    BigEndianRoundTrip(v, n);
  }

  lemma {:induction false} LittleEndianAt(v: nat, n: nat, i: nat)
    requires i < n
    ensures LittleEndian(v, n)[i] == v / Pow256(i) % 256
  {
    if i > 0 {
      LittleEndianAt(v / 256, n - 1, i - 1);
      DivPow(v, i - 1);
    }
  }

  lemma {:induction false} FromLittleEndianSnoc(b: Bytes, x: byte)
    ensures FromLittleEndian(b + [x]) == FromLittleEndian(b) + x * Pow256(|b|)
  {
    if b == [] {
      assert [x][1..] == [] && b + [x] == [x];
    } else {
      assert (b + [x])[1..] == b[1..] + [x];
      FromLittleEndianSnoc(b[1..], x);
      MulDistributes(256, FromLittleEndian(b[1..]), x * Pow256(|b| - 1));
      assert 256 * (x * Pow256(|b| - 1)) == x * (256 * Pow256(|b| - 1));
    }
  }

  /** Fixed-width encodings are injective on the numbers that fit. */
  lemma BigEndianInjective(v: nat, w: nat, n: nat)
    requires v < Pow256(n) && w < Pow256(n)
    requires BigEndian(v, n) == BigEndian(w, n)
    ensures v == w
  {
    BigEndianRoundTrip(v, n);
    BigEndianRoundTrip(w, n);
  }

  /** The byte the encoder shifts out for position `i` of `n`. */
  lemma {:induction false} BigEndianAt(v: nat, n: nat, i: nat)
    requires i < n
    ensures BigEndian(v, n)[i] == v / Pow256(n - 1 - i) % 256
  {
    if i < n - 1 {
      BigEndianAt(v / 256, n - 1, i);
      DivPow(v, n - 2 - i);
    }
  }

  lemma IntBytesAt(v: nat, n: nat, littleEndian: bool, i: nat)
    requires i < n
    ensures IntBytes(v, n, littleEndian)[i] == v / Pow256(if littleEndian then i else n - i - 1) % 256
  {
    LittleEndianAt(v, n, i);
    BigEndianAt(v, n, i);
  }

  lemma DivPow(v: nat, k: nat)
    ensures v / 256 / Pow256(k) == v / Pow256(k + 1)
  {
    DivDiv(v, 256, Pow256(k));
  }

  lemma DivDiv(v: nat, a: nat, b: nat)
    requires a > 0 && b > 0
    ensures a * b > 0 && v / a / b == v / (a * b)
  {
    MulPositive(a, b);
    var q := v / a / b;
    var r1, r2 := v % a, v / a % b;
    assert v == a * (b * q + r2) + r1;
    assert a * (b * q + r2) == (a * b) * q + a * r2 by {
      MulDistributes(a, b * q, r2);
      MulAssociates(a, b, q);
    }
    assert 0 <= a * r2 + r1 < a * b by { BelowProduct(a, b, r1, r2); }
    QuotientIs(v, a * b, q, a * r2 + r1);
  }

  lemma MulPositive(a: nat, b: nat)
    requires a > 0 && b > 0
    ensures a * b > 0
  {}

  lemma MulDistributes(a: int, x: int, y: int)
    ensures a * (x + y) == a * x + a * y
  {}

  lemma MulAssociates(a: int, b: int, c: int)
    ensures a * (b * c) == (a * b) * c
  {}

  lemma BelowProduct(a: nat, b: nat, r1: nat, r2: nat)
    requires r1 < a && r2 < b
    ensures a * r2 + r1 < a * b
  {
    assert a * r2 <= a * (b - 1);
  }

  lemma QuotientIs(v: nat, d: nat, q: nat, r: nat)
    requires d > 0 && r < d && v == d * q + r
    ensures v / d == q
  {
    var q', r' := v / d, v % d;
    MulDistributes(d, q - q', q');
    SmallMultiple(d, q - q');
  }

  lemma SmallMultiple(d: int, k: int)
    requires -d < d * k < d
    ensures k == 0
  {
    if k > 0 {
      MulDistributes(d, k - 1, 1);
    } else if k < 0 {
      MulDistributes(d, k + 1, -1);
    }
  }
}
