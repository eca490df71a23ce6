/** Base 128 varints as encoding/binary reads and writes them. */
module Varints {
  import opened ByteStrings

  const MAX_VARINT_LEN := 10
  const UINT64_LIMIT := 0x1_0000_0000_0000_0000

  function Pow128(n: nat): (p: nat)
    ensures p > 0
  {
    if n == 0 then 1 else 128 * Pow128(n - 1)
  }

  /** binary.Uvarint from byte `i` on, with `x` read so far: the value and the bytes used; 0 bytes when the
      buffer ends too early, a negative count when the value does not fit 64 bits. */
  function UvarintFrom(buf: Bytes, i: nat, x: nat): (r: (nat, int))
    requires i <= |buf|
    ensures r.1 <= |buf| && (r.1 <= 0 ==> r.0 == 0)
    decreases |buf| - i
  {
    if i == |buf| then (0, 0)
    else if i == MAX_VARINT_LEN then (0, -(i + 1))
    else if buf[i] < 128 then
      (if i == MAX_VARINT_LEN - 1 && buf[i] > 1 then (0, -(i + 1)) else (x + buf[i] * Pow128(i), i + 1))
    else UvarintFrom(buf, i + 1, x + buf[i] % 128 * Pow128(i))
  }

  function Uvarint(buf: Bytes): (nat, int) {
    UvarintFrom(buf, 0, 0)
  }

  /** binary.PutUvarint: the shortest encoding. */
  function PutUvarint(x: nat): (v: Bytes)
    ensures v != []
  {
    if x < 128 then [x] else [x % 128 + 128] + PutUvarint(x / 128)
  }

  /** A complete encoding of some number, not necessarily the shortest. */
  predicate Complete(v: Bytes) {
    v != [] && v[|v| - 1] < 128 && forall i | 0 <= i < |v| - 1 :: v[i] >= 128
  }

  predicate IsVarint(v: Bytes) {
    Complete(v) && |v| <= MAX_VARINT_LEN && (|v| == MAX_VARINT_LEN ==> v[MAX_VARINT_LEN - 1] <= 1)
  }

  /** The number an encoding stands for. */
  function Value(v: Bytes): nat
    requires Complete(v)
  {
    if |v| == 1 then v[0] else v[0] % 128 + 128 * Value(v[1..])
  }

  lemma Shift(x: nat, low: nat, p: nat, high: nat)
    ensures x + low * p + (128 * p) * high == x + p * (low + 128 * high)
  {}

  lemma Suffix(v: Bytes, i: nat)
    requires Complete(v) && i < |v|
    ensures Complete(v[i..])
    ensures i == |v| - 1 ==> v[i] < 128 && Value(v[i..]) == v[i]
    ensures i < |v| - 1 ==> v[i] >= 128 && Complete(v[i + 1..]) && Value(v[i..]) == v[i] % 128 + 128 * Value(v[i + 1..])
  {
    if i < |v| - 1 {
      assert v[i..][1..] == v[i + 1..];
    }
  }

  lemma NextPower(i: nat)
    ensures Pow128(i + 1) == 128 * Pow128(i)
  {}

  /** What follows a complete encoding does not matter. */
  lemma {:induction false} UvarintReads(v: Bytes, rest: Bytes, i: nat, x: nat)
    requires IsVarint(v) && i < |v|
    ensures Complete(v[i..])
    ensures UvarintFrom(v + rest, i, x) == (x + Pow128(i) * Value(v[i..]), |v|)
    decreases |v| - i
  {
    hide Complete, Value, Pow128;
    assert (v + rest)[i] == v[i];
    Suffix(v, i);
    if i < |v| - 1 {
      UvarintReads(v, rest, i + 1, x + v[i] % 128 * Pow128(i));
      NextPower(i);
      Shift(x, v[i] % 128, Pow128(i), Value(v[i + 1..]));
    } else {
      Commutes(v[i], Pow128(i));
    }
  }

  lemma Commutes(a: nat, b: nat)
    ensures a * b == b * a
  {}

  lemma UvarintOf(v: Bytes, rest: Bytes)
    requires IsVarint(v)
    ensures Uvarint(v + rest) == (Value(v), |v|)
  {
    assert v != [];
    hide Value, Complete, UvarintFrom;
    UvarintReads(v, rest, 0, 0);
    assert v[0..] == v;
    assert Pow128(0) == 1;
  }

  lemma {:induction false} UvarintFromExactly(buf: Bytes, i: nat, x: nat)
    requires i <= |buf| && i <= 10 && forall k | 0 <= k < i :: buf[k] >= 128
    ensures
      var n := UvarintFrom(buf, i, x).1;
      && (n > 0 ==> n <= |buf| && IsVarint(buf[..n]))
      && (n <= 0 ==> forall m | 0 <= m <= |buf| :: !IsVarint(buf[..m]))
      && (n == 0 <==> |buf| <= 10 && forall k | 0 <= k < |buf| :: buf[k] >= 128)
      && (n < 0 ==> |buf| >= 10 && n == if buf[9] < 128 then -10 else -11)
    decreases |buf| - i
  {
    hide Pow128, Value;
    if i < |buf| && i < 10 && buf[i] >= 128 {
      UvarintFromExactly(buf, i + 1, x + buf[i] % 128 * Pow128(i));
    }
  }

  /** A number is read exactly if some prefix is a varint of at most 64 bits; up to ten bytes that all go on are an
      early end, anything else is too long and counted back to where that shows. */
  lemma UvarintExactly(buf: Bytes)
    ensures
      var n := Uvarint(buf).1;
      && (n > 0 <==> exists m | 0 <= m <= |buf| :: IsVarint(buf[..m]))
      && (n == 0 <==> |buf| <= 10 && forall k | 0 <= k < |buf| :: buf[k] >= 128)
      && (n < 0 ==> |buf| >= 10 && n == if buf[9] < 128 then -10 else -11)
  {
    UvarintFromExactly(buf, 0, 0);
  }

  lemma {:induction false} PutUvarintComplete(x: nat)
    ensures Complete(PutUvarint(x)) && Value(PutUvarint(x)) == x
  {
    if x >= 128 {
      PutUvarintComplete(x / 128);
      assert PutUvarint(x)[1..] == PutUvarint(x / 128);
    }
  }

  /** No encoding of a number is shorter than the one written. */
  lemma {:induction false} PutUvarintShortest(v: Bytes)
    requires Complete(v)
    ensures |PutUvarint(Value(v))| <= |v|
  {
    if |v| > 1 {
      PutUvarintShortest(v[1..]);
      assert Value(v) / 128 == Value(v[1..]);
    }
  }

  lemma {:induction false} PutUvarintMonotone(x: nat, y: nat)
    requires x <= y
    ensures |PutUvarint(x)| <= |PutUvarint(y)|
  {
    if x >= 128 {
      PutUvarintMonotone(x / 128, y / 128);
    }
  }

  /** The value of an n-byte encoding is below 128^n, and above 128^(n-1) for the shortest. */
  lemma {:induction false} PutUvarintLength(x: nat, n: nat)
    requires 0 < n && x < Pow128(n)
    ensures |PutUvarint(x)| <= n
  {
    if x >= 128 {
      PutUvarintLength(x / 128, n - 1);
    }
  }

  lemma TenBytes()
    ensures Pow128(9) == 0x8000_0000_0000_0000 && Pow128(10) == 0x40_0000_0000_0000_0000
  {
    assert Pow128(2) == 0x4000;
    assert Pow128(4) == 0x1000_0000;
    assert Pow128(6) == 0x400_0000_0000;
    assert Pow128(8) == 0x100_0000_0000_0000;
  }

  /** Numbers below 2^63 take at most nine bytes, so they are written as varints. */
  lemma PutUvarintIsVarint(x: nat)
    requires x < INT64_LIMIT
    ensures IsVarint(PutUvarint(x)) && Value(PutUvarint(x)) == x
  {
    TenBytes();
    PutUvarintComplete(x);
    PutUvarintLength(x, 9);
  }

  /** So is every number that came from a varint. */
  lemma RewrittenIsVarint(v: Bytes)
    requires IsVarint(v)
    ensures IsVarint(PutUvarint(Value(v))) && Value(PutUvarint(Value(v))) == Value(v)
  {
    PutUvarintComplete(Value(v));
    PutUvarintShortest(v);
    if |PutUvarint(Value(v))| == MAX_VARINT_LEN {
      SameTop(PutUvarint(Value(v)), v);
    }
  }

  /** Two encodings of one number and one length are the same. */
  lemma {:induction false} SameTop(v: Bytes, w: Bytes)
    requires Complete(v) && Complete(w) && |v| == |w| && Value(v) == Value(w)
    ensures v == w
  {
    if |v| > 1 {
      SameTop(v[1..], w[1..]);
      assert v == [v[0]] + v[1..] && w == [w[0]] + w[1..];
    }
  }
}
