/** Decimal printing and parsing, as strconv.Itoa and strconv.Atoi do it. */
module Decimal {
  import opened ByteStrings

  const MINUS: byte := 45
  const PLUS: byte := 43
  const ZERO: byte := 48

  predicate IsDigit(b: byte) {
    ZERO <= b < ZERO + 10
  }

  function Digits(n: nat): (s: Bytes)
    ensures s != [] && forall b <- s :: IsDigit(b)
  {
    if n < 10 then [ZERO + n] else Digits(n / 10) + [ZERO + n % 10]
  }

  function Itoa(n: int): Bytes {
    if n < 0 then [MINUS] + Digits(-n) else Digits(n)
  }

  /** The number a non-empty string of digits denotes. */
  function ParseDigits(s: Bytes): Option<nat> {
    if s == [] then None
    else if !IsDigit(s[|s| - 1]) then None
    else if |s| == 1 then Some(s[0] - ZERO)
    else
      match ParseDigits(s[..|s| - 1])
      case None => None
      case Some(n) => Some(10 * n + (s[|s| - 1] - ZERO))
  }

  /** An optional sign, then digits; None for a syntax error or a number outside 64 bits. */
  function Atoi(s: Bytes): Option<int> {
    var signed := s != [] && (s[0] == MINUS || s[0] == PLUS);
    match ParseDigits(if signed then s[1..] else s)
    case None => None
    case Some(n) =>
      var v: int := n;
      var v := if signed && s[0] == MINUS then -v else v;
      if -INT64_LIMIT <= v < INT64_LIMIT then Some(v) else None
  }

  lemma {:induction false} ParseDigitsOfDigits(n: nat)
    ensures ParseDigits(Digits(n)) == Some(n)
  {
    if n >= 10 {
      ParseDigitsOfDigits(n / 10);
      var s := Digits(n);
      assert s[..|s| - 1] == Digits(n / 10);
    }
  }

  lemma AtoiOfItoa(n: int)
    requires -INT64_LIMIT <= n < INT64_LIMIT
    ensures Atoi(Itoa(n)) == Some(n)
  {
    ParseDigitsOfDigits(if n < 0 then -n else n);
    if n < 0 {
      assert Itoa(n)[1..] == Digits(-n);
    } else {
      assert IsDigit(Itoa(n)[0]);
    }
  }

  /** Signs and the 64-bit range, for numbers without leading zeros. */
  lemma SignedNumbers(n: nat)
    ensures Atoi([43] + Digits(n)) == if n < 0x8000_0000_0000_0000 then Some(n) else None
    ensures var v: int := n; Atoi([45] + Digits(n)) == if n <= 0x8000_0000_0000_0000 then Some(-v) else None
    ensures Atoi(Digits(n)) == if n < 0x8000_0000_0000_0000 then Some(n) else None
  {
    ParseDigitsOfDigits(n);
    var s := Digits(n);
    assert s[0] in s;
    assert ([43] + s)[1..] == s && ([45] + s)[1..] == s;
    hide Digits, ParseDigits;
  }

  /** Anything but digits behind the sign is no number, nor is a sign alone. */
  lemma {:induction false} ParseDigitsExactly(s: Bytes)
    ensures ParseDigits(s).Some? <==> s != [] && forall i | 0 <= i < |s| :: 48 <= s[i] <= 57
  {
    if |s| > 1 {
      var n := |s| - 1;
      ParseDigitsExactly(s[..n]);
      assert forall i | 0 <= i < n :: s[..n][i] == s[i];
    }
  }

  /** One more digit. */
  lemma NextDigit(s: Bytes, d: byte)
    requires ParseDigits(s).Some? && d < 10
    ensures ParseDigits(s + [48 + d]) == Some(10 * ParseDigits(s).value + d) && ParseDigits([48 + d]) == Some(d)
  {
    assert (s + [48 + d])[..|s|] == s;
  }
}
