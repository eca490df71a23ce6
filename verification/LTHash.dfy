/** The summation hash over app state (appstate/lthash/lthash.go). */
module LTHash {
  import opened ByteStrings

  const MODULUS := 0x1_0000
  const HASH_SIZE := 128
  const LANE_COUNT := 64

  /** HKDF-SHA256 with the fixed info string and output size, left open except for its output size. */
  type Expander = f: Bytes -> Bytes | forall x :: |f(x)| == HASH_SIZE
    witness (x: Bytes) => seq(HASH_SIZE, i => 0)

  /** The little-endian 16-bit number at position `j`. */
  function Lane(b: Bytes, j: nat): nat
    requires 2 * j + 1 < |b|
  {
    Word(b[2 * j], b[2 * j + 1])
  }

  function Word(low: nat, high: nat): nat {
    low + 256 * high
  }

  function Expanded(e: Expander, item: Bytes, j: nat): nat
    requires j < LANE_COUNT
  {
    Lane(e(item), j)
  }

  /** Lanes are pairs of bytes, low byte first. */
  lemma LaneIs(b: Bytes, j: nat)
    requires 2 * j + 1 < |b|
    ensures
      var low: nat, high: nat := b[2 * j], b[2 * j + 1];
      Lane(b, j) == low + 256 * high && Lane(b, j) % 256 == low && Lane(b, j) / 256 == high
  {}

  /** The unreduced sum of one lane over a list of items. */
  function LaneSum(e: Expander, items: seq<Bytes>, j: nat): nat
    requires j < LANE_COUNT
  {
    if items == [] then 0 else Expanded(e, items[0], j) + LaneSum(e, items[1..], j)
  }

  /** Whole lanes, and no more of them than an expanded item has. */
  ghost predicate Hashable(b: Bytes) {
    |b| % 2 == 0 && |b| <= HASH_SIZE
  }

  /** Subtraction and addition with wrap-around. */
  function Residue(l: nat, m: nat, a: nat): (v: nat)
    ensures v < MODULUS
  {
    (l - m + a) % MODULUS
  }

  function NewLane(e: Expander, base: Bytes, subtract: seq<Bytes>, add: seq<Bytes>, j: nat): (v: nat)
    requires 2 * j + 1 < |base| <= HASH_SIZE
    ensures v < MODULUS
  {
    Residue(Lane(base, j), LaneSum(e, subtract, j), LaneSum(e, add, j))
  }

  function HashedLanes(e: Expander, base: Bytes, subtract: seq<Bytes>, add: seq<Bytes>, n: nat): (h: Bytes)
    requires 2 * n <= |base| <= HASH_SIZE
    ensures |h| == 2 * n
    ensures forall j: nat | j < n :: Lane(h, j) == NewLane(e, base, subtract, add, j)
  {
    if n == 0 then []
    else
      hide NewLane;
      var v := NewLane(e, base, subtract, add, n - 1);
      HashedLanes(e, base, subtract, add, n - 1) + [v % 256, v / 256]
  }

  /** The hash whose every lane is the old one minus the subtracted and plus the added items, modulo 2^16. */
  function Hashed(e: Expander, base: Bytes, subtract: seq<Bytes>, add: seq<Bytes>): (h: Bytes)
    requires Hashable(base)
    ensures |h| == |base|
    ensures forall j: nat | j < |base| / 2 :: Lane(h, j) == NewLane(e, base, subtract, add, j)
  {
    HashedLanes(e, base, subtract, add, |base| / 2)
  }

  lemma LanesDetermine(a: Bytes, b: Bytes)
    requires |a| == |b| && |a| % 2 == 0
    requires forall j: nat | j < |a| / 2 :: Lane(a, j) == Lane(b, j)
    ensures a == b
  {
    forall i | 0 <= i < |a| ensures a[i] == b[i] {
      var j := i / 2;
      assert Lane(a, j) == Lane(b, j);
    }
  }

  // ---- the in-place hash

  method PerformPointwiseWithOverflow(base: array<byte>, input: Bytes, subtract: bool)
    requires base.Length % 2 == 0 && base.Length <= |input|
    modifies base
    ensures forall j: nat | j < base.Length / 2 ::
              var x, y := old(Lane(base[..], j)), Lane(input, j);
              Lane(base[..], j) == (if subtract then x - y else x + y) % MODULUS
  {
    ghost var was := base[..];
    var i := 0;
    ghost var lane := 0;
    while i < base.Length
      invariant 0 <= i == 2 * lane <= base.Length
      invariant forall j: nat | j < lane ::
                  var v := Pointwise(was, input, subtract, j); base[2 * j] == v % 256 && base[2 * j + 1] == v / 256
      invariant forall k | i <= k < base.Length :: base[k] == was[k]
    {
      hide Pointwise;
      var x := Word(base[i], base[i + 1]);
      var y := Word(input[i], input[i + 1]);
      var result := (if subtract then x - y else x + y) % MODULUS;
      PointwiseAt(was, input, subtract, lane);
      base[i], base[i + 1] := result % 256, result / 256;
      i, lane := i + 2, lane + 1;
    }
    forall j: nat | j < base.Length / 2
      ensures Lane(base[..], j) == Pointwise(was, input, subtract, j)
    {
      hide Pointwise;
      assert base[..][2 * j] == base[2 * j] && base[..][2 * j + 1] == base[2 * j + 1];
    }
    hide Lane;
  }

  /** One lane of the sum or difference of two hashes. */
  function Pointwise(a: Bytes, b: Bytes, subtract: bool, j: nat): (v: nat)
    requires 2 * j + 1 < |a| <= |b|
    ensures v < MODULUS
  {
    (if subtract then Lane(a, j) - Lane(b, j) else Lane(a, j) + Lane(b, j)) % MODULUS
  }

  lemma PointwiseAt(a: Bytes, b: Bytes, subtract: bool, j: nat)
    requires 2 * j + 1 < |a| <= |b|
    ensures
      var x, y := Word(a[2 * j], a[2 * j + 1]), Word(b[2 * j], b[2 * j + 1]);
      Pointwise(a, b, subtract, j) == (if subtract then x - y else x + y) % MODULUS
  {
    hide Word;
  }

  /** The hash after `items` went one way. */
  ghost function OneWay(e: Expander, h: Bytes, items: seq<Bytes>, subtract: bool): Bytes
    requires Hashable(h)
  {
    if subtract then Hashed(e, h, items, []) else Hashed(e, h, [], items)
  }

  /** One pointwise pass is one more item. */
  lemma OneItem(e: Expander, h: Bytes, item: Bytes, subtract: bool, now: Bytes)
    requires Hashable(h) && |now| == |h|
    requires forall j: nat | j < |h| / 2 ::
               var x, y := Lane(h, j), Lane(e(item), j);
               Lane(now, j) == (if subtract then x - y else x + y) % MODULUS
    ensures now == OneWay(e, h, [item], subtract)
  {
    hide HashedLanes, Hashed, Lane, NewLane;
    var s, a := if subtract then [item] else [], if subtract then [] else [item];
    forall j: nat | j < |h| / 2 ensures Lane(now, j) == NewLane(e, h, s, a, j) {
      OneLane(e, h, item, subtract, j);
    }
    LanesDetermine(now, Hashed(e, h, s, a));
  }

  lemma OneLane(e: Expander, h: Bytes, item: Bytes, subtract: bool, j: nat)
    requires Hashable(h) && j < |h| / 2
    ensures
      var x, y := Lane(h, j), Lane(e(item), j);
      NewLane(e, h, if subtract then [item] else [], if subtract then [] else [item], j)
      == if subtract then Residue(x, y, 0) else Residue(x, 0, y)
  {
    hide Lane, Residue;
    LaneSumOne(e, item, j);
    assert LaneSum(e, [], j) == 0;
    hide LaneSum;
  }

  lemma OneWayAppend(e: Expander, h: Bytes, items: seq<Bytes>, item: Bytes, subtract: bool)
    requires Hashable(h)
    ensures OneWay(e, OneWay(e, h, items, subtract), [item], subtract) == OneWay(e, h, items + [item], subtract)
  {
    hide Hashed;
    HashedTwice(e, h, if subtract then items else [], if subtract then [] else items,
                if subtract then [item] else [], if subtract then [] else [item]);
    assert items[..0] + [] == [];
  }

  lemma LaneSumOne(e: Expander, item: Bytes, j: nat)
    requires j < LANE_COUNT
    ensures LaneSum(e, [item], j) == Lane(e(item), j)
  {
    assert LaneSum(e, [item][1..], j) == 0;
  }

  method ApplyItem(e: Expander, base: array<byte>, item: Bytes, subtract: bool)
    requires Hashable(base[..])
    modifies base
    ensures base[..] == OneWay(e, old(base[..]), [item], subtract)
  {
    hide OneWay, Word;
    ghost var before := base[..];
    PerformPointwiseWithOverflow(base, e(item), subtract);
    OneItem(e, before, item, subtract, base[..]);
  }

  method MultipleOp(e: Expander, base: array<byte>, input: seq<Bytes>, subtract: bool)
    requires Hashable(base[..])
    modifies base
    ensures base[..] == OneWay(e, old(base[..]), input, subtract)
  {
    HashedNothing(e, base[..]);
    for k := 0 to |input|
      invariant base[..] == OneWay(e, old(base[..]), input[..k], subtract)
    {
      hide Lane, Hashed;
      ApplyItem(e, base, input[k], subtract);
      OneWayAppend(e, old(base[..]), input[..k], input[k], subtract);
      assert input[..k + 1] == input[..k] + [input[k]];
    }
    assert input[..|input|] == input;
  }

  method SubtractThenAddInPlace(e: Expander, base: array<byte>, subtract: seq<Bytes>, add: seq<Bytes>)
    requires Hashable(base[..])
    modifies base
    ensures base[..] == Hashed(e, old(base[..]), subtract, add)
  {
    MultipleOp(e, base, subtract, true);
    MultipleOp(e, base, add, false);
    HashedTwice(e, old(base[..]), subtract, [], [], add);
    assert subtract + [] == subtract && [] + add == add;
  }

  method SubtractThenAdd(e: Expander, base: array<byte>, subtract: seq<Bytes>, add: seq<Bytes>)
      returns (output: array<byte>)
    requires Hashable(base[..])
    ensures fresh(output) && output[..] == Hashed(e, base[..], subtract, add)
    ensures base[..] == old(base[..])
  {
    output := new byte[base.Length](i => 0);
    for i := 0 to base.Length
      invariant output[..i] == base[..i]
    {
      output[i] := base[i];
    }
    assert output[..] == base[..];
    SubtractThenAddInPlace(e, output, subtract, add);
  }

  // ---- the laws

  lemma {:induction false} LaneSumAppend(e: Expander, a: seq<Bytes>, b: seq<Bytes>, j: nat)
    requires j < LANE_COUNT
    ensures LaneSum(e, a + b, j) == LaneSum(e, a, j) + LaneSum(e, b, j)
  {
    hide Expanded;
    if a == [] {
      assert a + b == b;
    } else {
      LaneSumAppend(e, a[1..], b, j);
      LaneSumHead(e, a, j);
      LaneSumHead(e, a + b, j);
      hide LaneSum;
      assert (a + b)[1..] == a[1..] + b && (a + b)[0] == a[0];
    }
  }

  lemma LaneSumHead(e: Expander, a: seq<Bytes>, j: nat)
    requires a != [] && j < LANE_COUNT
    ensures LaneSum(e, a, j) == Expanded(e, a[0], j) + LaneSum(e, a[1..], j)
  {
    hide Expanded;
  }

  lemma {:induction false} LaneSumPermuted(e: Expander, a: seq<Bytes>, b: seq<Bytes>, j: nat)
    requires j < LANE_COUNT && multiset(a) == multiset(b)
    ensures LaneSum(e, a, j) == LaneSum(e, b, j)
  {
    if a == [] {
      assert |multiset(b)| == 0;
    } else {
      hide Expanded;
      var x, y := TakeOut(a, b);
      LaneSumPermuted(e, a[1..], x + y, j);
      LaneSumAppend(e, x, y, j);
      LaneSumAppend(e, x, [a[0]] + y, j);
      assert ([a[0]] + y)[1..] == y;
    }
  }

  lemma TakeOut(a: seq<Bytes>, b: seq<Bytes>) returns (x: seq<Bytes>, y: seq<Bytes>)
    requires a != [] && multiset(a) == multiset(b)
    ensures b == x + ([a[0]] + y) && multiset(a[1..]) == multiset(x + y)
  {
    assert a[0] in multiset(b);
    var i :| 0 <= i < |b| && b[i] == a[0];
    x, y := b[..i], b[i + 1..];
    assert a == [a[0]] + a[1..];
    assert b == x + ([a[0]] + y);
    assert multiset(x + y) == multiset(b) - multiset{a[0]};
  }

  lemma ModStep(x: int, y: int)
    ensures (x % MODULUS + y) % MODULUS == (x + y) % MODULUS
  {}

  lemma HashedNothing(e: Expander, h: Bytes)
    requires Hashable(h)
    ensures Hashed(e, h, [], []) == h
  {
    LanesDetermine(Hashed(e, h, [], []), h);
  }

  lemma NewLaneTwice(e: Expander, h: Bytes, s1: seq<Bytes>, a1: seq<Bytes>, s2: seq<Bytes>, a2: seq<Bytes>, j: nat)
    requires Hashable(h) && j < |h| / 2
    ensures NewLane(e, Hashed(e, h, s1, a1), s2, a2, j) == NewLane(e, h, s1 + s2, a1 + a2, j)
  {
    hide Hashed, LaneSum, Lane;
    hide Residue;
    LaneSumAppend(e, s1, s2, j);
    LaneSumAppend(e, a1, a2, j);
    assert Lane(Hashed(e, h, s1, a1), j) == NewLane(e, h, s1, a1, j);
    ResidueTwice(Lane(h, j), LaneSum(e, s1, j), LaneSum(e, a1, j), LaneSum(e, s2, j), LaneSum(e, a2, j));
  }

  lemma ResidueTwice(l: nat, s1: nat, a1: nat, s2: nat, a2: nat)
    ensures Residue(Residue(l, s1, a1), s2, a2) == Residue(l, s1 + s2, a1 + a2)
  {
    ModStep(l - s1 + a1, a2 - s2);
  }

  /** Two calls in a row are one call on the joined lists. */
  lemma HashedTwice(e: Expander, h: Bytes, s1: seq<Bytes>, a1: seq<Bytes>, s2: seq<Bytes>, a2: seq<Bytes>)
    requires Hashable(h)
    ensures Hashed(e, Hashed(e, h, s1, a1), s2, a2) == Hashed(e, h, s1 + s2, a1 + a2)
  {
    hide Hashed, NewLane, Lane;
    var h1 := Hashed(e, h, s1, a1);
    forall j: nat | j < |h| / 2 ensures NewLane(e, h1, s2, a2, j) == NewLane(e, h, s1 + s2, a1 + a2, j) {
      NewLaneTwice(e, h, s1, a1, s2, a2, j);
    }
    LanesDetermine(Hashed(e, h1, s2, a2), Hashed(e, h, s1 + s2, a1 + a2));
  }

  /** The order of either list does not matter. */
  lemma HashedPermuted(e: Expander, h: Bytes, s1: seq<Bytes>, a1: seq<Bytes>, s2: seq<Bytes>, a2: seq<Bytes>)
    requires Hashable(h) && multiset(s1) == multiset(s2) && multiset(a1) == multiset(a2)
    ensures Hashed(e, h, s1, a1) == Hashed(e, h, s2, a2)
  {
    hide Hashed, Lane, LaneSum;
    forall j: nat | j < |h| / 2 ensures NewLane(e, h, s1, a1, j) == NewLane(e, h, s2, a2, j) {
      LaneSumPermuted(e, s1, s2, j);
      LaneSumPermuted(e, a1, a2, j);
    }
    LanesDetermine(Hashed(e, h, s1, a1), Hashed(e, h, s2, a2));
  }

  /** Swapping the lists undoes a call. */
  lemma HashedUndone(e: Expander, h: Bytes, s: seq<Bytes>, a: seq<Bytes>)
    requires Hashable(h)
    ensures Hashed(e, Hashed(e, h, s, a), a, s) == h
  {
    hide Hashed, LaneSum;
    HashedTwice(e, h, s, a, a, s);
    forall j: nat | j < |h| / 2 ensures NewLane(e, h, s + a, a + s, j) == Lane(h, j) {
      LaneSumPermuted(e, s + a, a + s, j);
    }
    LanesDetermine(Hashed(e, h, s + a, a + s), h);
  }

  // ---- what the hash can tell apart

  /** An expansion that shows only one item. */
  function Marking(x: Bytes): Expander {
    (item: Bytes) => seq(HASH_SIZE, i => if item == x && i % 2 == 0 then 1 else 0)
  }

  lemma {:induction false} MarkedSum(x: Bytes, items: seq<Bytes>, j: nat)
    requires j < LANE_COUNT
    ensures LaneSum(Marking(x), items, j) == multiset(items)[x]
  {
    if items != [] {
      MarkedSum(x, items[1..], j);
      assert items == [items[0]] + items[1..];
      assert multiset(items) == multiset{items[0]} + multiset(items[1..]);
    }
  }

  lemma SmallResidues(l: nat, a: nat, m: nat, n: nat)
    requires m < MODULUS && n < MODULUS && Residue(l, m, a) == Residue(l, n, a)
    ensures m == n
  {}

  lemma CountAtMost(x: Bytes, items: seq<Bytes>)
    ensures multiset(items)[x] <= |items|
  {
    assert |multiset(items)| == |items|;
    assert multiset(items)[x := 0] <= multiset(items);
    assert multiset(items) == multiset(items)[x := 0] + multiset{}[x := multiset(items)[x]];
  }

  lemma SameLane(e: Expander, h: Bytes, s1: seq<Bytes>, s2: seq<Bytes>, a: seq<Bytes>, j: nat)
    requires Hashable(h) && j < |h| / 2
    requires Hashed(e, h, s1, a) == Hashed(e, h, s2, a)
    ensures NewLane(e, h, s1, a, j) == NewLane(e, h, s2, a, j)
  {
    hide Hashed, NewLane;
    assert Lane(Hashed(e, h, s1, a), j) == NewLane(e, h, s1, a, j);
  }

  function CountOf(items: seq<Bytes>, x: Bytes): nat {
    multiset(items)[x]
  }

  lemma SameCount(h: Bytes, s1: seq<Bytes>, s2: seq<Bytes>, a: seq<Bytes>, x: Bytes)
    requires |h| == HASH_SIZE && |s1| < MODULUS && |s2| < MODULUS
    requires NewLane(Marking(x), h, s1, a, 0) == NewLane(Marking(x), h, s2, a, 0)
    ensures CountOf(s1, x) == CountOf(s2, x)
  {
    hide LaneSum, Marking, Lane, NewLane;
    MarkedLane(x, h, s1, a);
    MarkedLane(x, h, s2, a);
    hide CountOf, Residue;
    SmallResidues(Lane(h, 0), LaneSum(Marking(x), a, 0), CountOf(s1, x), CountOf(s2, x));
  }

  lemma MarkedLane(x: Bytes, h: Bytes, s: seq<Bytes>, a: seq<Bytes>)
    requires |h| == HASH_SIZE && |s| < MODULUS
    ensures CountOf(s, x) < MODULUS
    ensures NewLane(Marking(x), h, s, a, 0) == Residue(Lane(h, 0), CountOf(s, x), LaneSum(Marking(x), a, 0))
  {
    hide LaneSum, Marking, Lane;
    MarkedSum(x, s, 0);
    CountAtMost(x, s);
  }

  /** Under every expansion the two lists, subtracted, give one hash. */
  ghost predicate Indistinguishable(h: Bytes, s1: seq<Bytes>, s2: seq<Bytes>, a: seq<Bytes>)
    requires |h| == HASH_SIZE
  {
    forall e: Expander :: Hashed(e, h, s1, a) == Hashed(e, h, s2, a)
  }

  lemma SameCounts(h: Bytes, s1: seq<Bytes>, s2: seq<Bytes>, a: seq<Bytes>)
    requires |h| == HASH_SIZE && |s1| < MODULUS && |s2| < MODULUS && Indistinguishable(h, s1, s2, a)
    ensures multiset(s1) == multiset(s2)
  {
    hide Hashed, Marking;
    forall x ensures multiset(s1)[x] == multiset(s2)[x] {
      assert Hashed(Marking(x), h, s1, a) == Hashed(Marking(x), h, s2, a);
      SameLane(Marking(x), h, s1, s2, a, 0);
      SameCount(h, s1, s2, a, x);
    }
  }

  /** The hash tells two short lists apart under some expansion exactly if they are not permutations. */
  lemma SeparatesMultisets(h: Bytes, s1: seq<Bytes>, s2: seq<Bytes>, a: seq<Bytes>)
    requires |h| == HASH_SIZE && |s1| < MODULUS && |s2| < MODULUS
    ensures Indistinguishable(h, s1, s2, a) <==> multiset(s1) == multiset(s2)
  {
    if multiset(s1) == multiset(s2) {
      hide Hashed;
      forall e: Expander ensures Hashed(e, h, s1, a) == Hashed(e, h, s2, a) { HashedPermuted(e, h, s1, a, s2, a); }
    }
    if Indistinguishable(h, s1, s2, a) {
      hide Indistinguishable;
      SameCounts(h, s1, s2, a);
    }
  }
}
