/** The per-collection hash state and the preimages of the MACs (appstate/hash.go). */
module HashStates {
  import opened ByteStrings
  import opened LTHash

  type uint64 = x: int | 0 <= x < 0x1_0000_0000_0000_0000

  const MAC_SIZE := 32

  datatype Operation = SET | REMOVE

  /** An encrypted mutation; an absent protobuf message reads as empty bytes. */
  datatype SyncdMutation = SyncdMutation(op: Operation, index: Bytes, value: Bytes, keyId: Bytes)

  /** `Crash` stands for a slice taken out of range. */
  datatype AppStateError =
    | LookupFailed
    | KeyNotFound
    | MismatchingLTHash
    | MismatchingPatchMAC
    | MismatchingContentMAC
    | MismatchingIndexMAC
    | DecryptFailed
    | BadSyncAction
    | BadIndex
    | FetchFailed
    | Crash

  /** The value MAC that ends a value blob; the source slices it out of the last 32 bytes. */
  function ValueMAC(m: SyncdMutation): Bytes {
    if |m.value| < MAC_SIZE then m.value else m.value[|m.value| - MAC_SIZE..]
  }

  predicate HasMAC(m: SyncdMutation) {
    |m.value| >= MAC_SIZE
  }

  type Lookup = Result<Option<Bytes>, AppStateError>

  // ---- what the mutations do to the hash

  /** The items to subtract and to add, and the indexes of removals that found nothing to remove. */
  datatype Delta = Delta(removed: seq<Bytes>, added: seq<Bytes>, warnings: seq<Bytes>)

  function StepDelta(m: SyncdMutation, found: Option<Bytes>, d: Delta): Delta {
    var d1 := if m.op.SET? then d.(added := d.added + [ValueMAC(m)]) else d;
    if found.Some? then d1.(removed := d1.removed + [found.value])
    else if m.op.REMOVE? then d1.(warnings := d1.warnings + [m.index])
    else d1
  }

  /** The delta of the first `n` mutations. */
  function DeltaOf(ms: seq<SyncdMutation>, prev: (Bytes, nat) -> Lookup, n: nat): Result<Delta, AppStateError>
    requires n <= |ms|
  {
    if n == 0 then Ok(Delta([], [], []))
    else
      match DeltaOf(ms, prev, n - 1)
      case Err(e) => Err(e)
      case Ok(d) =>
        var m := ms[n - 1];
        if m.op.SET? && !HasMAC(m) then Err(Crash)
        else
          match prev(m.index, n - 1)
          case Err(e) => Err(e)
          case Ok(found) => Ok(StepDelta(m, found, d))
  }

  class HashState {
    var version: uint64
    const hash: array<byte>

    ghost predicate Valid()
      reads this, hash
    {
      hash.Length == HASH_SIZE
    }

    /** HashState is a value in the source: assigning one copies its array. */
    constructor (v: uint64, h: Bytes)
      requires |h| == HASH_SIZE
      ensures Valid() && fresh(hash) && version == v && hash[..] == h
    {
      version := v;
      hash := new byte[HASH_SIZE](i requires 0 <= i < HASH_SIZE => h[i]);
      new;
      assert hash[..] == h;
    }

    method UpdateHash(e: Expander, mutations: seq<SyncdMutation>, prev: (Bytes, nat) -> Lookup)
      returns (r: Result<seq<Bytes>, AppStateError>)
      requires Valid()
      modifies hash
      ensures match DeltaOf(mutations, prev, |mutations|)
              case Err(err) => r == Err(err) && hash[..] == old(hash[..])
              case Ok(d) => r == Ok(d.warnings) && hash[..] == Hashed(e, old(hash[..]), d.removed, d.added)
    {
      hide Hashed;
      var delta := CollectDelta(mutations, prev);
      if delta.Err? { return Err(delta.error); }
      SubtractThenAddInPlace(e, hash, delta.value.removed, delta.value.added);
      return Ok(delta.value.warnings);
    }
  }

  /** The loop over the mutations, before the hash is touched. */
  method CollectDelta(mutations: seq<SyncdMutation>, prev: (Bytes, nat) -> Lookup)
      returns (r: Result<Delta, AppStateError>)
    ensures r == DeltaOf(mutations, prev, |mutations|)
  {
    var added, removed, warnings: seq<Bytes> := [], [], [];
    for i := 0 to |mutations|
      invariant DeltaOf(mutations, prev, i) == Ok(Delta(removed, added, warnings))
    {
      var mutation := mutations[i];
      if mutation.op.SET? {
        if !HasMAC(mutation) {
          FailsOn(mutations, prev, i + 1);
          return Err(Crash);
        }
        added := added + [ValueMAC(mutation)];
      }
      var removal := prev(mutation.index, i);
      if removal.Err? {
        FailsOn(mutations, prev, i + 1);
        return Err(removal.error);
      } else if removal.value.Some? {
        removed := removed + [removal.value.value];
      } else if mutation.op.REMOVE? {
        warnings := warnings + [mutation.index];
      }
    }
    return Ok(Delta(removed, added, warnings));
  }

  /** An error at a prefix is the error of the whole list. */
  lemma {:induction false} FailsOn(ms: seq<SyncdMutation>, prev: (Bytes, nat) -> Lookup, n: nat)
    requires n <= |ms| && DeltaOf(ms, prev, n).Err?
    ensures DeltaOf(ms, prev, |ms|) == DeltaOf(ms, prev, n)
    decreases |ms| - n
  {
    if n < |ms| {
      FailsOn(ms, prev, n + 1);
    }
  }

  // ---- what the MACs authenticate

  function Uint64Bytes(v: uint64): (b: Bytes)
    ensures |b| == 8
  {
    BigEndian(v, 8)
  }

  function SnapshotPreimage(hash: Bytes, version: uint64, name: Bytes): Bytes {
    hash + Uint64Bytes(version) + name
  }

  function ValueMACs(ms: seq<SyncdMutation>): seq<Bytes> {
    seq(|ms|, i requires 0 <= i < |ms| => ValueMAC(ms[i]))
  }

  function PatchPreimage(snapshotMAC: Bytes, valueMACs: seq<Bytes>, version: uint64, name: Bytes): Bytes {
    snapshotMAC + Concat(valueMACs) + Uint64Bytes(version) + name
  }

  function OperationByte(op: Operation): byte {
    match op
    case SET => 1
    case REMOVE => 2
  }

  function ContentPreimage(op: Operation, data: Bytes, keyId: Bytes): Bytes {
    [OperationByte(op)] + keyId + data + Uint64Bytes((|keyId| + 1) % 0x1_0000_0000_0000_0000)
  }

  lemma WidthOf8()
    ensures Pow256(8) == 0x1_0000_0000_0000_0000
  {
    assert Pow256(2) == 0x1_0000;
    assert Pow256(4) == 0x1_0000_0000;
    assert Pow256(6) == 0x1_0000_0000_0000;
  }

  lemma Uint64BytesInjective(v: uint64, w: uint64)
    requires Uint64Bytes(v) == Uint64Bytes(w)
    ensures v == w
  {
    WidthOf8();
    BigEndianInjective(v, w, 8);
  }

  lemma SplitAt(a: Bytes, b: Bytes, c: Bytes, d: Bytes)
    requires a + b == c + d && |a| == |c|
    ensures a == c && b == d
  {
    assert (a + b)[..|a|] == a && (c + d)[..|c|] == c;
    assert (a + b)[|a|..] == b && (c + d)[|c|..] == d;
  }

  /** The snapshot MAC fixes the hash, the version and the collection name. */
  lemma SnapshotPreimageInjective(h1: Bytes, v1: uint64, n1: Bytes, h2: Bytes, v2: uint64, n2: Bytes)
    requires |h1| == |h2| == HASH_SIZE
    requires SnapshotPreimage(h1, v1, n1) == SnapshotPreimage(h2, v2, n2)
    ensures h1 == h2 && v1 == v2 && n1 == n2
  {
    hide BigEndian;
    var b1, b2 := Uint64Bytes(v1), Uint64Bytes(v2);
    assert h1 + b1 + n1 == h1 + (b1 + n1) && h2 + b2 + n2 == h2 + (b2 + n2);
    SplitAt(h1, b1 + n1, h2, b2 + n2);
    SplitAt(b1, n1, b2, n2);
    Uint64BytesInjective(v1, v2);
  }

  /** The content MAC fixes the operation, the key and the data: the length at the end tells key from data. */
  lemma ContentPreimageInjective(o1: Operation, d1: Bytes, k1: Bytes, o2: Operation, d2: Bytes, k2: Bytes)
    requires |k1| < 0xFFFF_FFFF_FFFF_FFFF && |k2| < 0xFFFF_FFFF_FFFF_FFFF
    requires ContentPreimage(o1, d1, k1) == ContentPreimage(o2, d2, k2)
    ensures o1 == o2 && d1 == d2 && k1 == k2
  {
    hide BigEndian;
    var l1, l2 := Uint64Bytes(|k1| + 1), Uint64Bytes(|k2| + 1);
    var p1, p2 := [OperationByte(o1)] + k1 + d1, [OperationByte(o2)] + k2 + d2;
    assert p1 + l1 == p2 + l2;
    assert |p1| == |p2|;
    SplitAt(p1, l1, p2, l2);
    Uint64BytesInjective(|k1| + 1, |k2| + 1);
    SplitAt([OperationByte(o1)] + k1, d1, [OperationByte(o2)] + k2, d2);
    SplitAt([OperationByte(o1)], k1, [OperationByte(o2)], k2);
    assert [OperationByte(o1)][0] == [OperationByte(o2)][0];
  }

  predicate AllMACs(macs: seq<Bytes>) {
    forall m <- macs :: |m| == MAC_SIZE
  }

  lemma {:induction false} ConcatLength(macs: seq<Bytes>)
    requires AllMACs(macs)
    ensures |Concat(macs)| == MAC_SIZE * |macs|
  {
    if macs != [] {
      assert macs[0] in macs;
      ConcatLength(macs[1..]);
    }
  }

  lemma {:induction false} ConcatInjective(a: seq<Bytes>, b: seq<Bytes>)
    requires AllMACs(a) && AllMACs(b) && |a| == |b| && Concat(a) == Concat(b)
    ensures a == b
  {
    if a != [] {
      assert a[0] in a && b[0] in b;
      SplitAt(a[0], Concat(a[1..]), b[0], Concat(b[1..]));
      ConcatInjective(a[1..], b[1..]);
      assert a == [a[0]] + a[1..] && b == [b[0]] + b[1..];
    }
  }

  /** In one collection the patch MAC fixes the snapshot MAC, every value MAC in order, their number and the version. */
  lemma PatchPreimageInjective(s1: Bytes, m1: seq<Bytes>, v1: uint64, s2: Bytes, m2: seq<Bytes>, v2: uint64,
      name: Bytes)
    requires |s1| == |s2| == MAC_SIZE && AllMACs(m1) && AllMACs(m2)
    requires PatchPreimage(s1, m1, v1, name) == PatchPreimage(s2, m2, v2, name)
    ensures s1 == s2 && m1 == m2 && v1 == v2
  {
    hide BigEndian, Concat;
    ConcatLength(m1);
    ConcatLength(m2);
    var b1, b2 := Uint64Bytes(v1), Uint64Bytes(v2);
    assert |s1 + Concat(m1) + b1| == |s2 + Concat(m2) + b2|;
    SplitAt(s1 + Concat(m1) + b1, name, s2 + Concat(m2) + b2, name);
    SplitAt(s1 + Concat(m1), b1, s2 + Concat(m2), b2);
    SplitAt(s1, Concat(m1), s2, Concat(m2));
    Uint64BytesInjective(v1, v2);
    ConcatInjective(m1, m2);
  }
}
