/** The token dictionaries of the binary XML format and the indexes built over them (binary/token/token.go). */
module Tokens {
  import opened ByteStrings

  const LIST_EMPTY: byte := 0
  const DICTIONARY_0: byte := 236
  const DICTIONARY_3: byte := 239
  const INTEROP_JID: byte := 245
  const FB_JID: byte := 246
  const AD_JID: byte := 247
  const LIST_8: byte := 248
  const LIST_16: byte := 249
  const JID_PAIR: byte := 250
  const HEX_8: byte := 251
  const BINARY_8: byte := 252
  const BINARY_20: byte := 253
  const BINARY_32: byte := 254
  const NIBBLE_8: byte := 255

  const PACKED_MAX := 127

  datatype RawTables = Tables(single: seq<Bytes>, double: seq<seq<Bytes>>)

  /** The shape of the source's two literal tables: 236 single-byte tokens, the first of them empty,
      and 4 dictionaries of 256. Their contents are left open. */
  ghost predicate TablesFit(t: RawTables) {
    && 0 < |t.single| <= DICTIONARY_0 && t.single[0] == []
    && |t.double| <= 4
    && forall d <- t.double :: |d| <= 256
  }

  type Tables = t: RawTables | TablesFit(t) witness Tables([[]], [])

  datatype DoubleIndex = DoubleIndex(dictionary: byte, index: byte)

  /** Where `s` last occurs. */
  function LastIndex(ts: seq<Bytes>, s: Bytes): (r: Option<nat>)
    ensures r.Some? <==> s in ts
    ensures r.Some? ==> r.value < |ts| && ts[r.value] == s
  {
    if ts == [] then None
    else if ts[|ts| - 1] == s then Some(|ts| - 1)
    else LastIndex(ts[..|ts| - 1], s)
  }

  function LastDoubleIndex(ds: seq<seq<Bytes>>, s: Bytes): (r: Option<(nat, nat)>)
    ensures r.Some? <==> exists d <- ds :: s in d
    ensures r.Some? ==> r.value.0 < |ds| && r.value.1 < |ds[r.value.0]| && ds[r.value.0][r.value.1] == s
  {
    if ds == [] then None
    else
      match LastIndex(ds[|ds| - 1], s)
      case Some(i) => Some((|ds| - 1, i))
      case None => LastDoubleIndex(ds[..|ds| - 1], s)
  }

  function IndexOfSingleToken(t: Tables, s: Bytes): (r: Option<byte>)
    ensures r.Some? ==> 0 < r.value < |t.single| && t.single[r.value] == s
    ensures r.None? ==> s == [] || s !in t.single
  {
    if s == [] then None
    else
      match LastIndex(t.single, s)
      case None => None
      case Some(i) => Some(i)
  }

  function IndexOfDoubleByteToken(t: Tables, s: Bytes): (r: Option<DoubleIndex>)
    ensures r.Some? ==> GetDoubleToken(t, r.value.dictionary, r.value.index) == Some(s)
    ensures r.None? ==> forall d <- t.double :: s !in d
  {
    match LastDoubleIndex(t.double, s)
    case None => None
    case Some((d, i)) => assert t.double[d] in t.double; Some(DoubleIndex(d, i))
  }

  function GetDoubleToken(t: Tables, dictionary: int, index: int): Option<Bytes> {
    if dictionary < 0 || dictionary >= |t.double| then None
    else if index < 0 || index >= |t.double[dictionary]| then None
    else Some(t.double[dictionary][index])
  }

  /** What the two indexes filled at start-up answer, for every string. */
  ghost predicate Indexes(t: Tables, single: map<Bytes, byte>, double: map<Bytes, DoubleIndex>) {
    && (forall s :: IndexOfSingleToken(t, s) == if s in single then Some(single[s]) else None)
    && (forall s :: IndexOfDoubleByteToken(t, s) == if s in double then Some(double[s]) else None)
  }

  method Init(t: Tables) returns (single: map<Bytes, byte>, double: map<Bytes, DoubleIndex>)
    ensures Indexes(t, single, double)
  {
    single, double := map[], map[];
    for i := 0 to |t.single|
      invariant forall s :: s in single <==> s != [] && s in t.single[..i]
      invariant forall s <- single :: LastIndex(t.single[..i], s) == Some(single[s])
    {
      assert t.single[..i + 1] == t.single[..i] + [t.single[i]];
      assert t.single[..i + 1][..i] == t.single[..i];
      if t.single[i] != [] {
        single := single[t.single[i] := i % 256];
      }
    }
    assert t.single[..|t.single|] == t.single;
    for d := 0 to |t.double|
      invariant forall s :: DoubleAnswers(t.double[..d], double, s)
    {
      double := AddDictionary(t.double[..d], t.double[d], double);
      assert t.double[..d] + [t.double[d]] == t.double[..d + 1];
    }
    assert t.double[..|t.double|] == t.double;
    forall s ensures IndexOfDoubleByteToken(t, s) == if s in double then Some(double[s]) else None {
      assert DoubleAnswers(t.double, double, s);
    }
  }

  ghost predicate DoubleAnswers(ds: seq<seq<Bytes>>, double: map<Bytes, DoubleIndex>, s: Bytes) {
    match LastDoubleIndex(ds, s)
    case None => s !in double
    case Some((d, i)) => s in double && double[s].dictionary == d && double[s].index == i
  }

  method AddDictionary(ds: seq<seq<Bytes>>, tokens: seq<Bytes>, before: map<Bytes, DoubleIndex>)
    returns (double: map<Bytes, DoubleIndex>)
    requires |ds| < 256 && |tokens| <= 256
    requires forall s :: DoubleAnswers(ds, before, s)
    ensures forall s :: DoubleAnswers(ds + [tokens], double, s)
  {
    double := before;
    ghost var seen := ds + [[]];
    forall s ensures DoubleAnswers(seen, double, s) {
      assert DoubleAnswers(ds, before, s);
      assert seen[..|ds|] == ds;
    }
    for i := 0 to |tokens|
      invariant seen == ds + [tokens[..i]]
      invariant forall s :: DoubleAnswers(seen, double, s)
    {
      ghost var last, lastSeen := double, seen;
      double := double[tokens[i] := DoubleIndex(|ds| % 256, i % 256)];
      seen := ds + [tokens[..i + 1]];
      forall s ensures DoubleAnswers(seen, double, s) {
        assert DoubleAnswers(lastSeen, last, s);
        assert tokens[..i + 1][..i] == tokens[..i];
        assert lastSeen[..|ds|] == ds == seen[..|ds|];
      }
    }
    assert tokens[..|tokens|] == tokens;
  }
}
