/** Extraction of the reporting token content from a protobuf message (reportingtoken.go). */
module Reporting {
  import opened ByteStrings
  import opened Collections
  import opened Varints

  datatype ReportingField = ReportingField(fieldNumber: int, isMessage: bool, subfields: seq<ReportingField>)

  function GetConfigForField(fields: seq<ReportingField>, fieldNum: int): (r: Option<ReportingField>)
    ensures r.Some? ==> r.value in fields
  {
    if fields == [] then None
    else if fields[0].fieldNumber == fieldNum then Some(fields[0])
    else GetConfigForField(fields[1..], fieldNum)
  }

  /** It is the first entry with that number. */
  lemma {:induction false} ConfigIsFirst(fields: seq<ReportingField>, fieldNum: int)
    ensures match GetConfigForField(fields, fieldNum)
            case None => forall cfg <- fields :: cfg.fieldNumber != fieldNum
            case Some(cfg) =>
              exists i :: 0 <= i < |fields| && fields[i] == cfg && cfg.fieldNumber == fieldNum
                && forall j | 0 <= j < i :: fields[j].fieldNumber != fieldNum
  {
    if fields != [] && fields[0].fieldNumber != fieldNum {
      var rest := fields[1..];
      ConfigIsFirst(rest, fieldNum);
      if GetConfigForField(rest, fieldNum).Some? {
        var cfg := GetConfigForField(rest, fieldNum).value;
        var i :| 0 <= i < |rest| && rest[i] == cfg && cfg.fieldNumber == fieldNum
              && forall j | 0 <= j < i :: rest[j].fieldNumber != fieldNum;
        assert fields[i + 1] == cfg && forall j | 0 < j < i + 1 :: fields[j] == rest[j - 1];
      }
    }
  }

  predicate IsMessageConfig(cfg: ReportingField) {
    cfg.isMessage || |cfg.subfields| > 0
  }

  const WIRE_VARINT := 0
  const WIRE_64BIT := 1
  const WIRE_BYTES := 2
  const WIRE_START_GROUP := 3
  const WIRE_END_GROUP := 4
  const WIRE_32BIT := 5

  // ---- sorting by field number

  /** Something extracted, under its field number. */
  datatype Keyed<+T> = Keyed(num: int, item: T)

  /** `x` goes after everything that is not greater, so equal numbers keep their order. */
  function Insert<T>(s: seq<Keyed<T>>, x: Keyed<T>): (r: seq<Keyed<T>>)
    ensures |r| == |s| + 1
  {
    if s == [] || Last(s).num <= x.num then s + [x] else Insert(Init(s), x) + [Last(s)]
  }

  function Sort<T>(s: seq<Keyed<T>>): (r: seq<Keyed<T>>)
    ensures |r| == |s|
  {
    if s == [] then [] else Insert(Sort(Init(s)), Last(s))
  }

  lemma InsertStep<T>(s: seq<Keyed<T>>, x: Keyed<T>, j: nat)
    requires 0 < j <= |s| && x.num < s[j - 1].num
    ensures Insert(s[..j], x) + s[j..] == Insert(s[..j - 1], x) + s[j - 1..]
  {
    assert Init(s[..j]) == s[..j - 1] && Last(s[..j]) == s[j - 1];
    assert [s[j - 1]] + s[j..] == s[j - 1..];
  }

  /** `x` moved down to position `j` of the sorted elements, with the rest behind them. */
  ghost function Sifted<T>(s: seq<Keyed<T>>, x: Keyed<T>, j: nat, tail: seq<Keyed<T>>): (r: seq<Keyed<T>>)
    requires j <= |s|
    ensures |r| == |s| + 1 + |tail| && r[j] == x && (j > 0 ==> r[j - 1] == s[j - 1])
  {
    s[..j] + [x] + s[j..] + tail
  }

  lemma SiftedSwap<T>(s: seq<Keyed<T>>, x: Keyed<T>, j: nat, tail: seq<Keyed<T>>)
    requires 0 < j <= |s|
    ensures Sifted(s, x, j, tail)[j := s[j - 1]][j - 1 := x] == Sifted(s, x, j - 1, tail)
  {}

  lemma SiftedEnd<T>(s: seq<Keyed<T>>, x: Keyed<T>, j: nat, tail: seq<Keyed<T>>)
    requires j <= |s| && (j > 0 ==> s[j - 1].num <= x.num)
    requires Insert(s[..j], x) + s[j..] == Insert(s, x)
    ensures Sifted(s, x, j, tail) == Insert(s, x) + tail
  {
    assert j > 0 ==> Last(s[..j]) == s[j - 1];
    assert Insert(s[..j], x) == s[..j] + [x];
  }

  /** Swaps element `i` down to its place among the sorted ones before it. */
  method SiftDown<T>(a: array<Keyed<T>>, i: nat)
    requires i < a.Length
    modifies a
    ensures a[..] == Insert(old(a[..i]), old(a[i])) + old(a[i + 1..])
  {
    hide Insert, Sifted;
    ghost var s, x, tail := a[..i], a[i], a[i + 1..];
    var j := i;
    SiftedStart(a[..], i);
    assert s[..i] == s && Insert(s, x) + s[i..] == Insert(s, x);
    while j > 0 && a[j].num < a[j - 1].num
      invariant 0 <= j <= i
      invariant a[..] == Sifted(s, x, j, tail)
      invariant Insert(s[..j], x) + s[j..] == Insert(s, x)
    {
      assert a[..][j] == x && a[..][j - 1] == s[j - 1];
      InsertStep(s, x, j);
      SiftedSwap(s, x, j, tail);
      a[j], a[j - 1] := a[j - 1], a[j];
      j := j - 1;
    }
    assert a[..][j] == x && (j > 0 ==> a[..][j - 1] == s[j - 1]);
    SiftedEnd(s, x, j, tail);
  }

  lemma SiftedStart<T>(a: seq<Keyed<T>>, i: nat)
    requires i < |a|
    ensures a == Sifted(a[..i], a[i], i, a[i + 1..])
  {}

  /** Insertion sort by swaps, stable; the source's sort makes no promise about equal numbers. */
  method SortFields<T>(a: array<Keyed<T>>)
    modifies a
    ensures a[..] == Sort(old(a[..]))
  {
    ghost var s := a[..];
    assert s[..0] == [] && s == Sort(s[..0]) + s[0..];
    for i := 0 to a.Length
      invariant a[..] == Sort(s[..i]) + s[i..]
    {
      hide Insert;
      SortStep(s, i);
      assert a[..][..i] == Sort(s[..i]) && a[..][i..] == s[i..];
      SameTail(a[..], s, i);
      SiftDown(a, i);
    }
    assert s[..a.Length] == s;
  }

  lemma SameTail<T>(a: seq<T>, b: seq<T>, i: nat)
    requires i < |a| == |b| && a[i..] == b[i..]
    ensures a[i] == b[i] && a[i + 1..] == b[i + 1..]
  {
    assert a[i..][0] == b[i..][0] && a[i..][1..] == b[i..][1..];
  }

  lemma SortStep<T>(s: seq<Keyed<T>>, i: nat)
    requires i < |s|
    ensures Sort(s[..i + 1]) == Insert(Sort(s[..i]), s[i])
  {
    assert Init(s[..i + 1]) == s[..i] && Last(s[..i + 1]) == s[i];
  }

  // ---- the scanner

  /** `Overrun` stands for a slice taken out of range, and `Stuck` for a length or varint that moves the scan
      index back to the start of its field or before it. */
  datatype ScanResult = Extracted(content: Bytes) | Overrun | Stuck

  type Entry = Keyed<Bytes>

  function Joined(s: seq<Entry>): Bytes {
    if s == [] then [] else s[0].item + Joined(s[1..])
  }

  function Finish(fields: seq<Entry>): ScanResult {
    Extracted(Joined(Sort(fields)))
  }

  /** Conversion and sum are those of 64-bit two's complement. */
  lemma IntsWrap(l: nat, x: int)
    requires l < 0x1_0000_0000_0000_0000 && -0x8000_0000_0000_0000 <= x < 0x1_8000_0000_0000_0000
    ensures -0x8000_0000_0000_0000 <= ToInt(l) < 0x8000_0000_0000_0000 && (l - ToInt(l)) % 0x1_0000_0000_0000_0000 == 0
    ensures -0x8000_0000_0000_0000 <= Wrapped(x) < 0x8000_0000_0000_0000
    ensures (x - Wrapped(x)) % 0x1_0000_0000_0000_0000 == 0
  {}

  /** Go's conversion of an unsigned 64-bit number to int. */
  function ToInt(l: nat): int {
    if l < INT64_LIMIT then l else l - UINT64_LIMIT
  }

  /** A sum of ints that leaves the 64-bit range wraps around. */
  function Wrapped(x: int): int {
    if x >= INT64_LIMIT then x - UINT64_LIMIT else x
  }

  function Slice(data: Bytes, lo: int, hi: int): Option<Bytes> {
    if 0 <= lo <= hi <= |data| then Some(data[lo..hi]) else None
  }

  /** Where the value that starts at `at` ends; None for an unknown wire type. */
  function EndOf(wireType: int, data: Bytes, at: nat): Option<int>
    requires at <= |data|
  {
    var (l, n) := Uvarint(data[at..]);
    if wireType == WIRE_VARINT then Some(at + n)
    else if wireType == WIRE_64BIT then Some(at + 8)
    else if wireType == WIRE_BYTES then Some(Wrapped(at + n + ToInt(l)))
    else if wireType == WIRE_32BIT then Some(at + 4)
    else None
  }

  /** What one field contributes. */
  datatype Piece = Bytes_(b: Bytes) | Nothing | Failed(r: ScanResult)

  function Rewritten(tag: nat, sub: ScanResult): Piece {
    if !sub.Extracted? then Failed(sub)
    else if |sub.content| > 0 then Bytes_(PutUvarint(tag) + PutUvarint(|sub.content|) + sub.content)
    else Nothing
  }

  function Copied(b: Option<Bytes>): Piece {
    if b.None? then Failed(Overrun) else Bytes_(b.value)
  }

  /** What the configuration makes of the field that lies between `start` and `end`, its value from `at` on. */
  function PieceOf(data: Bytes, start: nat, tag: nat, at: nat, end: int, config: seq<ReportingField>): Piece
    requires start < at <= |data| && EndOf(tag % 8, data, at) == Some(end)
    decreases |data|, 0
  {
    var cfg := GetConfigForField(config, tag / 8);
    if cfg.None? then Nothing
    else if tag % 8 == WIRE_BYTES && IsMessageConfig(cfg.value) then
      var value := Slice(data, at + Uvarint(data[at..]).1, end);
      if value.None? then Failed(Overrun)
      else
        SubShorter(data, at, end);
        Rewritten(tag, Scan(value.value, 0, cfg.value.subfields, []))
    else Copied(Slice(data, start, end))
  }

  /** The scan from index `i` on, with the fields found so far. */
  function Scan(data: Bytes, i: nat, config: seq<ReportingField>, fields: seq<Entry>): ScanResult
    decreases |data|, 1, |data| - i
  {
    if i >= |data| then Finish(fields)
    else
      var (tag, tagLen) := Uvarint(data[i..]);
      if tagLen <= 0 then Finish(fields)
      else
        var end := EndOf(tag % 8, data, i + tagLen);
        if end.None? then Extracted([])
        else
          var piece := PieceOf(data, i, tag, i + tagLen, end.value, config);
          if piece.Failed? then piece.r
          else if end.value <= i then Stuck
          else Scan(data, end.value, config, Added(fields, tag / 8, piece))
  }

  function Added(fields: seq<Entry>, num: int, piece: Piece): seq<Entry> {
    if piece.Bytes_? then fields + [Keyed(num, piece.b)] else fields
  }

  /** A sub-message is shorter than its message, whatever its length prefix claims. */
  lemma SubShorter(data: Bytes, at: nat, end: int)
    requires 0 < at <= |data| && EndOf(WIRE_BYTES, data, at) == Some(end)
    ensures
      var value := Slice(data, at + Uvarint(data[at..]).1, end);
      value.Some? ==> |value.value| < |data|
  {
    hide UvarintFrom;
  }

  method ExtractField(data: Bytes, start: nat, tag: nat, at: nat, end: int, config: seq<ReportingField>)
      returns (piece: Piece)
    requires start < at <= |data| && EndOf(tag % 8, data, at) == Some(end)
    ensures piece == PieceOf(data, start, tag, at, end, config)
    decreases |data|, 0
  {
    var fieldCfg := GetConfigForField(config, tag / 8);
    if fieldCfg.None? { return Nothing; }
    if tag % 8 == WIRE_BYTES && IsMessageConfig(fieldCfg.value) {
      var (l, n) := Uvarint(data[at..]);
      var value := Slice(data, at + n, end);
      if value.None? { return Failed(Overrun); }
      SubShorter(data, at, end);
      var sub := ExtractReportingTokenContent(value.value, fieldCfg.value.subfields);
      if !sub.Extracted? { return Failed(sub); }
      if |sub.content| == 0 { return Nothing; }
      return Bytes_(PutUvarint(tag) + PutUvarint(|sub.content|) + sub.content);
    }
    var bytes := Slice(data, start, end);
    if bytes.None? { return Failed(Overrun); }
    return Bytes_(bytes.value);
  }

  method ExtractReportingTokenContent(data: Bytes, config: seq<ReportingField>) returns (r: ScanResult)
    ensures r == Scan(data, 0, config, [])
    decreases |data|, 1
  {
    hide PieceOf, UvarintFrom, EndOf, Sort, Joined;
    var fields: seq<Entry> := [];
    var i: nat := 0;
    while i < |data|
      invariant Scan(data, i, config, fields) == Scan(data, 0, config, [])
      decreases |data| - i
    {
      var (tag, tagLen) := Uvarint(data[i..]);
      if tagLen <= 0 { break; }
      var end := EndOf(tag % 8, data, i + tagLen);
      if end.None? { return Extracted([]); }
      var piece := ExtractField(data, i, tag, i + tagLen, end.value, config);
      if piece.Failed? { return piece.r; }
      if end.value <= i { return Stuck; }
      if piece.Bytes_? {
        fields := fields + [Keyed(tag / 8, piece.b)];
      }
      i := end.value;
    }
    var out := SortAndConcatenate(fields);
    return Extracted(out);
  }

  method SortAndConcatenate(fields: seq<Entry>) returns (out: Bytes)
    ensures out == Joined(Sort(fields))
  {
    var sorted := new Entry[|fields|](k requires 0 <= k < |fields| => fields[k]);
    assert sorted[..] == fields;
    SortFields(sorted);
    out := [];
    for k := 0 to sorted.Length
      invariant sorted[..] == Sort(fields)
      invariant out + Joined(sorted[k..]) == Joined(Sort(fields))
    {
      out := out + sorted[k].item;
    }
  }

  // ---- messages as trees

  /** A well-formed message; tags, lengths and varints keep the bytes they were encoded with. */
  datatype Field =
    | VarintField(tag: Bytes, value: Bytes)
    | Fixed64(tag: Bytes, value: Bytes)
    | Delimited(tag: Bytes, length: Bytes, value: Bytes)
    | Message(tag: Bytes, length: Bytes, fields: seq<Field>)
    | Fixed32(tag: Bytes, value: Bytes)
    | Group(tag: Bytes, fields: seq<Field>, end: Bytes)

  function Serialize(f: Field): Bytes {
    match f
    case VarintField(tag, value) => tag + value
    case Fixed64(tag, value) => tag + value
    case Delimited(tag, length, value) => tag + length + value
    case Message(tag, length, fields) => tag + length + SerializeAll(fields)
    case Fixed32(tag, value) => tag + value
    case Group(tag, fields, end) => tag + SerializeAll(fields) + end
  }

  function SerializeAll(fs: seq<Field>): Bytes {
    if fs == [] then [] else Serialize(fs[0]) + SerializeAll(fs[1..])
  }

  function WireType(f: Field): nat {
    match f
    case VarintField(_, _) => WIRE_VARINT
    case Fixed64(_, _) => WIRE_64BIT
    case Delimited(_, _, _) => WIRE_BYTES
    case Message(_, _, _) => WIRE_BYTES
    case Fixed32(_, _) => WIRE_32BIT
    case Group(_, _, _) => WIRE_START_GROUP
  }

  predicate LengthIs(length: Bytes, n: nat) {
    IsVarint(length) && Value(length) == n < INT64_LIMIT
  }

  predicate WellFormed(f: Field) {
    && IsVarint(f.tag) && Value(f.tag) % 8 == WireType(f)
    && match f
       case VarintField(_, value) => IsVarint(value)
       case Fixed64(_, value) => |value| == 8
       case Delimited(_, length, value) => LengthIs(length, |value|)
       case Message(_, length, fields) => LengthIs(length, |SerializeAll(fields)|) && AllWellFormed(fields)
       case Fixed32(_, value) => |value| == 4
       case Group(_, fields, end) =>
         AllWellFormed(fields) && IsVarint(end) && Value(end) % 8 == WIRE_END_GROUP
             && Value(end) / 8 == Value(f.tag) / 8
  }

  predicate AllWellFormed(fs: seq<Field>) {
    fs == [] || (WellFormed(fs[0]) && AllWellFormed(fs[1..]))
  }

  function Num(f: Field): nat
    requires WellFormed(f)
  {
    Value(f.tag) / 8
  }

  /** Where the configuration expects a message, the tree has one. */
  predicate Fits(f: Field, config: seq<ReportingField>)
    requires WellFormed(f)
  {
    var cfg := GetConfigForField(config, Num(f));
    cfg.Some? && IsMessageConfig(cfg.value) && WireType(f) == WIRE_BYTES ==>
      f.Message? && AllFit(f.fields, cfg.value.subfields)
  }

  predicate AllFit(fs: seq<Field>, config: seq<ReportingField>)
    requires AllWellFormed(fs)
  {
    fs == [] || (Fits(fs[0], config) && AllFit(fs[1..], config))
  }

  /** Whether a group stands at this level, which the scanner does not expect. */
  predicate HasGroup(fs: seq<Field>) {
    fs != [] && (fs[0].Group? || HasGroup(fs[1..]))
  }

  // ---- the projection

  /** The configured part of one field: itself if it is a leaf or a group, its projection with a new header if the
      configuration names parts of it, nothing if none of them is there. */
  function Keep(f: Field, config: seq<ReportingField>, strict: bool): (r: seq<Keyed<Field>>)
    requires WellFormed(f) && Fits(f, config)
    ensures |r| <= 1
    decreases f, 0
  {
    var cfg := GetConfigForField(config, Num(f));
    if cfg.None? then []
    else if IsMessageConfig(cfg.value) && WireType(f) == WIRE_BYTES then
      var sub := Project(f.fields, cfg.value.subfields, strict);
      if sub == [] then []
      else [Keyed(Num(f), Message(PutUvarint(Value(f.tag)), PutUvarint(|SerializeAll(sub)|), sub))]
    else [Keyed(Num(f), f)]
  }

  function KeepAll(fs: seq<Field>, config: seq<ReportingField>, strict: bool): seq<Keyed<Field>>
    requires AllWellFormed(fs) && AllFit(fs, config)
    decreases fs, 1
  {
    if fs == [] then [] else Keep(fs[0], config, strict) + KeepAll(fs[1..], config, strict)
  }

  function Items(s: seq<Keyed<Field>>): (r: seq<Field>)
    ensures |r| == |s|
  {
    if s == [] then [] else [s[0].item] + Items(s[1..])
  }

  /** The tree the reporting token is computed over. With `strict`, as in the source, a group empties the level it
      stands at; otherwise it is one more field to keep or to leave out. */
  function Project(fs: seq<Field>, config: seq<ReportingField>, strict: bool): seq<Field>
    requires AllWellFormed(fs) && AllFit(fs, config)
    decreases fs, 2
  {
    if strict && HasGroup(fs) then [] else Items(Sort(KeepAll(fs, config, strict)))
  }
}
