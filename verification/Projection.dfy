/** The byte scanner computes the serialisation of the tree projection. */
module Projection {
  import opened ByteStrings
  import opened Collections
  import opened Varints
  import opened Reporting

  function Entries(s: seq<Keyed<Field>>): (r: seq<Entry>)
    ensures |r| == |s|
  {
    seq(|s|, i requires 0 <= i < |s| => Keyed(s[i].num, Serialize(s[i].item)))
  }

  lemma {:induction false} InsertEntries(s: seq<Keyed<Field>>, x: Keyed<Field>)
    ensures Entries(Insert(s, x)) == Insert(Entries(s), Keyed(x.num, Serialize(x.item)))
  {
    hide Serialize;
    if s != [] && !(Last(s).num <= x.num) {
      InsertEntries(Init(s), x);
      assert Init(Entries(s)) == Entries(Init(s));
    }
  }

  lemma {:induction false} SortEntries(s: seq<Keyed<Field>>)
    ensures Sort(Entries(s)) == Entries(Sort(s))
  {
    hide Serialize;
    if s != [] {
      SortEntries(Init(s));
      assert Init(Entries(s)) == Entries(Init(s));
      InsertEntries(Sort(Init(s)), Last(s));
    }
  }

  lemma {:induction false} ConcatEntries(s: seq<Keyed<Field>>)
    ensures Joined(Entries(s)) == SerializeAll(Items(s))
  {
    hide Serialize;
    if s != [] {
      ConcatEntries(s[1..]);
      assert Entries(s)[1..] == Entries(s[1..]);
      assert Items(s)[1..] == Items(s[1..]);
    }
  }

  /** Where the value of a field starts behind its tag, and the tag the scanner sees. */
  lemma TagOf(pre: Bytes, f: Field, tail: Bytes)
    requires WellFormed(f)
    ensures
      var data := pre + Serialize(f) + tail;
      |pre| + |f.tag| <= |data| && |f.tag| > 0 && Uvarint(data[|pre|..]) == (Value(f.tag), |f.tag|)
  {
    hide WellFormed, UvarintFrom;
    var data := pre + Serialize(f) + tail;
    TagIsVarint(f);
    var rest := data[|pre| + |f.tag|..];
    assert data[|pre|..] == f.tag + rest;
    UvarintOf(f.tag, rest);
  }

  lemma TagIsVarint(f: Field)
    requires WellFormed(f)
    ensures IsVarint(f.tag) && Value(f.tag) % 8 == WireType(f)
  {}

  /** The scanner finds the end of a well-formed field. */
  lemma EndOfField(pre: Bytes, f: Field, tail: Bytes)
    requires !f.Group? && WellFormed(f)
    requires |pre| + |Serialize(f)| < INT64_LIMIT
    ensures
      var data := pre + Serialize(f) + tail;
      |pre| + |f.tag| <= |data| && EndOf(WireType(f), data, |pre| + |f.tag|) == Some(|pre| + |Serialize(f)|)
  {
    hide UvarintFrom, SerializeAll;
    var data := pre + Serialize(f) + tail;
    var at := |pre| + |f.tag|;
    match f
    case VarintField(tag, value) =>
      assert data[at..] == value + tail;
      UvarintOf(value, tail);
    case Fixed64(_, _) =>
    case Fixed32(_, _) =>
    case Delimited(tag, length, value) =>
      assert data[at..] == length + (value + tail);
      UvarintOf(length, value + tail);
    case Message(tag, length, fields) =>
      assert data[at..] == length + (SerializeAll(fields) + tail);
      UvarintOf(length, SerializeAll(fields) + tail);
  }

  /** The payload of a message field, as the scanner slices it out. */
  lemma PayloadOf(pre: Bytes, f: Field, tail: Bytes)
    requires WellFormed(f) && f.Message?
    ensures
      var data := pre + Serialize(f) + tail;
      var at := |pre| + |f.tag|;
      at <= |data| && Slice(data, at + Uvarint(data[at..]).1, |pre| + |Serialize(f)|) == Some(SerializeAll(f.fields))
  {
    hide UvarintFrom, SerializeAll;
    var data := pre + Serialize(f) + tail;
    var at := |pre| + |f.tag|;
    var payload := SerializeAll(f.fields);
    assert data[at..] == f.length + (payload + tail);
    UvarintOf(f.length, payload + tail);
    assert data[at + |f.length|..|pre| + |Serialize(f)|] == payload;
  }

  /** What the scanner takes from a field is the serialisation of what the projection keeps of it. */
  ghost predicate PieceIs(piece: Piece, kept: seq<Keyed<Field>>, num: int)
    requires |kept| <= 1
  {
    if kept == [] then piece.Nothing? else piece == Bytes_(Serialize(kept[0].item)) && kept[0].num == num
  }

  lemma {:induction false} PieceOfField(pre: Bytes, f: Field, tail: Bytes, config: seq<ReportingField>)
    requires !f.Group? && WellFormed(f) && Fits(f, config)
    requires |pre| + |Serialize(f)| < INT64_LIMIT
    ensures
      var data := pre + Serialize(f) + tail;
      var at, end := |pre| + |f.tag|, |pre| + |Serialize(f)|;
      && |pre| < at <= |data| && EndOf(Value(f.tag) % 8, data, at) == Some(end)
      && PieceIs(PieceOf(data, |pre|, Value(f.tag), at, end, config), Keep(f, config, true), Num(f))
    decreases f, 0
  {
    hide UvarintFrom, SerializeAll, EndOf, Scan, Sort, Project;
    var data := pre + Serialize(f) + tail;
    var at, end := |pre| + |f.tag|, |pre| + |Serialize(f)|;
    TagOf(pre, f, tail);
    TagIsVarint(f);
    EndOfField(pre, f, tail);
    assert data[|pre|..end] == Serialize(f);
    var cfg := GetConfigForField(config, Num(f));
    if cfg.Some? && IsMessageConfig(cfg.value) && WireType(f) == WIRE_BYTES {
      PayloadOf(pre, f, tail);
      ScanIsProjection(f.fields, cfg.value.subfields);
      ProjectedNotEmpty(f.fields, cfg.value.subfields, true);
    }
  }

  // ---- sorting keeps the elements

  lemma {:induction false} InsertElements<T>(s: seq<Keyed<T>>, x: Keyed<T>)
    ensures multiset(Insert(s, x)) == multiset(s) + multiset{x}
  {
    if s != [] && !(Last(s).num <= x.num) {
      InsertElements(Init(s), x);
      assert s == Init(s) + [Last(s)];
    }
  }

  lemma {:induction false} SortElements<T>(s: seq<Keyed<T>>)
    ensures multiset(Sort(s)) == multiset(s)
  {
    if s != [] {
      SortElements(Init(s));
      InsertElements(Sort(Init(s)), Last(s));
      assert s == Init(s) + [Last(s)];
    }
  }

  lemma {:induction false} ItemsAre(s: seq<Keyed<Field>>, i: nat)
    requires i < |s|
    ensures Items(s)[i] == s[i].item
  {
    if i > 0 {
      ItemsAre(s[1..], i - 1);
    }
  }

  lemma {:induction false} KeptHaveTags(fs: seq<Field>, config: seq<ReportingField>, strict: bool)
    requires AllWellFormed(fs) && AllFit(fs, config)
    ensures forall k <- KeepAll(fs, config, strict) :: k.item.tag != []
  {
    if fs != [] {
      hide Project, Complete;
      TagIsVarint(fs[0]);
      VarintNotEmpty(fs[0].tag);
      KeptHaveTags(fs[1..], config, strict);
    }
  }

  lemma VarintNotEmpty(v: Bytes)
    requires IsVarint(v)
    ensures v != []
  {}

  lemma ProjectedNotEmpty(fs: seq<Field>, config: seq<ReportingField>, strict: bool)
    requires AllWellFormed(fs) && AllFit(fs, config)
    ensures Project(fs, config, strict) == [] <==> |SerializeAll(Project(fs, config, strict))| == 0
  {
    hide AllWellFormed, AllFit, KeepAll, Sort;
    var kept := KeepAll(fs, config, strict);
    var p := Project(fs, config, strict);
    if p != [] {
      SortElements(kept);
      KeptHaveTags(fs, config, strict);
      assert Sort(kept)[0] in multiset(kept);
      ItemsAre(Sort(kept), 0);
    }
  }

  // ---- the scan

  lemma {:induction false} SerializeAllAppend(a: seq<Field>, b: seq<Field>)
    ensures SerializeAll(a + b) == SerializeAll(a) + SerializeAll(b)
  {
    hide Serialize;
    if a == [] {
      assert a + b == b;
    } else {
      SerializeAllAppend(a[1..], b);
      assert (a + b)[1..] == a[1..] + b;
      assert SerializeAll(a + b) == Serialize(a[0]) + SerializeAll(a[1..] + b);
      assert SerializeAll(a) == Serialize(a[0]) + SerializeAll(a[1..]);
      hide SerializeAll;
    }
  }

  /** From the start of any of its fields, the scan of a message adds what the projection keeps of the rest; bytes at
      the end that are no varint are ignored. */
  lemma {:induction false} ScanRest(pre: Bytes, fs: seq<Field>, config: seq<ReportingField>, acc: seq<Keyed<Field>>,
                                    junk: Bytes)
    requires AllWellFormed(fs) && AllFit(fs, config)
    requires Uvarint(junk).1 <= 0 && |pre| + |SerializeAll(fs)| + |junk| < INT64_LIMIT
    ensures Scan(pre + (SerializeAll(fs) + junk), |pre|, config, Entries(acc))
         == if HasGroup(fs) then Extracted([]) else Finish(Entries(acc + KeepAll(fs, config, true)))
    decreases fs, 0
  {
    hide UvarintFrom, PieceOf, EndOf, Finish, Serialize, Keep, WellFormed, Fits, Entries, Added;
    if fs == [] {
      assert acc + [] == acc;
      assert SerializeAll(fs) + junk == junk && (pre + junk)[|pre|..] == junk;
    } else {
      var f, tail := fs[0], SerializeAll(fs[1..]) + junk;
      var data := pre + Serialize(f) + tail;
      assert pre + (SerializeAll(fs) + junk) == data;
      TagOf(pre, f, tail);
      TagIsVarint(f);
      TagShorter(f);
      if f.Group? {
        GroupHasNoEnd(data, |pre| + |f.tag|);
        return;
      }
      PieceOfField(pre, f, tail, config);
      var kept := Keep(f, config, true);
      var end := |pre| + |Serialize(f)|;
      ScanRest(pre + Serialize(f), fs[1..], config, acc + kept, junk);
      AddedIs(acc, kept, PieceOf(data, |pre|, Value(f.tag), |pre| + |f.tag|, end, config), Num(f));
      assert acc + kept + KeepAll(fs[1..], config, true) == acc + KeepAll(fs, config, true);
    }
  }

  lemma GroupHasNoEnd(data: Bytes, at: nat)
    requires at <= |data|
    ensures EndOf(WIRE_START_GROUP, data, at) == None
  {}

  lemma TagShorter(f: Field)
    ensures |f.tag| <= |Serialize(f)|
  {}

  lemma AddedIs(acc: seq<Keyed<Field>>, kept: seq<Keyed<Field>>, piece: Piece, num: int)
    requires |kept| <= 1 && PieceIs(piece, kept, num)
    ensures Added(Entries(acc), num, piece) == Entries(acc + kept)
  {
    hide Serialize;
    if kept == [] {
      assert acc + kept == acc;
    } else {
      assert kept == [kept[0]];
    }
  }

  /** The scanner returns exactly the serialisation of the projected tree, in which a group empties its level. */
  lemma {:induction false} ScanIsProjection(fs: seq<Field>, config: seq<ReportingField>)
    requires AllWellFormed(fs) && AllFit(fs, config)
    requires |SerializeAll(fs)| < INT64_LIMIT
    ensures Scan(SerializeAll(fs), 0, config, []) == Extracted(SerializeAll(Project(fs, config, true)))
    decreases fs, 2
  {
    NothingReads();
    assert SerializeAll(fs) + [] == SerializeAll(fs);
    hide Scan, SerializeAll, AllWellFormed, AllFit, Project, Uvarint;
    ScanIgnoresTail(fs, config, []);
  }

  lemma NothingReads()
    ensures Uvarint([]) == (0, 0)
  {}

  /** Bytes at the end that do not start with a varint make no difference. */
  lemma {:induction false} ScanIgnoresTail(fs: seq<Field>, config: seq<ReportingField>, junk: Bytes)
    requires AllWellFormed(fs) && AllFit(fs, config)
    requires Uvarint(junk).1 <= 0 && |SerializeAll(fs)| + |junk| < INT64_LIMIT
    ensures Scan(SerializeAll(fs) + junk, 0, config, []) == Extracted(SerializeAll(Project(fs, config, true)))
    decreases fs, 1
  {
    hide Scan, KeepAll, Sort, SerializeAll, AllWellFormed, AllFit, Uvarint;
    var kept := KeepAll(fs, config, true);
    ScanRest([], fs, config, [], junk);
    assert [] + (SerializeAll(fs) + junk) == SerializeAll(fs) + junk && [] + kept == kept && Entries([]) == [];
    NoFields(config);
    if !HasGroup(fs) {
      SortEntries(kept);
      ConcatEntries(Sort(kept));
    }
  }

  lemma NoFields(config: seq<ReportingField>)
    ensures SerializeAll([]) == [] && forall strict :: Project([], config, strict) == []
  {}

  // ---- the sort, characterised

  predicate IsSorted<T>(s: seq<Keyed<T>>) {
    forall i, j | 0 <= i < j < |s| :: s[i].num <= s[j].num
  }

  function WithNum<T>(s: seq<Keyed<T>>, num: int): seq<Keyed<T>> {
    if s == [] then [] else WithNum(Init(s), num) + if Last(s).num == num then [Last(s)] else []
  }

  lemma {:induction false} InsertSorted<T>(s: seq<Keyed<T>>, x: Keyed<T>)
    requires IsSorted(s)
    ensures IsSorted(Insert(s, x))
    ensures s != [] ==> Last(Insert(s, x)).num == if Last(s).num <= x.num then x.num else Last(s).num
  {
    if s != [] && !(Last(s).num <= x.num) {
      InsertSorted(Init(s), x);
      var r := Insert(Init(s), x);
      assert Init(s) != [] ==> Last(Init(s)).num <= Last(s).num;
      assert r != [] && Last(r).num <= Last(s).num;
      assert forall i | 0 <= i < |r| :: r[i].num <= Last(r).num;
    }
  }

  lemma {:induction false} InsertStable<T>(s: seq<Keyed<T>>, x: Keyed<T>, num: int)
    requires IsSorted(s)
    ensures WithNum(Insert(s, x), num) == WithNum(s, num) + if x.num == num then [x] else []
  {
    if s == [] || Last(s).num <= x.num {
      assert Init(s + [x]) == s;
    } else {
      InsertStable(Init(s), x, num);
      assert Init(Insert(s, x)) == Insert(Init(s), x) && Last(Insert(s, x)) == Last(s);
    }
  }

  /** The sort orders by number, keeps every element and keeps the order of equal numbers. */
  lemma {:induction false} SortIsStableSort<T>(s: seq<Keyed<T>>, num: int)
    ensures IsSorted(Sort(s)) && multiset(Sort(s)) == multiset(s) && WithNum(Sort(s), num) == WithNum(s, num)
  {
    SortElements(s);
    if s != [] {
      SortIsStableSort(Init(s), num);
      InsertSorted(Sort(Init(s)), Last(s));
      InsertStable(Sort(Init(s)), Last(s), num);
    }
  }

  lemma {:induction false} SortOfSorted<T>(s: seq<Keyed<T>>)
    requires IsSorted(s)
    ensures Sort(s) == s
  {
    if s != [] {
      SortOfSorted(Init(s));
      assert s == Init(s) + [Last(s)];
    }
  }

  // ---- the output is never longer

  function Size(s: seq<Keyed<Field>>): nat {
    if s == [] then 0 else Size(Init(s)) + |Serialize(Last(s).item)|
  }

  lemma {:induction false} SizeAppend(a: seq<Keyed<Field>>, b: seq<Keyed<Field>>)
    ensures Size(a + b) == Size(a) + Size(b)
  {
    hide Serialize;
    if b == [] {
      assert a + b == a;
    } else {
      SizeAppend(a, Init(b));
      assert Init(a + b) == a + Init(b);
    }
  }

  lemma {:induction false} InsertSize(s: seq<Keyed<Field>>, x: Keyed<Field>)
    ensures Size(Insert(s, x)) == Size(s) + |Serialize(x.item)|
  {
    hide Serialize;
    if s == [] || Last(s).num <= x.num {
      assert Init(s + [x]) == s;
    } else {
      InsertSize(Init(s), x);
      assert Init(Insert(s, x)) == Insert(Init(s), x);
    }
  }

  lemma {:induction false} SortSize(s: seq<Keyed<Field>>)
    ensures Size(Sort(s)) == Size(s)
  {
    hide Serialize;
    if s != [] {
      SortSize(Init(s));
      InsertSize(Sort(Init(s)), Last(s));
    }
  }

  lemma {:induction false} ItemsSize(s: seq<Keyed<Field>>)
    ensures |SerializeAll(Items(s))| == Size(s)
  {
    hide Serialize;
    if s != [] {
      ItemsSize(s[1..]);
      SizeAppend([s[0]], s[1..]);
      assert s == [s[0]] + s[1..] && Init([s[0]]) == [];
      assert Items(s)[1..] == Items(s[1..]);
    }
  }

  lemma {:induction false} KeepShorter(f: Field, config: seq<ReportingField>, strict: bool)
    requires WellFormed(f) && Fits(f, config)
    ensures Size(Keep(f, config, strict)) <= |Serialize(f)|
    decreases f, 0
  {
    hide Project;
    var cfg := GetConfigForField(config, Num(f));
    SizeOfOne(Keep(f, config, strict));
    if cfg.Some? && IsMessageConfig(cfg.value) && WireType(f) == WIRE_BYTES {
      ProjectShorter(f.fields, cfg.value.subfields, strict);
      var sub := Project(f.fields, cfg.value.subfields, strict);
      PutUvarintShortest(f.tag);
      PutUvarintShortest(f.length);
      PutUvarintMonotone(|SerializeAll(sub)|, |SerializeAll(f.fields)|);
    }
  }

  lemma SizeOfOne(s: seq<Keyed<Field>>)
    requires |s| <= 1
    ensures Size(s) == if s == [] then 0 else |Serialize(s[0].item)|
  {
    if s != [] {
      assert Init(s) == [];
    }
  }

  lemma {:induction false} KeepAllShorter(fs: seq<Field>, config: seq<ReportingField>, strict: bool)
    requires AllWellFormed(fs) && AllFit(fs, config)
    ensures Size(KeepAll(fs, config, strict)) <= |SerializeAll(fs)|
    decreases fs, 1
  {
    if fs != [] {
      hide WellFormed, Fits, Keep, Serialize;
      KeepShorter(fs[0], config, strict);
      KeepAllShorter(fs[1..], config, strict);
      SizeAppend(Keep(fs[0], config, strict), KeepAll(fs[1..], config, strict));
    }
  }

  /** Extraction never lengthens a message. */
  lemma {:induction false} ProjectShorter(fs: seq<Field>, config: seq<ReportingField>, strict: bool)
    requires AllWellFormed(fs) && AllFit(fs, config)
    ensures |SerializeAll(Project(fs, config, strict))| <= |SerializeAll(fs)|
    decreases fs, 2
  {
    hide KeepAll, AllWellFormed, AllFit;
    KeepAllShorter(fs, config, strict);
    SortSize(KeepAll(fs, config, strict));
    ItemsSize(Sort(KeepAll(fs, config, strict)));
  }

  // ---- extraction is idempotent

  /** An element the projection leaves as it is. */
  ghost predicate Fixed(k: Keyed<Field>, config: seq<ReportingField>, strict: bool) {
    WellFormed(k.item) && Fits(k.item, config) && Keep(k.item, config, strict) == [k] && (strict ==> !k.item.Group?)
  }

  lemma {:induction false} KeptIsFixed(f: Field, config: seq<ReportingField>, strict: bool)
    requires WellFormed(f) && Fits(f, config)
    requires strict ==> !f.Group?
    ensures forall k <- Keep(f, config, strict) :: Fixed(k, config, strict)
    decreases f, 1
  {
    var cfg := GetConfigForField(config, Num(f));
    if cfg.Some? && IsMessageConfig(cfg.value) && WireType(f) == WIRE_BYTES && Keep(f, config, strict) != [] {
      RewrittenIsFixed(f, cfg.value, config, strict);
    }
  }

  lemma {:induction false} RewrittenIsFixed(f: Field, cfg: ReportingField, config: seq<ReportingField>, strict: bool)
    requires WellFormed(f) && Fits(f, config) && f.Message?
    requires GetConfigForField(config, Num(f)) == Some(cfg) && IsMessageConfig(cfg)
    requires Project(f.fields, cfg.subfields, strict) != []
    ensures
      var sub := Project(f.fields, cfg.subfields, strict);
      Fixed(Keyed(Num(f), Message(PutUvarint(Value(f.tag)), PutUvarint(|SerializeAll(sub)|), sub)), config, strict)
    decreases f, 0
  {
    hide Project;
    var sub := Project(f.fields, cfg.subfields, strict);
    ProjectIsFixed(f.fields, cfg.subfields, strict);
    ProjectShorter(f.fields, cfg.subfields, strict);
    RewrittenIsVarint(f.tag);
    PutUvarintIsVarint(|SerializeAll(sub)|);
  }

  lemma {:induction false} KeepAllIsFixed(fs: seq<Field>, config: seq<ReportingField>, strict: bool)
    requires AllWellFormed(fs) && AllFit(fs, config)
    requires strict ==> !HasGroup(fs)
    ensures forall k <- KeepAll(fs, config, strict) :: Fixed(k, config, strict)
    decreases fs, 1
  {
    if fs != [] {
      hide WellFormed, Fits, Keep, Fixed;
      KeptIsFixed(fs[0], config, strict);
      KeepAllIsFixed(fs[1..], config, strict);
    }
  }

  lemma {:induction false} KeepAllOfFixed(s: seq<Keyed<Field>>, config: seq<ReportingField>, strict: bool)
    requires forall k <- s :: Fixed(k, config, strict)
    ensures AllWellFormed(Items(s)) && AllFit(Items(s), config) && KeepAll(Items(s), config, strict) == s
    ensures strict ==> !HasGroup(Items(s))
  {
    if s != [] {
      assert Fixed(s[0], config, strict);
      hide WellFormed, Fits, Keep, Fixed;
      assert forall k <- s[1..] :: k in s;
      KeepAllOfFixed(s[1..], config, strict);
      assert Items(s)[1..] == Items(s[1..]);
      assert s == [s[0]] + s[1..];
    }
  }

  /** Projecting a projection changes nothing. */
  lemma {:induction false} ProjectIsFixed(fs: seq<Field>, config: seq<ReportingField>, strict: bool)
    requires AllWellFormed(fs) && AllFit(fs, config)
    ensures
      var p := Project(fs, config, strict);
      AllWellFormed(p) && AllFit(p, config) && Project(p, config, strict) == p
    decreases fs, 2
  {
    hide KeepAll, Fixed;
    if strict && HasGroup(fs) {
      NoFields(config);
      return;
    }
    var kept := KeepAll(fs, config, strict);
    KeepAllIsFixed(fs, config, strict);
    SortIsStableSort(kept, 0);
    forall k | k in Sort(kept) ensures Fixed(k, config, strict) { assert k in multiset(kept); }
    KeepAllOfFixed(Sort(kept), config, strict);
    SortOfSorted(Sort(kept));
  }

  /** Extracting from an extract gives the extract back. */
  lemma ExtractionIdempotent(fs: seq<Field>, config: seq<ReportingField>)
    requires AllWellFormed(fs) && AllFit(fs, config) && |SerializeAll(fs)| < INT64_LIMIT
    ensures
      var once := Scan(SerializeAll(fs), 0, config, []);
      once.Extracted? && |once.content| <= |SerializeAll(fs)| && Scan(once.content, 0, config, []) == once
  {
    hide Scan, Project, AllWellFormed, AllFit;
    ScanIsProjection(fs, config);
    ProjectShorter(fs, config, true);
    ProjectIsFixed(fs, config, true);
    ScanIsProjection(Project(fs, config, true), config);
  }
}
