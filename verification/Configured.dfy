/** What an extract holds, told by the configuration's entries alone: nothing but what they name, and all of it. */
module Configured {
  import opened ByteStrings
  import opened Collections
  import opened Varints
  import opened Reporting
  import opened Projection

  // ---- messages

  /** The bytes of a field: the wire type in the low three bits of its tag, then the value; a group ends with the same
      number and wire type 4. */
  lemma FieldLayout(f: Field)
    requires WellFormed(f)
    ensures
      match f
      case VarintField(tag, value) => Serialize(f) == tag + value && Value(tag) % 8 == 0
      case Fixed64(tag, value) => Serialize(f) == tag + value && Value(tag) % 8 == 1 && |value| == 8
      case Delimited(tag, length, value) =>
        Serialize(f) == tag + length + value && Value(tag) % 8 == 2 && Value(length) == |value|
      case Message(tag, length, fields) =>
        Serialize(f) == tag + length + SerializeAll(fields) && Value(tag) % 8 == 2
        && Value(length) == |SerializeAll(fields)|
      case Group(tag, fields, end) =>
        Serialize(f) == tag + SerializeAll(fields) + end && Value(tag) % 8 == 3 && Value(end) == Value(tag) + 1
      case Fixed32(tag, value) => Serialize(f) == tag + value && Value(tag) % 8 == 5 && |value| == 4
  {}

  /** A message fits exactly if wherever the configuration asks for parts of a field, the field has parts. */
  lemma FitsExactly(fs: seq<Field>, config: seq<ReportingField>)
    requires AllWellFormed(fs)
    ensures AllFit(fs, config)
       <==> forall x, i: nat | 0 <= x < |fs| && WellFormed(fs[x]) && Names(config, i, fs[x]) ::
              Value(fs[x].tag) % 8 == 2 && Filters(config[i]) ==>
                fs[x].Message? && AllWellFormed(fs[x].fields) && AllFit(fs[x].fields, config[i].subfields)
  {
    hide Value, GetConfigForField;
    if fs != [] {
      ConfigOf(fs[0], config);
      FitsExactly(fs[1..], config);
    }
  }

  /** `e` is the first entry for the field number of `f`. */
  predicate Names(config: seq<ReportingField>, i: nat, f: Field)
    requires WellFormed(f)
  {
    i < |config| && config[i].fieldNumber == Num(f) && forall j | 0 <= j < i :: config[j].fieldNumber != Num(f)
  }

  /** The entry asks for parts of a message rather than for the whole field. */
  predicate Filters(e: ReportingField) {
    e.isMessage || e.subfields != []
  }

  /** Every field has an entry, and where the entry asks for parts, only those parts are there, at every depth. */
  ghost predicate OnlyConfigured(fs: seq<Field>, config: seq<ReportingField>)
    requires AllWellFormed(fs)
    decreases fs
  {
    fs == [] || (FieldConfigured(fs[0], config) && OnlyConfigured(fs[1..], config))
  }

  ghost predicate FieldConfigured(f: Field, config: seq<ReportingField>)
    requires WellFormed(f)
    decreases f
  {
    exists i: nat ::
      && Names(config, i, f)
      && (Value(f.tag) % 8 == 2 && Filters(config[i]) ==> f.Message? && OnlyConfigured(f.fields, config[i].subfields))
  }

  lemma ConfigOf(f: Field, config: seq<ReportingField>)
    requires WellFormed(f)
    ensures
      var cfg := GetConfigForField(config, Num(f));
      && (cfg.Some? ==> exists i: nat :: Names(config, i, f) && config[i] == cfg.value)
      && (cfg.None? ==> forall i: nat :: !Names(config, i, f))
  {
    ConfigIsFirst(config, Num(f));
  }

  lemma NamesOne(f: Field, config: seq<ReportingField>, i: nat)
    requires WellFormed(f) && Names(config, i, f)
    ensures GetConfigForField(config, Num(f)) == Some(config[i])
  {
    ConfigOf(f, config);
    var cfg := GetConfigForField(config, Num(f));
    var j: nat :| Names(config, j, f) && config[j] == cfg.value;
    assert j == i;
  }

  ghost predicate AllConfigured(s: seq<Keyed<Field>>, config: seq<ReportingField>) {
    forall k <- s :: WellFormed(k.item) && FieldConfigured(k.item, config)
  }

  lemma {:induction false} ItemsConfigured(s: seq<Keyed<Field>>, config: seq<ReportingField>)
    requires AllConfigured(s, config)
    ensures AllWellFormed(Items(s)) && OnlyConfigured(Items(s), config)
  {
    if s != [] {
      assert s[0] in s && forall k <- s[1..] :: k in s;
      hide WellFormed, FieldConfigured;
      ItemsConfigured(s[1..], config);
      assert Items(s)[1..] == Items(s[1..]);
    }
  }

  lemma {:induction false} KeptConfigured(f: Field, config: seq<ReportingField>, strict: bool)
    requires WellFormed(f) && Fits(f, config)
    ensures AllConfigured(Keep(f, config, strict), config)
    decreases f, 1
  {
    var kept := Keep(f, config, strict);
    if kept != [] {
      ConfigOf(f, config);
      var cfg := GetConfigForField(config, Num(f)).value;
      var i: nat :| Names(config, i, f) && config[i] == cfg;
      var item := kept[0].item;
      if Filters(cfg) && WireType(f) == WIRE_BYTES {
        var sub := Project(f.fields, cfg.subfields, strict);
        RewrittenWellFormed(f, cfg, config, strict);
        ProjectIsConfigured(f.fields, cfg.subfields, strict);
        assert item == Message(PutUvarint(Value(f.tag)), PutUvarint(|SerializeAll(sub)|), sub);
        assert Num(item) == Num(f);
      } else {
        assert item == f;
        TagIsVarint(f);
      }
      assert Names(config, i, item);
      assert FieldConfigured(item, config);
      assert kept == [kept[0]];
    }
  }

  lemma RewrittenWellFormed(f: Field, cfg: ReportingField, config: seq<ReportingField>, strict: bool)
    requires WellFormed(f) && Fits(f, config) && f.Message?
    requires GetConfigForField(config, Num(f)) == Some(cfg) && IsMessageConfig(cfg)
    requires Project(f.fields, cfg.subfields, strict) != []
    ensures
      var sub := Project(f.fields, cfg.subfields, strict);
      var item := Message(PutUvarint(Value(f.tag)), PutUvarint(|SerializeAll(sub)|), sub);
      AllWellFormed(sub) && WellFormed(item) && Num(item) == Num(f)
  {
    hide Project;
    RewrittenIsFixed(f, cfg, config, strict);
    RewrittenIsVarint(f.tag);
  }

  lemma {:induction false} KeepAllConfigured(fs: seq<Field>, config: seq<ReportingField>, strict: bool)
    requires AllWellFormed(fs) && AllFit(fs, config)
    ensures AllConfigured(KeepAll(fs, config, strict), config)
    decreases fs, 2
  {
    if fs != [] {
      hide WellFormed, Fits, Keep, FieldConfigured;
      KeptConfigured(fs[0], config, strict);
      KeepAllConfigured(fs[1..], config, strict);
    }
  }

  /** A projection holds only what the configuration names. */
  lemma {:induction false} ProjectIsConfigured(fs: seq<Field>, config: seq<ReportingField>, strict: bool)
    requires AllWellFormed(fs) && AllFit(fs, config)
    ensures AllWellFormed(Project(fs, config, strict)) && OnlyConfigured(Project(fs, config, strict), config)
    decreases fs, 3
  {
    hide KeepAll, FieldConfigured, WellFormed;
    if strict && HasGroup(fs) {
      NoFields(config);
      return;
    }
    var kept := KeepAll(fs, config, strict);
    KeepAllConfigured(fs, config, strict);
    SortElements(kept);
    forall k | k in Sort(kept)
      ensures WellFormed(k.item) && FieldConfigured(k.item, config)
    {
      assert k in multiset(kept);
    }
    ItemsConfigured(Sort(kept), config);
  }

  /** So does whatever the scanner extracts. */
  lemma ExtractIsConfigured(fs: seq<Field>, config: seq<ReportingField>) returns (extract: seq<Field>)
    requires AllWellFormed(fs) && AllFit(fs, config) && |SerializeAll(fs)| < INT64_LIMIT
    ensures AllWellFormed(extract) && OnlyConfigured(extract, config)
    ensures Scan(SerializeAll(fs), 0, config, []) == Extracted(SerializeAll(extract))
  {
    hide Scan, AllWellFormed, AllFit, OnlyConfigured;
    extract := Project(fs, config, true);
    ProjectIsConfigured(fs, config, true);
    ScanIsProjection(fs, config);
  }

  // ---- nothing named is lost

  lemma {:induction false} KeptIsIn(fs: seq<Field>, config: seq<ReportingField>, strict: bool, x: nat)
    requires AllWellFormed(fs) && AllFit(fs, config) && x < |fs|
    ensures WellFormed(fs[x]) && Fits(fs[x], config)
    ensures forall k <- Keep(fs[x], config, strict) :: k in KeepAll(fs, config, strict)
  {
    hide WellFormed, Fits, Keep;
    if x > 0 {
      KeptIsIn(fs[1..], config, strict, x - 1);
    }
  }

  lemma {:induction false} InItems(s: seq<Keyed<Field>>, k: Keyed<Field>)
    requires k in s
    ensures k.item in Items(s)
  {
    if s[0] != k {
      InItems(s[1..], k);
    }
  }

  lemma ProjectHolds(fs: seq<Field>, config: seq<ReportingField>, strict: bool, k: Keyed<Field>)
    requires AllWellFormed(fs) && AllFit(fs, config) && (strict ==> !HasGroup(fs))
    requires k in KeepAll(fs, config, strict)
    ensures k.item in Project(fs, config, strict)
  {
    hide KeepAll, AllWellFormed, AllFit, Sort;
    var kept := KeepAll(fs, config, strict);
    SortElements(kept);
    assert k in multiset(Sort(kept));
    InItems(Sort(kept), k);
  }

  /** A field that has an entry which does not ask for parts of it is kept as it is. */
  lemma NamedIsKept(fs: seq<Field>, config: seq<ReportingField>, strict: bool, x: nat, i: nat)
    requires AllWellFormed(fs) && AllFit(fs, config) && (strict ==> !HasGroup(fs)) && x < |fs|
    requires WellFormed(fs[x]) && Names(config, i, fs[x]) && !(Value(fs[x].tag) % 8 == 2 && Filters(config[i]))
    ensures fs[x] in Project(fs, config, strict)
  {
    hide Project, AllWellFormed, AllFit, KeepAll;
    KeptIsIn(fs, config, strict, x);
    NamesOne(fs[x], config, i);
    TagIsVarint(fs[x]);
    var k := Keyed(Num(fs[x]), fs[x]);
    assert Keep(fs[x], config, strict) == [k];
    ProjectHolds(fs, config, strict, k);
  }

  /** A message whose entry asks for parts is kept with those parts, unless there are none. */
  lemma NamedPartsAreKept(fs: seq<Field>, config: seq<ReportingField>, strict: bool, x: nat, i: nat)
    requires AllWellFormed(fs) && AllFit(fs, config) && (strict ==> !HasGroup(fs)) && x < |fs|
    requires WellFormed(fs[x]) && Names(config, i, fs[x]) && Value(fs[x].tag) % 8 == 2 && Filters(config[i])
    ensures fs[x].Message? && AllWellFormed(fs[x].fields) && AllFit(fs[x].fields, config[i].subfields)
    ensures
      var parts := Project(fs[x].fields, config[i].subfields, strict);
      parts != [] ==>
        Message(PutUvarint(Value(fs[x].tag)), PutUvarint(|SerializeAll(parts)|), parts) in Project(fs, config, strict)
  {
    hide Project, KeepAll;
    KeptIsIn(fs, config, strict, x);
    NamesOne(fs[x], config, i);
    TagIsVarint(fs[x]);
    var parts := Project(fs[x].fields, config[i].subfields, strict);
    if parts != [] {
      var item := Message(PutUvarint(Value(fs[x].tag)), PutUvarint(|SerializeAll(parts)|), parts);
      var k := Keyed(Num(fs[x]), item);
      assert Keep(fs[x], config, strict) == [k];
      ProjectHolds(fs, config, strict, k);
    }
  }

  // ---- an example

  const CONFIG := [ReportingField(6, false, [ReportingField(1, false, [])])]
  const ONE := VarintField([0x08], [0x01])
  const TWO := VarintField([0x10], [0x05])
  const SIX := Message([0x32], [0x04], [ONE, TWO])

  lemma ExampleTree()
    ensures WellFormed(ONE) && WellFormed(TWO) && AllWellFormed([ONE, TWO])
    ensures SerializeAll([ONE, TWO]) == [0x08, 0x01, 0x10, 0x05]
    ensures WellFormed(SIX) && AllWellFormed([SIX]) && SerializeAll([SIX]) == [0x32, 0x04, 0x08, 0x01, 0x10, 0x05]
    ensures Num(ONE) == 1 && Num(TWO) == 2 && Num(SIX) == 6 && Value([0x32]) == 50
  {
    assert IsVarint([0x08]) && Value([0x08]) == 8 && IsVarint([0x01]) && IsVarint([0x05]);
    assert IsVarint([0x10]) && Value([0x10]) == 16 && IsVarint([0x32]) && Value([0x32]) == 50;
    assert IsVarint([0x04]) && Value([0x04]) == 4;
    hide Value, IsVarint, Complete;
    assert [ONE, TWO][1..] == [TWO] && [TWO][1..] == [] && [SIX][1..] == [];
    assert SerializeAll([TWO]) == [0x10, 0x05];
    assert AllWellFormed([TWO]);
    assert SerializeAll([ONE, TWO]) == [0x08, 0x01, 0x10, 0x05];
  }

  /** Field 6 holds fields 1 and 2; its entry asks for field 1 alone. */
  lemma SubfieldExample()
    ensures Scan([0x32, 0x04, 0x08, 0x01, 0x10, 0x05], 0, CONFIG, []) == Extracted([0x32, 0x02, 0x08, 0x01])
  {
    ExampleTree();
    ExampleProjection();
    hide Scan, AllWellFormed, AllFit, Project;
    ScanIsProjection([SIX], CONFIG);
    var kept := Message([0x32], [0x02], [ONE]);
    assert [ONE][1..] == [] && [kept][1..] == [];
    assert SerializeAll([ONE]) == [0x08, 0x01];
    assert SerializeAll([kept]) == [0x32, 0x02, 0x08, 0x01];
  }

  lemma ExampleProjection()
    requires WellFormed(ONE) && WellFormed(TWO) && AllWellFormed([ONE, TWO]) && WellFormed(SIX) && AllWellFormed([SIX])
    requires Num(ONE) == 1 && Num(TWO) == 2 && Num(SIX) == 6 && Value([0x32]) == 50
    ensures AllFit([SIX], CONFIG) && Project([SIX], CONFIG, true) == [Message([0x32], [0x02], [ONE])]
  {
    var parts := CONFIG[0].subfields;
    PartsProjection();
    hide WellFormed, Num;
    assert CONFIG[1..] == [] && GetConfigForField(CONFIG, 6) == Some(CONFIG[0]);
    assert Fits(SIX, CONFIG) && [SIX][1..] == [] && !HasGroup([SIX]);
    assert SerializeAll([ONE]) == [0x08, 0x01] by { assert [ONE][1..] == []; }
    var kept := Keyed(6, Message([0x32], [0x02], [ONE]));
    assert PutUvarint(50) == [0x32] && PutUvarint(2) == [0x02];
    assert Keep(SIX, CONFIG, true) == [kept];
    assert KeepAll([], CONFIG, true) == [] && KeepAll([SIX], CONFIG, true) == [kept];
    SortOne(kept);
  }

  lemma PartsProjection()
    requires WellFormed(ONE) && WellFormed(TWO) && AllWellFormed([ONE, TWO]) && Num(ONE) == 1 && Num(TWO) == 2
    ensures AllFit([ONE, TWO], CONFIG[0].subfields) && Project([ONE, TWO], CONFIG[0].subfields, true) == [ONE]
  {
    hide WellFormed, Num;
    var parts := CONFIG[0].subfields;
    assert parts[1..] == [] && GetConfigForField(parts, 1) == Some(parts[0]) && GetConfigForField(parts, 2) == None;
    assert [ONE, TWO][1..] == [TWO] && [TWO][1..] == [];
    assert !HasGroup([TWO]) && !HasGroup([ONE, TWO]);
    assert Fits(ONE, parts) && Fits(TWO, parts) && AllFit([TWO], parts);
    assert Keep(TWO, parts, true) == [] && KeepAll([TWO], parts, true) == [];
    assert KeepAll([ONE, TWO], parts, true) == [Keyed(1, ONE)];
    SortOne(Keyed(1, ONE));
  }

  lemma SortOne(k: Keyed<Field>)
    ensures Sort([k]) == [k] && Items([k]) == [k.item]
  {
    assert Init([k]) == [];
  }
}
