/** What groups do to the extraction: the source has no case for their wire types and gives up the level they stand
    at. */
module Groups {
  import opened ByteStrings
  import opened Collections
  import opened Varints
  import opened Reporting
  import opened Projection

  /** A group stands only at levels where nothing configured is found, through all the levels the scanner enters. */
  predicate Lossless(fs: seq<Field>, config: seq<ReportingField>)
    requires AllWellFormed(fs) && AllFit(fs, config)
    decreases fs, 2
  {
    if HasGroup(fs) then Project(fs, config, false) == [] else LosslessFields(fs, config)
  }

  predicate LosslessFields(fs: seq<Field>, config: seq<ReportingField>)
    requires AllWellFormed(fs) && AllFit(fs, config)
    decreases fs, 1
  {
    fs == [] || (LosslessField(fs[0], config) && LosslessFields(fs[1..], config))
  }

  predicate LosslessField(f: Field, config: seq<ReportingField>)
    requires WellFormed(f) && Fits(f, config)
    decreases f, 0
  {
    var cfg := GetConfigForField(config, Num(f));
    cfg.Some? && IsMessageConfig(cfg.value) && WireType(f) == WIRE_BYTES ==> Lossless(f.fields, cfg.value.subfields)
  }

  /** No level the scanner enters holds a group. */
  predicate Groupless(fs: seq<Field>, config: seq<ReportingField>)
    requires AllWellFormed(fs) && AllFit(fs, config)
    decreases fs
  {
    fs == [] || (!fs[0].Group? && GrouplessField(fs[0], config) && Groupless(fs[1..], config))
  }

  predicate GrouplessField(f: Field, config: seq<ReportingField>)
    requires WellFormed(f) && Fits(f, config)
    decreases f
  {
    var cfg := GetConfigForField(config, Num(f));
    cfg.Some? && IsMessageConfig(cfg.value) && WireType(f) == WIRE_BYTES ==> Groupless(f.fields, cfg.value.subfields)
  }

  lemma {:induction false} GrouplessIsLossless(fs: seq<Field>, config: seq<ReportingField>)
    requires AllWellFormed(fs) && AllFit(fs, config) && Groupless(fs, config)
    ensures !HasGroup(fs) && LosslessFields(fs, config) && Lossless(fs, config)
    decreases fs
  {
    if fs != [] {
      var cfg := GetConfigForField(config, Num(fs[0]));
      if cfg.Some? && IsMessageConfig(cfg.value) && WireType(fs[0]) == WIRE_BYTES {
        GrouplessIsLossless(fs[0].fields, cfg.value.subfields);
      }
      GrouplessIsLossless(fs[1..], config);
    }
  }

  // ---- what is lost shows in the length

  lemma {:induction false} FieldLoss(f: Field, config: seq<ReportingField>)
    requires WellFormed(f) && Fits(f, config)
    ensures
      var w, m := Keep(f, config, true), Keep(f, config, false);
      && Size(w) <= Size(m) && (Size(w) == Size(m) <==> LosslessField(f, config))
      && (LosslessField(f, config) ==> w == m)
    decreases f, 0
  {
    hide Project, SerializeAll, Lossless;
    var w, m := Keep(f, config, true), Keep(f, config, false);
    SizeOfOne(w);
    SizeOfOne(m);
    var cfg := GetConfigForField(config, Num(f));
    if cfg.Some? && IsMessageConfig(cfg.value) && WireType(f) == WIRE_BYTES {
      LevelLoss(f.fields, cfg.value.subfields);
      var sw, sm := Project(f.fields, cfg.value.subfields, true), Project(f.fields, cfg.value.subfields, false);
      NoFields(config);
      PutUvarintMonotone(|SerializeAll(sw)|, |SerializeAll(sm)|);
    }
  }

  lemma {:induction false} FieldsLoss(fs: seq<Field>, config: seq<ReportingField>)
    requires AllWellFormed(fs) && AllFit(fs, config)
    ensures
      var w, m := KeepAll(fs, config, true), KeepAll(fs, config, false);
      && Size(w) <= Size(m) && (Size(w) == Size(m) <==> LosslessFields(fs, config))
      && (LosslessFields(fs, config) ==> w == m)
    decreases fs, 1
  {
    if fs != [] {
      hide Keep, WellFormed, Fits, Size, LosslessField;
      FieldLoss(fs[0], config);
      FieldsLoss(fs[1..], config);
      SizeAppend(Keep(fs[0], config, true), KeepAll(fs[1..], config, true));
      SizeAppend(Keep(fs[0], config, false), KeepAll(fs[1..], config, false));
    }
  }

  lemma {:induction false} LevelLoss(fs: seq<Field>, config: seq<ReportingField>)
    requires AllWellFormed(fs) && AllFit(fs, config)
    ensures
      var w, m := Project(fs, config, true), Project(fs, config, false);
      && |SerializeAll(w)| <= |SerializeAll(m)| && (|SerializeAll(w)| == |SerializeAll(m)| <==> Lossless(fs, config))
      && (Lossless(fs, config) ==> w == m)
    decreases fs, 2
  {
    hide KeepAll, AllWellFormed, AllFit, LosslessFields, SerializeAll, Size, Sort, Items;
    if HasGroup(fs) {
      NoFields(config);
      ProjectedNotEmpty(fs, config, false);
    } else {
      FieldsLoss(fs, config);
      SortSize(KeepAll(fs, config, true));
      SortSize(KeepAll(fs, config, false));
      ItemsSize(Sort(KeepAll(fs, config, true)));
      ItemsSize(Sort(KeepAll(fs, config, false)));
    }
  }

  // ---- the theorems

  /** The scanner extracts all the configuration asks for if and only if groups stand only where it asks for nothing. */
  lemma ExtractsAllExactly(fs: seq<Field>, config: seq<ReportingField>)
    requires AllWellFormed(fs) && AllFit(fs, config) && |SerializeAll(fs)| < INT64_LIMIT
    ensures Scan(SerializeAll(fs), 0, config, []) == Extracted(SerializeAll(Project(fs, config, false)))
        <==> Lossless(fs, config)
  {
    hide Scan, Project, SerializeAll, Lossless, AllWellFormed, AllFit;
    ScanIsProjection(fs, config);
    LevelLoss(fs, config);
  }

  /** A group at the top level leaves nothing at all. */
  lemma GroupEmpties(fs: seq<Field>, config: seq<ReportingField>)
    requires AllWellFormed(fs) && AllFit(fs, config) && |SerializeAll(fs)| < INT64_LIMIT && HasGroup(fs)
    ensures Scan(SerializeAll(fs), 0, config, []) == Extracted([])
  {
    hide Scan, SerializeAll, AllWellFormed, AllFit;
    ScanIsProjection(fs, config);
    NoFields(config);
  }

  const CONFIG := [ReportingField(1, false, [])]
  const VALUE := VarintField([0x08], [0x01])
  const GROUP := Group([0x13], [], [0x14])

  lemma ExampleFits()
    ensures WellFormed(VALUE) && Num(VALUE) == 1 && WellFormed(GROUP) && Num(GROUP) == 2
    ensures AllWellFormed([VALUE, GROUP]) && AllFit([VALUE, GROUP], CONFIG)
  {
    assert IsVarint([0x08]) && Value([0x08]) == 8 && IsVarint([0x01]);
    assert IsVarint([0x13]) && Value([0x13]) == 19 && IsVarint([0x14]) && Value([0x14]) == 20;
    hide Value, IsVarint, Complete;
    assert [VALUE, GROUP][1..] == [GROUP] && [GROUP][1..] == [];
    assert AllWellFormed([GROUP]) && AllFit([GROUP], CONFIG);
  }

  lemma ExampleKept()
    requires AllWellFormed([VALUE, GROUP]) && AllFit([VALUE, GROUP], CONFIG)
    requires WellFormed(VALUE) && Num(VALUE) == 1 && WellFormed(GROUP) && Num(GROUP) == 2
    ensures Project([VALUE, GROUP], CONFIG, false) == [VALUE]
  {
    hide WellFormed, Fits, Num;
    assert CONFIG[1..] == [] && GetConfigForField(CONFIG, 2) == None;
    assert [VALUE, GROUP][1..] == [GROUP] && [GROUP][1..] == [];
    assert KeepAll([GROUP], CONFIG, false) == [];
    assert KeepAll([VALUE, GROUP], CONFIG, false) == [Keyed(1, VALUE)];
    assert Init([Keyed(1, VALUE)]) == [];
    assert Sort([Keyed(1, VALUE)]) == [Keyed(1, VALUE)];
  }

  /** Field 1, configured, is lost to an empty group 2 behind it. */
  lemma GroupExample()
    ensures AllWellFormed([VALUE, GROUP]) && AllFit([VALUE, GROUP], CONFIG)
    ensures SerializeAll([VALUE, GROUP]) == [0x08, 0x01, 0x13, 0x14]
    ensures Project([VALUE, GROUP], CONFIG, false) == [VALUE]
    ensures Scan([0x08, 0x01, 0x13, 0x14], 0, CONFIG, []) == Extracted([])
  {
    ExampleFits();
    ExampleKept();
    hide Scan, AllWellFormed, AllFit, Project;
    assert [VALUE, GROUP][1..] == [GROUP] && [GROUP][1..] == [];
    assert SerializeAll([GROUP]) == [0x13, 0x14];
    assert HasGroup([VALUE, GROUP]);
    GroupEmpties([VALUE, GROUP], CONFIG);
  }
}
