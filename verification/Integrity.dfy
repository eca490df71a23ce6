/** Why the stored hash stays the sum over the stored value MACs, and exactly when a patch or snapshot breaks it. */
module Integrity {
  import opened ByteStrings
  import opened Collections
  import opened LTHash
  import opened HashStates

  type MACs = map<Bytes, Bytes>

  // ---- lookups

  function StoreLookup(stored: MACs, unreadable: set<Bytes>, index: Bytes): Lookup {
    if index in unreadable then Err(LookupFailed)
    else if index in stored then Ok(Some(stored[index]))
    else Ok(None)
  }

  /** The receiver's lookup: the latest earlier mutation of the patch with this index, whatever its
      operation, and only then the store. */
  function LookupBefore(ms: seq<SyncdMutation>, stored: MACs, unreadable: set<Bytes>, index: Bytes, n: nat): Lookup
    requires n <= |ms|
  {
    if n == 0 then StoreLookup(stored, unreadable, index)
    else if ms[n - 1].index == index then
      (if HasMAC(ms[n - 1]) then Ok(Some(ValueMAC(ms[n - 1]))) else Err(Crash))
    else LookupBefore(ms, stored, unreadable, index, n - 1)
  }

  function PatchLookup(ms: seq<SyncdMutation>, stored: MACs, unreadable: set<Bytes>): (Bytes, nat) -> Lookup {
    (index: Bytes, n: nat) => if n <= |ms| then LookupBefore(ms, stored, unreadable, index, n) else Ok(None)
  }

  function SnapshotLookup(): (Bytes, nat) -> Lookup {
    (index: Bytes, n: nat) => Ok(None)
  }

  // ---- what is stored

  function RemovedIndexes(ms: seq<SyncdMutation>): seq<Bytes> {
    if ms == [] then []
    else RemovedIndexes(Init(ms)) + if Last(ms).op.REMOVE? then [Last(ms).index] else []
  }

  datatype MutationMAC = MutationMAC(indexMAC: Bytes, valueMAC: Bytes)

  function AddedMACs(ms: seq<SyncdMutation>): seq<MutationMAC> {
    if ms == [] then []
    else AddedMACs(Init(ms)) + if Last(ms).op.SET? then [MutationMAC(Last(ms).index, ValueMAC(Last(ms)))] else []
  }

  function PutMACs(stored: MACs, added: seq<MutationMAC>): MACs {
    if added == [] then stored
    else PutMACs(stored, Init(added))[Last(added).indexMAC := Last(added).valueMAC]
  }

  function DeleteMACs(stored: MACs, removed: seq<Bytes>): MACs {
    map k | k in stored && k !in removed :: stored[k]
  }

  /** All removed entries are deleted first, then all added ones are put. */
  function StoredAfter(stored: MACs, ms: seq<SyncdMutation>): MACs {
    PutMACs(DeleteMACs(stored, RemovedIndexes(ms)), AddedMACs(ms))
  }

  // ---- sums over a map

  ghost function Pick(m: MACs): Bytes
    requires m != map[]
  {
    var k :| k in m; k
  }

  ghost function MapSum(e: Expander, m: MACs, j: nat): nat
    requires j < LANE_COUNT
    decreases m.Keys
  {
    if m == map[] then 0
    else Expanded(e, m[Pick(m)], j) + MapSum(e, m - {Pick(m)}, j)
  }

  function Contribution(e: Expander, m: MACs, k: Bytes, j: nat): nat
    requires j < LANE_COUNT
  {
    if k in m then Expanded(e, m[k], j) else 0
  }

  /** Any entry may be taken out of the sum first. */
  lemma {:induction false} MapSumTakeOut(e: Expander, m: MACs, k: Bytes, j: nat)
    requires j < LANE_COUNT
    ensures MapSum(e, m, j) == Contribution(e, m, k, j) + MapSum(e, m - {k}, j)
    decreases m.Keys
  {
    hide Expanded;
    if k !in m {
      assert m - {k} == m;
    } else if k != Pick(m) {
      var c := Pick(m);
      var mc, mk := m - {c}, m - {k};
      assert c in m && k in m;
      assert mc.Keys < m.Keys && mk.Keys < m.Keys;
      assert mc - {k} == mk - {c};
      MapSumTakeOut(e, mc, k, j);
      MapSumTakeOut(e, mk, c, j);
      assert Contribution(e, mc, k, j) == Contribution(e, m, k, j) && Contribution(e, mk, c, j) == Expanded(e, m[c], j);
    }
  }

  lemma MapSumPut(e: Expander, m: MACs, k: Bytes, v: Bytes, j: nat)
    requires j < LANE_COUNT
    ensures MapSum(e, m[k := v], j) == MapSum(e, m, j) - Contribution(e, m, k, j) + Expanded(e, v, j)
  {
    hide Expanded;
    MapSumTakeOut(e, m, k, j);
    MapSumTakeOut(e, m[k := v], k, j);
    assert m[k := v] - {k} == m - {k};
  }

  // ---- the drift of the hash

  /** For every index the value MAC seen last: in the patch, or else in the store. */
  function LastSeen(stored: MACs, ms: seq<SyncdMutation>): MACs {
    if ms == [] then stored
    else LastSeen(stored, Init(ms))[Last(ms).index := ValueMAC(Last(ms))]
  }

  function RemovalMACs(ms: seq<SyncdMutation>): seq<Bytes> {
    if ms == [] then []
    else RemovalMACs(Init(ms)) + if Last(ms).op.REMOVE? then [ValueMAC(Last(ms))] else []
  }

  lemma {:induction false} LookupIsLastSeen(ms: seq<SyncdMutation>, stored: MACs, unreadable: set<Bytes>,
      index: Bytes, n: nat)
    requires n <= |ms| && LookupBefore(ms, stored, unreadable, index, n).Ok?
    ensures
      var seen := LastSeen(stored, ms[..n]);
      LookupBefore(ms, stored, unreadable, index, n).value == if index in seen then Some(seen[index]) else None
  {
    if n > 0 {
      assert Init(ms[..n]) == ms[..n - 1];
      if ms[n - 1].index != index {
        LookupIsLastSeen(ms, stored, unreadable, index, n - 1);
      }
    }
  }

  lemma LaneSumSnoc(e: Expander, items: seq<Bytes>, item: Bytes, j: nat)
    requires j < LANE_COUNT
    ensures LaneSum(e, items + [item], j) == LaneSum(e, items, j) + Expanded(e, item, j)
  {
    LaneSumAppend(e, items, [item], j);
    LaneSumOne(e, item, j);
  }

  /** What one mutation adds to and subtracts from a lane. */
  lemma StepBalance(e: Expander, m: SyncdMutation, found: Option<Bytes>, d: Delta, j: nat)
    requires j < LANE_COUNT
    ensures
      var d' := StepDelta(m, found, d);
      && LaneSum(e, d'.removed, j) == LaneSum(e, d.removed, j)
          + (if found.Some? then Expanded(e, found.value, j) else 0)
      && LaneSum(e, d'.added, j) == LaneSum(e, d.added, j) + (if m.op.SET? then Expanded(e, ValueMAC(m), j) else 0)
  {
    hide Expanded, LaneSum, ValueMAC;
    LaneSumSnoc(e, d.added, ValueMAC(m), j);
    if found.Some? {
      LaneSumSnoc(e, d.removed, found.value, j);
    }
  }

  lemma RemovalStep(e: Expander, ms: seq<SyncdMutation>, j: nat)
    requires j < LANE_COUNT && ms != []
    ensures LaneSum(e, RemovalMACs(ms), j) == LaneSum(e, RemovalMACs(Init(ms)), j)
                                              + if Last(ms).op.REMOVE? then Expanded(e, ValueMAC(Last(ms)), j) else 0
  {
    hide Expanded, LaneSum, ValueMAC;
    LaneSumSnoc(e, RemovalMACs(Init(ms)), ValueMAC(Last(ms)), j);
    assert RemovalMACs(Init(ms)) + [] == RemovalMACs(Init(ms));
  }

  /** The hash follows the last-seen map, minus the value MACs that the removals themselves carry. */
  lemma {:induction false} HashFollowsLastSeen(e: Expander, ms: seq<SyncdMutation>, stored: MACs,
      unreadable: set<Bytes>, n: nat, j: nat)
    requires n <= |ms| && j < LANE_COUNT
    requires DeltaOf(ms, PatchLookup(ms, stored, unreadable), n).Ok?
    ensures
      var d := DeltaOf(ms, PatchLookup(ms, stored, unreadable), n).value;
      MapSum(e, stored, j) - LaneSum(e, d.removed, j) + LaneSum(e, d.added, j)
      == MapSum(e, LastSeen(stored, ms[..n]), j) - LaneSum(e, RemovalMACs(ms[..n]), j)
  {
    if n > 0 {
      hide Expanded, LaneSum, MapSum, LookupBefore, ValueMAC, StepDelta, RemovalMACs, HasMAC;
      var m, p := ms[n - 1], ms[..n - 1];
      assert Init(ms[..n]) == p && Last(ms[..n]) == m;
      HashFollowsLastSeen(e, ms, stored, unreadable, n - 1, j);
      LookupIsLastSeen(ms, stored, unreadable, m.index, n - 1);
      var prev := PatchLookup(ms, stored, unreadable);
      var d, found := DeltaOf(ms, prev, n - 1).value, prev(m.index, n - 1).value;
      StepBalance(e, m, found, d, j);
      MapSumPut(e, LastSeen(stored, p), m.index, ValueMAC(m), j);
      RemovalStep(e, ms[..n], j);
    } else {
      assert ms[..0] == [];
    }
  }

  // ---- the stored map

  /** An index that a patch removes occurs only once in the patch. */
  predicate RemovesAlone(ms: seq<SyncdMutation>) {
    forall i, j | 0 <= i < |ms| && 0 <= j < |ms| && i != j && ms[i].op.REMOVE? :: ms[i].index != ms[j].index
  }

  predicate Removes(ms: seq<SyncdMutation>, k: Bytes) {
    exists m <- ms :: m.op.REMOVE? && m.index == k
  }

  predicate Sets(ms: seq<SyncdMutation>, k: Bytes) {
    exists m <- ms :: m.op.SET? && m.index == k
  }

  lemma {:induction false} RemovedIndexesAre(ms: seq<SyncdMutation>, k: Bytes)
    ensures k in RemovedIndexes(ms) <==> Removes(ms, k)
  {
    if ms != [] {
      RemovedIndexesAre(Init(ms), k);
      assert ms == Init(ms) + [Last(ms)];
    }
  }

  predicate Adds(added: seq<MutationMAC>, k: Bytes) {
    exists a <- added :: a.indexMAC == k
  }

  lemma {:induction false} AddedMACsAre(ms: seq<SyncdMutation>, k: Bytes)
    ensures Adds(AddedMACs(ms), k) <==> Sets(ms, k)
  {
    if ms != [] {
      hide ValueMAC;
      AddedMACsAre(Init(ms), k);
      assert ms == Init(ms) + [Last(ms)];
      if Last(ms).op.SET? {
        AddsSnoc(AddedMACs(Init(ms)), MutationMAC(Last(ms).index, ValueMAC(Last(ms))), k);
      } else {
        assert AddedMACs(ms) == AddedMACs(Init(ms));
      }
    }
  }

  lemma AddsSnoc(added: seq<MutationMAC>, a: MutationMAC, k: Bytes)
    ensures Adds(added + [a], k) <==> Adds(added, k) || a.indexMAC == k
  {
    assert a in added + [a];
  }

  lemma PutMACsSnoc(m: MACs, added: seq<MutationMAC>, a: MutationMAC)
    ensures PutMACs(m, added + [a]) == PutMACs(m, added)[a.indexMAC := a.valueMAC]
  {
    assert Init(added + [a]) == added;
  }

  lemma {:induction false} PutAfterDelete(m: MACs, added: seq<MutationMAC>, k: Bytes)
    requires !Adds(added, k)
    ensures PutMACs(m - {k}, added) == PutMACs(m, added) - {k}
  {
    if added != [] {
      AddsSnoc(Init(added), Last(added), k);
      assert added == Init(added) + [Last(added)];
      PutAfterDelete(m, Init(added), k);
    }
  }

  /** One more mutation, as the store sees it. */
  lemma StoredAfterSnoc(stored: MACs, ms: seq<SyncdMutation>)
    requires ms != []
    ensures
      var before, m := StoredAfter(stored, Init(ms)), Last(ms);
      && (m.op.SET? ==> StoredAfter(stored, ms) == before[m.index := ValueMAC(m)])
      && (m.op.REMOVE? && !Sets(Init(ms), m.index) ==> StoredAfter(stored, ms) == before - {m.index})
  {
    hide ValueMAC, PutMACs;
    var p, m := Init(ms), Last(ms);
    if m.op.SET? {
      assert RemovedIndexes(ms) == RemovedIndexes(p);
      PutMACsSnoc(DeleteMACs(stored, RemovedIndexes(p)), AddedMACs(p), MutationMAC(m.index, ValueMAC(m)));
    } else if !Sets(p, m.index) {
      AddedMACsAre(p, m.index);
      assert AddedMACs(ms) == AddedMACs(p);
      assert DeleteMACs(stored, RemovedIndexes(ms)) == DeleteMACs(stored, RemovedIndexes(p)) - {m.index};
      PutAfterDelete(DeleteMACs(stored, RemovedIndexes(p)), AddedMACs(p), m.index);
    }
  }

  lemma InitRemovesAlone(ms: seq<SyncdMutation>)
    requires ms != [] && RemovesAlone(ms)
    ensures RemovesAlone(Init(ms)) && !Removes(Init(ms), Last(ms).index)
    ensures Last(ms).op.REMOVE? ==> !Sets(Init(ms), Last(ms).index)
  {
    var p, m := Init(ms), Last(ms);
    forall x | x in p && x.index == m.index ensures !x.op.REMOVE? && !m.op.REMOVE? {
      var i :| 0 <= i < |p| && p[i] == x;
      assert ms[i] == x && ms[|ms| - 1] == m;
    }
  }

  /** Away from the removed indexes the store agrees with the last-seen map. */
  lemma {:induction false} StoredIsLastSeen(stored: MACs, ms: seq<SyncdMutation>, k: Bytes)
    requires RemovesAlone(ms) && !Removes(ms, k)
    ensures
      var w, s := LastSeen(stored, ms), StoredAfter(stored, ms);
      (k in w <==> k in s) && (k in w ==> w[k] == s[k])
  {
    if ms == [] {
      assert DeleteMACs(stored, []) == stored;
    } else {
      hide ValueMAC, StoredAfter;
      InitRemovesAlone(ms);
      StoredAfterSnoc(stored, ms);
      assert forall x <- Init(ms) :: x in ms;
      assert Last(ms) in ms;
      StoredIsLastSeen(stored, Init(ms), k);
    }
  }

  /** The removals' own value MACs are exactly what the store forgets. */
  lemma {:induction false} RemovalsBalance(e: Expander, stored: MACs, ms: seq<SyncdMutation>, j: nat)
    requires RemovesAlone(ms) && j < LANE_COUNT
    ensures MapSum(e, LastSeen(stored, ms), j) - LaneSum(e, RemovalMACs(ms), j) == MapSum(e, StoredAfter(stored, ms), j)
  {
    if ms == [] {
      assert DeleteMACs(stored, []) == stored;
    } else {
      hide Expanded, LaneSum, MapSum, ValueMAC, StoredAfter, RemovalMACs, RemovesAlone;
      var p, m := Init(ms), Last(ms);
      InitRemovesAlone(ms);
      RemovalsBalance(e, stored, p, j);
      StoredIsLastSeen(stored, p, m.index);
      StoredAfterSnoc(stored, ms);
      RemovalStep(e, ms, j);
      MapSumPut(e, LastSeen(stored, p), m.index, ValueMAC(m), j);
      if m.op.SET? {
        MapSumPut(e, StoredAfter(stored, p), m.index, ValueMAC(m), j);
      } else {
        MapSumTakeOut(e, StoredAfter(stored, p), m.index, j);
      }
    }
  }

  // ---- the invariant and what keeps it

  /** Every lane of the stored hash is the sum of the stored value MACs, modulo 2^16. */
  ghost predicate Tidy(e: Expander, hash: Bytes, stored: MACs): (tidy: bool)
    ensures tidy ==> |hash| == HASH_SIZE
  {
    |hash| == HASH_SIZE && forall j: nat | j < LANE_COUNT :: Lane(hash, j) == MapSum(e, stored, j) % MODULUS
  }

  /** The sum a lane should show after the delta. */
  ghost function Balance(e: Expander, stored: MACs, d: Delta, j: nat): int
    requires j < LANE_COUNT
  {
    MapSum(e, stored, j) - LaneSum(e, d.removed, j) + LaneSum(e, d.added, j)
  }

  lemma LaneAfter(e: Expander, hash: Bytes, stored: MACs, d: Delta, j: nat)
    requires Tidy(e, hash, stored) && j < LANE_COUNT
    ensures Lane(Hashed(e, hash, d.removed, d.added), j) == Balance(e, stored, d, j) % MODULUS
  {
    hide Hashed, Lane, LaneSum, MapSum;
    assert Lane(Hashed(e, hash, d.removed, d.added), j) == NewLane(e, hash, d.removed, d.added, j);
    ModStep(MapSum(e, stored, j), LaneSum(e, d.added, j) - LaneSum(e, d.removed, j));
  }

  /** The updated hash is tidy for a map if the balances are its sums. */
  lemma TidyAfter(e: Expander, hash: Bytes, stored: MACs, d: Delta, after: MACs)
    requires Tidy(e, hash, stored)
    requires forall j: nat | j < LANE_COUNT :: Balance(e, stored, d, j) == MapSum(e, after, j)
    ensures Tidy(e, Hashed(e, hash, d.removed, d.added), after)
  {
    hide Hashed, Lane, Balance, MapSum;
    forall j: nat | j < LANE_COUNT
      ensures Lane(Hashed(e, hash, d.removed, d.added), j) == MapSum(e, after, j) % MODULUS
    {
      LaneAfter(e, hash, stored, d, j);
    }
  }

  function PatchDelta(ms: seq<SyncdMutation>, stored: MACs, unreadable: set<Bytes>): Result<Delta, AppStateError> {
    DeltaOf(ms, PatchLookup(ms, stored, unreadable), |ms|)
  }

  /** A patch that removes no index it touches twice keeps the hash the sum over the store. */
  lemma PatchKeepsTidy(e: Expander, hash: Bytes, stored: MACs, ms: seq<SyncdMutation>, unreadable: set<Bytes>)
    requires Tidy(e, hash, stored) && RemovesAlone(ms)
    requires PatchDelta(ms, stored, unreadable).Ok?
    ensures
      var d := PatchDelta(ms, stored, unreadable).value;
      Tidy(e, Hashed(e, hash, d.removed, d.added), StoredAfter(stored, ms))
  {
    hide Tidy, Hashed, LaneSum, MapSum;
    var d := PatchDelta(ms, stored, unreadable).value;
    assert ms[..|ms|] == ms;
    forall j: nat | j < LANE_COUNT ensures Balance(e, stored, d, j) == MapSum(e, StoredAfter(stored, ms), j) {
      HashFollowsLastSeen(e, ms, stored, unreadable, |ms|, j);
      RemovalsBalance(e, stored, ms, j);
    }
    TidyAfter(e, hash, stored, d, StoredAfter(stored, ms));
  }

  // ---- the condition is exact

  function Ones(x: Bytes): (h: Bytes)
    ensures |h| == HASH_SIZE
  {
    seq(HASH_SIZE, i => if i % 2 == 0 then 1 else 0)
  }

  /** An expansion under which sums count entries. */
  ghost const COUNTING: Expander := Ones

  lemma {:induction false} CountingList(items: seq<Bytes>, j: nat)
    requires j < LANE_COUNT
    ensures LaneSum(COUNTING, items, j) == |items|
  {
    if items != [] {
      CountingList(items[1..], j);
    }
  }

  lemma {:induction false} CountingMap(m: MACs, j: nat)
    requires j < LANE_COUNT
    ensures MapSum(COUNTING, m, j) == |m|
    decreases m.Keys
  {
    if m != map[] {
      var k := Pick(m);
      assert (m - {k}).Keys == m.Keys - {k};
      CountingMap(m - {k}, j);
    }
  }

  function TidyZeroes(n: nat): (h: Bytes)
    requires n < MODULUS
    ensures |h| == HASH_SIZE && forall j: nat | j < LANE_COUNT :: Lane(h, j) == n
  {
    seq(HASH_SIZE, i => if i % 2 == 0 then n % 256 else n / 256)
  }

  lemma CountingTidy(m: MACs)
    ensures Tidy(COUNTING, TidyZeroes(|m| % MODULUS), m)
  {
    forall j: nat | j < LANE_COUNT ensures MapSum(COUNTING, m, j) == |m| { CountingMap(m, j); }
  }

  ghost function SetOf(s: seq<Bytes>): set<Bytes> {
    set k | k in s
  }

  lemma {:induction false} SetOfAtMost(s: seq<Bytes>)
    ensures |SetOf(s)| <= |s|
  {
    if s != [] {
      SetOfAtMost(Init(s));
      assert s == Init(s) + [Last(s)];
      assert SetOf(s) == SetOf(Init(s)) + {Last(s)};
    }
  }

  lemma {:induction false} RepeatedRemoval(ms: seq<SyncdMutation>, i: nat, j: nat)
    requires i < j < |ms| && ms[i].op.REMOVE? && ms[j].op.REMOVE? && ms[i].index == ms[j].index
    ensures |SetOf(RemovedIndexes(ms))| < |RemovedIndexes(ms)|
  {
    var p, m := Init(ms), Last(ms);
    var was, now := RemovedIndexes(p), RemovedIndexes(ms);
    SetOfAtMost(was);
    if j < |p| {
      RepeatedRemoval(p, i, j);
      if m.op.REMOVE? {
        assert SetOf(now) == SetOf(was) + {m.index};
      } else {
        assert now == was;
      }
    } else {
      RemovedIndexesAre(p, m.index);
      assert p[i] in p;
      assert SetOf(now) == SetOf(was);
    }
  }

  lemma {:induction false} LastSeenKeys(stored: MACs, ms: seq<SyncdMutation>, k: Bytes)
    ensures k in LastSeen(stored, ms) <==> k in stored || Removes(ms, k) || Sets(ms, k)
  {
    if ms != [] {
      hide ValueMAC;
      LastSeenKeys(stored, Init(ms), k);
      assert ms == Init(ms) + [Last(ms)];
      assert Last(ms) in ms;
    }
  }

  lemma {:induction false} PutMACsKeys(m: MACs, added: seq<MutationMAC>, k: Bytes)
    ensures k in PutMACs(m, added) <==> k in m || Adds(added, k)
  {
    if added != [] {
      PutMACsKeys(m, Init(added), k);
      AddsSnoc(Init(added), Last(added), k);
      assert added == Init(added) + [Last(added)];
    }
  }

  lemma StoredKeys(stored: MACs, ms: seq<SyncdMutation>, k: Bytes)
    ensures k in StoredAfter(stored, ms) <==> (k in stored && !Removes(ms, k)) || Sets(ms, k)
  {
    PutMACsKeys(DeleteMACs(stored, RemovedIndexes(ms)), AddedMACs(ms), k);
    RemovedIndexesAre(ms, k);
    AddedMACsAre(ms, k);
  }

  lemma {:induction false} RemovalCounts(ms: seq<SyncdMutation>)
    ensures |RemovalMACs(ms)| == |RemovedIndexes(ms)| <= |ms|
  {
    if ms != [] {
      RemovalCounts(Init(ms));
    }
  }

  /** The last-seen map exceeds the stored one by the indexes removed and never set. */
  lemma GoneKeys(stored: MACs, ms: seq<SyncdMutation>) returns (gone: set<Bytes>)
    ensures forall k :: k in gone <==> Removes(ms, k) && !Sets(ms, k)
    ensures |LastSeen(stored, ms)| == |StoredAfter(stored, ms)| + |gone|
    ensures gone <= SetOf(RemovedIndexes(ms))
  {
    var w, s := LastSeen(stored, ms), StoredAfter(stored, ms);
    gone := set k | k in RemovedIndexes(ms) && !Sets(ms, k);
    hide Sets, Removes, StoredAfter;
    forall k ensures k in gone <==> Removes(ms, k) && !Sets(ms, k) { RemovedIndexesAre(ms, k); }
    forall k ensures k in w.Keys <==> k in s.Keys + gone {
      LastSeenKeys(stored, ms, k);
      StoredKeys(stored, ms, k);
    }
    forall k | k in gone && k in s.Keys ensures false { StoredKeys(stored, ms, k); }
    assert w.Keys == s.Keys + gone && s.Keys !! gone;
  }

  /** Where counting the entries cannot tell the new hash from the new map, every removed index stands alone. */
  lemma CountingExposes(stored: MACs, ms: seq<SyncdMutation>)
    requires |ms| < MODULUS
    requires (|LastSeen(stored, ms)| - |RemovalMACs(ms)|) % MODULUS == |StoredAfter(stored, ms)| % MODULUS
    ensures RemovesAlone(ms)
  {
    hide LastSeen, StoredAfter;
    var removed := RemovedIndexes(ms);
    var gone := GoneKeys(stored, ms);
    RemovalCounts(ms);
    SetOfAtMost(removed);
    SubsetSize(gone, SetOf(removed));
    SmallDifference(|StoredAfter(stored, ms)|, |gone| - |removed|);
    forall i, j | 0 <= i < |ms| && 0 <= j < |ms| && i != j && ms[i].op.REMOVE? ensures ms[i].index != ms[j].index {
      if ms[i].index == ms[j].index {
        assert ms[i] in ms && ms[j] in ms;
        RemovedIndexesAre(ms, ms[i].index);
        if ms[j].op.REMOVE? {
          RepeatedRemoval(ms, if i < j then i else j, if i < j then j else i);
        } else {
          assert Sets(ms, ms[i].index);
          SubsetSize(gone + {ms[i].index}, SetOf(removed));
        }
      }
    }
  }

  lemma SmallDifference(n: nat, d: int)
    requires -MODULUS < d <= 0 && (n + d) % MODULUS == n % MODULUS
    ensures d == 0
  {}

  /** Whatever the expansion and whatever tidy hash it starts from, the delta leaves the hash the sum over `after`. */
  ghost predicate KeepsTidy(stored: MACs, d: Delta, after: MACs) {
    forall e: Expander, hash: Bytes | Tidy(e, hash, stored) :: Tidy(e, Hashed(e, hash, d.removed, d.added), after)
  }

  /** A patch keeps the hash the sum over the store exactly if every index it removes occurs once in it. */
  lemma PatchTidyExactly(stored: MACs, ms: seq<SyncdMutation>, unreadable: set<Bytes>)
    requires |ms| < MODULUS && PatchDelta(ms, stored, unreadable).Ok?
    ensures KeepsTidy(stored, PatchDelta(ms, stored, unreadable).value, StoredAfter(stored, ms)) <==> RemovesAlone(ms)
  {
    hide Tidy, Hashed, StoredAfter, LastSeen, RemovesAlone, PatchDelta;
    var d := PatchDelta(ms, stored, unreadable).value;
    if RemovesAlone(ms) {
      forall e: Expander, hash: Bytes | Tidy(e, hash, stored)
        ensures Tidy(e, Hashed(e, hash, d.removed, d.added), StoredAfter(stored, ms))
      {
        PatchKeepsTidy(e, hash, stored, ms, unreadable);
      }
    }
    if KeepsTidy(stored, d, StoredAfter(stored, ms)) {
      CountingTidy(stored);
      CountingBalances(stored, ms, unreadable, TidyZeroes(|stored| % MODULUS));
    }
  }

  lemma CountingBalances(stored: MACs, ms: seq<SyncdMutation>, unreadable: set<Bytes>, hash: Bytes)
    requires |ms| < MODULUS && PatchDelta(ms, stored, unreadable).Ok? && Tidy(COUNTING, hash, stored)
    requires
      var d := PatchDelta(ms, stored, unreadable).value;
      Tidy(COUNTING, Hashed(COUNTING, hash, d.removed, d.added), StoredAfter(stored, ms))
    ensures RemovesAlone(ms)
  {
    hide Hashed, StoredAfter, LastSeen, RemovesAlone, LaneSum, MapSum;
    var d := PatchDelta(ms, stored, unreadable).value;
    LaneAfter(COUNTING, hash, stored, d, 0);
    HashFollowsLastSeen(COUNTING, ms, stored, unreadable, |ms|, 0);
    assert ms[..|ms|] == ms;
    CountingMap(StoredAfter(stored, ms), 0);
    CountingMap(LastSeen(stored, ms), 0);
    CountingList(RemovalMACs(ms), 0);
    CountingExposes(stored, ms);
  }

  // ---- snapshots

  function SnapshotDelta(ms: seq<SyncdMutation>): Result<Delta, AppStateError> {
    DeltaOf(ms, SnapshotLookup(), |ms|)
  }

  predicate AllSets(ms: seq<SyncdMutation>) {
    forall m <- ms :: m.op.SET?
  }

  /** Distinct indexes, none of them stored already. */
  predicate FreshIndexes(ms: seq<SyncdMutation>, stored: MACs) {
    && (forall i, j | 0 <= i < j < |ms| :: ms[i].index != ms[j].index)
    && forall m <- ms :: m.index !in stored
  }

  lemma {:induction false} SnapshotDeltaAdds(e: Expander, ms: seq<SyncdMutation>, stored: MACs, n: nat, j: nat)
    requires n <= |ms| && j < LANE_COUNT && AllSets(ms) && DeltaOf(ms, SnapshotLookup(), n).Ok?
    ensures
      var d := DeltaOf(ms, SnapshotLookup(), n).value;
      && d.removed == [] && |d.added| == n
      && (FreshIndexes(ms, stored) ==>
            MapSum(e, stored, j) + LaneSum(e, d.added, j) == MapSum(e, StoredAfter(stored, ms[..n]), j))
  {
    if n == 0 {
      assert ms[..0] == [] && DeleteMACs(stored, []) == stored;
    } else {
      hide Expanded, LaneSum, MapSum, StoredAfter, ValueMAC, HasMAC;
      var m, p := ms[n - 1], ms[..n - 1];
      assert m in ms;
      SnapshotDeltaAdds(e, ms, stored, n - 1, j);
      LaneSumSnoc(e, DeltaOf(ms, SnapshotLookup(), n - 1).value.added, ValueMAC(m), j);
      assert Init(ms[..n]) == p && Last(ms[..n]) == m;
      StoredAfterSnoc(stored, ms[..n]);
      StoredKeys(stored, p, m.index);
      MapSumPut(e, StoredAfter(stored, p), m.index, ValueMAC(m), j);
    }
  }

  /** One more record adds an entry unless its index is taken. */
  lemma SnapshotStep(ms: seq<SyncdMutation>, stored: MACs)
    requires ms != [] && AllSets(ms)
    ensures AllSets(Init(ms))
    ensures
      var taken := Last(ms).index in stored || Sets(Init(ms), Last(ms).index);
      |StoredAfter(stored, ms)| == |StoredAfter(stored, Init(ms))| + if taken then 0 else 1
  {
    hide StoredAfter, ValueMAC;
    var p, m := Init(ms), Last(ms);
    assert m in ms && forall x <- p :: x in ms;
    StoredAfterSnoc(stored, ms);
    StoredKeys(stored, p, m.index);
    var before := StoredAfter(stored, p);
    assert before[m.index := ValueMAC(m)].Keys == before.Keys + {m.index};
    if m.index in before {
      assert before.Keys + {m.index} == before.Keys;
    }
  }

  lemma StoredAfterNothing(stored: MACs)
    ensures StoredAfter(stored, []) == stored
  {
    assert DeleteMACs(stored, []) == stored;
  }

  lemma NothingFresh(stored: MACs)
    ensures FreshIndexes([], stored)
  {}

  /** A snapshot adds at most one entry a record, and one each only if the indexes are fresh. */
  lemma {:induction false} SnapshotCount(ms: seq<SyncdMutation>, stored: MACs)
    requires AllSets(ms)
    ensures |stored| <= |StoredAfter(stored, ms)| <= |stored| + |ms|
    ensures |StoredAfter(stored, ms)| == |stored| + |ms| ==> FreshIndexes(ms, stored)
  {
    hide StoredAfter, FreshIndexes, Sets, AllSets;
    if ms == [] {
      StoredAfterNothing(stored);
      NothingFresh(stored);
    } else {
      SnapshotStep(ms, stored);
      SnapshotCount(Init(ms), stored);
      if |StoredAfter(stored, ms)| == |stored| + |ms| {
        FreshSnoc(Init(ms), Last(ms), stored);
        assert ms == Init(ms) + [Last(ms)];
      }
    }
  }

  lemma FreshSnoc(p: seq<SyncdMutation>, m: SyncdMutation, stored: MACs)
    requires AllSets(p) && FreshIndexes(p, stored) && m.index !in stored && !Sets(p, m.index)
    ensures FreshIndexes(p + [m], stored)
  {
    assert forall i | 0 <= i < |p| :: p[i] in p;
  }

  lemma SnapshotAdds(e: Expander, ms: seq<SyncdMutation>, stored: MACs, j: nat)
    requires j < LANE_COUNT && AllSets(ms) && SnapshotDelta(ms).Ok?
    ensures
      var d := SnapshotDelta(ms).value;
      && d.removed == [] && |d.added| == |ms|
      && (FreshIndexes(ms, stored) ==> Balance(e, stored, d, j) == MapSum(e, StoredAfter(stored, ms), j))
  {
    hide LaneSum, MapSum, StoredAfter, FreshIndexes, DeltaOf;
    SnapshotDeltaAdds(e, ms, stored, |ms|, j);
    NoItems(e, j);
    assert ms[..|ms|] == ms;
  }

  lemma SnapshotKeepsTidy(e: Expander, hash: Bytes, stored: MACs, ms: seq<SyncdMutation>)
    requires Tidy(e, hash, stored) && AllSets(ms) && FreshIndexes(ms, stored) && SnapshotDelta(ms).Ok?
    ensures
      var d := SnapshotDelta(ms).value;
      Tidy(e, Hashed(e, hash, d.removed, d.added), StoredAfter(stored, ms))
  {
    hide Tidy, Hashed, StoredAfter, FreshIndexes, SnapshotDelta, Balance;
    var d := SnapshotDelta(ms).value;
    forall j: nat | j < LANE_COUNT ensures Balance(e, stored, d, j) == MapSum(e, StoredAfter(stored, ms), j) {
      SnapshotAdds(e, ms, stored, j);
    }
    TidyAfter(e, hash, stored, d, StoredAfter(stored, ms));
  }

  lemma NoItems(e: Expander, j: nat)
    requires j < LANE_COUNT
    ensures LaneSum(e, [], j) == 0
  {}

  /** A snapshot adds to the incoming hash, so it keeps it the sum over the store exactly if its indexes are
      distinct and none is stored: on an empty store, exactly if they are distinct. */
  lemma SnapshotTidyExactly(stored: MACs, ms: seq<SyncdMutation>)
    requires |ms| < MODULUS && AllSets(ms) && SnapshotDelta(ms).Ok?
    ensures KeepsTidy(stored, SnapshotDelta(ms).value, StoredAfter(stored, ms)) <==> FreshIndexes(ms, stored)
  {
    hide Tidy, Hashed, StoredAfter, FreshIndexes, SnapshotDelta;
    var d := SnapshotDelta(ms).value;
    if FreshIndexes(ms, stored) {
      forall e: Expander, hash: Bytes | Tidy(e, hash, stored)
        ensures Tidy(e, Hashed(e, hash, d.removed, d.added), StoredAfter(stored, ms))
      {
        SnapshotKeepsTidy(e, hash, stored, ms);
      }
    }
    if KeepsTidy(stored, d, StoredAfter(stored, ms)) {
      CountingTidy(stored);
      CountingSnapshot(stored, ms, TidyZeroes(|stored| % MODULUS));
    }
  }

  lemma CountingSnapshot(stored: MACs, ms: seq<SyncdMutation>, hash: Bytes)
    requires |ms| < MODULUS && AllSets(ms) && SnapshotDelta(ms).Ok? && Tidy(COUNTING, hash, stored)
    requires
      var d := SnapshotDelta(ms).value;
      Tidy(COUNTING, Hashed(COUNTING, hash, d.removed, d.added), StoredAfter(stored, ms))
    ensures FreshIndexes(ms, stored)
  {
    hide StoredAfter, FreshIndexes, SnapshotDelta, Tidy, Hashed;
    CountingLane(stored, ms, hash);
    SnapshotCount(ms, stored);
    CountsAgree(|stored|, |ms|, |StoredAfter(stored, ms)|);
  }

  /** The first lane, which counts, before and after. */
  lemma CountingLane(stored: MACs, ms: seq<SyncdMutation>, hash: Bytes)
    requires AllSets(ms) && SnapshotDelta(ms).Ok? && Tidy(COUNTING, hash, stored)
    requires
      var d := SnapshotDelta(ms).value;
      Tidy(COUNTING, Hashed(COUNTING, hash, d.removed, d.added), StoredAfter(stored, ms))
    ensures (|stored| + |ms|) % MODULUS == |StoredAfter(stored, ms)| % MODULUS
  {
    hide Hashed, StoredAfter, FreshIndexes, LaneSum, MapSum, Lane, SnapshotDelta, AllSets;
    var d := SnapshotDelta(ms).value;
    assert Lane(Hashed(COUNTING, hash, d.removed, d.added), 0)
        == MapSum(COUNTING, StoredAfter(stored, ms), 0) % MODULUS;
    hide Tidy;
    LaneAfter(COUNTING, hash, stored, d, 0);
    SnapshotAdds(COUNTING, ms, stored, 0);
    CountingMap(stored, 0);
    CountingMap(StoredAfter(stored, ms), 0);
    CountingList(d.added, 0);
    CountingList(d.removed, 0);
    assert Balance(COUNTING, stored, d, 0) == |stored| + |ms|;
    hide Balance;
  }

  lemma CountsAgree(before: nat, n: nat, after: nat)
    requires before <= after <= before + n && n < MODULUS && (before + n) % MODULUS == after % MODULUS
    ensures after == before + n
  {}
}
