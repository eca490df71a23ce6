/** Whole runs of the app state protocol: what every run keeps, what a failure leaves, and that patches the
    client produces are accepted. */
module SyncRuns {
  import opened ByteStrings
  import opened LTHash
  import opened HashStates
  import opened Integrity
  import opened AppState

  /** The stored hash is the sum over the stored MACs, and memory holds what the database holds. */
  ghost predicate InStep(env: Env, st: Stored, held: Held): (b: bool)
    ensures b ==> |held.hash| == HASH_SIZE
  {
    Tidy(env.crypto.expand, st.hash, st.macs) && held == Held(st.version, st.hash)
  }

  predicate Orderly(patches: seq<Patch>) {
    forall p <- patches :: RemovesAlone(p.mutations)
  }

  lemma PatchStaysInStep(env: Env, st: Stored, held: Held, p: Patch, validateMACs: bool)
    requires InStep(env, st, held) && RemovesAlone(p.mutations)
    requires ApplyPatch(env, st, held, p, validateMACs).Ok?
    ensures
      var a := ApplyPatch(env, st, held, p, validateMACs).value;
      InStep(env, a.stored, a.held)
  {
    hide Tidy, Hashed, RemovesAlone, DecodeAll, CheckPatch, StoredAfter, PatchDelta;
    PatchKeepsTidy(env.crypto.expand, st.hash, st.macs, p.mutations, env.unreadable);
  }

  lemma SnapshotStaysInStep(env: Env, st: Stored, held: Held, ss: Snapshot, validateMACs: bool)
    requires InStep(env, st, held) && FreshIndexes(AsSets(ss.records), st.macs)
    requires ApplySnapshot(env, st, held, ss, validateMACs).Ok?
    ensures
      var a := ApplySnapshot(env, st, held, ss, validateMACs).value;
      InStep(env, a.stored, a.held)
  {
    hide Tidy, Hashed, FreshIndexes, DecodeAll, CheckSnapshotMAC, StoredAfter, SnapshotDelta, AsSets;
    SnapshotKeepsTidy(env.crypto.expand, st.hash, st.macs, AsSets(ss.records));
  }

  /** Whether the patches all apply or one fails, the database ends up tidy. */
  lemma {:induction false} PatchesStayInStep(env: Env, st: Stored, held: Held, patches: seq<Patch>,
      acc: seq<Mutation>, validateMACs: bool)
    requires InStep(env, st, held) && Orderly(patches)
    ensures
      var o := ApplyPatches(env, st, held, patches, acc, validateMACs);
      && Tidy(env.crypto.expand, o.stored.hash, o.stored.macs)
      && (o.result.Ok? ==> InStep(env, o.stored, o.result.value.0))
    decreases |patches|
  {
    hide Tidy, RemovesAlone, ApplyPatch;
    if patches != [] {
      assert patches[0] in patches && forall p <- patches[1..] :: p in patches;
      var r := ApplyPatch(env, st, held, patches[0], validateMACs);
      if r.Ok? {
        PatchStaysInStep(env, st, held, patches[0], validateMACs);
        PatchesStayInStep(env, r.value.stored, r.value.held, patches[1..], acc + r.value.mutations, validateMACs);
      }
    }
  }

  /** The list's snapshot, if any, brings distinct indexes that are not stored yet; no patch removes an index it
      repeats. */
  predicate OrderlyList(list: PatchList, macs: MACs) {
    Orderly(list.patches) && (list.snapshot.Some? ==> FreshIndexes(AsSets(list.snapshot.value.records), macs))
  }

  lemma ListStaysInStep(env: Env, st: Stored, held: Held, list: PatchList, validateMACs: bool)
    requires InStep(env, st, held) && OrderlyList(list, st.macs)
    ensures
      var o := ApplyList(env, st, held, list, validateMACs);
      && Tidy(env.crypto.expand, o.stored.hash, o.stored.macs)
      && (o.result.Ok? ==> InStep(env, o.stored, o.result.value.0))
  {
    hide Tidy, ApplyPatches, ApplySnapshot, FreshIndexes, AsSets, Orderly;
    if list.snapshot.None? {
      PatchesStayInStep(env, st, held, list.patches, [], validateMACs);
    } else {
      var r := ApplySnapshot(env, st, held, list.snapshot.value, validateMACs);
      if r.Ok? {
        SnapshotStaysInStep(env, st, held, list.snapshot.value, validateMACs);
        PatchesStayInStep(env, r.value.stored, r.value.held, list.patches, r.value.mutations, validateMACs);
      }
    }
  }

  /** Only the first answer of a fetch is asked for a snapshot. */
  predicate OrderlyRun(responses: seq<PatchList>, macs: MACs) {
    && (responses != [] ==> OrderlyList(responses[0], macs))
    && forall list <- responses[if responses == [] then 0 else 1..] :: list.snapshot.None? && Orderly(list.patches)
  }

  /** After every run of a fetch, finished or broken off anywhere, the stored hash is the sum over the stored
      value MACs; after a finished one memory and database agree. */
  lemma {:induction false} FetchStaysInStep(env: Env, st: Stored, held: Held, responses: seq<PatchList>)
    requires InStep(env, st, held) && OrderlyRun(responses, st.macs)
    ensures
      var o := FetchLoop(env, st, held, responses);
      && Tidy(env.crypto.expand, o.stored.hash, o.stored.macs)
      && (o.result.Ok? ==> InStep(env, o.stored, o.result.value.0))
    decreases |responses|
  {
    hide Tidy, ApplyList, Orderly, FreshIndexes;
    if responses != [] {
      ListStaysInStep(env, st, held, responses[0], true);
      var o := ApplyList(env, st, held, responses[0], true);
      if o.result.Ok? && responses[0].hasMorePatches {
        var later := responses[1..];
        assert forall list <- later :: list.snapshot.None? && Orderly(list.patches);
        if later != [] {
          assert later[0] in later && forall list <- later[1..] :: list in later;
        }
        FetchStaysInStep(env, o.stored, o.result.value.0, later);
      }
    }
  }

  lemma ClearedIsTidy(env: Env)
    ensures InStep(env, CLEARED, Held(0, ZERO_HASH))
  {
    forall j: nat | j < LANE_COUNT ensures Lane(ZERO_HASH, j) == MapSum(env.crypto.expand, map[], j) % MODULUS {}
  }

  predicate DistinctIndexes(ms: seq<SyncdMutation>) {
    forall i, j | 0 <= i < j < |ms| :: ms[i].index != ms[j].index
  }

  /** A full synchronisation re-establishes the invariant from any database whatever. */
  lemma FullSyncRestores(env: Env, responses: seq<PatchList>)
    requires forall list <- responses :: Orderly(list.patches)
    requires forall i | 0 < i < |responses| :: responses[i].snapshot.None?
    requires responses != [] && responses[0].snapshot.Some?
        ==> DistinctIndexes(AsSets(responses[0].snapshot.value.records))
    ensures
      var o := FetchLoop(env, CLEARED, Held(0, ZERO_HASH), responses);
      && Tidy(env.crypto.expand, o.stored.hash, o.stored.macs)
      && (o.result.Ok? ==> InStep(env, o.stored, o.result.value.0))
  {
    hide Tidy, FetchLoop, Orderly, AsSets;
    ClearedIsTidy(env);
    FetchStaysInStep(env, CLEARED, Held(0, ZERO_HASH), responses);
  }

  // ---- failures

  /** A run of patches fails exactly at one patch: everything before it is applied and stored, nothing after it. */
  lemma {:induction false} FailureLeavesPrefix(env: Env, st: Stored, held: Held, patches: seq<Patch>,
      acc: seq<Mutation>, validateMACs: bool)
    returns (k: nat)
    requires |held.hash| == HASH_SIZE
    requires ApplyPatches(env, st, held, patches, acc, validateMACs).result.Err?
    ensures k < |patches|
    ensures
      var o := ApplyPatches(env, st, held, patches, acc, validateMACs);
      var before := ApplyPatches(env, st, held, patches[..k], acc, validateMACs);
      && before.result.Ok? && o.stored == before.stored
      && ApplyPatch(env, before.stored, before.result.value.0, patches[k], validateMACs) == Err(o.result.error)
    decreases |patches|
  {
    hide ApplyPatch;
    var r := ApplyPatch(env, st, held, patches[0], validateMACs);
    if r.Err? {
      k := 0;
      assert patches[..0] == [];
    } else {
      var j := FailureLeavesPrefix(env, r.value.stored, r.value.held, patches[1..],
                                   acc + r.value.mutations, validateMACs);
      k := j + 1;
      assert patches[..k][0] == patches[0] && patches[..k][1..] == patches[1..][..j];
    }
  }
}
