/** The processor that decodes patch lists against a database (appstate/decode.go), and the fetch loop that drives
    it. */
module Processors {
  import opened ByteStrings
  import opened Collections
  import opened LTHash
  import opened HashStates
  import opened Integrity
  import opened AppState

  /** The app state tables of one collection. Its writes succeed; lookups of `unreadable` indexes fail. */
  class AppStateStore {
    var version: uint64
    var hash: Bytes
    var macs: MACs
    const unreadable: set<Bytes>

    ghost predicate Valid()
      reads this
    {
      |hash| == HASH_SIZE
    }

    ghost function Contents(): Stored
      reads this
    {
      Stored(version, hash, macs)
    }

    constructor (refused: set<Bytes>)
      ensures Valid() && Contents() == CLEARED && unreadable == refused
    {
      version, hash, macs, unreadable := 0, ZERO_HASH, map[], refused;
    }

    method PutAppStateVersion(v: uint64, h: Bytes)
      modifies this
      ensures Contents() == old(Contents()).(version := v, hash := h)
    {
      version, hash := v, h;
    }

    /** Deleting the version row takes its mutation MACs with it. */
    method DeleteAppStateVersion()
      modifies this
      ensures Contents() == CLEARED
    {
      version, hash, macs := 0, ZERO_HASH, map[];
    }

    method DeleteAppStateMutationMACs(removed: seq<Bytes>)
      modifies this
      ensures Contents() == old(Contents()).(macs := DeleteMACs(old(macs), removed))
    {
      macs := DeleteMACs(macs, removed);
    }

    method PutAppStateMutationMACs(added: seq<MutationMAC>)
      modifies this
      ensures Contents() == old(Contents()).(macs := PutMACs(old(macs), added))
    {
      ghost var was := macs;
      assert added[..0] == [];
      for i := 0 to |added|
        invariant macs == PutMACs(was, added[..i])
        invariant version == old(version) && hash == old(hash)
      {
        PutMACsSnoc(was, added[..i], added[i]);
        assert added[..i + 1] == added[..i] + [added[i]];
        macs := macs[added[i].indexMAC := added[i].valueMAC];
      }
      assert added[..|added|] == added;
    }
  }

  class PatchOutput {
    var removedMACs: seq<Bytes>
    var addedMACs: seq<MutationMAC>
    var mutations: seq<Mutation>

    constructor (input: seq<Mutation>)
      ensures removedMACs == [] && addedMACs == [] && mutations == input
    {
      removedMACs, addedMACs, mutations := [], [], input;
    }

    method Append(mutation: SyncdMutation, decoded: Mutation)
      modifies this
      ensures removedMACs == old(removedMACs) + if mutation.op.REMOVE? then [mutation.index] else []
      ensures addedMACs
           == old(addedMACs) + if mutation.op.SET? then [MutationMAC(mutation.index, ValueMAC(mutation))] else []
      ensures mutations == old(mutations) + [decoded]
    {
      if mutation.op.REMOVE? {
        removedMACs := removedMACs + [mutation.index];
      } else {
        addedMACs := addedMACs + [MutationMAC(mutation.index, ValueMAC(mutation))];
      }
      mutations := mutations + [decoded];
    }
  }

  /** An error at a prefix is the error of the whole list. */
  lemma {:induction false} DecodeFailsOn(env: Env, ms: seq<SyncdMutation>, n: nat, validateMACs: bool)
    requires n <= |ms| && DecodeAll(env, ms[..n], validateMACs).Err?
    ensures DecodeAll(env, ms, validateMACs) == DecodeAll(env, ms[..n], validateMACs)
    decreases |ms| - n
  {
    if n == |ms| {
      assert ms[..n] == ms;
    } else {
      assert Init(ms[..n + 1]) == ms[..n];
      DecodeFailsOn(env, ms, n + 1, validateMACs);
    }
  }

  /** What the loop over the mutations has collected so far. */
  ghost predicate Collected(env: Env, ms: seq<SyncdMutation>, validateMACs: bool, input: seq<Mutation>,
                            removed: seq<Bytes>, added: seq<MutationMAC>, mutations: seq<Mutation>)
  {
    var decoded := DecodeAll(env, ms, validateMACs);
    decoded.Ok? && removed == RemovedIndexes(ms) && added == AddedMACs(ms) && mutations == input + decoded.value
  }

  lemma NothingCollected(env: Env, validateMACs: bool, input: seq<Mutation>)
    ensures Collected(env, [], validateMACs, input, [], [], input)
  {}

  /** One more mutation of a prefix. */
  lemma CollectedStep(env: Env, ms: seq<SyncdMutation>, i: nat, validateMACs: bool, input: seq<Mutation>,
                      removed: seq<Bytes>, added: seq<MutationMAC>, mutations: seq<Mutation>)
    requires i < |ms| && Collected(env, ms[..i], validateMACs, input, removed, added, mutations)
    ensures match DecodeOne(env, ms[i], validateMACs)
            case Err(e) => DecodeAll(env, ms, validateMACs) == Err(e)
            case Ok(m) =>
              Collected(env, ms[..i + 1], validateMACs, input,
                        removed + (if ms[i].op.REMOVE? then [ms[i].index] else []),
                        added + (if ms[i].op.SET? then [MutationMAC(ms[i].index, ValueMAC(ms[i]))] else []),
                        mutations + [m])
  {
    hide DecodeOne, ValueMAC;
    var p := ms[..i + 1];
    assert p != [] && Init(p) == ms[..i] && Last(p) == ms[i];
    CollectedLast(env, p, validateMACs);
    hide DecodeAll, RemovedIndexes, AddedMACs;
    if DecodeOne(env, ms[i], validateMACs).Err? {
      DecodeFailsOn(env, ms, i + 1, validateMACs);
    }
  }

  lemma CollectedLast(env: Env, ms: seq<SyncdMutation>, validateMACs: bool)
    requires ms != [] && DecodeAll(env, Init(ms), validateMACs).Ok?
    ensures DecodeAll(env, ms, validateMACs)
         == match DecodeOne(env, Last(ms), validateMACs)
            case Err(e) => Err(e)
            case Ok(m) => Ok(DecodeAll(env, Init(ms), validateMACs).value + [m])
    ensures RemovedIndexes(ms) == RemovedIndexes(Init(ms)) + (if Last(ms).op.REMOVE? then [Last(ms).index] else [])
    ensures AddedMACs(ms)
         == AddedMACs(Init(ms)) + (if Last(ms).op.SET? then [MutationMAC(Last(ms).index, ValueMAC(Last(ms)))] else [])
  {
    hide DecodeOne, ValueMAC;
  }

  class Processor {
    const env: Env
    const store: AppStateStore

    ghost predicate Valid()
      reads store
    {
      store.Valid() && store.unreadable == env.unreadable
    }

    constructor (e: Env, s: AppStateStore)
      requires s.Valid() && s.unreadable == e.unreadable
      ensures Valid() && env == e && store == s
    {
      env, store := e, s;
    }

    /** `out` arrives with its MAC lists empty. */
    method DecodeMutations(ms: seq<SyncdMutation>, out: PatchOutput, validateMACs: bool)
        returns (err: Option<AppStateError>)
      requires out.removedMACs == [] && out.addedMACs == []
      modifies out
      ensures match DecodeAll(env, ms, validateMACs)
              case Err(e) => err == Some(e)
              case Ok(decoded) =>
                && err.None?
                && out.removedMACs == RemovedIndexes(ms) && out.addedMACs == AddedMACs(ms)
                && out.mutations == old(out.mutations) + decoded
    {
      ghost var input := out.mutations;
      NothingCollected(env, validateMACs, input);
      assert ms[..0] == [] && ms[..|ms|] == ms;
      for i := 0 to |ms|
        invariant Collected(env, ms[..i], validateMACs, input, out.removedMACs, out.addedMACs, out.mutations)
      {
        hide DecodeOne, DecodeAll, ValueMAC, Collected;
        var mutation := ms[i];
        CollectedStep(env, ms, i, validateMACs, input, out.removedMACs, out.addedMACs, out.mutations);
        var decoded := DecodeOne(env, mutation, validateMACs);
        if decoded.Err? { return Some(decoded.error); }
        out.Append(mutation, decoded.value);
      }
      return None;
    }

    method StoreMACs(currentState: HashState, out: PatchOutput)
      requires Valid() && currentState.Valid()
      modifies store
      ensures Valid()
      ensures store.Contents() == Stored(currentState.version, currentState.hash[..],
                                         PutMACs(DeleteMACs(old(store.macs), out.removedMACs), out.addedMACs))
    {
      store.PutAppStateVersion(currentState.version, currentState.hash[..]);
      store.DeleteAppStateMutationMACs(out.removedMACs);
      store.PutAppStateMutationMACs(out.addedMACs);
    }

    /** What decodeSnapshot and the patch loop both end with: decode the mutations, then store. */
    method DecodeAndStore(ms: seq<SyncdMutation>, currentState: HashState, validateMACs: bool, input: seq<Mutation>)
      returns (r: Result<seq<Mutation>, AppStateError>)
      requires Valid() && currentState.Valid()
      modifies store
      ensures Valid()
      ensures match DecodeAll(env, ms, validateMACs)
              case Err(e) => r == Err(e) && store.Contents() == old(store.Contents())
              case Ok(decoded) =>
                && r == Ok(input + decoded)
                && store.Contents() == StoredWith(old(store.Contents()),
                    Held(currentState.version, currentState.hash[..]), ms)
    {
      hide DecodeAll, PutMACs, DeleteMACs, RemovedIndexes, AddedMACs;
      var out := new PatchOutput(input);
      var err := DecodeMutations(ms, out, validateMACs);
      if err.Some? { return Err(err.value); }
      StoreMACs(currentState, out);
      return Ok(out.mutations);
    }

    method ValidateSnapshotMAC(currentState: HashState, keyId: Bytes, expected: Bytes)
        returns (r: Result<Keys, AppStateError>)
      requires currentState.Valid()
      ensures r == CheckSnapshotMAC(env, Held(currentState.version, currentState.hash[..]), keyId, expected)
    {
      var keys := KeyOf(env, keyId);
      if keys.Err? { return Err(keys.error); }
      var snapshotMAC := env.crypto.hmac256(keys.value.snapshotMAC,
                                            SnapshotPreimage(currentState.hash[..], currentState.version, env.name));
      if snapshotMAC != expected { return Err(MismatchingLTHash); }
      return keys;
    }

    /** The new state is a fresh copy; on an error the database is untouched. */
    method DecodeSnapshot(ss: Snapshot, initialState: HashState, validateMACs: bool, input: seq<Mutation>)
      returns (r: Result<(HashState, seq<Mutation>), AppStateError>)
      requires Valid() && initialState.Valid()
      modifies store
      ensures Valid()
      ensures match ApplySnapshot(env, old(store.Contents()), Held(initialState.version, initialState.hash[..]), ss,
          validateMACs)
              case Err(e) => r == Err(e) && store.Contents() == old(store.Contents())
              case Ok(a) =>
                && r.Ok? && fresh(r.value.0) && fresh(r.value.0.hash) && r.value.0.Valid()
                && Held(r.value.0.version, r.value.0.hash[..]) == a.held
                && r.value.1 == input + a.mutations
                && store.Contents() == a.stored
    {
      hide DecodeAll, Hashed, CheckSnapshotMAC, StoredWith, DeltaOf;
      var currentState := new HashState(ss.version, initialState.hash[..]);
      var encryptedMutations := AsSets(ss.records);
      var warn := currentState.UpdateHash(env.crypto.expand, encryptedMutations, SnapshotLookup());
      if warn.Err? { return Err(warn.error); }
      if validateMACs {
        var check := ValidateSnapshotMAC(currentState, ss.keyId, ss.mac);
        if check.Err? { return Err(check.error); }
      }
      var mutations := DecodeAndStore(encryptedMutations, currentState, validateMACs, input);
      if mutations.Err? { return Err(mutations.error); }
      return Ok((currentState, mutations.value));
    }

    /** The loop that updates `currentState` in place, one patch after another. */
    method DecodePatchLoop(patches: seq<Patch>, currentState: HashState, validateMACs: bool, input: seq<Mutation>)
      returns (r: Result<seq<Mutation>, AppStateError>)
      requires Valid() && currentState.Valid()
      modifies store, currentState, currentState.hash
      ensures Valid()
      ensures match ApplyPatches(env, old(store.Contents()), old(Held(currentState.version, currentState.hash[..])),
          patches, input, validateMACs)
              case Outcome(stored, result) =>
                && store.Contents() == stored
                && (match result
                    case Err(e) => r == Err(e)
                    case Ok((held, mutations)) =>
                      && r == Ok(mutations)
                      && Held(currentState.version, currentState.hash[..]) == held)
    {
      var newMutations := input;
      ghost var all := ApplyPatches(env, store.Contents(), Held(currentState.version, currentState.hash[..]), patches,
          input, validateMACs);
      for i := 0 to |patches|
        invariant Valid() && currentState.Valid()
        invariant ApplyPatches(env, store.Contents(), Held(currentState.version, currentState.hash[..]), patches[i..],
            newMutations, validateMACs) == all
      {
        hide ApplyPatch;
        assert patches[i..][0] == patches[i] && patches[i..][1..] == patches[i + 1..];
        var mutations := DecodePatch(patches[i], currentState, validateMACs, newMutations);
        if mutations.Err? { return Err(mutations.error); }
        newMutations := mutations.value;
      }
      return Ok(newMutations);
    }

    /** The body of that loop. */
    method DecodePatch(patch: Patch, currentState: HashState, validateMACs: bool, input: seq<Mutation>)
      returns (r: Result<seq<Mutation>, AppStateError>)
      requires Valid() && currentState.Valid()
      modifies store, currentState, currentState.hash
      ensures Valid()
      ensures match ApplyPatch(env, old(store.Contents()), old(Held(currentState.version, currentState.hash[..])),
          patch, validateMACs)
              case Err(e) => r == Err(e) && store.Contents() == old(store.Contents())
              case Ok(a) =>
                && r == Ok(input + a.mutations)
                && Held(currentState.version, currentState.hash[..]) == a.held
                && store.Contents() == a.stored
    {
      hide DecodeAll, Hashed, CheckSnapshotMAC, CheckPatchMAC, StoredWith, DeltaOf, PatchLookup;
      currentState.version := patch.version;
      var warn := currentState.UpdateHash(env.crypto.expand, patch.mutations,
          PatchLookup(patch.mutations, store.macs, store.unreadable));
      if warn.Err? { return Err(warn.error); }
      if validateMACs {
        var keys := ValidateSnapshotMAC(currentState, patch.keyId, patch.snapshotMAC);
        if keys.Err? { return Err(keys.error); }
        var failed := CheckPatchMAC(env, keys.value, patch);
        if failed.Some? { return Err(failed.value); }
      }
      r := DecodeAndStore(patch.mutations, currentState, validateMACs, input);
    }

    method DecodePatches(list: PatchList, initialState: HashState, validateMACs: bool)
      returns (r: Result<(HashState, seq<Mutation>), AppStateError>)
      requires Valid() && initialState.Valid()
      modifies store
      ensures Valid()
      ensures match ApplyList(env, old(store.Contents()), Held(initialState.version, initialState.hash[..]), list,
          validateMACs)
              case Outcome(stored, result) =>
                && store.Contents() == stored
                && (match result
                    case Err(e) => r == Err(e)
                    case Ok((held, mutations)) =>
                      && r.Ok? && fresh(r.value.0) && fresh(r.value.0.hash) && r.value.0.Valid()
                      && Held(r.value.0.version, r.value.0.hash[..]) == held && r.value.1 == mutations)
    {
      hide ApplySnapshot, ApplyPatches;
      var currentState := new HashState(initialState.version, initialState.hash[..]);
      var newMutations: seq<Mutation> := [];
      if list.snapshot.Some? {
        var decoded := DecodeSnapshot(list.snapshot.value, currentState, validateMACs, newMutations);
        if decoded.Err? { return Err(decoded.error); }
        currentState, newMutations := decoded.value.0, decoded.value.1;
        assert forall ms: seq<Mutation> :: [] + ms == ms;
      }
      var mutations := DecodePatchLoop(list.patches, currentState, validateMACs, newMutations);
      if mutations.Err? { return Err(mutations.error); }
      return Ok((currentState, mutations.value));
    }

    /** `Ok(None)` stands for the early return of a collection that is synced already. The server's answers
        are a parameter; dispatching the events for the mutations is not part of this model. */
    method FetchAppState(fullSync: bool, onlyIfNotSynced: bool, responses: seq<PatchList>)
      returns (r: Result<Option<(uint64, Bytes)>, AppStateError>)
      requires Valid()
      modifies store
      ensures Valid()
      ensures
        var start := if fullSync then CLEARED else old(store.Contents());
        if start.version != 0 && onlyIfNotSynced then r == Ok(None) && store.Contents() == start
        else
          match FetchLoop(env, start, Held(start.version, start.hash), responses)
          case Outcome(stored, result) =>
            && store.Contents() == stored
            && r == match result case Err(e) => Err(e) case Ok((held, _)) => Ok(Some((held.version, held.hash)))
    {
      if fullSync {
        store.DeleteAppStateVersion();
      }
      if store.version != 0 && onlyIfNotSynced { return Ok(None); }
      var state := new HashState(store.version, store.hash);
      ghost var all := FetchLoop(env, store.Contents(), Held(store.version, store.hash), responses);
      for i := 0 to |responses|
        invariant Valid() && state.Valid() && fresh(state) && fresh(state.hash)
        invariant FetchLoop(env, store.Contents(), Held(state.version, state.hash[..]), responses[i..]) == all
      {
        hide ApplyList;
        assert responses[i..][0] == responses[i] && responses[i..][1..] == responses[i + 1..];
        var decoded := DecodePatches(responses[i], state, true);
        if decoded.Err? { return Err(decoded.error); }
        state := decoded.value.0;
        if !responses[i].hasMorePatches { return Ok(Some((state.version, state.hash[..]))); }
      }
      return Err(FetchFailed);
    }
  }
}
