/** Patches the client sends (appstate/encode.go) and why the receiver's checks accept them. */
module Encoding {
  import opened ByteStrings
  import opened Collections
  import opened LTHash
  import opened HashStates
  import opened Integrity
  import opened AppState

  /** One change to make; `value` is the action with its timestamp set. */
  datatype MutationInfo = MutationInfo(index: seq<Bytes>, version: int, value: Bytes)

  type IV = iv: Bytes | |iv| == IV_SIZE witness [0, 0, 0, 0, 0, 0, 0, 0, 0, 0, 0, 0, 0, 0, 0, 0]

  function ActionOf(env: Env, info: MutationInfo): SyncAction {
    SyncAction(env.crypto.marshalIndex(info.index), info.value, info.version)
  }

  /** The random vector stands in front of the ciphertext. */
  function EncryptedContent(env: Env, keys: Keys, info: MutationInfo, iv: IV): Bytes {
    iv + env.crypto.encrypt(keys.valueEncryption, iv, env.crypto.marshalAction(ActionOf(env, info)))
  }

  function EncodedMutation(env: Env, keys: Keys, keyId: Bytes, info: MutationInfo, iv: IV): SyncdMutation {
    var content := EncryptedContent(env, keys, info, iv);
    SyncdMutation(SET, env.crypto.hmac256(keys.index, env.crypto.marshalIndex(info.index)),
                  content + ContentMAC(env, SET, content, keyId, keys.valueMAC), keyId)
  }

  function EncodedMutations(env: Env, keys: Keys, keyId: Bytes, infos: seq<MutationInfo>, ivs: seq<IV>)
    : (ms: seq<SyncdMutation>)
    requires |ivs| == |infos|
    ensures |ms| == |infos|
  {
    seq(|infos|, i requires 0 <= i < |infos| => EncodedMutation(env, keys, keyId, infos[i], ivs[i]))
  }

  /** The sender looks only at the store. */
  function SenderLookup(stored: MACs, unreadable: set<Bytes>): (Bytes, nat) -> Lookup {
    (index: Bytes, n: nat) => StoreLookup(stored, unreadable, index)
  }

  function SenderDelta(ms: seq<SyncdMutation>, stored: MACs, unreadable: set<Bytes>): Result<Delta, AppStateError> {
    DeltaOf(ms, SenderLookup(stored, unreadable), |ms|)
  }

  function NextVersion(v: uint64): uint64 {
    (v + 1) % 0x1_0000_0000_0000_0000
  }

  /** The patch that goes out. It carries no version; the server labels it. */
  function SealPatch(env: Env, keys: Keys, keyId: Bytes, held: Held, ms: seq<SyncdMutation>): Patch {
    var snapshotMAC := env.crypto.hmac256(keys.snapshotMAC, SnapshotPreimage(held.hash, held.version, env.name));
    Patch(0, keyId, snapshotMAC,
          env.crypto.hmac256(keys.patchMAC, PatchPreimage(snapshotMAC, ValueMACs(ms), held.version, env.name)), ms)
  }

  function EncodedPatch(env: Env, stored: MACs, keyId: Bytes, held: Held, infos: seq<MutationInfo>, ivs: seq<IV>)
    : Result<Patch, AppStateError>
    requires |held.hash| == HASH_SIZE && |ivs| == |infos|
  {
    match KeyOf(env, keyId)
    case Err(e) => Err(e)
    case Ok(keys) =>
      var ms := EncodedMutations(env, keys, keyId, infos, ivs);
      match SenderDelta(ms, stored, env.unreadable)
      case Err(e) => Err(e)
      case Ok(d) => Ok(SealPatch(env, keys, keyId, Held(NextVersion(held.version), UpdatedHash(env, held.hash, d)), ms))
  }

  /** `state` is the caller's copy; the source changes only its own. */
  method EncodePatch(env: Env, stored: MACs, keyId: Bytes, state: HashState, infos: seq<MutationInfo>, ivs: seq<IV>)
    returns (r: Result<Patch, AppStateError>)
    requires state.Valid() && |ivs| == |infos|
    ensures r == EncodedPatch(env, stored, keyId, Held(state.version, state.hash[..]), infos, ivs)
  {
    hide EncodedMutation, SealPatch, DeltaOf, Hashed;
    var keys := KeyOf(env, keyId);
    if keys.Err? { return Err(keys.error); }
    var mutations: seq<SyncdMutation> := [];
    for i := 0 to |infos|
      invariant mutations == EncodedMutations(env, keys.value, keyId, infos, ivs)[..i]
    {
      mutations := mutations + [EncodedMutation(env, keys.value, keyId, infos[i], ivs[i])];
    }
    assert mutations == EncodedMutations(env, keys.value, keyId, infos, ivs);
    var current := new HashState(state.version, state.hash[..]);
    var warn := current.UpdateHash(env.crypto.expand, mutations, SenderLookup(stored, env.unreadable));
    if warn.Err? { return Err(warn.error); }
    current.version := NextVersion(current.version);
    return Ok(SealPatch(env, keys.value, keyId, Held(current.version, current.hash[..]), mutations));
  }

  // ---- acceptance

  /** The version the server gives the next patch; it is a number of 64 bits. */
  function Following(version: uint64): (next: uint64)
    ensures version < 0xFFFF_FFFF_FFFF_FFFF ==> next == version + 1
    ensures version == 0xFFFF_FFFF_FFFF_FFFF ==> next == 0
  {
    if version == 0xFFFF_FFFF_FFFF_FFFF then 0 else version + 1
  }

  lemma SenderCountsAlike(version: uint64)
    ensures NextVersion(version) == Following(version)
  {}

  /** The patch as the server hands it on: it alone sets the version. */
  function Labelled(p: Patch, current: uint64): (labelled: Patch)
    ensures labelled == Patch(Following(current), p.keyId, p.snapshotMAC, p.patchMAC, p.mutations)
  {
    p.(version := Following(current))
  }

  /** Decryption undoes encryption, and the parsers undo the printers. */
  ghost predicate Inverses(c: Crypto) {
    && (forall k, iv, p :: c.decrypt(k, iv, c.encrypt(k, iv, p)) == Some(p))
    && (forall a :: c.parseAction(c.marshalAction(a)) == Some(a))
    && (forall i :: c.parseIndex(c.marshalIndex(i)) == Some(i))
  }

  /** What a change decodes to at the receiver. */
  ghost predicate Carries(m: Mutation, info: MutationInfo) {
    m.op.SET? && m.index == info.index && m.version == info.version && m.action == info.value
  }

  lemma EncodedMutationDecodes(env: Env, keys: Keys, keyId: Bytes, info: MutationInfo, iv: IV)
    requires Inverses(env.crypto) && KeyOf(env, keyId) == Ok(keys)
    ensures
      var m := EncodedMutation(env, keys, keyId, info, iv);
      HasMAC(m) && DecodeOne(env, m, true).Ok? && Carries(DecodeOne(env, m, true).value, info)
  {
    hide ContentPreimage;
    var content := EncryptedContent(env, keys, info, iv);
    var mac := ContentMAC(env, SET, content, keyId, keys.valueMAC);
    var m := EncodedMutation(env, keys, keyId, info, iv);
    assert |mac| == MAC_SIZE;
    assert m.value[|m.value| - MAC_SIZE..] == mac && m.value[..|m.value| - MAC_SIZE] == content;
    var ciphertext := env.crypto.encrypt(keys.valueEncryption, iv, env.crypto.marshalAction(ActionOf(env, info)));
    assert content[..IV_SIZE] == iv && content[IV_SIZE..] == ciphertext;
  }

  ghost predicate DecodesTo(env: Env, m: SyncdMutation, info: MutationInfo) {
    DecodeOne(env, m, true).Ok? && Carries(DecodeOne(env, m, true).value, info)
  }

  lemma {:induction false} DecodeAllOf(env: Env, ms: seq<SyncdMutation>, infos: seq<MutationInfo>)
    requires |ms| == |infos| && forall i | 0 <= i < |ms| :: DecodesTo(env, ms[i], infos[i])
    ensures
      var r := DecodeAll(env, ms, true);
      r.Ok? && |r.value| == |ms| && forall i | 0 <= i < |ms| :: Carries(r.value[i], infos[i])
  {
    if ms != [] {
      hide DecodesTo, DecodeAll, Carries;
      var p, q := Init(ms), Init(infos);
      forall i | 0 <= i < |p| ensures DecodesTo(env, p[i], q[i]) {
        assert DecodesTo(env, ms[i], infos[i]);
      }
      DecodeAllOf(env, p, q);
      assert DecodesTo(env, ms[|p|], infos[|p|]);
      DecodeLast(env, ms, infos[|p|]);
    }
  }

  lemma DecodeLast(env: Env, ms: seq<SyncdMutation>, info: MutationInfo)
    requires ms != [] && DecodeAll(env, Init(ms), true).Ok? && DecodesTo(env, Last(ms), info)
    ensures
      var r := DecodeAll(env, ms, true);
      r.Ok? && r.value == DecodeAll(env, Init(ms), true).value + [DecodeOne(env, Last(ms), true).value]
      && Carries(DecodeOne(env, Last(ms), true).value, info)
  {
    hide DecodeOne, Carries;
  }

  lemma EncodedMutationsDecode(env: Env, keys: Keys, keyId: Bytes, infos: seq<MutationInfo>, ivs: seq<IV>)
    requires |ivs| == |infos| && Inverses(env.crypto) && KeyOf(env, keyId) == Ok(keys)
    ensures
      var ms := EncodedMutations(env, keys, keyId, infos, ivs);
      var r := DecodeAll(env, ms, true);
      && (forall m <- ms :: HasMAC(m))
      && r.Ok? && |r.value| == |infos| && forall i | 0 <= i < |infos| :: Carries(r.value[i], infos[i])
  {
    hide EncodedMutation, Carries, DecodeOne, Inverses, KeyOf, DecodeAll, HasMAC;
    var ms := EncodedMutations(env, keys, keyId, infos, ivs);
    forall i | 0 <= i < |ms|
      ensures HasMAC(ms[i]) && DecodesTo(env, ms[i], infos[i])
    {
      EncodedMutationDecodes(env, keys, keyId, infos[i], ivs[i]);
    }
    DecodeAllOf(env, ms, infos);
  }

  predicate DistinctSoFar(ms: seq<SyncdMutation>, n: nat)
    requires n <= |ms|
  {
    forall i, j | 0 <= i < j < n :: ms[i].index != ms[j].index
  }

  /** With no index repeated the receiver, too, ends up at the store. */
  lemma {:induction false} LookupReachesStore(ms: seq<SyncdMutation>, stored: MACs, unreadable: set<Bytes>,
      index: Bytes, n: nat)
    requires n <= |ms| && forall i | 0 <= i < n :: ms[i].index != index
    ensures LookupBefore(ms, stored, unreadable, index, n) == StoreLookup(stored, unreadable, index)
  {
    if n > 0 {
      LookupReachesStore(ms, stored, unreadable, index, n - 1);
    }
  }

  lemma {:induction false} DeltasAgree(ms: seq<SyncdMutation>, stored: MACs, unreadable: set<Bytes>, n: nat)
    requires n <= |ms| && DistinctSoFar(ms, n)
    ensures DeltaOf(ms, PatchLookup(ms, stored, unreadable), n) == DeltaOf(ms, SenderLookup(stored, unreadable), n)
  {
    if n > 0 {
      hide StepDelta;
      DeltasAgree(ms, stored, unreadable, n - 1);
      LookupReachesStore(ms, stored, unreadable, ms[n - 1].index, n - 1);
    }
  }

  /** A receiver in the sender's state accepts an encoded patch, once it is labelled with the next version,
      if both compute one hash; it then decodes exactly the changes that went in. */
  lemma AcceptedIfHashesAgree(env: Env, st: Stored, held: Held, keyId: Bytes, infos: seq<MutationInfo>, ivs: seq<IV>)
    requires Inverses(env.crypto) && |held.hash| == HASH_SIZE && |ivs| == |infos|
    requires EncodedPatch(env, st.macs, keyId, held, infos, ivs).Ok?
    requires
      var ms := EncodedPatch(env, st.macs, keyId, held, infos, ivs).value.mutations;
      var sent, seen := SenderDelta(ms, st.macs, env.unreadable), PatchDelta(ms, st.macs, env.unreadable);
      seen.Ok? && UpdatedHash(env, held.hash, sent.value) == UpdatedHash(env, held.hash, seen.value)
    ensures
      var patch := Labelled(EncodedPatch(env, st.macs, keyId, held, infos, ivs).value, held.version);
      var r := ApplyPatch(env, st, held, patch, true);
      && r.Ok?
      && |r.value.mutations| == |infos|
      && forall i | 0 <= i < |infos| :: Carries(r.value.mutations[i], infos[i])
  {
    SenderCountsAlike(held.version);
    hide NextVersion, Following;
    hide Hashed, EncodedMutation, Carries, DecodeOne, DeltaOf, Inverses, SnapshotPreimage, PatchPreimage, DecodeAll;
    var keys := KeyOf(env, keyId).value;
    var ms := EncodedMutations(env, keys, keyId, infos, ivs);
    EncodedMutationsDecode(env, keys, keyId, infos, ivs);
    assert ms == EncodedPatch(env, st.macs, keyId, held, infos, ivs).value.mutations;
  }

  /** Patches with pairwise distinct indexes are accepted. */
  lemma EncodedPatchAccepted(env: Env, st: Stored, held: Held, keyId: Bytes, infos: seq<MutationInfo>, ivs: seq<IV>)
    requires Inverses(env.crypto) && |held.hash| == HASH_SIZE && |ivs| == |infos|
    requires EncodedPatch(env, st.macs, keyId, held, infos, ivs).Ok?
    requires
      var ms := EncodedPatch(env, st.macs, keyId, held, infos, ivs).value.mutations;
      DistinctSoFar(ms, |ms|)
    ensures
      var patch := Labelled(EncodedPatch(env, st.macs, keyId, held, infos, ivs).value, held.version);
      var r := ApplyPatch(env, st, held, patch, true);
      && r.Ok?
      && |r.value.mutations| == |infos|
      && forall i | 0 <= i < |infos| :: Carries(r.value.mutations[i], infos[i])
  {
    hide Hashed, EncodedMutation, Carries, DeltaOf, Inverses, ApplyPatch;
    var ms := EncodedPatch(env, st.macs, keyId, held, infos, ivs).value.mutations;
    DeltasAgree(ms, st.macs, env.unreadable, |ms|);
    AcceptedIfHashesAgree(env, st, held, keyId, infos, ivs);
  }

  // ---- when the two hashes agree

  /** As long as the two snapshot MACs at stake do not collide, a labelled patch is accepted only if the hashes
      agree. */
  lemma AcceptedExactly(env: Env, st: Stored, held: Held, keyId: Bytes, infos: seq<MutationInfo>, ivs: seq<IV>)
    requires Inverses(env.crypto) && |held.hash| == HASH_SIZE && |ivs| == |infos|
    requires EncodedPatch(env, st.macs, keyId, held, infos, ivs).Ok?
    requires
      var ms := EncodedPatch(env, st.macs, keyId, held, infos, ivs).value.mutations;
      PatchDelta(ms, st.macs, env.unreadable).Ok?
    requires
      var ms := EncodedPatch(env, st.macs, keyId, held, infos, ivs).value.mutations;
      var sent, seen := SenderDelta(ms, st.macs, env.unreadable).value, PatchDelta(ms, st.macs, env.unreadable).value;
      NoCollision(env, KeyOf(env, keyId).value, Following(held.version),
        UpdatedHash(env, held.hash, sent), UpdatedHash(env, held.hash, seen))
    ensures
      var patch := Labelled(EncodedPatch(env, st.macs, keyId, held, infos, ivs).value, held.version);
      var sent, seen := SenderDelta(patch.mutations, st.macs, env.unreadable).value,
          PatchDelta(patch.mutations, st.macs, env.unreadable).value;
      ApplyPatch(env, st, held, patch, true).Ok?
      <==> UpdatedHash(env, held.hash, sent) == UpdatedHash(env, held.hash, seen)
  {
    SenderCountsAlike(held.version);
    hide NextVersion, Following;
    hide Hashed, EncodedMutation, Carries, DeltaOf, Inverses, SnapshotPreimage, PatchPreimage, DecodeAll, CheckPatchMAC;
    var ms := EncodedPatch(env, st.macs, keyId, held, infos, ivs).value.mutations;
    var sent, seen := SenderDelta(ms, st.macs, env.unreadable).value, PatchDelta(ms, st.macs, env.unreadable).value;
    if UpdatedHash(env, held.hash, sent) == UpdatedHash(env, held.hash, seen) {
      AcceptedIfHashesAgree(env, st, held, keyId, infos, ivs);
    } else {
      var v := Following(held.version);
      if SnapshotPreimage(UpdatedHash(env, held.hash, sent), v, env.name)
          == SnapshotPreimage(UpdatedHash(env, held.hash, seen), v, env.name) {
        SnapshotPreimageInjective(UpdatedHash(env, held.hash, sent), v, env.name, UpdatedHash(env, held.hash, seen),
            v, env.name);
      }
    }
  }

  ghost predicate NoCollision(env: Env, keys: Keys, version: uint64, h1: Bytes, h2: Bytes) {
    env.crypto.hmac256(keys.snapshotMAC, SnapshotPreimage(h1, version, env.name))
    == env.crypto.hmac256(keys.snapshotMAC, SnapshotPreimage(h2, version, env.name))
    ==> SnapshotPreimage(h1, version, env.name) == SnapshotPreimage(h2, version, env.name)
  }

  // ---- which patches make the hashes agree

  /** The value MACs of the patch. */
  function PatchMACs(ms: seq<SyncdMutation>): set<Bytes> {
    set m | m in ms :: ValueMAC(m)
  }

  /** The stored value MACs of the indexes it touches. */
  function StoredMACs(ms: seq<SyncdMutation>, stored: MACs): set<Bytes> {
    set m | m in ms && m.index in stored :: stored[m.index]
  }

  /** No value MAC of the patch repeats one stored for its indexes. */
  predicate FreshMACs(ms: seq<SyncdMutation>, stored: MACs) {
    PatchMACs(ms) !! StoredMACs(ms, stored)
  }

  predicate Readable(ms: seq<SyncdMutation>, unreadable: set<Bytes>) {
    forall m <- ms :: HasMAC(m) && m.index !in unreadable
  }

  lemma {:induction false} LookupFinds(ms: seq<SyncdMutation>, stored: MACs, unreadable: set<Bytes>, index: Bytes,
      n: nat)
    requires n <= |ms| && index !in unreadable && Readable(ms, unreadable)
    ensures LookupBefore(ms, stored, unreadable, index, n).Ok?
    ensures forall i | 0 <= i < n && ms[i].index == index ::
      var found := LookupBefore(ms, stored, unreadable, index, n).value; found.Some? && found.value in PatchMACs(ms)
  {
    if n > 0 {
      hide ValueMAC;
      assert ms[n - 1] in ms;
      LookupFinds(ms, stored, unreadable, index, n - 1);
    }
  }

  /** The sender removes only stored MACs. */
  lemma {:induction false} SentRemovals(ms: seq<SyncdMutation>, stored: MACs, unreadable: set<Bytes>, n: nat)
    requires n <= |ms| && AllSets(ms) && Readable(ms, unreadable)
    ensures
      var sent := DeltaOf(ms, SenderLookup(stored, unreadable), n);
      sent.Ok? && |sent.value.removed| <= n && forall x <- sent.value.removed :: x in StoredMACs(ms, stored)
  {
    if n > 0 {
      hide ValueMAC, DeltaOf, HasMAC;
      var m := ms[n - 1];
      assert m in ms;
      SentRemovals(ms, stored, unreadable, n - 1);
      StepRemoves(ms, SenderLookup(stored, unreadable), n);
      assert m.index in stored ==> stored[m.index] in StoredMACs(ms, stored);
      hide StoredMACs, AllSets, Readable;
    }
  }

  /** Once an index repeats the receiver removes a value MAC of the patch. */
  lemma {:induction false} SeenRemovals(ms: seq<SyncdMutation>, stored: MACs, unreadable: set<Bytes>, n: nat)
    requires n <= |ms| && AllSets(ms) && Readable(ms, unreadable)
    ensures
      var sent := DeltaOf(ms, SenderLookup(stored, unreadable), n);
      var seen := DeltaOf(ms, PatchLookup(ms, stored, unreadable), n);
      && sent.Ok? && seen.Ok? && seen.value.added == sent.value.added && |seen.value.removed| <= n
      && (!DistinctSoFar(ms, n) ==> exists x <- seen.value.removed :: x in PatchMACs(ms))
  {
    if n > 0 {
      hide ValueMAC, LookupBefore, PatchMACs, DeltaOf, DistinctSoFar, HasMAC;
      var m := ms[n - 1];
      assert m in ms;
      SeenRemovals(ms, stored, unreadable, n - 1);
      LookupFinds(ms, stored, unreadable, m.index, n - 1);
      StepRemoves(ms, SenderLookup(stored, unreadable), n);
      StepRemoves(ms, PatchLookup(ms, stored, unreadable), n);
      DistinctStep(ms, n);
      hide AllSets, Readable;
    }
  }

  lemma StepRemoves(ms: seq<SyncdMutation>, prev: (Bytes, nat) -> Lookup, n: nat)
    requires 0 < n <= |ms| && ms[n - 1].op.SET? && HasMAC(ms[n - 1])
    requires DeltaOf(ms, prev, n - 1).Ok? && prev(ms[n - 1].index, n - 1).Ok?
    ensures
      var before, now, found := DeltaOf(ms, prev, n - 1).value, DeltaOf(ms, prev, n),
          prev(ms[n - 1].index, n - 1).value;
      && now.Ok? && now.value.added == before.added + [ValueMAC(ms[n - 1])]
      && now.value.removed == before.removed + if found.Some? then [found.value] else []
  {
    hide ValueMAC;
  }

  lemma DistinctStep(ms: seq<SyncdMutation>, n: nat)
    requires 0 < n <= |ms|
    ensures DistinctSoFar(ms, n)
       <==> DistinctSoFar(ms, n - 1) && !(exists i :: 0 <= i < n - 1 && ms[i].index == ms[n - 1].index)
  {}

  /** Sender and receiver subtract the same MACs, in some order, exactly if no index repeats. */
  lemma RemovalsAgreeExactly(ms: seq<SyncdMutation>, stored: MACs, unreadable: set<Bytes>)
    requires AllSets(ms) && Readable(ms, unreadable) && FreshMACs(ms, stored)
    ensures SenderDelta(ms, stored, unreadable).Ok? && PatchDelta(ms, stored, unreadable).Ok?
    ensures
      var sent, seen := SenderDelta(ms, stored, unreadable).value, PatchDelta(ms, stored, unreadable).value;
      && seen.added == sent.added && |seen.removed| <= |ms| && |sent.removed| <= |ms|
      && (multiset(seen.removed) == multiset(sent.removed) <==> DistinctSoFar(ms, |ms|))
  {
    hide DeltaOf, DistinctSoFar, PatchMACs, StoredMACs, AllSets, Readable;
    SentRemovals(ms, stored, unreadable, |ms|);
    SeenRemovals(ms, stored, unreadable, |ms|);
    var sent, seen := SenderDelta(ms, stored, unreadable).value, PatchDelta(ms, stored, unreadable).value;
    if DistinctSoFar(ms, |ms|) {
      DeltasAgree(ms, stored, unreadable, |ms|);
    } else {
      var x :| x in seen.removed && x in PatchMACs(ms);
      assert x in multiset(seen.removed) && x !in multiset(sent.removed);
    }
  }

  /** On any store, sender and receiver compute one hash under every expansion exactly if no index repeats, as long
      as the patch brings fresh value MACs. */
  lemma HashesAgreeExactly(ms: seq<SyncdMutation>, stored: MACs, unreadable: set<Bytes>, h: Bytes)
    requires |ms| < MODULUS && AllSets(ms) && |h| == HASH_SIZE
    requires Readable(ms, unreadable) && FreshMACs(ms, stored)
    ensures SenderDelta(ms, stored, unreadable).Ok? && PatchDelta(ms, stored, unreadable).Ok?
    ensures
      var sent, seen := SenderDelta(ms, stored, unreadable).value, PatchDelta(ms, stored, unreadable).value;
      && seen.added == sent.added
      && (Indistinguishable(h, seen.removed, sent.removed, sent.added) <==> DistinctSoFar(ms, |ms|))
  {
    hide Indistinguishable, DeltaOf, DistinctSoFar, FreshMACs, AllSets, Readable;
    RemovalsAgreeExactly(ms, stored, unreadable);
    var sent, seen := SenderDelta(ms, stored, unreadable).value, PatchDelta(ms, stored, unreadable).value;
    SeparatesMultisets(h, seen.removed, sent.removed, sent.added);
  }

  /** In particular on indexes that are new to the store, whatever their value MACs. */
  lemma NewIndexesAgreeExactly(ms: seq<SyncdMutation>, stored: MACs, unreadable: set<Bytes>, h: Bytes)
    requires |ms| < MODULUS && AllSets(ms) && |h| == HASH_SIZE
    requires Readable(ms, unreadable) && forall m <- ms :: m.index !in stored
    ensures SenderDelta(ms, stored, unreadable).Ok? && PatchDelta(ms, stored, unreadable).Ok?
    ensures
      var sent, seen := SenderDelta(ms, stored, unreadable).value, PatchDelta(ms, stored, unreadable).value;
      Indistinguishable(h, seen.removed, sent.removed, sent.added) <==> DistinctSoFar(ms, |ms|)
  {
    assert StoredMACs(ms, stored) == {};
    hide PatchMACs, StoredMACs, Indistinguishable, DeltaOf, DistinctSoFar, AllSets, Readable;
    HashesAgreeExactly(ms, stored, unreadable, h);
  }

  // ---- when the receiver accepts

  lemma {:induction false} SentIsReadable(ms: seq<SyncdMutation>, stored: MACs, unreadable: set<Bytes>, n: nat)
    requires n <= |ms| && DeltaOf(ms, SenderLookup(stored, unreadable), n).Ok?
    ensures forall i | 0 <= i < n :: ms[i].index !in unreadable
  {
    if n > 0 {
      hide StepDelta, HasMAC;
      SentIsReadable(ms, stored, unreadable, n - 1);
    }
  }

  /** The additive hash tells the two lists of removals apart unless one is a permutation of the other, and the
      snapshot MACs tell the two hashes apart. */
  ghost predicate NothingCollides(env: Env, keyId: Bytes, held: Held, sent: Delta, seen: Delta)
    requires |held.hash| == HASH_SIZE && keyId in env.keys
  {
    var h1, h2 := UpdatedHash(env, held.hash, sent), UpdatedHash(env, held.hash, seen);
    && (h1 == h2 ==> multiset(sent.removed) == multiset(seen.removed))
    && NoCollision(env, env.keys[keyId], Following(held.version), h1, h2)
  }

  lemma EncodedIsReadable(env: Env, stored: MACs, keyId: Bytes, held: Held, infos: seq<MutationInfo>, ivs: seq<IV>)
    requires |held.hash| == HASH_SIZE && |ivs| == |infos|
    requires EncodedPatch(env, stored, keyId, held, infos, ivs).Ok?
    ensures
      var ms := EncodedPatch(env, stored, keyId, held, infos, ivs).value.mutations;
      keyId in env.keys && |ms| == |infos| && AllSets(ms) && Readable(ms, env.unreadable)
  {
    hide EncryptedContent, DeltaOf;
    var keys := env.keys[keyId];
    var ms := EncodedMutations(env, keys, keyId, infos, ivs);
    SentIsReadable(ms, stored, env.unreadable, |ms|);
    forall m <- ms
      ensures m.op.SET? && HasMAC(m) && m.index !in env.unreadable
    {
      var i :| 0 <= i < |ms| && ms[i] == m;
      assert m == EncodedMutation(env, keys, keyId, infos[i], ivs[i]);
    }
  }

  /** Encoding fails exactly on an unknown key or an index whose lookup the database refuses. */
  lemma EncodesExactly(env: Env, stored: MACs, keyId: Bytes, held: Held, infos: seq<MutationInfo>, ivs: seq<IV>)
    requires |held.hash| == HASH_SIZE && |ivs| == |infos|
    ensures EncodedPatch(env, stored, keyId, held, infos, ivs).Ok?
       <==> && keyId in env.keys
            && forall info <- infos ::
                 env.crypto.hmac256(env.keys[keyId].index, env.crypto.marshalIndex(info.index)) !in env.unreadable
  {
    hide EncodedMutations, SealPatch, SenderDelta;
    if keyId in env.keys {
      var keys := env.keys[keyId];
      var ms := EncodedMutations(env, keys, keyId, infos, ivs);
      EncodedAre(env, keys, keyId, infos, ivs);
      SendsExactly(ms, stored, env.unreadable);
      forall i | 0 <= i < |ms|
        ensures infos[i] in infos && ms[i] in ms
      {}
      hide AllSets, HasMAC;
    }
  }

  /** The patch names its key and leaves the version to the server. */
  lemma PatchUnlabelled(env: Env, stored: MACs, keyId: Bytes, held: Held, infos: seq<MutationInfo>, ivs: seq<IV>)
    requires |held.hash| == HASH_SIZE && |ivs| == |infos|
    ensures
      var p := EncodedPatch(env, stored, keyId, held, infos, ivs);
      p.Ok? ==> p.value.version == 0 && p.value.keyId == keyId && |p.value.mutations| == |infos|
  {
    hide EncodedMutation, SenderDelta, PatchPreimage, SnapshotPreimage, UpdatedHash, KeyOf;
  }

  lemma EncodedAre(env: Env, keys: Keys, keyId: Bytes, infos: seq<MutationInfo>, ivs: seq<IV>)
    requires |ivs| == |infos|
    ensures
      var ms := EncodedMutations(env, keys, keyId, infos, ivs);
      && AllSets(ms) && (forall m <- ms :: HasMAC(m))
      && forall i | 0 <= i < |ms| ::
           ms[i].index == env.crypto.hmac256(keys.index, env.crypto.marshalIndex(infos[i].index))
  {
    hide EncryptedContent;
  }

  lemma SendsExactly(ms: seq<SyncdMutation>, stored: MACs, unreadable: set<Bytes>)
    requires AllSets(ms) && forall m <- ms :: HasMAC(m)
    ensures SenderDelta(ms, stored, unreadable).Ok? <==> forall m <- ms :: m.index !in unreadable
  {
    hide DeltaOf, HasMAC;
    if SenderDelta(ms, stored, unreadable).Ok? {
      SentIsReadable(ms, stored, unreadable, |ms|);
    }
    if forall m <- ms :: m.index !in unreadable {
      SentRemovals(ms, stored, unreadable, |ms|);
    }
  }

  /** A receiver in the sender's state accepts an encoded patch with fresh value MACs, labelled with the next version,
      if and only if no index repeats in it, as long as the hash functions do not collide on it. */
  lemma AcceptedUnlessRepeated(env: Env, st: Stored, held: Held, keyId: Bytes, infos: seq<MutationInfo>, ivs: seq<IV>)
    requires Inverses(env.crypto) && |held.hash| == HASH_SIZE && |ivs| == |infos|
    requires EncodedPatch(env, st.macs, keyId, held, infos, ivs).Ok?
    requires FreshMACs(EncodedPatch(env, st.macs, keyId, held, infos, ivs).value.mutations, st.macs)
    requires keyId in env.keys ==>
      var ms := EncodedPatch(env, st.macs, keyId, held, infos, ivs).value.mutations;
      var sent, seen := SenderDelta(ms, st.macs, env.unreadable), PatchDelta(ms, st.macs, env.unreadable);
      sent.Ok? && seen.Ok? ==> NothingCollides(env, keyId, held, sent.value, seen.value)
    ensures
      var patch := Labelled(EncodedPatch(env, st.macs, keyId, held, infos, ivs).value, held.version);
      ApplyPatch(env, st, held, patch, true).Ok? <==> DistinctSoFar(patch.mutations, |patch.mutations|)
  {
    hide Hashed, EncodedPatch, Inverses, ApplyPatch, SenderDelta, PatchDelta, DistinctSoFar, FreshMACs, NoCollision;
    hide AllSets, Readable;
    var patch := EncodedPatch(env, st.macs, keyId, held, infos, ivs).value;
    var ms := patch.mutations;
    EncodedIsReadable(env, st.macs, keyId, held, infos, ivs);
    RemovalsAgreeExactly(ms, st.macs, env.unreadable);
    AcceptedExactly(env, st, held, keyId, infos, ivs);
    if DistinctSoFar(ms, |ms|) {
      EncodedPatchAccepted(env, st, held, keyId, infos, ivs);
    }
  }
}
