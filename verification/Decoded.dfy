/** What decoding and applying app state yields, and what was checked on the way, spelled out. */
module Decoded {
  import opened ByteStrings
  import opened Collections
  import opened LTHash
  import opened HashStates
  import opened Integrity
  import opened AppState

  // ---- one mutation

  /** The bytes authenticated for a value: operation, key ID, ciphertext and the length of what stands before it. */
  lemma ContentLayout(op: Operation, data: Bytes, keyId: Bytes)
    ensures
      var length := BigEndian((|keyId| + 1) % 0x1_0000_0000_0000_0000, 8);
      ContentPreimage(op, data, keyId) == [if op == SET then 1 else 2] + keyId + data + length
  {
    hide BigEndian;
  }

  lemma SnapshotLayout(hash: Bytes, version: uint64, name: Bytes)
    ensures SnapshotPreimage(hash, version, name) == hash + BigEndian(version, 8) + name
  {}

  lemma PatchLayout(snapshotMAC: Bytes, macs: seq<Bytes>, version: uint64, name: Bytes)
    ensures PatchPreimage(snapshotMAC, macs, version, name) == snapshotMAC + Concat(macs) + BigEndian(version, 8) + name
  {}

  /** Key known, content MAC right, decrypted, index MAC right: what a mutation must satisfy to decode to `x`. */
  ghost predicate Decodes(env: Env, m: SyncdMutation, validateMACs: bool, x: Mutation) {
    var n := |m.value|;
    && m.keyId in env.keys && n >= 16 + 32
    && var keys, content, mac := env.keys[m.keyId], m.value[..n - 32], m.value[n - 32..];
    && (validateMACs ==> env.crypto.hmac512(keys.valueMAC, ContentPreimage(m.op, content, m.keyId))[..32] == mac)
    && Opens(env, m, keys, content, validateMACs, x) && x.valueMAC == mac
  }

  /** The ciphertext holds an action whose index has the right MAC; `x` is that action under `m`'s operation. */
  ghost predicate Opens(env: Env, m: SyncdMutation, keys: Keys, content: Bytes, validateMACs: bool, x: Mutation)
    requires |content| >= 16
  {
    var plaintext := env.crypto.decrypt(keys.valueEncryption, content[..16], content[16..]);
    && plaintext.Some?
    && var action := env.crypto.parseAction(plaintext.value);
    && action.Some?
    && (validateMACs ==> env.crypto.hmac256(keys.index, action.value.index) == m.index)
    && env.crypto.parseIndex(action.value.index) == Some(x.index)
    && x == Mutation(m.op, action.value.value, action.value.version, x.index, m.index, x.valueMAC)
  }

  lemma OpensExactly(env: Env, m: SyncdMutation, keys: Keys, content: Bytes, validateMACs: bool, x: Mutation)
    requires |content| >= 16
    ensures DecodeContent(env, m, keys, content, validateMACs) == Ok(x)
       <==> Opens(env, m, keys, content, validateMACs, x) && x.valueMAC == ValueMAC(m)
  {
    hide ValueMAC;
  }

  /** A mutation decodes exactly to what its authenticated content says, under its own operation and MACs. */
  lemma DecodedExactly(env: Env, m: SyncdMutation, validateMACs: bool, x: Mutation)
    ensures DecodeOne(env, m, validateMACs) == Ok(x) <==> Decodes(env, m, validateMACs, x)
  {
    hide ContentPreimage, Opens;
    var n := |m.value|;
    if n >= 32 {
      assert ValueMAC(m) == m.value[n - 32..];
    }
    if m.keyId in env.keys && n >= 48 {
      OpensExactly(env, m, env.keys[m.keyId], m.value[..n - 32], validateMACs, x);
      hide DecodeContent;
    }
  }

  lemma DecodedFields(env: Env, m: SyncdMutation, validateMACs: bool)
    ensures
      var r := DecodeOne(env, m, validateMACs);
      r.Ok? ==>
        && |m.value| >= 32 && r.value.valueMAC == m.value[|m.value| - 32..]
        && r.value.op == m.op && r.value.indexMAC == m.index
  {
    if DecodeOne(env, m, validateMACs).Ok? {
      DecodedExactly(env, m, validateMACs, DecodeOne(env, m, validateMACs).value);
    }
  }

  /** `decoded` is what each of `ms` decodes to, in order. */
  ghost predicate DecodesTo(env: Env, ms: seq<SyncdMutation>, validateMACs: bool, decoded: seq<Mutation>) {
    |decoded| == |ms| && forall i | 0 <= i < |ms| :: DecodeOne(env, ms[i], validateMACs) == Ok(decoded[i])
  }

  /** A list decodes to its mutations' decodings in order, and only if each of them decodes. */
  lemma {:induction false} AllDecodedExactly(env: Env, ms: seq<SyncdMutation>, validateMACs: bool,
                                             decoded: seq<Mutation>)
    ensures DecodeAll(env, ms, validateMACs) == Ok(decoded) <==> DecodesTo(env, ms, validateMACs, decoded)
    decreases |ms|
  {
    hide DecodeOne, DecodesTo;
    if ms == [] {
      NoneDecodes(env, validateMACs, decoded);
    } else {
      DecodesLast(env, ms, validateMACs, decoded);
      if decoded != [] {
        AllDecodedExactly(env, Init(ms), validateMACs, Init(decoded));
        assert forall r: seq<Mutation>, m: Mutation :: r + [m] == decoded ==> r == Init(decoded) && m == Last(decoded);
        assert decoded == Init(decoded) + [Last(decoded)];
      }
    }
  }

  lemma NoneDecodes(env: Env, validateMACs: bool, decoded: seq<Mutation>)
    ensures DecodesTo(env, [], validateMACs, decoded) <==> decoded == []
  {}

  lemma DecodesLast(env: Env, ms: seq<SyncdMutation>, validateMACs: bool, decoded: seq<Mutation>)
    requires ms != []
    ensures DecodesTo(env, ms, validateMACs, decoded)
       <==> decoded != [] && DecodesTo(env, Init(ms), validateMACs, Init(decoded))
            && DecodeOne(env, Last(ms), validateMACs) == Ok(Last(decoded))
  {
    hide DecodeOne;
    if |decoded| == |ms| {
      assert forall i | 0 <= i < |ms| - 1 :: Init(ms)[i] == ms[i] && Init(decoded)[i] == decoded[i];
    }
  }

  /** The operation and MACs of every mutation survive decoding a list. */
  lemma DecodedInOrder(env: Env, ms: seq<SyncdMutation>, validateMACs: bool)
    ensures
      var r := DecodeAll(env, ms, validateMACs);
      r.Ok? ==>
        && |r.value| == |ms|
        && forall i | 0 <= i < |ms| ::
             && |ms[i].value| >= 32
             && r.value[i].op == ms[i].op && r.value[i].indexMAC == ms[i].index
             && r.value[i].valueMAC == ms[i].value[|ms[i].value| - 32..]
  {
    hide DecodeOne, DecodeAll;
    var r := DecodeAll(env, ms, validateMACs);
    if r.Ok? {
      AllDecodedExactly(env, ms, validateMACs, r.value);
      forall i | 0 <= i < |ms|
        ensures DecodeOne(env, ms[i], validateMACs) == Ok(r.value[i]) && |ms[i].value| >= 32
        ensures r.value[i].op == ms[i].op && r.value[i].indexMAC == ms[i].index
        ensures r.value[i].valueMAC == ms[i].value[|ms[i].value| - 32..]
      {
        DecodedFields(env, ms[i], validateMACs);
      }
    }
  }

  // ---- the delta of a patch

  /** What the lookups of the first `n` mutations found, in order. */
  function Found(ms: seq<SyncdMutation>, prev: (Bytes, nat) -> Lookup, n: nat): seq<Bytes>
    requires n <= |ms|
  {
    if n == 0 then []
    else Found(ms, prev, n - 1) + match prev(ms[n - 1].index, n - 1) case Ok(Some(mac)) => [mac] case _ => []
  }

  /** The last 32 bytes of each value the first `n` mutations set, in order. */
  function Ends(ms: seq<SyncdMutation>, n: nat): seq<Bytes>
    requires n <= |ms|
  {
    if n == 0 then []
    else
      var m, e := ms[n - 1], Ends(ms, n - 1);
      if m.op == SET && |m.value| >= 32 then e + [m.value[|m.value| - 32..]] else e
  }

  /** A delta exists exactly if every lookup succeeds and every value set has a MAC; it subtracts what the lookups
      found, whatever the operation, and adds the MACs of the values set. */
  lemma {:induction false} DeltaExactly(ms: seq<SyncdMutation>, prev: (Bytes, nat) -> Lookup, n: nat)
    requires n <= |ms|
    ensures
      var d := DeltaOf(ms, prev, n);
      && (d.Ok? <==> forall i | 0 <= i < n :: prev(ms[i].index, i).Ok? && (ms[i].op == SET ==> |ms[i].value| >= 32))
      && (d.Ok? ==> d.value.removed == Found(ms, prev, n) && d.value.added == Ends(ms, n))
  {
    if n > 0 {
      DeltaExactly(ms, prev, n - 1);
    }
  }

  // ---- a snapshot, a patch

  /** A patch is accepted exactly if its delta is found, its key known, both its MACs right for its own version and the
      hash it leads to, and all its mutations decode; it then leaves that version, hash and map. */
  lemma PatchAcceptedExactly(env: Env, st: Stored, held: Held, p: Patch)
    requires |held.hash| == HASH_SIZE
    ensures
      var r, delta := ApplyPatch(env, st, held, p, true), PatchDelta(p.mutations, st.macs, env.unreadable);
      && (r.Ok? ==> delta.Ok?)
      && (delta.Ok? ==>
            var hash := Hashed(env.crypto.expand, held.hash, delta.value.removed, delta.value.added);
            var version := BigEndian(p.version, 8);
            var decoded := DecodeAll(env, p.mutations, true);
            && (r.Ok? <==>
                  && p.keyId in env.keys && decoded.Ok? && (forall m <- p.mutations :: |m.value| >= 32)
                  && env.crypto.hmac256(env.keys[p.keyId].snapshotMAC, hash + version + env.name) == p.snapshotMAC
                  && env.crypto.hmac256(env.keys[p.keyId].patchMAC,
                       p.snapshotMAC + Concat(ValueMACs(p.mutations)) + version + env.name) == p.patchMAC)
            && (r.Ok? ==> r.value == Applied(Stored(p.version, hash, StoredAfter(st.macs, p.mutations)),
                                             Held(p.version, hash), decoded.value)))
  {
    hide Hashed, DecodeAll, BigEndian, PatchDelta, StoredAfter, ValueMACs, SnapshotPreimage, PatchPreimage;
    var delta := PatchDelta(p.mutations, st.macs, env.unreadable);
    if delta.Ok? {
      SnapshotLayout(UpdatedHash(env, held.hash, delta.value), p.version, env.name);
      PatchLayout(p.snapshotMAC, ValueMACs(p.mutations), p.version, env.name);
      assert (exists m <- p.mutations :: !HasMAC(m)) <==> !(forall m <- p.mutations :: |m.value| >= 32);
    }
  }

  /** Likewise for a snapshot, whose records are set whatever operation they carry. */
  lemma SnapshotAcceptedExactly(env: Env, st: Stored, held: Held, ss: Snapshot)
    requires |held.hash| == HASH_SIZE
    ensures
      var ms := seq(|ss.records|, i requires 0 <= i < |ss.records| => ss.records[i].(op := SET));
      var r, delta := ApplySnapshot(env, st, held, ss, true), SnapshotDelta(ms);
      && (r.Ok? ==> delta.Ok?)
      && (delta.Ok? ==>
            var hash := Hashed(env.crypto.expand, held.hash, delta.value.removed, delta.value.added);
            var decoded := DecodeAll(env, ms, true);
            && (r.Ok? <==>
                  && ss.keyId in env.keys && decoded.Ok?
                  && env.crypto.hmac256(env.keys[ss.keyId].snapshotMAC,
                       hash + BigEndian(ss.version, 8) + env.name) == ss.mac)
            && (r.Ok? ==> r.value == Applied(Stored(ss.version, hash, StoredAfter(st.macs, ms)),
                                             Held(ss.version, hash), decoded.value)))
  {
    hide Hashed, DecodeAll, BigEndian, SnapshotDelta, StoredAfter, SnapshotPreimage;
    var ms := seq(|ss.records|, i requires 0 <= i < |ss.records| => ss.records[i].(op := SET));
    assert ms == AsSets(ss.records);
    if SnapshotDelta(ms).Ok? {
      SnapshotLayout(UpdatedHash(env, held.hash, SnapshotDelta(ms).value), ss.version, env.name);
    }
  }

  // ---- the stored map

  function Find(m: MACs, k: Bytes): Option<Bytes> {
    if k in m then Some(m[k]) else None
  }

  /** The last 32 bytes of the last value set for `k`. */
  function LastSet(ms: seq<SyncdMutation>, k: Bytes): Option<Bytes> {
    if ms == [] then None
    else if Last(ms).op == SET && Last(ms).index == k then Some(ValueMAC(Last(ms)))
    else LastSet(Init(ms), k)
  }

  lemma {:induction false} PutAdded(m: MACs, ms: seq<SyncdMutation>, k: Bytes)
    ensures Find(PutMACs(m, AddedMACs(ms)), k) == if LastSet(ms, k).Some? then LastSet(ms, k) else Find(m, k)
  {
    if ms != [] {
      hide ValueMAC, PutMACs;
      PutAdded(m, Init(ms), k);
      PutMACsSnoc(m, AddedMACs(Init(ms)), MutationMAC(Last(ms).index, ValueMAC(Last(ms))));
      assert Last(ms).op != SET ==> AddedMACs(ms) == AddedMACs(Init(ms));
    } else {
      assert PutMACs(m, []) == m;
    }
  }

  /** An index the patch sets ends up with the last value set, even if the patch removes it later; otherwise a removed
      index is gone and any other is as it was. */
  lemma StoredExactly(stored: MACs, ms: seq<SyncdMutation>, k: Bytes)
    ensures
      var removed := exists m <- ms :: m.op == REMOVE && m.index == k;
      Find(StoredAfter(stored, ms), k)
      == if LastSet(ms, k).Some? then LastSet(ms, k) else if removed then None else Find(stored, k)
  {
    hide PutMACs, AddedMACs, RemovedIndexes, LastSet;
    PutAdded(DeleteMACs(stored, RemovedIndexes(ms)), ms, k);
    RemovedIndexesAre(ms, k);
  }

  // ---- warnings

  /** A removal whose index was not found is warned about. */
  lemma {:induction false} WarningsExactly(ms: seq<SyncdMutation>, prev: (Bytes, nat) -> Lookup, n: nat, k: Bytes)
    requires n <= |ms| && DeltaOf(ms, prev, n).Ok?
    ensures k in DeltaOf(ms, prev, n).value.warnings
       <==> exists i :: 0 <= i < n && ms[i].op == REMOVE && ms[i].index == k && prev(k, i) == Ok(None)
  {
    if n > 0 {
      hide ValueMAC, HasMAC;
      WarningsExactly(ms, prev, n - 1, k);
    }
  }

  // ---- whole answers, whole fetches

  /** The mutations of an answer, the snapshot's records first. */
  function PatchMutations(patches: seq<Patch>): seq<SyncdMutation> {
    if patches == [] then [] else patches[0].mutations + PatchMutations(patches[1..])
  }

  function ListMutations(list: PatchList): seq<SyncdMutation> {
    (if list.snapshot.Some? then AsSets(list.snapshot.value.records) else []) + PatchMutations(list.patches)
  }

  function VersionAfter(list: PatchList, version: uint64): uint64 {
    if list.patches != [] then list.patches[|list.patches| - 1].version
    else if list.snapshot.Some? then list.snapshot.value.version
    else version
  }

  function MACsAfterPatches(patches: seq<Patch>, macs: MACs): MACs
    decreases patches
  {
    if patches == [] then macs else MACsAfterPatches(patches[1..], StoredAfter(macs, patches[0].mutations))
  }

  function MACsAfter(list: PatchList, macs: MACs): MACs {
    MACsAfterPatches(list.patches,
      if list.snapshot.Some? then StoredAfter(macs, AsSets(list.snapshot.value.records)) else macs)
  }

  lemma DecodeAllAppend(env: Env, a: seq<SyncdMutation>, b: seq<SyncdMutation>, x: seq<Mutation>, y: seq<Mutation>)
    requires DecodeAll(env, a, true) == Ok(x) && DecodeAll(env, b, true) == Ok(y)
    ensures DecodeAll(env, a + b, true) == Ok(x + y)
  {
    hide DecodeAll, DecodeOne;
    AllDecodedExactly(env, a, true, x);
    AllDecodedExactly(env, b, true, y);
    AllDecodedExactly(env, a + b, true, x + y);
  }

  lemma PatchApplied(env: Env, st: Stored, held: Held, p: Patch)
    requires |held.hash| == HASH_SIZE && ApplyPatch(env, st, held, p, true).Ok?
    ensures
      var a := ApplyPatch(env, st, held, p, true).value;
      && DecodeAll(env, p.mutations, true) == Ok(a.mutations)
      && a.stored.macs == StoredAfter(st.macs, p.mutations) && a.held.version == p.version
      && a.held == Held(a.stored.version, a.stored.hash)
  {
    hide DecodeAll, StoredAfter, Hashed, PatchDelta, CheckPatch;
  }

  lemma {:induction false} PatchesApplied(env: Env, st: Stored, held: Held, patches: seq<Patch>, acc: seq<Mutation>,
                                          before: seq<SyncdMutation>)
    requires |held.hash| == HASH_SIZE && DecodeAll(env, before, true) == Ok(acc)
    ensures
      var o := ApplyPatches(env, st, held, patches, acc, true);
      o.result.Ok? ==>
        && DecodeAll(env, before + PatchMutations(patches), true) == Ok(o.result.value.1)
        && o.stored.macs == MACsAfterPatches(patches, st.macs)
        && o.result.value.0.version == (if patches == [] then held.version else patches[|patches| - 1].version)
        && (patches != [] || held == Held(st.version, st.hash) ==>
              o.result.value.0 == Held(o.stored.version, o.stored.hash))
    decreases |patches|
  {
    hide DecodeAll, ApplyPatch, StoredAfter;
    if patches == [] {
      assert before + [] == before;
    } else {
      var p := patches[0];
      var r := ApplyPatch(env, st, held, p, true);
      if r.Ok? {
        PatchApplied(env, st, held, p);
        DecodeAllAppend(env, before, p.mutations, acc, r.value.mutations);
        PatchesApplied(env, r.value.stored, r.value.held, patches[1..], acc + r.value.mutations, before + p.mutations);
        assert before + p.mutations + PatchMutations(patches[1..]) == before + PatchMutations(patches);
      }
    }
  }

  /** An answer that is accepted is applied whole: all its mutations are returned, decoded and in order, the version is
      its last one, and the map went through all of it. */
  lemma ListApplied(env: Env, st: Stored, held: Held, list: PatchList)
    requires |held.hash| == HASH_SIZE
    ensures
      var o := ApplyList(env, st, held, list, true);
      o.result.Ok? ==>
        && DecodeAll(env, ListMutations(list), true) == Ok(o.result.value.1)
        && o.stored.macs == MACsAfter(list, st.macs)
        && o.result.value.0.version == VersionAfter(list, held.version)
  {
    hide *;
    if ApplyList(env, st, held, list, true).result.Ok? {
      match list.snapshot {
        case None => PatchesAlone(env, st, held, list);
        case Some(_) => SnapshotAndPatches(env, st, held, list);
      }
    }
  }

  lemma PatchesAlone(env: Env, st: Stored, held: Held, list: PatchList)
    requires |held.hash| == HASH_SIZE && list.snapshot.None? && ApplyList(env, st, held, list, true).result.Ok?
    ensures
      var o := ApplyList(env, st, held, list, true);
      && DecodeAll(env, ListMutations(list), true) == Ok(o.result.value.1)
      && o.stored.macs == MACsAfter(list, st.macs)
      && o.result.value.0.version == VersionAfter(list, held.version)
  {
    hide DecodeAll, ApplyPatches, ApplySnapshot, StoredAfter, AsSets, PatchMutations, MACsAfterPatches;
    JustPatches(env, st, held, list.patches);
    assert ListMutations(list) == PatchMutations(list.patches);
  }

  lemma JustPatches(env: Env, st: Stored, held: Held, patches: seq<Patch>)
    requires |held.hash| == HASH_SIZE && ApplyPatches(env, st, held, patches, [], true).result.Ok?
    ensures
      var o := ApplyPatches(env, st, held, patches, [], true);
      && DecodeAll(env, PatchMutations(patches), true) == Ok(o.result.value.1)
      && o.stored.macs == MACsAfterPatches(patches, st.macs)
      && o.result.value.0.version == (if patches == [] then held.version else patches[|patches| - 1].version)
  {
    NothingDecodes(env);
    hide *;
    assert [] + PatchMutations(patches) == PatchMutations(patches);
    PatchesApplied(env, st, held, patches, [], []);
  }

  lemma NothingDecodes(env: Env)
    ensures DecodeAll(env, [], true) == Ok([])
  {}

  lemma SnapshotAndPatches(env: Env, st: Stored, held: Held, list: PatchList)
    requires |held.hash| == HASH_SIZE && list.snapshot.Some? && ApplyList(env, st, held, list, true).result.Ok?
    ensures
      var o := ApplyList(env, st, held, list, true);
      && DecodeAll(env, ListMutations(list), true) == Ok(o.result.value.1)
      && o.stored.macs == MACsAfter(list, st.macs)
      && o.result.value.0.version == VersionAfter(list, held.version)
  {
    hide DecodeAll, ApplyPatches, ApplySnapshot, StoredAfter, AsSets, PatchMutations, MACsAfterPatches;
    var ss := list.snapshot.value;
    var a := ApplySnapshot(env, st, held, ss, true).value;
    SnapshotApplied(env, st, held, ss);
    PatchesApplied(env, a.stored, a.held, list.patches, a.mutations, AsSets(ss.records));
  }

  lemma SnapshotApplied(env: Env, st: Stored, held: Held, ss: Snapshot)
    requires |held.hash| == HASH_SIZE && ApplySnapshot(env, st, held, ss, true).Ok?
    ensures
      var a := ApplySnapshot(env, st, held, ss, true).value;
      && DecodeAll(env, AsSets(ss.records), true) == Ok(a.mutations)
      && a.stored.macs == StoredAfter(st.macs, AsSets(ss.records)) && a.held.version == ss.version
  {
    hide DecodeAll, StoredAfter, Hashed, SnapshotDelta, CheckSnapshotMAC, AsSets;
  }

  function MACsAfterLists(lists: seq<PatchList>, macs: MACs): MACs
    decreases lists
  {
    if lists == [] then macs else MACsAfterLists(lists[1..], MACsAfter(lists[0], macs))
  }

  function VersionAfterLists(lists: seq<PatchList>, version: uint64): uint64
    decreases lists
  {
    if lists == [] then version else VersionAfterLists(lists[1..], VersionAfter(lists[0], version))
  }

  /** A fetch ends well only at the first answer that says there are no more, with all answers up to it applied. */
  lemma {:induction false} FetchAppliesAll(env: Env, st: Stored, held: Held, responses: seq<PatchList>) returns (k: nat)
    requires |held.hash| == HASH_SIZE && FetchLoop(env, st, held, responses).result.Ok?
    ensures k < |responses| && !responses[k].hasMorePatches && forall i | 0 <= i < k :: responses[i].hasMorePatches
    ensures
      var o := FetchLoop(env, st, held, responses);
      && o.stored.macs == MACsAfterLists(responses[..k + 1], st.macs)
      && o.result.value.0.version == VersionAfterLists(responses[..k + 1], held.version)
    decreases |responses|
  {
    hide ApplyList, MACsAfter, VersionAfter;
    var o := ApplyList(env, st, held, responses[0], true);
    ListApplied(env, st, held, responses[0]);
    if responses[0].hasMorePatches {
      var j := FetchAppliesAll(env, o.stored, o.result.value.0, responses[1..]);
      k := j + 1;
      assert responses[..k + 1][1..] == responses[1..][..j + 1];
    } else {
      k := 0;
      assert responses[..1][1..] == [];
    }
  }
}
