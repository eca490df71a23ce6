/** Applying and producing app state patches (appstate/decode.go, appstate/encode.go and the fetch loop of
    appstate.go). */
module AppState {
  import opened ByteStrings
  import opened Collections
  import opened LTHash
  import opened HashStates
  import opened Integrity

  const IV_SIZE := 16

  datatype Keys = Keys(index: Bytes, valueEncryption: Bytes, valueMAC: Bytes, snapshotMAC: Bytes, patchMAC: Bytes)

  datatype SyncAction = SyncAction(index: Bytes, value: Bytes, version: int)

  /** The primitives the protocol is built on, left open. */
  datatype RawCrypto = Crypto(
    expand: Expander,
    hmac256: (Bytes, Bytes) -> Bytes,
    hmac512: (Bytes, Bytes) -> Bytes,
    encrypt: (Bytes, Bytes, Bytes) -> Bytes,
    decrypt: (Bytes, Bytes, Bytes) -> Option<Bytes>,
    marshalAction: SyncAction -> Bytes,
    parseAction: Bytes -> Option<SyncAction>,
    marshalIndex: seq<Bytes> -> Bytes,
    parseIndex: Bytes -> Option<seq<Bytes>>)

  ghost predicate DigestSizes(c: RawCrypto) {
    && (forall k, d :: |c.hmac256(k, d)| == MAC_SIZE)
    && (forall k, d :: |c.hmac512(k, d)| == 64)
  }

  type Crypto = c: RawCrypto | DigestSizes(c)
    witness Crypto((x: Bytes) => seq(HASH_SIZE, i => 0), (k, d) => seq(MAC_SIZE, i => 0), (k, d) => seq(64, i => 0),
                   (k, iv, p) => p, (k, iv, c) => Some(c), a => [], b => None, i => [], b => None)

  /** A processor's surroundings: keys it can find and indexes whose lookup the database refuses. */
  datatype Env = Env(crypto: Crypto, name: Bytes, keys: map<Bytes, Keys>, unreadable: set<Bytes>)

  datatype Mutation = Mutation(op: Operation, action: Bytes, version: int, index: seq<Bytes>, indexMAC: Bytes,
      valueMAC: Bytes)

  datatype Patch = Patch(version: uint64, keyId: Bytes, snapshotMAC: Bytes, patchMAC: Bytes,
      mutations: seq<SyncdMutation>)

  /** `records` carry the SET operation the reader gives them. */
  datatype Snapshot = Snapshot(version: uint64, keyId: Bytes, mac: Bytes, records: seq<SyncdMutation>)

  datatype PatchList = PatchList(hasMorePatches: bool, snapshot: Option<Snapshot>, patches: seq<Patch>)

  /** One collection as the database holds it, and as the processor holds it in memory. */
  datatype Stored = Stored(version: uint64, hash: Bytes, macs: MACs)
  datatype Held = Held(version: uint64, hash: Bytes)

  // ---- decoding mutations

  function KeyOf(env: Env, keyId: Bytes): Result<Keys, AppStateError> {
    if keyId in env.keys then Ok(env.keys[keyId]) else Err(KeyNotFound)
  }

  function ContentMAC(env: Env, op: Operation, data: Bytes, keyId: Bytes, key: Bytes): Bytes {
    env.crypto.hmac512(key, ContentPreimage(op, data, keyId))[..MAC_SIZE]
  }

  function DecodeContent(env: Env, m: SyncdMutation, keys: Keys, content: Bytes, validateMACs: bool)
    : Result<Mutation, AppStateError>
  {
    if |content| < IV_SIZE then Err(Crash)
    else
      match env.crypto.decrypt(keys.valueEncryption, content[..IV_SIZE], content[IV_SIZE..])
      case None => Err(DecryptFailed)
      case Some(plaintext) =>
        match env.crypto.parseAction(plaintext)
        case None => Err(BadSyncAction)
        case Some(action) =>
          if validateMACs && env.crypto.hmac256(keys.index, action.index) != m.index then Err(MismatchingIndexMAC)
          else
            match env.crypto.parseIndex(action.index)
            case None => Err(BadIndex)
            case Some(index) => Ok(Mutation(m.op, action.value, action.version, index, m.index, ValueMAC(m)))
  }

  function DecodeOne(env: Env, m: SyncdMutation, validateMACs: bool): Result<Mutation, AppStateError> {
    match KeyOf(env, m.keyId)
    case Err(e) => Err(e)
    case Ok(keys) =>
      if !HasMAC(m) then Err(Crash)
      else
        var content := m.value[..|m.value| - MAC_SIZE];
        if validateMACs && ContentMAC(env, m.op, content, m.keyId, keys.valueMAC) != ValueMAC(m)
            then Err(MismatchingContentMAC)
        else DecodeContent(env, m, keys, content, validateMACs)
  }

  function DecodeAll(env: Env, ms: seq<SyncdMutation>, validateMACs: bool): Result<seq<Mutation>, AppStateError> {
    if ms == [] then Ok([])
    else
      match DecodeAll(env, Init(ms), validateMACs)
      case Err(e) => Err(e)
      case Ok(decoded) =>
        match DecodeOne(env, Last(ms), validateMACs)
        case Err(e) => Err(e)
        case Ok(m) => Ok(decoded + [m])
  }

  // ---- applying a snapshot or a patch

  function AsSets(records: seq<SyncdMutation>): (ms: seq<SyncdMutation>)
    ensures AllSets(ms) && |ms| == |records|
  {
    seq(|records|, i requires 0 <= i < |records| => records[i].(op := SET))
  }

  /** The key and LTHash check shared by snapshots and patches. */
  function CheckSnapshotMAC(env: Env, held: Held, keyId: Bytes, expected: Bytes): Result<Keys, AppStateError> {
    match KeyOf(env, keyId)
    case Err(e) => Err(e)
    case Ok(keys) =>
      if env.crypto.hmac256(keys.snapshotMAC, SnapshotPreimage(held.hash, held.version, env.name)) != expected
      then Err(MismatchingLTHash)
      else Ok(keys)
  }

  function CheckPatchMAC(env: Env, keys: Keys, p: Patch): Option<AppStateError> {
    if exists m <- p.mutations :: !HasMAC(m) then Some(Crash)
    else if env.crypto.hmac256(keys.patchMAC,
        PatchPreimage(p.snapshotMAC, ValueMACs(p.mutations), p.version, env.name)) != p.patchMAC
    then Some(MismatchingPatchMAC)
    else None
  }

  datatype Applied = Applied(stored: Stored, held: Held, mutations: seq<Mutation>)

  function StoredWith(st: Stored, held: Held, ms: seq<SyncdMutation>): Stored {
    Stored(held.version, held.hash, StoredAfter(st.macs, ms))
  }

  function UpdatedHash(env: Env, hash: Bytes, d: Delta): (h: Bytes)
    requires |hash| == HASH_SIZE
    ensures |h| == HASH_SIZE
  {
    Hashed(env.crypto.expand, hash, d.removed, d.added)
  }

  /** A snapshot starts from the incoming hash. */
  function ApplySnapshot(env: Env, st: Stored, held: Held, ss: Snapshot, validateMACs: bool)
    : (r: Result<Applied, AppStateError>)
    requires |held.hash| == HASH_SIZE
    ensures r.Ok? ==> |r.value.held.hash| == HASH_SIZE
  {
    var ms := AsSets(ss.records);
    match SnapshotDelta(ms)
    case Err(e) => Err(e)
    case Ok(d) =>
      var held' := Held(ss.version, UpdatedHash(env, held.hash, d));
      var check := if validateMACs then CheckSnapshotMAC(env, held', ss.keyId, ss.mac) else Err(Crash);
      if validateMACs && check.Err? then Err(check.error)
      else
        match DecodeAll(env, ms, validateMACs)
        case Err(e) => Err(e)
        case Ok(decoded) => Ok(Applied(StoredWith(st, held', ms), held', decoded))
  }

  function CheckPatch(env: Env, held: Held, p: Patch): Option<AppStateError> {
    match CheckSnapshotMAC(env, held, p.keyId, p.snapshotMAC)
    case Err(e) => Some(e)
    case Ok(keys) => CheckPatchMAC(env, keys, p)
  }

  function ApplyPatch(env: Env, st: Stored, held: Held, p: Patch, validateMACs: bool)
    : (r: Result<Applied, AppStateError>)
    requires |held.hash| == HASH_SIZE
    ensures r.Ok? ==> |r.value.held.hash| == HASH_SIZE
  {
    match PatchDelta(p.mutations, st.macs, env.unreadable)
    case Err(e) => Err(e)
    case Ok(d) =>
      var held' := Held(p.version, UpdatedHash(env, held.hash, d));
      var check := if validateMACs then CheckPatch(env, held', p) else None;
      if check.Some? then Err(check.value)
      else
        match DecodeAll(env, p.mutations, validateMACs)
        case Err(e) => Err(e)
        case Ok(decoded) => Ok(Applied(StoredWith(st, held', p.mutations), held', decoded))
  }

  /** What a run leaves in the database, and what it returns. */
  datatype Outcome = Outcome(stored: Stored, result: Result<(Held, seq<Mutation>), AppStateError>)

  function ApplyPatches(env: Env, st: Stored, held: Held, patches: seq<Patch>, acc: seq<Mutation>, validateMACs: bool)
    : (o: Outcome)
    requires |held.hash| == HASH_SIZE
    ensures o.result.Ok? ==> |o.result.value.0.hash| == HASH_SIZE
    decreases |patches|
  {
    if patches == [] then Outcome(st, Ok((held, acc)))
    else
      match ApplyPatch(env, st, held, patches[0], validateMACs)
      case Err(e) => Outcome(st, Err(e))
      case Ok(a) => ApplyPatches(env, a.stored, a.held, patches[1..], acc + a.mutations, validateMACs)
  }

  function ApplyList(env: Env, st: Stored, held: Held, list: PatchList, validateMACs: bool): (o: Outcome)
    requires |held.hash| == HASH_SIZE
    ensures o.result.Ok? ==> |o.result.value.0.hash| == HASH_SIZE
  {
    match list.snapshot
    case None => ApplyPatches(env, st, held, list.patches, [], validateMACs)
    case Some(ss) =>
      match ApplySnapshot(env, st, held, ss, validateMACs)
      case Err(e) => Outcome(st, Err(e))
      case Ok(a) => ApplyPatches(env, a.stored, a.held, list.patches, a.mutations, validateMACs)
  }

  // ---- fetching

  /** The server's answers in order; running out of them is a failed fetch. */
  function FetchLoop(env: Env, st: Stored, held: Held, responses: seq<PatchList>): Outcome
    requires |held.hash| == HASH_SIZE
    decreases |responses|
  {
    if responses == [] then Outcome(st, Err(FetchFailed))
    else
      var o := ApplyList(env, st, held, responses[0], true);
      match o.result
      case Err(e) => o
      case Ok((held', mutations)) =>
        if responses[0].hasMorePatches then FetchLoop(env, o.stored, held', responses[1..]) else o
  }

  const ZERO_HASH: Bytes := seq(HASH_SIZE, i => 0)

  const CLEARED := Stored(0, ZERO_HASH, map[])
}
