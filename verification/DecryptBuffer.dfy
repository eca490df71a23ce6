/** The buffer of decrypted events: each ciphertext is decrypted once, whatever is delivered again (message.go). */
module DecryptBuffer {
  import opened ByteStrings

  type Hash = Bytes

  /** The signal session: decrypting moves it on, so the same ciphertext cannot be decrypted twice. */
  datatype Ratchet<!S> = Ratchet(decrypt: (S, Bytes) -> Result<(Bytes, S), SignalError>, hash: Bytes -> Hash)

  datatype SignalError = OldCounter | OtherError

  datatype DecryptError = LookupFailed | EventAlreadyProcessed | Signal(error: SignalError) | NotSaved

  /** Where a delivery stands; it leaves the table when it ends. */
  datatype Phase = Begun | MustDecrypt | Ready(plaintext: Bytes) | Handled

  datatype Delivery = Delivery(ciphertext: Bytes, phase: Phase)

  datatype Commit = Commit(hash: Hash, ciphertext: Bytes, plaintext: Bytes)

  /** `late` when the buffered plaintext had been cleared before. */
  datatype HandOff = HandOff(hash: Hash, plaintext: Bytes, late: bool)

  /** The stored tables, the deliveries under way and what has happened so far. */
  datatype State<S> = State(
    buffer: map<Hash, Option<Bytes>>,
    session: S,
    deliveries: map<nat, Delivery>,
    commits: seq<Commit>,
    handOffs: seq<HandOff>,
    cleared: set<Hash>)

  datatype Event =
    | Begin(d: nat, ciphertext: Bytes)
    | Look(d: nat)
    | Decrypt(d: nat, saved: bool)
    | Hand(d: nat, handled: bool)
    | PassOver(d: nat)
    | Clear(d: nat, done: bool)
    | End(d: nat)
    | Crash

  // ---- the parts of bufferedDecrypt

  /** What the buffer says of a hash. */
  function Looked(buffer: map<Hash, Option<Bytes>>, h: Hash): Option<Phase> {
    if h !in buffer then Some(MustDecrypt)
    else if buffer[h].None? then None
    else Some(Ready(buffer[h].value))
  }

  /** The transaction: None when it rolls back. A second insertion for a hash breaks the primary key. */
  function Transacted<S>(r: Ratchet<S>, st: State<S>, ciphertext: Bytes, saved: bool): Option<(Bytes, State<S>)> {
    var h := r.hash(ciphertext);
    match r.decrypt(st.session, ciphertext)
    case Err(_) => None
    case Ok((plaintext, session)) =>
      if !saved || h in st.buffer then None
      else Some((plaintext, st.(
        buffer := st.buffer[h := Some(plaintext)],
        session := session,
        commits := st.commits + [Commit(h, ciphertext, plaintext)])))
  }

  function Ended<S>(st: State<S>, d: nat): State<S> {
    st.(deliveries := st.deliveries - {d})
  }

  function InPhase<S>(st: State<S>, d: nat, phase: Phase): State<S>
    requires d in st.deliveries
  {
    st.(deliveries := st.deliveries[d := st.deliveries[d].(phase := phase)])
  }

  function HashOf<S>(r: Ratchet<S>, st: State<S>, d: nat): Hash
    requires d in st.deliveries
  {
    r.hash(st.deliveries[d].ciphertext)
  }

  function AfterLook<S>(r: Ratchet<S>, st: State<S>, d: nat): State<S>
    requires d in st.deliveries
  {
    match Looked(st.buffer, HashOf(r, st, d))
    case None => Ended(st, d)
    case Some(phase) => InPhase(st, d, phase)
  }

  function AfterDecrypt<S>(r: Ratchet<S>, st: State<S>, d: nat, saved: bool): State<S>
    requires d in st.deliveries
  {
    match Transacted(r, st, st.deliveries[d].ciphertext, saved)
    case None => Ended(st, d)
    case Some((plaintext, next)) => InPhase(next, d, Ready(plaintext))
  }

  function AfterHand<S>(r: Ratchet<S>, st: State<S>, d: nat, handled: bool): State<S>
    requires d in st.deliveries && st.deliveries[d].phase.Ready?
  {
    var h := HashOf(r, st, d);
    var next := st.(handOffs := st.handOffs + [HandOff(h, st.deliveries[d].phase.plaintext, h in st.cleared)]);
    if handled then InPhase(next, d, Handled) else Ended(next, d)
  }

  function AfterClear<S>(r: Ratchet<S>, st: State<S>, d: nat, done: bool): State<S>
    requires d in st.deliveries
  {
    var h := HashOf(r, st, d);
    Ended(if done && h in st.buffer then st.(buffer := st.buffer[h := None], cleared := st.cleared + {h}) else st, d)
  }

  /** One event; those that cannot happen change nothing. */
  function Step<S>(r: Ratchet<S>, st: State<S>, e: Event): State<S> {
    match e
    case Begin(d, ciphertext) =>
      if d in st.deliveries then st else st.(deliveries := st.deliveries[d := Delivery(ciphertext, Begun)])
    case Look(d) => if Stands(st, d) == Some(Begun) then AfterLook(r, st, d) else st
    case Decrypt(d, saved) => if Stands(st, d) == Some(MustDecrypt) then AfterDecrypt(r, st, d, saved) else st
    case Hand(d, handled) => if IsReady(st, d) then AfterHand(r, st, d, handled) else st
    case PassOver(d) => if IsReady(st, d) then InPhase(st, d, Handled) else st
    case Clear(d, done) => if Stands(st, d) == Some(Handled) then AfterClear(r, st, d, done) else st
    case End(d) => Ended(st, d)
    case Crash => st.(deliveries := map[])
  }

  function Stands<S>(st: State<S>, d: nat): (phase: Option<Phase>)
    ensures phase.Some? ==> d in st.deliveries
  {
    if d in st.deliveries then Some(st.deliveries[d].phase) else None
  }

  predicate IsReady<S>(st: State<S>, d: nat) {
    d in st.deliveries && st.deliveries[d].phase.Ready?
  }

  // ---- what every event keeps

  predicate CommittedAt(commits: seq<Commit>, h: Hash, plaintext: Bytes, i: nat) {
    i < |commits| && commits[i].hash == h && commits[i].plaintext == plaintext
  }

  ghost predicate Committed(commits: seq<Commit>, h: Hash, plaintext: Bytes) {
    exists i: nat :: CommittedAt(commits, h, plaintext, i)
  }

  predicate OncePerHash(commits: seq<Commit>) {
    forall i, j | 0 <= i < j < |commits| :: commits[i].hash != commits[j].hash
  }

  /** The session after decrypting exactly the committed ciphertexts, in the order of their commits. */
  function Replayed<S>(r: Ratchet<S>, s0: S, commits: seq<Commit>): Option<S> {
    if commits == [] then Some(s0)
    else
      var n := |commits| - 1;
      match Replayed(r, s0, commits[..n])
      case None => None
      case Some(s) =>
        match r.decrypt(s, commits[n].ciphertext)
        case Err(_) => None
        case Ok((plaintext, s')) => if plaintext == commits[n].plaintext then Some(s') else None
  }

  /** The buffer holds the committed plaintexts, except those cleared. */
  ghost predicate BufferSound<S>(st: State<S>) {
    && (forall i | 0 <= i < |st.commits| :: st.commits[i].hash in st.buffer)
    && (forall h <- st.cleared :: h in st.buffer && st.buffer[h].None?)
    && forall h <- st.buffer ::
        if st.buffer[h].Some? then Committed(st.commits, h, st.buffer[h].value) else h in st.cleared
  }

  ghost predicate DeliverySound<S>(r: Ratchet<S>, st: State<S>, d: nat)
    requires d in st.deliveries
  {
    st.deliveries[d].phase.Ready? ==>
      Committed(st.commits, r.hash(st.deliveries[d].ciphertext), st.deliveries[d].phase.plaintext)
  }

  ghost predicate HandOffsSound<S>(st: State<S>) {
    forall i | 0 <= i < |st.handOffs| :: Committed(st.commits, st.handOffs[i].hash, st.handOffs[i].plaintext)
  }

  /** Each hash is committed at most once, all that is handed off was committed, and the session is the one that
      decrypted each committed ciphertext once. */
  ghost predicate Sound<S>(r: Ratchet<S>, s0: S, st: State<S>) {
    && OncePerHash(st.commits)
    && Replayed(r, s0, st.commits) == Some(st.session)
    && BufferSound(st)
    && (forall d <- st.deliveries :: DeliverySound(r, st, d))
    && HandOffsSound(st)
  }

  lemma CommittedGrows(commits: seq<Commit>, c: Commit, h: Hash, plaintext: Bytes)
    requires Committed(commits, h, plaintext) || (c.hash == h && c.plaintext == plaintext)
    ensures Committed(commits + [c], h, plaintext)
  {
    if Committed(commits, h, plaintext) {
      var i: nat :| CommittedAt(commits, h, plaintext, i);
      assert CommittedAt(commits + [c], h, plaintext, i);
    } else {
      assert CommittedAt(commits + [c], h, plaintext, |commits|);
    }
  }

  lemma StepIsSound<S>(r: Ratchet<S>, s0: S, st: State<S>, e: Event)
    requires Sound(r, s0, st)
    ensures Sound(r, s0, Step(r, st, e))
  {
    var next := Step(r, st, e);
    hide Replayed, Transacted, Committed;
    assert forall d <- st.deliveries :: DeliverySound(r, st, d);
    if e.Decrypt? && Stands(st, e.d) == Some(MustDecrypt) {
      DecryptIsSound(r, s0, st, e.d, e.saved);
    } else if e.Clear? && Stands(st, e.d) == Some(Handled) {
      ClearIsSound(r, s0, st, e.d, e.done);
    } else {
      assert next.commits == st.commits && next.buffer == st.buffer;
      hide OncePerHash;
      assert forall d <- next.deliveries :: DeliverySound(r, next, d);
    }
  }

  lemma DecryptIsSound<S>(r: Ratchet<S>, s0: S, st: State<S>, d: nat, saved: bool)
    requires Sound(r, s0, st) && d in st.deliveries
    ensures Sound(r, s0, AfterDecrypt(r, st, d, saved))
  {
    hide Transacted, Sound;
    var result := Transacted(r, st, st.deliveries[d].ciphertext, saved);
    if result.Some? {
      CommitIsSound(r, s0, st, st.deliveries[d].ciphertext, saved);
      PhaseIsSound(r, s0, result.value.1, d, Ready(result.value.0));
    } else {
      EndIsSound(r, s0, st, d);
    }
  }

  ghost predicate Keeps(commits: seq<Commit>, more: seq<Commit>) {
    forall h, plaintext | Committed(commits, h, plaintext) :: Committed(more, h, plaintext)
  }

  lemma RestIsSound<S>(r: Ratchet<S>, st: State<S>, next: State<S>)
    requires Keeps(st.commits, next.commits) && next.deliveries == st.deliveries && next.handOffs == st.handOffs
    requires HandOffsSound(st) && forall d <- st.deliveries :: DeliverySound(r, st, d)
    ensures HandOffsSound(next) && forall d <- next.deliveries :: DeliverySound(r, next, d)
  {
    hide Committed;
    forall d <- next.deliveries
      ensures DeliverySound(r, next, d)
    {
      assert DeliverySound(r, st, d);
    }
  }

  lemma CommitIsSound<S>(r: Ratchet<S>, s0: S, st: State<S>, ciphertext: Bytes, saved: bool)
    requires Sound(r, s0, st) && Transacted(r, st, ciphertext, saved).Some?
    ensures
      var (plaintext, next) := Transacted(r, st, ciphertext, saved).value;
      Sound(r, s0, next) && next.deliveries == st.deliveries && Committed(next.commits, r.hash(ciphertext), plaintext)
  {
    TransactionIsSound(r, s0, st, ciphertext, saved);
    SameRest(r, st, ciphertext, saved);
    hide Transacted, Replayed, Committed, OncePerHash, BufferSound, DeliverySound, HandOffsSound, Keeps;
    RestIsSound(r, st, Transacted(r, st, ciphertext, saved).value.1);
  }

  lemma EndIsSound<S>(r: Ratchet<S>, s0: S, st: State<S>, d: nat)
    requires Sound(r, s0, st)
    ensures Sound(r, s0, Ended(st, d))
  {
    hide Replayed, Committed, OncePerHash;
    assert forall d' <- Ended(st, d).deliveries :: DeliverySound(r, st, d') && DeliverySound(r, Ended(st, d), d');
  }

  lemma PhaseIsSound<S>(r: Ratchet<S>, s0: S, st: State<S>, d: nat, phase: Phase)
    requires Sound(r, s0, st) && d in st.deliveries
    requires phase.Ready? ==> Committed(st.commits, HashOf(r, st, d), phase.plaintext)
    ensures Sound(r, s0, InPhase(st, d, phase))
  {
    hide Replayed, Committed, OncePerHash;
    var next := InPhase(st, d, phase);
    forall d' <- next.deliveries
      ensures DeliverySound(r, next, d')
    {
      assert DeliverySound(r, st, d');
    }
  }

  lemma SameRest<S>(r: Ratchet<S>, st: State<S>, ciphertext: Bytes, saved: bool)
    requires Transacted(r, st, ciphertext, saved).Some?
    ensures
      var next := Transacted(r, st, ciphertext, saved).value.1;
      next.deliveries == st.deliveries && next.handOffs == st.handOffs && next.cleared == st.cleared
    ensures r.hash(ciphertext) !in st.buffer
  {}

  /** A commit keeps the buffer, the session and all earlier commits. */
  lemma TransactionIsSound<S>(r: Ratchet<S>, s0: S, st: State<S>, ciphertext: Bytes, saved: bool)
    requires OncePerHash(st.commits) && Replayed(r, s0, st.commits) == Some(st.session) && BufferSound(st)
    requires Transacted(r, st, ciphertext, saved).Some?
    ensures
      var (plaintext, next) := Transacted(r, st, ciphertext, saved).value;
      && OncePerHash(next.commits) && Replayed(r, s0, next.commits) == Some(next.session) && BufferSound(next)
      && Committed(next.commits, r.hash(ciphertext), plaintext)
      && Keeps(st.commits, next.commits)
  {
    var (plaintext, next) := Transacted(r, st, ciphertext, saved).value;
    var c := Commit(r.hash(ciphertext), ciphertext, plaintext);
    assert next.commits == st.commits + [c];
    assert next.commits[..|st.commits|] == st.commits;
    forall h, p
      ensures Committed(st.commits, h, p) || (c.hash == h && c.plaintext == p) ==> Committed(next.commits, h, p)
    {
      if Committed(st.commits, h, p) || (c.hash == h && c.plaintext == p) {
        CommittedGrows(st.commits, c, h, p);
      }
    }
    hide Committed;
  }

  lemma ClearIsSound<S>(r: Ratchet<S>, s0: S, st: State<S>, d: nat, done: bool)
    requires Sound(r, s0, st) && d in st.deliveries && st.deliveries[d].phase.Handled?
    ensures Sound(r, s0, AfterClear(r, st, d, done))
  {
    var next := AfterClear(r, st, d, done);
    hide Replayed, Committed;
    assert forall d' <- next.deliveries :: DeliverySound(r, st, d');
  }

  // ---- whole runs

  function Start<S>(s0: S): State<S> {
    State(map[], s0, map[], [], [], {})
  }

  ghost function Run<S>(r: Ratchet<S>, s0: S, events: seq<Event>): (st: State<S>)
    ensures Sound(r, s0, st)
  {
    if events == [] then Start(s0)
    else
      var n := |events| - 1;
      StepIsSound(r, s0, Run(r, s0, events[..n]), events[n]);
      Step(r, Run(r, s0, events[..n]), events[n])
  }

  /** Over any run of redeliveries, failures and crashes: a hash is committed at most once, and all its hand-offs carry
      the plaintext of that commit. */
  lemma DecryptedOnce<S>(r: Ratchet<S>, s0: S, events: seq<Event>)
    ensures
      var st := Run(r, s0, events);
      && OncePerHash(st.commits)
      && (forall i | 0 <= i < |st.handOffs| :: Committed(st.commits, st.handOffs[i].hash, st.handOffs[i].plaintext))
      && forall i, j | 0 <= i < |st.handOffs| && 0 <= j < |st.handOffs| && st.handOffs[i].hash == st.handOffs[j].hash ::
           st.handOffs[i].plaintext == st.handOffs[j].plaintext
  {
    var st := Run(r, s0, events);
    hide Run;
    forall i, j | 0 <= i < |st.handOffs| && 0 <= j < |st.handOffs| && st.handOffs[i].hash == st.handOffs[j].hash
      ensures st.handOffs[i].plaintext == st.handOffs[j].plaintext
    {
      var a: nat :| CommittedAt(st.commits, st.handOffs[i].hash, st.handOffs[i].plaintext, a);
      var b: nat :| CommittedAt(st.commits, st.handOffs[j].hash, st.handOffs[j].plaintext, b);
      assert a == b;
    }
  }

  // ---- exactly when a plaintext is handed off after its clear

  predicate Holding<S>(r: Ratchet<S>, st: State<S>, d: nat, h: Hash) {
    IsReady(st, d) && HashOf(r, st, d) == h
  }

  /** The event takes the plaintext of `h` out of the buffer. */
  predicate Clears<S>(r: Ratchet<S>, st: State<S>, e: Event, h: Hash) {
    && e.Clear? && e.done && Stands(st, e.d) == Some(Handled)
    && HashOf(r, st, e.d) == h && h in st.buffer
  }

  predicate HandsOffLate<S>(r: Ratchet<S>, st: State<S>, e: Event) {
    e.Hand? && IsReady(st, e.d) && HashOf(r, st, e.d) in st.cleared
  }

  ghost predicate AnyLate<S>(st: State<S>) {
    exists i :: 0 <= i < |st.handOffs| && st.handOffs[i].late
  }

  /** Only an effective clear clears, and a delivery that holds a cleared plaintext held it before. */
  lemma StepClears<S>(r: Ratchet<S>, s0: S, st: State<S>, e: Event)
    requires Sound(r, s0, st)
    ensures forall h :: h in Step(r, st, e).cleared <==> h in st.cleared || Clears(r, st, e, h)
    ensures forall d: nat, h | Holding(r, Step(r, st, e), d, h) && h in Step(r, st, e).cleared :: Holding(r, st, d, h)
  {
    hide Replayed, Committed, OncePerHash, DeliverySound, HandOffsSound;
    if e.Decrypt? && e.d in st.deliveries && Transacted(r, st, st.deliveries[e.d].ciphertext, e.saved).Some? {
      SameRest(r, st, st.deliveries[e.d].ciphertext, e.saved);
    }
    hide Transacted;
  }

  lemma StepLate<S>(r: Ratchet<S>, st: State<S>, e: Event)
    ensures AnyLate(Step(r, st, e)) <==> AnyLate(st) || HandsOffLate(r, st, e)
  {
    var next := Step(r, st, e);
    if e.Hand? && IsReady(st, e.d) {
      assert next.handOffs[..|st.handOffs|] == st.handOffs;
      assert next.handOffs[|st.handOffs|].late <==> HandsOffLate(r, st, e);
      assert forall i | 0 <= i < |st.handOffs| :: next.handOffs[i] == st.handOffs[i];
    } else {
      assert next.handOffs == st.handOffs;
    }
  }

  /** Event `i` clears `h` while delivery `d` holds its plaintext. */
  ghost predicate ClearsWhileHeld<S>(r: Ratchet<S>, s0: S, events: seq<Event>, i: nat, d: nat, h: Hash) {
    i < |events| && Clears(r, Run(r, s0, events[..i]), events[i], h) && Holding(r, Run(r, s0, events[..i]), d, h)
  }

  lemma RunLast<S>(r: Ratchet<S>, s0: S, events: seq<Event>)
    requires events != []
    ensures Run(r, s0, events) == Step(r, Run(r, s0, events[..|events| - 1]), events[|events| - 1])
  {}

  lemma {:induction false} HeldWhenCleared<S>(r: Ratchet<S>, s0: S, events: seq<Event>, d: nat, h: Hash)
      returns (i: nat)
    requires Holding(r, Run(r, s0, events), d, h) && h in Run(r, s0, events).cleared
    ensures ClearsWhileHeld(r, s0, events, i, d, h)
    decreases |events|
  {
    hide Step, Holding, Clears, Sound;
    assert events != [];
    var n := |events| - 1;
    var st := Run(r, s0, events[..n]);
    RunLast(r, s0, events);
    StepClears(r, s0, st, events[n]);
    hide Run;
    if h in st.cleared {
      i := HeldWhenCleared(r, s0, events[..n], d, h);
      assert events[..n][..i] == events[..i];
    } else {
      i := n;
    }
  }

  lemma {:induction false} ClearStays<S>(r: Ratchet<S>, s0: S, events: seq<Event>, i: nat, h: Hash)
    requires i < |events| && Clears(r, Run(r, s0, events[..i]), events[i], h)
    ensures h in Run(r, s0, events).cleared
    decreases |events|
  {
    hide *;
    var n := |events| - 1;
    RunLast(r, s0, events);
    StepClears(r, s0, Run(r, s0, events[..n]), events[n]);
    if i < n {
      assert events[..n][..i] == events[..i];
      ClearStays(r, s0, events[..n], i, h);
    }
  }

  /** Event `j` hands off what event `i` cleared while the same delivery held it. */
  ghost predicate HandsOffCleared<S>(r: Ratchet<S>, s0: S, events: seq<Event>, i: nat, j: nat) {
    && i < j < |events|
    && events[j].Hand? && IsReady(Run(r, s0, events[..j]), events[j].d)
    && ClearsWhileHeld(r, s0, events, i, events[j].d, HashOf(r, Run(r, s0, events[..j]), events[j].d))
  }

  ghost predicate LateAt<S>(r: Ratchet<S>, s0: S, events: seq<Event>, j: nat) {
    j < |events| && HandsOffLate(r, Run(r, s0, events[..j]), events[j])
  }

  lemma LateAtExactly<S>(r: Ratchet<S>, s0: S, events: seq<Event>, j: nat)
    ensures LateAt(r, s0, events, j) <==> exists i: nat :: HandsOffCleared(r, s0, events, i, j)
  {
    hide Step, Clears, Sound, Run;
    if LateAt(r, s0, events, j) {
      var st := Run(r, s0, events[..j]);
      var i := HeldWhenCleared(r, s0, events[..j], events[j].d, HashOf(r, st, events[j].d));
      assert events[..j][..i] == events[..i];
      assert HandsOffCleared(r, s0, events, i, j);
    } else if i: nat :| HandsOffCleared(r, s0, events, i, j) {
      assert events[..j][..i] == events[..i];
      ClearStays(r, s0, events[..j], i, HashOf(r, Run(r, s0, events[..j]), events[j].d));
    }
  }

  lemma {:induction false} AnyLateExactly<S>(r: Ratchet<S>, s0: S, events: seq<Event>)
    ensures AnyLate(Run(r, s0, events)) <==> exists j: nat :: LateAt(r, s0, events, j)
    decreases |events|
  {
    hide Step, HandsOffLate, Sound;
    if events != [] {
      var n := |events| - 1;
      AnyLateExactly(r, s0, events[..n]);
      RunLast(r, s0, events);
      StepLate(r, Run(r, s0, events[..n]), events[n]);
      hide Run, AnyLate;
      forall j: nat
        ensures LateAt(r, s0, events, j)
           <==> LateAt(r, s0, events[..n], j) || (j == n && HandsOffLate(r, Run(r, s0, events[..n]), events[n]))
      {
        assert j <= n ==> events[..n][..j] == events[..j];
      }
      assert LateAt(r, s0, events, n) <==> HandsOffLate(r, Run(r, s0, events[..n]), events[n]);
    }
  }

  /** Some plaintext is handed off after its clear if and only if a delivery holds it when it is cleared and goes on
      to hand it off. */
  lemma LateExactly<S>(r: Ratchet<S>, s0: S, events: seq<Event>)
    ensures AnyLate(Run(r, s0, events)) <==> exists i: nat, j: nat :: HandsOffCleared(r, s0, events, i, j)
  {
    hide *;
    AnyLateExactly(r, s0, events);
    if j: nat :| LateAt(r, s0, events, j) {
      LateAtExactly(r, s0, events, j);
      var i: nat :| HandsOffCleared(r, s0, events, i, j);
    }
    if i: nat, j: nat :| HandsOffCleared(r, s0, events, i, j) {
      LateAtExactly(r, s0, events, j);
      assert LateAt(r, s0, events, j);
    }
  }

  /** No delivery begins while another with the same hash is under way. */
  ghost predicate OneAtATime<S>(r: Ratchet<S>, s0: S, events: seq<Event>) {
    events == [] ||
    (var n := |events| - 1;
     OneAtATime(r, s0, events[..n]) && BeginsAlone(r, Run(r, s0, events[..n]), events[n]))
  }

  ghost predicate BeginsAlone<S>(r: Ratchet<S>, st: State<S>, e: Event) {
    e.Begin? ==> forall d <- st.deliveries :: HashOf(r, st, d) != r.hash(e.ciphertext)
  }

  ghost predicate Alone<S>(r: Ratchet<S>, st: State<S>) {
    forall d, d' | d in st.deliveries && d' in st.deliveries && d != d' :: HashOf(r, st, d) != HashOf(r, st, d')
  }

  lemma StepKeepsAlone<S>(r: Ratchet<S>, st: State<S>, e: Event)
    requires Alone(r, st) && BeginsAlone(r, st, e)
    ensures Alone(r, Step(r, st, e))
  {
    if e.Decrypt? && e.d in st.deliveries && Transacted(r, st, st.deliveries[e.d].ciphertext, e.saved).Some? {
      SameRest(r, st, st.deliveries[e.d].ciphertext, e.saved);
    }
    hide Transacted;
    var next := Step(r, st, e);
    assert forall d <- next.deliveries :: d in st.deliveries ==> HashOf(r, next, d) == HashOf(r, st, d);
  }

  lemma StartIsAlone<S>(r: Ratchet<S>, s0: S)
    ensures Alone(r, Start(s0))
  {}

  lemma {:induction false} AloneThroughout<S>(r: Ratchet<S>, s0: S, events: seq<Event>, i: nat)
    requires OneAtATime(r, s0, events) && i <= |events|
    ensures Alone(r, Run(r, s0, events[..i]))
    decreases |events|
  {
    hide Alone, BeginsAlone, Step, Sound;
    assert events[..|events|] == events;
    if events == [] {
      StartIsAlone(r, s0);
    } else {
      var n := |events| - 1;
      if i <= n {
        AloneThroughout(r, s0, events[..n], i);
        assert events[..n][..i] == events[..i];
      } else {
        AloneThroughout(r, s0, events[..n], n);
        assert events[..n][..n] == events[..n] && events[..i] == events;
        RunLast(r, s0, events);
        StepKeepsAlone(r, Run(r, s0, events[..n]), events[n]);
      }
    }
  }

  /** One delivery at a time: once a plaintext is cleared, it is not handed off again. */
  lemma NoneAfterClear<S>(r: Ratchet<S>, s0: S, events: seq<Event>)
    requires OneAtATime(r, s0, events)
    ensures !AnyLate(Run(r, s0, events))
  {
    hide Run, Step;
    LateExactly(r, s0, events);
    forall i: nat, j: nat
      ensures !HandsOffCleared(r, s0, events, i, j)
    {
      if i < |events| {
        AloneThroughout(r, s0, events, i);
      }
    }
  }

  lemma RunAppend<S>(r: Ratchet<S>, s0: S, events: seq<Event>, e: Event)
    ensures Run(r, s0, events + [e]) == Step(r, Run(r, s0, events), e)
  {
    assert (events + [e])[..|events|] == events;
  }

  /** Two deliveries at once: the second hands off what the first has cleared. */
  lemma OverlapHandsOffLate<S>(r: Ratchet<S>, s0: S, ciphertext: Bytes) returns (events: seq<Event>)
    requires r.decrypt(s0, ciphertext).Ok?
    ensures
      var h, plaintext := r.hash(ciphertext), r.decrypt(s0, ciphertext).value.0;
      Run(r, s0, events).handOffs == [HandOff(h, plaintext, false), HandOff(h, plaintext, true)]
  {
    var h, plaintext := r.hash(ciphertext), r.decrypt(s0, ciphertext).value.0;
    var ready := Delivery(ciphertext, Ready(plaintext));
    events := OneIsReady(r, s0, ciphertext);
    hide Run, Transacted;
    events := Then(r, s0, events, Begin(1, ciphertext));
    events := Then(r, s0, events, Look(1));
    assert Holds(Run(r, s0, events), 0, ready) && Holds(Run(r, s0, events), 1, ready);
    SecondIsLate(r, Run(r, s0, events), ciphertext, plaintext);
    hide Step;
    events := Then(r, s0, events, Hand(0, true));
    events := Then(r, s0, events, Clear(0, true));
    events := Then(r, s0, events, Hand(1, true));
  }

  predicate Holds<S>(st: State<S>, d: nat, delivery: Delivery) {
    d in st.deliveries && st.deliveries[d] == delivery
  }

  lemma SecondIsLate<S>(r: Ratchet<S>, st: State<S>, ciphertext: Bytes, plaintext: Bytes)
    requires Holds(st, 0, Delivery(ciphertext, Ready(plaintext)))
        && Holds(st, 1, Delivery(ciphertext, Ready(plaintext)))
    requires r.hash(ciphertext) in st.buffer && st.handOffs == [] && st.cleared == {}
    ensures Step(r, Step(r, Step(r, st, Hand(0, true)), Clear(0, true)), Hand(1, true)).handOffs
         == [HandOff(r.hash(ciphertext), plaintext, false), HandOff(r.hash(ciphertext), plaintext, true)]
  {}

  lemma OneIsReady<S>(r: Ratchet<S>, s0: S, ciphertext: Bytes) returns (events: seq<Event>)
    requires r.decrypt(s0, ciphertext).Ok?
    ensures
      var st := Run(r, s0, events);
      var plaintext := r.decrypt(s0, ciphertext).value.0;
      && Holds(st, 0, Delivery(ciphertext, Ready(plaintext))) && 1 !in st.deliveries
      && st.buffer == map[r.hash(ciphertext) := Some(plaintext)] && st.handOffs == [] && st.cleared == {}
  {
    assert Run(r, s0, []) == Start(s0);
    hide Run;
    events := Then(r, s0, [], Begin(0, ciphertext));
    events := Then(r, s0, events, Look(0));
    var st := Run(r, s0, events);
    assert Holds(st, 0, Delivery(ciphertext, MustDecrypt)) && st == Start(s0).(deliveries := st.deliveries);
    events := Then(r, s0, events, Decrypt(0, true));
    assert Run(r, s0, events) == AfterDecrypt(r, st, 0, true);
    hide Step;
  }

  lemma Then<S>(r: Ratchet<S>, s0: S, events: seq<Event>, e: Event) returns (more: seq<Event>)
    ensures more == events + [e] && Run(r, s0, more) == Step(r, Run(r, s0, events), e)
  {
    RunAppend(r, s0, events, e);
    more := events + [e];
  }

  /** A message handed off but not cleared survives a crash: its next delivery is given the same plaintext without
      being decrypted again. */
  lemma RedeliveryIsReady<S>(r: Ratchet<S>, s0: S, st: State<S>, d: nat, ciphertext: Bytes)
    requires Sound(r, s0, st) && r.hash(ciphertext) in st.buffer && r.hash(ciphertext) !in st.cleared
    ensures
      var next := Step(r, Step(r, Step(r, st, Crash), Begin(d, ciphertext)), Look(d));
      && IsReady(next, d) && Committed(st.commits, r.hash(ciphertext), next.deliveries[d].phase.plaintext)
      && next.session == st.session && next.commits == st.commits
  {}

  // ---- the client

  /** What a plaintext turns out to be, and what becomes of it: padding that does not come off, a version 2 message
      that does not decode, a version 3 one that does not decode or an unknown version, a message for the handlers. */
  datatype Content = BadPadding | Malformed | NotDispatched | Message(handled: bool)

  /** The plaintext that a delivery gets: the buffered one, or else one decrypted and saved. */
  function Obtained<S>(r: Ratchet<S>, buffer: map<Hash, Option<Bytes>>, session: S, ciphertext: Bytes, saved: bool)
    : Option<Bytes>
  {
    var h := r.hash(ciphertext);
    if h in buffer then buffer[h]
    else
      match r.decrypt(session, ciphertext)
      case Err(_) => None
      case Ok((plaintext, _)) => if saved then Some(plaintext) else None
  }

  /** Looking, then decrypting if the buffer had nothing. */
  function AfterBuffered<S>(r: Ratchet<S>, st: State<S>, d: nat, saved: bool): State<S> {
    var looked := Step(r, st, Look(d));
    if Stands(looked, d) == Some(MustDecrypt) then Step(r, looked, Decrypt(d, saved)) else looked
  }

  lemma BufferedFacts<S>(r: Ratchet<S>, s0: S, st: State<S>, d: nat, saved: bool)
    requires Sound(r, s0, st) && Stands(st, d) == Some(Begun)
    ensures
      var ciphertext, next := st.deliveries[d].ciphertext, AfterBuffered(r, st, d, saved);
      && Sound(r, s0, next)
      && next.cleared == st.cleared && next.handOffs == st.handOffs
      && match Obtained(r, st.buffer, st.session, ciphertext, saved)
         case None => next == Ended(st, d)
         case Some(plaintext) =>
           && next.deliveries == st.deliveries[d := Delivery(ciphertext, Ready(plaintext))]
           && next.buffer == st.buffer[r.hash(ciphertext) := Some(plaintext)] && r.hash(ciphertext) !in st.cleared
  {
    BufferedIsSound(r, s0, st, d, saved);
    ClearedIsEmpty(st, HashOf(r, st, d));
    BufferedIs(r, st, d, saved);
    if HashOf(r, st, d) in st.buffer {
      SameEntry(st.buffer, HashOf(r, st, d));
      hide Sound, BufferSound, AfterBuffered, Transacted, Step;
    } else {
      NewFacts(r, st, d, saved);
      hide Sound, BufferSound, AfterBuffered, Transacted, Step, AfterDecrypt, Obtained, InPhase;
    }
  }

  lemma NewFacts<S>(r: Ratchet<S>, st: State<S>, d: nat, saved: bool)
    requires d in st.deliveries && HashOf(r, st, d) !in st.buffer
    ensures
      var ciphertext, next := st.deliveries[d].ciphertext, AfterDecrypt(r, InPhase(st, d, MustDecrypt), d, saved);
      && next.cleared == st.cleared && next.handOffs == st.handOffs
      && match Obtained(r, st.buffer, st.session, ciphertext, saved)
         case None => next == Ended(st, d)
         case Some(plaintext) =>
           && next.deliveries == st.deliveries[d := Delivery(ciphertext, Ready(plaintext))]
           && next.buffer == st.buffer[r.hash(ciphertext) := Some(plaintext)]
  {}

  lemma ClearedIsEmpty<S>(st: State<S>, h: Hash)
    requires BufferSound(st)
    ensures h in st.cleared ==> h in st.buffer && st.buffer[h].None?
  {}

  lemma SameEntry(m: map<Hash, Option<Bytes>>, h: Hash)
    requires h in m
    ensures m[h := m[h]] == m
  {}

  lemma BufferedIsSound<S>(r: Ratchet<S>, s0: S, st: State<S>, d: nat, saved: bool)
    requires Sound(r, s0, st)
    ensures Sound(r, s0, AfterBuffered(r, st, d, saved))
  {
    hide Sound, Step, Stands;
    StepIsSound(r, s0, st, Look(d));
    StepIsSound(r, s0, Step(r, st, Look(d)), Decrypt(d, saved));
  }

  lemma BufferedIs<S>(r: Ratchet<S>, st: State<S>, d: nat, saved: bool)
    requires Stands(st, d) == Some(Begun)
    ensures AfterBuffered(r, st, d, saved)
         == if HashOf(r, st, d) in st.buffer then AfterLook(r, st, d)
            else AfterDecrypt(r, InPhase(st, d, MustDecrypt), d, saved)
  {
    hide Transacted;
  }

  lemma OverAndOut(m: map<nat, Delivery>, d: nat, x: Delivery, y: Delivery)
    requires d !in m
    ensures m[d := x] - {d} == m && m[d := x][d := y] - {d} == m
  {}

  lemma Overwritten(m: map<Hash, Option<Bytes>>, h: Hash, x: Option<Bytes>, y: Option<Bytes>)
    ensures m[h := x][h := y] == m[h := y]
  {}

  class Client<S(!new)> {
    const r: Ratchet<S>
    ghost const s0: S
    var buffer: map<Hash, Option<Bytes>>
    var session: S
    ghost var deliveries: map<nat, Delivery>
    ghost var commits: seq<Commit>
    ghost var handOffs: seq<HandOff>
    ghost var cleared: set<Hash>

    ghost function Now(): State<S>
      reads this
    {
      State(buffer, session, deliveries, commits, handOffs, cleared)
    }

    constructor (r: Ratchet<S>, session: S)
      ensures this.r == r && s0 == session && Now() == Start(session) && Sound(r, s0, Now())
    {
      this.r, this.s0, this.session := r, session, session;
      buffer, deliveries, commits, handOffs, cleared := map[], map[], [], [], {};
    }

    /** Delivery `d` looks, and decrypts if it must. The database may refuse the lookup or the insertion. */
    method BufferedDecrypt(ghost d: nat, ciphertext: Bytes, readable: bool, saved: bool)
      returns (res: Result<Bytes, DecryptError>)
      requires Sound(r, s0, Now()) && Stands(Now(), d) == Some(Begun) && deliveries[d].ciphertext == ciphertext
      modifies this
      ensures Sound(r, s0, Now())
      ensures Now() == if readable then AfterBuffered(r, old(Now()), d, saved) else Ended(old(Now()), d)
      ensures
        var got := if readable then Obtained(r, old(buffer), old(session), ciphertext, saved) else None;
        got == if res.Ok? then Some(res.value) else None
      ensures res.Ok? ==>
        && deliveries == old(deliveries)[d := Delivery(ciphertext, Ready(res.value))]
        && buffer == old(buffer)[r.hash(ciphertext) := Some(res.value)] && r.hash(ciphertext) !in cleared
      ensures res.Err? ==> buffer == old(buffer) && deliveries == old(deliveries) - {d}
      ensures handOffs == old(handOffs)
      ensures res == Err(EventAlreadyProcessed) <==>
        readable && r.hash(ciphertext) in old(buffer) && old(buffer)[r.hash(ciphertext)] == None
    {
      if !readable {
        EndIsSound(r, s0, Now(), d);
        deliveries := deliveries - {d};
        return Err(LookupFailed);
      }
      BufferedFacts(r, s0, Now(), d, saved);
      hide Sound;
      var h := r.hash(ciphertext);
      if h in buffer {
        if buffer[h].None? {
          deliveries := deliveries - {d};
          return Err(EventAlreadyProcessed);
        }
        deliveries := deliveries[d := Delivery(ciphertext, Ready(buffer[h].value))];
        return Ok(buffer[h].value);
      }
      var decrypted := r.decrypt(session, ciphertext);
      if decrypted.Err? || !saved {
        deliveries := deliveries - {d};
        return Err(if decrypted.Err? then Signal(decrypted.error) else NotSaved);
      }
      var (plaintext, next) := decrypted.value;
      buffer, session := buffer[h := Some(plaintext)], next;
      commits := commits + [Commit(h, ciphertext, plaintext)];
      deliveries := deliveries[d := Delivery(ciphertext, Ready(plaintext))];
      return Ok(plaintext);
    }

    /** One encrypted child of a message, with no other delivery in between; `goOn` is false when the message's other
        children are left alone. */
    method DecryptChild(ghost d: nat, ciphertext: Bytes, readable: bool, saved: bool, content: Content, clears: bool)
      returns (goOn: bool)
      requires Sound(r, s0, Now()) && d !in deliveries
      modifies this
      ensures Sound(r, s0, Now()) && deliveries == old(deliveries)
      ensures
        var h := r.hash(ciphertext);
        match if readable then Obtained(r, old(buffer), old(session), ciphertext, saved) else None
        case None => handOffs == old(handOffs) && buffer == old(buffer)
        case Some(plaintext) =>
          && handOffs == (if content.Message? then old(handOffs) + [HandOff(h, plaintext, false)] else old(handOffs))
          && buffer == old(buffer)[h := if (content == NotDispatched || content == Message(true)) && clears then None
                                    else Some(plaintext)]
          && (goOn <==> content != BadPadding && content != Message(false))
    {
      StepIsSound(r, s0, Now(), Begin(d, ciphertext));
      deliveries := deliveries[d := Delivery(ciphertext, Begun)];
      hide Sound, AfterBuffered, Step, Obtained;
      var res := BufferedDecrypt(d, ciphertext, readable, saved);
      ghost var begun := Delivery(ciphertext, Begun);
      OverAndOut(old(deliveries), d, begun, if res.Ok? then deliveries[d] else begun);
      if res.Err? {
        return res.error == EventAlreadyProcessed || res.error == Signal(OldCounter);
      }
      Overwritten(old(buffer), r.hash(ciphertext), Some(res.value), None);
      goOn := FinishChild(d, ciphertext, res.value, content, clears);
    }

    /** What follows once there is a plaintext. */
    method FinishChild(ghost d: nat, ciphertext: Bytes, plaintext: Bytes, content: Content, clears: bool)
      returns (goOn: bool)
      requires Sound(r, s0, Now()) && Holds(Now(), d, Delivery(ciphertext, Ready(plaintext)))
      requires r.hash(ciphertext) in buffer && r.hash(ciphertext) !in cleared
      modifies this
      ensures Sound(r, s0, Now()) && deliveries == old(deliveries) - {d}
      ensures handOffs == if content.Message? then old(handOffs) + [HandOff(r.hash(ciphertext), plaintext, false)]
                          else old(handOffs)
      ensures buffer == if (content == NotDispatched || content == Message(true)) && clears
                        then old(buffer)[r.hash(ciphertext) := None] else old(buffer)
      ensures goOn <==> content != BadPadding && content != Message(false)
    {
      hide Sound;
      var h := r.hash(ciphertext);
      match content {
        case BadPadding =>
          StepIsSound(r, s0, Now(), End(d));
          deliveries := deliveries - {d};
          return false;
        case Malformed =>
          StepIsSound(r, s0, Now(), End(d));
          deliveries := deliveries - {d};
          return true;
        case NotDispatched =>
          StepIsSound(r, s0, Now(), PassOver(d));
        case Message(handled) =>
          StepIsSound(r, s0, Now(), Hand(d, handled));
          handOffs := handOffs + [HandOff(h, plaintext, false)];
          if !handled {
            deliveries := deliveries - {d};
            return false;
          }
      }
      deliveries := deliveries[d := Delivery(ciphertext, Handled)];
      StepIsSound(r, s0, Now(), Clear(d, clears));
      if clears {
        buffer, cleared := buffer[h := None], cleared + {h};
      }
      deliveries := deliveries - {d};
      return true;
    }
  }
}
