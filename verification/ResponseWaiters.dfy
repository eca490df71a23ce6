/** The table of response waiters (request.go): which node reaches which channel, in every interleaving. */
module ResponseWaiters {
  import opened ByteStrings

  type RequestId = Bytes

  datatype Delivery<N> = Response(id: RequestId, node: N) | Disconnected(node: N)

  /** A channel with room for one node, the request it was made for, and all it was ever sent. */
  datatype Chan<N> = Chan(id: RequestId, closed: bool, queue: seq<N>, sent: seq<Delivery<N>>)

  /** What a receiver holds between taking a waiter out of the table and sending to it. */
  datatype Held<N> = Held(ch: nat, id: RequestId, node: N)

  /** Channels are named by their position in `chans`, receivers by numbers of their own. */
  datatype State<N> = State(waiters: map<RequestId, nat>, chans: seq<Chan<N>>, held: map<nat, Held<N>>)

  /** Each event happens at one point: the parts under the lock, a send, a receive from a channel. */
  datatype Event<N> =
    | Wait(id: RequestId)
    | Cancel(ch: nat)
    | TakeWaiter(receiver: nat, id: RequestId, node: N)
    | Send(receiver: nat)
    | GiveUp(receiver: nat)
    | Take(ch: nat)
    | Clear(node: N)

  /** `Disabled` marks events that cannot happen in a state, such as a second send of one receiver. */
  datatype Outcome<N> = Next(st: State<N>) | Panics | Blocks | Disabled

  // ---- the steps

  function Waited<N>(st: State<N>, id: RequestId): State<N> {
    st.(chans := st.chans + [Chan(id, false, [], [])], waiters := st.waiters[id := |st.chans|])
  }

  function Cancelled<N>(st: State<N>, ch: nat): Outcome<N>
    requires ch < |st.chans|
  {
    var c := st.chans[ch];
    if c.closed then Panics
    else Next(st.(chans := st.chans[ch := c.(closed := true)], waiters := st.waiters - {c.id}))
  }

  function WaiterTaken<N>(st: State<N>, r: nat, id: RequestId, node: N): State<N> {
    if id !in st.waiters then st
    else st.(waiters := st.waiters - {id}, held := st.held[r := Held(st.waiters[id], id, node)])
  }

  function Sent<N>(st: State<N>, r: nat): Outcome<N>
    requires r in st.held && st.held[r].ch < |st.chans|
  {
    var h := st.held[r];
    var c := st.chans[h.ch];
    if c.closed then Panics
    else if |c.queue| >= 1 then Blocks
    else Next(st.(chans := st.chans[h.ch := c.(queue := [h.node], sent := c.sent + [Response(h.id, h.node)])],
        held := st.held - {r}))
  }

  /** A waiter with room gets the node, a full one is closed. */
  function Notified<N>(c: Chan<N>, node: N): Chan<N> {
    if |c.queue| == 0 then c.(queue := [node], sent := c.sent + [Disconnected(node)]) else c.(closed := true)
  }

  function NotifiedAll<N>(chans: seq<Chan<N>>, waiting: set<nat>, node: N): (r: seq<Chan<N>>)
    ensures |r| == |chans|
  {
    seq(|chans|, i requires 0 <= i < |chans| => if i in waiting then Notified(chans[i], node) else chans[i])
  }

  function Cleared<N>(st: State<N>, node: N): Outcome<N>
    requires forall id <- st.waiters :: st.waiters[id] < |st.chans|
  {
    if exists id <- st.waiters :: st.chans[st.waiters[id]].closed then Panics
    else Next(st.(chans := NotifiedAll(st.chans, st.waiters.Values, node), waiters := map[]))
  }

  ghost predicate NamesExist<N>(st: State<N>) {
    && (forall id <- st.waiters :: st.waiters[id] < |st.chans|)
    && forall r <- st.held :: st.held[r].ch < |st.chans|
  }

  ghost function Step<N>(st: State<N>, e: Event<N>): Outcome<N>
    requires NamesExist(st)
  {
    match e
    case Wait(id) => Next(Waited(st, id))
    case Cancel(ch) => if ch >= |st.chans| then Disabled else Cancelled(st, ch)
    case TakeWaiter(r, id, node) => if r in st.held then Disabled else Next(WaiterTaken(st, r, id, node))
    case Send(r) => if r !in st.held then Disabled else Sent(st, r)
    case GiveUp(r) => if r !in st.held then Disabled else Next(st.(held := st.held - {r}))
    case Take(ch) =>
      if ch >= |st.chans| || st.chans[ch].queue == [] then Disabled
      else Next(st.(chans := st.chans[ch := st.chans[ch].(queue := st.chans[ch].queue[1..])]))
    case Clear(node) => Cleared(st, node)
  }

  // ---- what every step keeps

  ghost predicate Unused<N>(c: Chan<N>) {
    c.queue == [] && c.sent == []
  }

  /** A channel in the table is open and was sent nothing; it is the last one made for its request. */
  ghost predicate WaiterSound<N>(st: State<N>, id: RequestId)
    requires id in st.waiters
  {
    var ch := st.waiters[id];
    && ch < |st.chans|
    && st.chans[ch].id == id && !st.chans[ch].closed && Unused(st.chans[ch])
    && forall i | ch < i < |st.chans| :: st.chans[i].id != id
  }

  /** A channel taken out of the table was sent nothing, and no other receiver has it. */
  ghost predicate HeldSound<N>(st: State<N>, r: nat)
    requires r in st.held
  {
    var h := st.held[r];
    && h.ch < |st.chans|
    && st.chans[h.ch].id == h.id && Unused(st.chans[h.ch])
    && (h.id in st.waiters ==> st.waiters[h.id] != h.ch)
    && forall r' <- st.held :: st.held[r'].ch == h.ch ==> r' == r
  }

  /** At most one node was ever sent, and a response only for the channel's own request. */
  ghost predicate ChanSound<N>(c: Chan<N>) {
    && |c.sent| <= 1
    && (c.queue != [] ==> |c.sent| == 1 && c.queue == [c.sent[0].node])
    && forall d <- c.sent :: d.Response? ==> d.id == c.id
  }

  ghost predicate Sound<N>(st: State<N>) {
    && (forall id <- st.waiters :: WaiterSound(st, id))
    && (forall r <- st.held :: HeldSound(st, r))
    && forall i | 0 <= i < |st.chans| :: ChanSound(st.chans[i])
  }

  ghost predicate Misused<N>(st: State<N>, e: Event<N>) {
    match e
    case Cancel(ch) => ch < |st.chans| && st.chans[ch].closed
    case Send(r) => r in st.held && st.held[r].ch < |st.chans| && st.chans[st.held[r].ch].closed
    case _ => false
  }

  /** Channels that the event closes. */
  ghost predicate ClosedBy<N>(st: State<N>, st': State<N>, e: Event<N>) {
    && |st.chans| <= |st'.chans|
    && forall i: nat | i < |st'.chans| :: st'.chans[i].closed
        <==> (i < |st.chans| && st.chans[i].closed) || e == Cancel(i)
  }

  /** A step keeps all this, blocks on no channel, panics only when a closed channel is closed again or sent to, and
      closes nothing but the channel cancelled. */
  lemma StepIsSound<N>(st: State<N>, e: Event<N>)
    requires Sound(st)
    ensures NamesExist(st)
    ensures Step(st, e) != Blocks
    ensures Step(st, e) == Panics <==> Misused(st, e)
    ensures Step(st, e).Next? ==> Sound(Step(st, e).st) && ClosedBy(st, Step(st, e).st, e)
  {
    assert NamesExist(st) by { NamesOfSound(st); }
    hide WaiterSound, HeldSound, ChanSound;
    match e {
      case Wait(id) => WaitIsSound(st, id);
      case Cancel(ch) => if ch < |st.chans| { CancelIsSound(st, ch); }
      case TakeWaiter(r, id, node) => if r !in st.held { TakeIsSound(st, r, id, node); }
      case Send(r) => if r in st.held { SendIsSound(st, r); }
      case GiveUp(r) => if r in st.held { GiveUpIsSound(st, r); }
      case Take(ch) => if ch < |st.chans| && st.chans[ch].queue != [] { TakeOutIsSound(st, ch); }
      case Clear(node) => ClearIsSound(st, node);
    }
  }

  lemma NamesOfSound<N>(st: State<N>)
    requires Sound(st)
    ensures NamesExist(st)
  {
    assert forall id <- st.waiters :: WaiterSound(st, id);
    assert forall r <- st.held :: HeldSound(st, r);
  }

  lemma WaitIsSound<N>(st: State<N>, id: RequestId)
    requires Sound(st)
    ensures Sound(Waited(st, id)) && ClosedBy(st, Waited(st, id), Wait(id))
  {
    var next := Waited(st, id);
    forall id' <- next.waiters
      ensures WaiterSound(next, id')
    {
      if id' != id { assert WaiterSound(st, id'); }
    }
    forall r <- next.held
      ensures HeldSound(next, r)
    {
      assert HeldSound(st, r);
    }
  }

  lemma CancelIsSound<N>(st: State<N>, ch: nat)
    requires Sound(st) && ch < |st.chans|
    ensures Cancelled(st, ch).Next? ==> Sound(Cancelled(st, ch).st) && ClosedBy(st, Cancelled(st, ch).st, Cancel(ch))
  {
    if !st.chans[ch].closed {
      var next := Cancelled(st, ch).st;
      forall id <- next.waiters
        ensures WaiterSound(next, id)
      {
        assert WaiterSound(st, id);
      }
      forall r <- next.held
        ensures HeldSound(next, r)
      {
        assert HeldSound(st, r);
      }
    }
  }

  lemma TakeIsSound<N>(st: State<N>, r: nat, id: RequestId, node: N)
    requires Sound(st) && r !in st.held
    ensures var next := WaiterTaken(st, r, id, node); Sound(next) && ClosedBy(st, next, TakeWaiter(r, id, node))
  {
    if id in st.waiters {
      var next := WaiterTaken(st, r, id, node);
      assert WaiterSound(st, id);
      forall id' <- next.waiters
        ensures WaiterSound(next, id')
      {
        assert WaiterSound(st, id');
      }
      forall r' <- st.held
        ensures HeldSound(next, r') && st.held[r'].ch != st.waiters[id]
      {
        assert HeldSound(st, r');
      }
      assert HeldSound(next, r);
    }
  }

  lemma SendIsSound<N>(st: State<N>, r: nat)
    requires Sound(st) && NamesExist(st) && r in st.held
    ensures Sent(st, r) != Blocks
    ensures Sent(st, r).Next? ==> Sound(Sent(st, r).st) && ClosedBy(st, Sent(st, r).st, Send(r))
  {
    assert HeldSound(st, r);
    if Sent(st, r).Next? {
      var next := Sent(st, r).st;
      forall id <- next.waiters
        ensures WaiterSound(next, id)
      {
        assert WaiterSound(st, id);
      }
      forall r' <- next.held
        ensures HeldSound(next, r')
      {
        assert HeldSound(st, r');
      }
    }
  }

  lemma GiveUpIsSound<N>(st: State<N>, r: nat)
    requires Sound(st) && r in st.held
    ensures var next := st.(held := st.held - {r}); Sound(next) && ClosedBy(st, next, GiveUp(r))
  {
    var next := st.(held := st.held - {r});
    assert forall id <- next.waiters :: WaiterSound(st, id) && WaiterSound(next, id);
    assert forall r' <- next.held :: HeldSound(st, r') && HeldSound(next, r');
  }

  lemma TakeOutIsSound<N>(st: State<N>, ch: nat)
    requires Sound(st) && ch < |st.chans| && st.chans[ch].queue != []
    ensures
      var next := st.(chans := st.chans[ch := st.chans[ch].(queue := st.chans[ch].queue[1..])]);
      Sound(next) && ClosedBy(st, next, Take(ch))
  {
    var next := st.(chans := st.chans[ch := st.chans[ch].(queue := st.chans[ch].queue[1..])]);
    assert forall id <- next.waiters :: WaiterSound(st, id) && WaiterSound(next, id);
    assert forall r <- next.held :: HeldSound(st, r) && HeldSound(next, r);
  }

  lemma ClearIsSound<N>(st: State<N>, node: N)
    requires Sound(st) && NamesExist(st)
    ensures Cleared(st, node).Next?
    ensures Sound(Cleared(st, node).st) && ClosedBy(st, Cleared(st, node).st, Clear(node))
  {
    forall id <- st.waiters
      ensures !st.chans[st.waiters[id]].closed && Unused(st.chans[st.waiters[id]])
    {
      assert WaiterSound(st, id);
    }
    var next := Cleared(st, node).st;
    forall r <- next.held
      ensures HeldSound(next, r)
    {
      assert HeldSound(st, r);
      var ch := st.held[r].ch;
      forall id <- st.waiters
        ensures st.waiters[id] != ch
      {
        assert WaiterSound(st, id);
      }
    }
  }

  /** A receive with nothing between its halves cannot fail. */
  lemma ReceiveAtOnce<N>(st: State<N>, r: nat, id: RequestId, node: N)
    requires Sound(st) && r !in st.held && id in st.waiters
    ensures st.waiters[id] < |st.chans| && NamesExist(st)
    ensures
      var ch, held := st.waiters[id], WaiterTaken(st, r, id, node);
      var given := st.chans[ch].(queue := [node], sent := [Response(id, node)]);
      && Step(st, TakeWaiter(r, id, node)) == Next(held) && NamesExist(held)
      && Step(held, Send(r)) == Next(State(st.waiters - {id}, st.chans[ch := given], st.held))
  {
    assert WaiterSound(st, id);
    StepIsSound(st, TakeWaiter(r, id, node));
    NamesOfSound(WaiterTaken(st, r, id, node));
    var c := st.chans[st.waiters[id]];
    assert c.sent + [Response(id, node)] == [Response(id, node)];
    assert st.held[r := Held(st.waiters[id], id, node)] - {r} == st.held;
  }

  lemma NothingTaken<N>(st: State<N>, r: nat, id: RequestId, node: N)
    requires Sound(st) && r !in st.held && id !in st.waiters
    ensures NamesExist(st) && Step(st, TakeWaiter(r, id, node)) == Next(st)
  {
    NamesOfSound(st);
  }

  lemma ClearStep<N>(st: State<N>, node: N)
    requires Sound(st)
    ensures NamesExist(st)
    ensures Step(st, Clear(node)) == Next(st.(chans := NotifiedAll(st.chans, st.waiters.Values, node),
        waiters := map[]))
    ensures Sound(Step(st, Clear(node)).st)
  {
    NamesOfSound(st);
    ClearIsSound(st, node);
    hide Sound, NotifiedAll;
  }

  /** Clearing gives the node to every waiter, leaves all other channels alone and empties the table. */
  lemma ClearNotifies<N>(st: State<N>, node: N)
    requires Sound(st)
    ensures NamesExist(st) && Step(st, Clear(node)).Next?
    ensures
      var next := Step(st, Clear(node)).st;
      && next.waiters == map[] && next.held == st.held && |next.chans| == |st.chans|
      && (forall id <- st.waiters ::
            && st.waiters[id] < |next.chans|
            && next.chans[st.waiters[id]] == Chan(id, false, [node], [Disconnected(node)]))
      && forall ch | 0 <= ch < |st.chans| && ch !in st.waiters.Values :: next.chans[ch] == st.chans[ch]
  {
    ClearStep(st, node);
    var next := Step(st, Clear(node)).st;
    hide Sound, Step;
    forall id <- st.waiters
      ensures st.waiters[id] < |next.chans|
      ensures next.chans[st.waiters[id]] == Chan(id, false, [node], [Disconnected(node)])
    {
      WaiterIsFresh(st, id);
    }
  }

  lemma WaiterIsFresh<N>(st: State<N>, id: RequestId)
    requires Sound(st) && id in st.waiters
    ensures st.waiters[id] < |st.chans| && st.chans[st.waiters[id]] == Chan(id, false, [], [])
  {
    assert WaiterSound(st, id);
  }

  // ---- whole runs

  /** The outcome of the events, in order, from an empty table. */
  ghost function Run<N>(events: seq<Event<N>>): (o: Outcome<N>)
    ensures o.Next? ==> Sound(o.st)
    decreases |events|
  {
    if events == [] then Next(State(map[], [], map[]))
    else
      match Run(events[..|events| - 1])
      case Next(st) =>
        StepIsSound(st, events[|events| - 1]);
        Step(st, events[|events| - 1])
      case stopped => stopped
  }

  /** The channel cancelled was cancelled before, or the one sent to was cancelled since it was taken. */
  ghost predicate TooLate<N>(before: seq<Event<N>>, st: State<N>, e: Event<N>) {
    match e
    case Cancel(_) => e in before
    case Send(r) => r in st.held && Cancel(st.held[r].ch) in before
    case _ => false
  }

  ghost predicate TooLateAt<N>(events: seq<Event<N>>, i: nat) {
    i < |events| && Run(events[..i]).Next? && TooLate(events[..i], Run(events[..i]).st, events[i])
  }

  /** Only cancelling closes a channel: clearing never finds one full. */
  lemma {:induction false} ClosedExactly<N>(events: seq<Event<N>>)
    requires Run(events).Next?
    ensures forall i: nat | i < |Run(events).st.chans| :: Run(events).st.chans[i].closed <==> Cancel(i) in events
    ensures forall i: nat | Cancel(i) in events :: i < |Run(events).st.chans|
    decreases |events|
  {
    if events != [] {
      var n := |events| - 1;
      var before, e := events[..n], events[n];
      assert events == before + [e];
      ClosedExactly(before);
      StepIsSound(Run(before).st, e);
    }
  }

  lemma LateIsMisuse<N>(events: seq<Event<N>>, e: Event<N>)
    requires Run(events).Next?
    ensures Misused(Run(events).st, e) <==> TooLate(events, Run(events).st, e)
  {
    var st := Run(events).st;
    ClosedExactly(events);
    hide Run;
    if e.Send? && e.receiver in st.held {
      assert HeldSound(st, e.receiver);
    }
  }

  /** No send ever blocks, and a run panics if and only if some channel is cancelled twice, or is cancelled while a
      receiver holds it and then sent to. */
  lemma {:induction false} PanicsExactly<N>(events: seq<Event<N>>)
    ensures Run(events) != Blocks
    ensures Run(events) == Panics <==> exists i: nat :: TooLateAt(events, i)
    decreases |events|
  {
    if events != [] {
      var n := |events| - 1;
      PanicsExactly(events[..n]);
      LastPanics(events);
      forall i: nat
        ensures TooLateAt(events, i) <==> TooLateAt(events[..n], i) || (i == n && TooLateAt(events, n))
      {
        assert i <= n ==> events[..n][..i] == events[..i];
      }
      hide TooLateAt, Run;
    }
  }

  lemma LastPanics<N>(events: seq<Event<N>>)
    requires events != []
    ensures
      var n := |events| - 1;
      && (Run(events[..n]) != Blocks ==> Run(events) != Blocks)
      && (Run(events) == Panics <==> Run(events[..n]) == Panics || TooLateAt(events, n))
  {
    var n := |events| - 1;
    if Run(events[..n]).Next? {
      StepIsSound(Run(events[..n]).st, events[n]);
      LateIsMisuse(events[..n], events[n]);
      hide Step, TooLate, Misused, Sound;
    }
  }

  /** No channel is cancelled twice, and none while a receiver holds it. */
  ghost predicate Orderly<N>(events: seq<Event<N>>)
    decreases |events|
  {
    events == [] ||
    (var n := |events| - 1;
     && Orderly(events[..n])
     && (events[n].Cancel? && Run(events[..n]).Next? ==>
          && events[n] !in events[..n]
          && forall r <- Run(events[..n]).st.held :: Run(events[..n]).st.held[r].ch != events[n].ch))
  }

  ghost predicate HeldOpen<N>(st: State<N>) {
    forall r <- st.held :: st.held[r].ch < |st.chans| && !st.chans[st.held[r].ch].closed
  }

  lemma HeldStaysOpen<N>(st: State<N>, e: Event<N>)
    requires Sound(st) && NamesExist(st) && HeldOpen(st) && Step(st, e).Next? && ClosedBy(st, Step(st, e).st, e)
    requires e.Cancel? ==> forall r <- st.held :: st.held[r].ch != e.ch
    ensures HeldOpen(Step(st, e).st)
  {
    var next := Step(st, e).st;
    forall r <- next.held
      ensures next.held[r].ch < |next.chans| && !next.chans[next.held[r].ch].closed
    {
      if r !in st.held {
        assert WaiterSound(st, next.held[r].id);
      }
    }
  }

  lemma {:induction false} OrderlyNeverPanics<N>(events: seq<Event<N>>)
    requires Orderly(events)
    ensures Run(events) != Panics && Run(events) != Blocks
    ensures Run(events).Next? ==> HeldOpen(Run(events).st)
    decreases |events|
  {
    if events != [] {
      var n := |events| - 1;
      var before, e := events[..n], events[n];
      OrderlyNeverPanics(before);
      if Run(before).Next? {
        var st := Run(before).st;
        ClosedExactly(before);
        StepIsSound(st, e);
        hide Run;
        if Step(st, e).Next? {
          HeldStaysOpen(st, e);
        }
      }
    }
  }

  // ---- the client

  class Waiters<N> {
    var waiters: map<RequestId, nat>
    var channels: seq<Chan<N>>
    /** What receivers hold in local variables between their two halves. */
    ghost var held: map<nat, Held<N>>

    ghost function Now(): State<N>
      reads this
    {
      State(waiters, channels, held)
    }

    constructor ()
      ensures Next(Now()) == Run<N>([])
    {
      waiters, channels, held := map[], [], map[];
    }

    method WaitResponse(reqID: RequestId) returns (ch: nat)
      requires Sound(Now())
      modifies this
      ensures Next(Now()) == Step(old(Now()), Wait(reqID)) && Sound(Now())
      ensures ch == |old(channels)| && waiters == old(waiters)[reqID := ch] && held == old(held)
      ensures channels == old(channels) + [Chan(reqID, false, [], [])]
    {
      StepIsSound(Now(), Wait(reqID));
      ch := |channels|;
      channels := channels + [Chan(reqID, false, [], [])];
      waiters := waiters[reqID := ch];
    }

    /** `ok == false` stands for a panic: the channel was closed before. */
    method CancelResponse(reqID: RequestId, ch: nat) returns (ok: bool)
      requires Sound(Now()) && ch < |channels| && channels[ch].id == reqID
      modifies this
      ensures Step(old(Now()), Cancel(ch)) == if ok then Next(Now()) else Panics
      ensures ok ==> Sound(Now())
      ensures ok <==> !old(channels)[ch].closed
      ensures ok ==> waiters == old(waiters) - {reqID} && held == old(held)
      ensures ok ==> channels == old(channels)[ch := old(channels)[ch].(closed := true)]
    {
      StepIsSound(Now(), Cancel(ch));
      if channels[ch].closed { return false; }
      channels := channels[ch := channels[ch].(closed := true)];
      waiters := waiters - {reqID};
      return true;
    }

    /** The first half of receiveResponse, under the lock. */
    method TakeWaiterFor(ghost receiver: nat, id: RequestId, ghost node: N) returns (ch: Option<nat>)
      requires Sound(Now()) && receiver !in held
      modifies this
      ensures Next(Now()) == Step(old(Now()), TakeWaiter(receiver, id, node)) && Sound(Now())
      ensures ch == if id in old(waiters) then Some(old(waiters)[id]) else None
      ensures waiters == old(waiters) - {id} && channels == old(channels)
      ensures held == if ch.Some? then old(held)[receiver := Held(ch.value, id, node)] else old(held)
    {
      StepIsSound(Now(), TakeWaiter(receiver, id, node));
      if id !in waiters { return None; }
      ch := Some(waiters[id]);
      held := held[receiver := Held(waiters[id], id, node)];
      waiters := waiters - {id};
    }

    /** The second half, when the context is not done. */
    method SendTo(ghost receiver: nat, ch: nat, id: RequestId, node: N) returns (ok: bool)
      requires Sound(Now()) && receiver in held && held[receiver] == Held(ch, id, node)
      modifies this
      ensures Step(old(Now()), Send(receiver)) == if ok then Next(Now()) else Panics
      ensures ok ==> Sound(Now())
      ensures ch < |old(channels)| && (ok <==> !old(channels)[ch].closed)
      ensures ok ==> waiters == old(waiters) && held == old(held) - {receiver}
      ensures ok ==> channels == old(channels)[ch := old(channels)[ch].(queue := [node], sent := [Response(id, node)])]
    {
      StepIsSound(Now(), Send(receiver));
      assert HeldSound(Now(), receiver);
      if channels[ch].closed { return false; }
      assert channels[ch].queue + [node] == [node];
      var c := channels[ch];
      assert c.sent + [Response(id, node)] == [Response(id, node)];
      channels := channels[ch := c.(queue := c.queue + [node], sent := c.sent + [Response(id, node)])];
      held := held - {receiver};
      return true;
    }

    /** Both halves with nothing in between: the latest waiter for the node's id gets it, and the send cannot fail. */
    method ReceiveResponse(ghost receiver: nat, id: Option<RequestId>, isResponse: bool, node: N, contextDone: bool)
      returns (handled: bool)
      requires Sound(Now()) && receiver !in held
      modifies this
      ensures Sound(Now()) && (handled <==> isResponse && id.Some? && id.value in old(waiters))
      ensures !handled ==> Now() == old(Now())
      ensures handled ==> waiters == old(waiters) - {id.value} && held == old(held)
      ensures handled ==>
        var ch := old(waiters)[id.value];
        && ch < |old(channels)|
        && channels == if contextDone then old(channels)
                       else old(channels)[ch := old(channels)[ch].(queue := [node], sent := [Response(id.value, node)])]
    {
      if id.None? || !isResponse { return false; }
      if id.value in waiters {
        ReceiveAtOnce(Now(), receiver, id.value, node);
      } else {
        NothingTaken(Now(), receiver, id.value, node);
      }
      hide Sound, Step;
      var ch := TakeWaiterFor(receiver, id.value, node);
      if ch.None? { return false; }
      if contextDone {
        GiveUpIsSound(Now(), receiver);
        held := held - {receiver};
        return true;
      }
      var ok := SendTo(receiver, ch.value, id.value, node);
      return true;
    }

    /** Never panics, and closes no channel. */
    method ClearResponseWaiters(node: N)
      requires Sound(Now())
      modifies this
      ensures Next(Now()) == Step(old(Now()), Clear(node)) && Sound(Now())
      ensures waiters == map[] && held == old(held) && |channels| == |old(channels)|
      ensures forall id <- old(waiters) ::
        var ch := old(waiters)[id];
        ch < |channels| && channels[ch] == Chan(id, false, [node], [Disconnected(node)])
      ensures forall ch | 0 <= ch < |channels| && ch !in old(waiters).Values :: channels[ch] == old(channels)[ch]
    {
      ClearStep(Now(), node);
      ClearNotifies(Now(), node);
      ghost var st := Now();
      var todo := waiters.Keys;
      ghost var done: set<nat> := {};
      assert NotifiedAll(channels, done, node) == channels;
      hide Step;
      while todo != {}
        invariant todo <= st.waiters.Keys && waiters == st.waiters && held == st.held
        invariant channels == NotifiedAll(st.chans, done, node)
        invariant done == set id | id in st.waiters && id !in todo :: st.waiters[id]
        decreases todo
      {
        var id :| id in todo;
        var ch := waiters[id];
        assert WaiterSound(st, id);
        forall id' <- st.waiters
          ensures st.waiters[id'] == ch ==> id' == id
        {
          assert WaiterSound(st, id');
        }
        if |channels[ch].queue| == 0 {
          channels := channels[ch := channels[ch].(queue := [node], sent := channels[ch].sent + [Disconnected(node)])];
        } else {
          // A full channel would be closed here; none is.
          assert false;
        }
        todo := todo - {id};
        done := done + {ch};
      }
      assert done == st.waiters.Values;
      waiters := map[];
    }
  }
}
