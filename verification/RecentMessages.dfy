/** The ring of recently sent messages kept for retry receipts (retry.go). */
module RecentMessages {
  import opened ByteStrings
  import opened Collections
  import opened Jids

  const RECENT_MESSAGES_SIZE := 256

  datatype Key = Key(to: JID, id: Bytes)
  datatype Added<M> = Added(key: Key, message: M)

  const NO_KEY := Key(JID([], 0, 0, 0, []), [])

  /** The map after the additions in `h`: an addition first drops the key added 256 additions ago. */
  function MapAfter<M>(h: seq<Added<M>>): map<Key, M> {
    if h == [] then map[]
    else
      var n := |h| - 1;
      Evicted(h, n, MapAfter(h[..n]))[h[n].key := h[n].message]
  }

  function Evicted<M>(h: seq<Added<M>>, n: nat, m: map<Key, M>): map<Key, M>
    requires n <= |h|
  {
    if n >= RECENT_MESSAGES_SIZE && h[n - RECENT_MESSAGES_SIZE].key.id != []
    then m - {h[n - RECENT_MESSAGES_SIZE].key}
    else m
  }

  // ---- what the map holds

  predicate LastAddedAt<M>(h: seq<Added<M>>, k: Key, p: nat) {
    p < |h| && h[p].key == k && forall q | p < q < |h| :: h[q].key != k
  }

  /** No addition of `k` is dropped from the ring after position `p`. */
  predicate Survives<M>(h: seq<Added<M>>, k: Key, p: nat) {
    k.id == [] || forall q | 0 <= q < |h| && h[q].key == k :: !(p < q + RECENT_MESSAGES_SIZE < |h|)
  }

  predicate HeldAt<M>(h: seq<Added<M>>, k: Key, p: nat) {
    LastAddedAt(h, k, p) && Survives(h, k, p)
  }

  /** A message is found if and only if no addition of its key left the ring since the last one; the one found
      is the last one added. */
  lemma {:induction false} FoundExactly<M>(h: seq<Added<M>>, k: Key)
    ensures k in MapAfter(h) <==> exists p: nat :: HeldAt(h, k, p)
    ensures forall p: nat | HeldAt(h, k, p) :: k in MapAfter(h) && MapAfter(h)[k] == h[p].message
  {
    if h != [] {
      var n := |h| - 1;
      var g := h[..n];
      FoundExactly(g, k);
      if h[n].key == k {
        assert HeldAt(h, k, n);
      } else {
        var dropped := n >= RECENT_MESSAGES_SIZE && h[n - RECENT_MESSAGES_SIZE].key == k && k.id != [];
        forall p: nat
          ensures HeldAt(h, k, p) <==> HeldAt(g, k, p) && !dropped
        {
          HeldStep(h, k, p);
        }
        assert k in MapAfter(h) <==> k in MapAfter(g) && !dropped;
      }
    }
  }

  lemma HeldStep<M>(h: seq<Added<M>>, k: Key, p: nat)
    requires h != [] && h[|h| - 1].key != k
    ensures
      var n := |h| - 1;
      var dropped := n >= RECENT_MESSAGES_SIZE && h[n - RECENT_MESSAGES_SIZE].key == k && k.id != [];
      HeldAt(h, k, p) <==> HeldAt(h[..n], k, p) && !dropped
  {
    var n := |h| - 1;
    var g := h[..n];
    if LastAddedAt(g, k, p) {
      assert forall q | p < q < |h| :: q < n ==> g[q] == h[q];
      assert LastAddedAt(h, k, p);
    }
    if LastAddedAt(h, k, p) {
      assert p < n;
      assert forall q | 0 <= q < n :: g[q] == h[q];
      assert LastAddedAt(g, k, p);
      var q := n - RECENT_MESSAGES_SIZE;
      if q >= 0 && h[q].key == k && k.id != [] {
        assert p < q + RECENT_MESSAGES_SIZE < |h|;
      }
    }
  }

  /** The keys of the last 256 additions. */
  function RecentKeys<M>(h: seq<Added<M>>): (ks: set<Key>)
    ensures |ks| <= RECENT_MESSAGES_SIZE
    ensures forall k :: k in ks <==> exists p: nat :: |h| - RECENT_MESSAGES_SIZE <= p < |h| && h[p].key == k
  {
    KeysIn(if |h| > RECENT_MESSAGES_SIZE then h[|h| - RECENT_MESSAGES_SIZE..] else h)
  }

  function KeysIn<M>(h: seq<Added<M>>): (ks: set<Key>)
    ensures |ks| <= |h|
    ensures forall k :: k in ks <==> exists p: nat :: p < |h| && h[p].key == k
  {
    if h == [] then {}
    else
      assert forall p: nat :: 0 < p < |h| ==> h[p] == h[1..][p - 1];
      KeysIn(h[1..]) + {h[0].key}
  }

  /** With message IDs, every key found is one of the last 256, and the map stays that small. */
  lemma RingBoundsMap<M>(h: seq<Added<M>>)
    requires forall p | 0 <= p < |h| :: h[p].key.id != []
    ensures MapAfter(h).Keys <= RecentKeys(h) && |MapAfter(h)| <= 256
  {
    forall k | k in MapAfter(h)
      ensures k in RecentKeys(h)
    {
      FoundExactly(h, k);
      var p: nat :| HeldAt(h, k, p);
    }
    SubsetSize(MapAfter(h).Keys, RecentKeys(h));
  }

  /** If no key is added twice, exactly the last 256 messages are found. */
  lemma DistinctKeepsLast<M>(h: seq<Added<M>>)
    requires forall p | 0 <= p < |h| :: h[p].key.id != []
    requires forall p, q | 0 <= p < q < |h| :: h[p].key != h[q].key
    ensures MapAfter(h).Keys == RecentKeys(h)
    ensures forall p: nat | |h| - 256 <= p < |h| ::
      h[p].key in MapAfter(h) && MapAfter(h)[h[p].key] == h[p].message
  {
    RingBoundsMap(h);
    forall p: nat | |h| - RECENT_MESSAGES_SIZE <= p < |h|
      ensures h[p].key in MapAfter(h) && MapAfter(h)[h[p].key] == h[p].message
    {
      FoundExactly(h, h[p].key);
      assert HeldAt(h, h[p].key, p);
    }
  }

  /** A key added again while it is in the ring is lost when its older slot is reused, though its last message is
      among the last 256. */
  lemma RepeatLostEarly<M>(h: seq<Added<M>>, q: nat, p: nat)
    requires q < p && p < q + RECENT_MESSAGES_SIZE < |h| && h[q].key.id != []
    requires h[q].key == h[p].key && LastAddedAt(h, h[p].key, p)
    ensures h[p].key !in MapAfter(h)
  {
    var k := h[p].key;
    FoundExactly(h, k);
  }

  // ---- the ring and the map

  function Slot(j: nat): (i: nat)
    ensures i < RECENT_MESSAGES_SIZE
  {
    j % RECENT_MESSAGES_SIZE
  }

  /** Within 257 consecutive positions, only the first and the last share a slot. */
  lemma SlotOf(j: nat, n: nat)
    requires n - RECENT_MESSAGES_SIZE <= j <= n
    ensures Slot(j) == Slot(n) <==> j == n || j == n - RECENT_MESSAGES_SIZE
  {}

  lemma NextSlot(n: nat)
    ensures Slot(n + 1) == if Slot(n) + 1 >= RECENT_MESSAGES_SIZE then 0 else Slot(n) + 1
    ensures n < RECENT_MESSAGES_SIZE ==> Slot(n) == n
  {}

  /** The ring holds the keys of the last 256 additions. */
  ghost predicate RingOf<M>(list: seq<Key>, h: seq<Added<M>>) {
    && |list| == RECENT_MESSAGES_SIZE
    && (forall i | |h| <= i < RECENT_MESSAGES_SIZE :: list[i] == NO_KEY)
    && forall j: nat | |h| - RECENT_MESSAGES_SIZE <= j < |h| :: list[Slot(j)] == h[j].key
  }

  /** The map after one more addition, given the key in the slot that is reused. */
  lemma MapAfterStep<M>(h: seq<Added<M>>, a: Added<M>, slot: Key)
    requires slot == if |h| >= RECENT_MESSAGES_SIZE then h[|h| - RECENT_MESSAGES_SIZE].key else NO_KEY
    ensures MapAfter(h + [a]) == (if slot.id != [] then MapAfter(h) - {slot} else MapAfter(h))[a.key := a.message]
  {
    assert (h + [a])[..|h|] == h && (h + [a])[|h|] == a;
    assert |h| >= RECENT_MESSAGES_SIZE ==> (h + [a])[|h| - RECENT_MESSAGES_SIZE] == h[|h| - RECENT_MESSAGES_SIZE];
    var before := MapAfter(h);
    assert MapAfter(h + [a]) == Evicted(h + [a], |h|, before)[a.key := a.message];
    hide MapAfter;
  }

  /** The slot reused is that of the key to drop. */
  lemma RingStep<M>(list: seq<Key>, h: seq<Added<M>>, a: Added<M>)
    requires RingOf(list, h)
    ensures
      var n := |h|;
      && list[Slot(n)] == (if n >= RECENT_MESSAGES_SIZE then h[n - RECENT_MESSAGES_SIZE].key else NO_KEY)
      && RingOf(list[Slot(n) := a.key], h + [a])
  {
    hide Slot;
    var n := |h|;
    NextSlot(n);
    forall j: nat | n - RECENT_MESSAGES_SIZE <= j <= n
      ensures Slot(j) == Slot(n) <==> j == n || j == n - RECENT_MESSAGES_SIZE
    {
      SlotOf(j, n);
    }
  }

  class RecentMessageStore<M> {
    const list: array<Key>
    var messages: map<Key, M>
    var ptr: nat
    ghost var added: seq<Added<M>>

    /** Slot `ptr` is the next one to be reused. */
    ghost predicate Valid()
      reads this, list
    {
      && list.Length == RECENT_MESSAGES_SIZE
      && ptr == Slot(|added|)
      && messages == MapAfter(added)
      && RingOf(list[..], added)
    }

    constructor ()
      ensures Valid() && added == [] && fresh(list)
    {
      list := new Key[RECENT_MESSAGES_SIZE](i => NO_KEY);
      messages, ptr, added := map[], 0, [];
    }

    method AddRecentMessage(to: JID, id: Bytes, message: M)
      requires Valid()
      modifies this, list
      ensures Valid() && added == old(added) + [Added(Key(to, id), message)]
      ensures messages == MapAfter(added)
    {
      var key := Key(to, id);
      ghost var a := Added(key, message);
      hide MapAfter, Evicted, Slot, RingOf;
      RingStep(list[..], added, a);
      NextSlot(|added|);
      MapAfterStep(added, a, list[ptr]);
      if list[ptr].id != [] {
        messages := messages - {list[ptr]};
      }
      messages := messages[key := message];
      list[ptr] := key;
      assert list[..] == old(list[..])[ptr := key];
      ptr := ptr + 1;
      if ptr >= list.Length {
        ptr := 0;
      }
      added := added + [a];
    }

    method GetRecentMessage(to: JID, id: Bytes) returns (r: Option<M>)
      requires Valid()
      ensures r.Some? <==> exists p: nat :: HeldAt(added, Key(to, id), p)
      ensures forall p: nat | HeldAt(added, Key(to, id), p) :: r == Some(added[p].message)
    {
      FoundExactly(added, Key(to, id));
      r := if Key(to, id) in messages then Some(messages[Key(to, id)]) else None;
    }
  }
}
