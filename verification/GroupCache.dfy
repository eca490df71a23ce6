/** The cached member lists of groups, edited in place as participants join and leave (group.go). */
module GroupCache {
  import opened ByteStrings
  import opened Jids

  /** Where `jid` is first found, or None. */
  function IndexIn(ms: seq<JID>, jid: JID): (r: Option<nat>)
    ensures r.Some? ==> r.value < |ms| && ms[r.value] == jid && jid !in ms[..r.value]
    ensures r.None? ==> jid !in ms
  {
    if ms == [] then None
    else if ms[0] == jid then Some(0)
    else
      match IndexIn(ms[1..], jid)
      case None => None
      case Some(i) =>
        assert ms[..i + 1] == [ms[0]] + ms[1..][..i];
        Some(i + 1)
  }

  function Join1(ms: seq<JID>, jid: JID): seq<JID> {
    if jid in ms then ms else ms + [jid]
  }

  /** The last member takes the place of the first one equal to `jid`. */
  function Leave1(ms: seq<JID>, jid: JID): seq<JID> {
    match IndexIn(ms, jid)
    case None => ms
    case Some(i) => ms[i := ms[|ms| - 1]][..|ms| - 1]
  }

  function JoinAll(ms: seq<JID>, join: seq<JID>): seq<JID>
    decreases join
  {
    if join == [] then ms else JoinAll(Join1(ms, join[0]), join[1..])
  }

  function LeaveAll(ms: seq<JID>, leave: seq<JID>): seq<JID>
    decreases leave
  {
    if leave == [] then ms else LeaveAll(Leave1(ms, leave[0]), leave[1..])
  }

  function Updated(ms: seq<JID>, join: seq<JID>, leave: seq<JID>): seq<JID> {
    LeaveAll(JoinAll(ms, join), leave)
  }

  // ---- the members after an update, for any lists

  function Less(a: nat, b: nat): nat {
    if a < b then 0 else a - b
  }

  lemma {:induction false} JoinCounts(ms: seq<JID>, join: seq<JID>, j: JID)
    ensures multiset(JoinAll(ms, join))[j] == if j in ms then multiset(ms)[j] else if j in join then 1 else 0
    decreases join
  {
    if join != [] {
      var next := Join1(ms, join[0]);
      JoinCounts(next, join[1..], j);
      assert multiset(ms + [join[0]]) == multiset(ms) + multiset{join[0]};
      assert j in join <==> j == join[0] || j in join[1..];
      assert j !in ms ==> multiset(ms)[j] == 0;
    }
  }

  lemma LeaveOnce(ms: seq<JID>, jid: JID)
    ensures multiset(Leave1(ms, jid)) == multiset(ms) - multiset{jid}
  {
    var r := IndexIn(ms, jid);
    if r.Some? {
      var i, n := r.value, |ms| - 1;
      assert ms == ms[..n] + [ms[n]];
      if i == n {
        assert ms[i := ms[n]][..n] == ms[..n];
      } else {
        assert ms[i := ms[n]][..n] == ms[..n][i := ms[n]];
      }
    }
  }

  /** The last member moves to the place of the one that leaves; all others stay where they were. */
  lemma LeaveMovesLast(ms: seq<JID>, jid: JID, i: nat, k: nat)
    requires i < |ms| && ms[i] == jid && jid !in ms[..i] && k < |ms| - 1
    ensures |Leave1(ms, jid)| == |ms| - 1 && Leave1(ms, jid)[k] == ms[if k == i then |ms| - 1 else k]
  {
    assert IndexIn(ms, jid).value == i;
  }

  /** Those who join stand at the end, in the order in which they joined. */
  lemma {:induction false} JoinAppends(ms: seq<JID>, join: seq<JID>)
    ensures ms <= JoinAll(ms, join)
    decreases join
  {
    if join != [] {
      JoinAppends(Join1(ms, join[0]), join[1..]);
    }
  }

  lemma {:induction false} LeaveCounts(ms: seq<JID>, leave: seq<JID>, j: JID)
    ensures multiset(LeaveAll(ms, leave))[j] == Less(multiset(ms)[j], multiset(leave)[j])
    decreases leave
  {
    hide Leave1;
    if leave != [] {
      LeaveOnce(ms, leave[0]);
      LeaveCounts(Leave1(ms, leave[0]), leave[1..], j);
      assert leave == [leave[0]] + leave[1..];
      assert multiset(leave) == multiset{leave[0]} + multiset(leave[1..]);
    }
  }

  /** How often each JID is listed afterwards: joining never repeats a member, leaving takes one listing each. */
  lemma UpdatedCounts(ms: seq<JID>, join: seq<JID>, leave: seq<JID>, j: JID)
    ensures multiset(Updated(ms, join, leave))[j]
         == Less(if j in ms then multiset(ms)[j] else if j in join then 1 else 0, multiset(leave)[j])
  {
    JoinCounts(ms, join, j);
    LeaveCounts(JoinAll(ms, join), leave, j);
  }

  predicate NoDuplicates(ms: seq<JID>) {
    forall i, j | 0 <= i < j < |ms| :: ms[i] != ms[j]
  }

  lemma {:induction false} NoDuplicatesCounted(ms: seq<JID>)
    ensures NoDuplicates(ms) <==> forall j :: multiset(ms)[j] <= 1
  {
    if ms != [] {
      var rest := ms[1..];
      NoDuplicatesCounted(rest);
      assert ms == [ms[0]] + rest;
      assert multiset(ms) == multiset{ms[0]} + multiset(rest);
      assert ms[0] in rest <==> multiset(rest)[ms[0]] >= 1;
      if NoDuplicates(ms) {
        forall j ensures multiset(ms)[j] <= 1 {
          assert multiset(rest)[j] <= 1;
        }
      } else if NoDuplicates(rest) {
        assert ms[0] in rest;
        assert multiset(ms)[ms[0]] == 2;
      } else {
        var j :| multiset(rest)[j] > 1;
        assert multiset(ms)[j] > 1;
      }
    }
  }

  /** The members an update is meant to leave. */
  ghost predicate MembersAre(after: seq<JID>, ms: seq<JID>, join: seq<JID>, leave: seq<JID>) {
    forall j :: j in after <==> (j in ms || j in join) && j !in leave
  }

  /** A list without duplicates keeps none and loses exactly those who leave. */
  lemma UpdateKeepsSet(ms: seq<JID>, join: seq<JID>, leave: seq<JID>)
    requires NoDuplicates(ms)
    ensures NoDuplicates(Updated(ms, join, leave))
    ensures MembersAre(Updated(ms, join, leave), ms, join, leave)
  {
    var after := Updated(ms, join, leave);
    NoDuplicatesCounted(ms);
    forall j
      ensures multiset(after)[j] <= 1
      ensures j in after <==> (j in ms || j in join) && j !in leave
    {
      UpdatedCounts(ms, join, leave, j);
      assert j in leave <==> multiset(leave)[j] >= 1;
      assert j in ms <==> multiset(ms)[j] >= 1;
      assert j in after <==> multiset(after)[j] >= 1;
    }
    NoDuplicatesCounted(after);
  }

  /** For any list: those who leave are gone if and only if each is listed no more often than it leaves. */
  lemma UpdateSetExactly(ms: seq<JID>, join: seq<JID>, leave: seq<JID>)
    ensures MembersAre(Updated(ms, join, leave), ms, join, leave)
       <==> forall j | j in leave && j in ms :: multiset(ms)[j] <= multiset(leave)[j]
  {
    var after := Updated(ms, join, leave);
    forall j
      ensures (j in after <==> (j in ms || j in join) && j !in leave)
         <==> (j in leave && j in ms ==> multiset(ms)[j] <= multiset(leave)[j])
    {
      UpdatedCounts(ms, join, leave, j);
      assert j in leave <==> multiset(leave)[j] >= 1;
      assert j in ms <==> multiset(ms)[j] >= 1;
      assert j in after <==> multiset(after)[j] >= 1;
    }
  }

  // ---- the cache

  lemma EndOfLists(join: seq<JID>, leave: seq<JID>)
    ensures join[0..] == join && leave[0..] == leave && join[|join|..] == [] && leave[|leave|..] == []
    ensures forall ms :: JoinAll(ms, []) == ms && LeaveAll(ms, []) == ms
  {}

  lemma JoinFrom(ms: seq<JID>, join: seq<JID>, i: nat)
    requires i < |join|
    ensures JoinAll(ms, join[i..]) == JoinAll(Join1(ms, join[i]), join[i + 1..])
  {
    assert join[i..][1..] == join[i + 1..];
  }

  lemma LeaveFrom(ms: seq<JID>, leave: seq<JID>, i: nat)
    requires i < |leave|
    ensures LeaveAll(ms, leave[i..]) == LeaveAll(Leave1(ms, leave[i]), leave[i + 1..])
  {
    hide Leave1;
    assert leave[i..][1..] == leave[i + 1..];
  }

  /** The member list of a cached group. */
  class GroupMembers {
    var members: seq<JID>

    constructor (jids: seq<JID>)
      ensures members == jids
    {
      members := jids;
    }

    method Join(jid: JID)
      modifies this
      ensures members == Join1(old(members), jid)
    {
      for i := 0 to |members|
        invariant members == old(members) && jid !in members[..i]
      {
        if members[i] == jid { return; }
      }
      members := members + [jid];
    }

    method Leave(jid: JID)
      modifies this
      ensures members == Leave1(old(members), jid)
    {
      for i := 0 to |members|
        invariant members == old(members) && jid !in members[..i]
      {
        if members[i] == jid {
          assert IndexIn(members, jid) == Some(i);
          var last := |members| - 1;
          members := members[i := members[last]];
          members := members[..last];
          return;
        }
      }
    }

    /** Both loops of updateGroupParticipantCache. */
    method JoinAndLeave(join: seq<JID>, leave: seq<JID>)
      modifies this
      ensures members == Updated(old(members), join, leave)
    {
      hide Join1, Leave1, JoinAll, LeaveAll;
      EndOfLists(join, leave);
      for i := 0 to |join|
        invariant JoinAll(members, join[i..]) == JoinAll(old(members), join)
      {
        JoinFrom(members, join, i);
        Join(join[i]);
      }
      for i := 0 to |leave|
        invariant LeaveAll(members, leave[i..]) == Updated(old(members), join, leave)
      {
        LeaveFrom(members, leave, i);
        Leave(leave[i]);
      }
    }
  }

  class Cache {
    var groups: map<JID, GroupMembers>

    constructor ()
      ensures groups == map[]
    {
      groups := map[];
    }

    /** No other group's list changes, whatever the event says. */
    method UpdateGroupParticipantCache(group: JID, join: seq<JID>, leave: seq<JID>)
      modifies if group in groups then {groups[group]} else {}
      ensures group in groups ==> groups[group].members == Updated(old(groups[group].members), join, leave)
      ensures group in groups && NoDuplicates(old(groups[group].members)) ==>
        && NoDuplicates(groups[group].members)
        && MembersAre(groups[group].members, old(groups[group].members), join, leave)
    {
      if group in groups && NoDuplicates(groups[group].members) {
        UpdateKeepsSet(groups[group].members, join, leave);
      }
      if |join| == 0 && |leave| == 0 { return; }
      if group !in groups { return; }
      hide NoDuplicates, MembersAre, Updated;
      groups[group].JoinAndLeave(join, leave);
    }
  }
}
