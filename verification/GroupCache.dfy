/** The cached member lists of groups (updateGroupParticipantCache, group.go:978-1007). */
module GroupCache {
  import opened Bytes
  import opened Jid

  predicate Distinct(members: seq<JID>) {
    forall i, j | 0 <= i < j < |members| :: members[i] != members[j]
  }

  function Elements(members: seq<JID>): set<JID> {
    set j | j in members
  }

  function FirstIndex(members: seq<JID>, jid: JID): (i: nat)
    ensures i <= |members| && forall k | 0 <= k < i :: members[k] != jid
    ensures i < |members| ==> members[i] == jid
  {
    if members == [] || members[0] == jid then 0 else 1 + FirstIndex(members[1..], jid)
  }

  function Join(members: seq<JID>, jid: JID): seq<JID> {
    if jid in members then members else members + [jid]
  }

  /** The last member moves into the place of the first occurrence. */
  function Leave(members: seq<JID>, jid: JID): seq<JID> {
    var i := FirstIndex(members, jid);
    if i == |members| then members else SwapWithLast(members, i)
  }

  function SwapWithLast(members: seq<JID>, i: nat): seq<JID>
    requires i < |members|
  {
    members[i := members[|members| - 1]][..|members| - 1]
  }

  function JoinAll(members: seq<JID>, jids: seq<JID>): seq<JID> {
    if jids == [] then members else Join(JoinAll(members, jids[..|jids| - 1]), jids[|jids| - 1])
  }

  function LeaveAll(members: seq<JID>, jids: seq<JID>): seq<JID> {
    if jids == [] then members else Leave(LeaveAll(members, jids[..|jids| - 1]), jids[|jids| - 1])
  }

  class GroupMeta {
    var members: seq<JID>

    constructor (members: seq<JID>)
      ensures this.members == members
    {
      this.members := members;
    }
  }

  class Client {
    var groupCache: map<JID, GroupMeta>

    constructor ()
      ensures groupCache == map[]
    {
      groupCache := map[];
    }

    method UpdateGroupParticipantCache(group: JID, join: seq<JID>, leave: seq<JID>)
      modifies if group in groupCache then {groupCache[group]} else {}
      ensures group in groupCache ==>
                groupCache[group].members == LeaveAll(JoinAll(old(groupCache[group].members), join), leave)
    {
      if |join| == 0 && |leave| == 0 {
        return;
      }
      if group !in groupCache {
        return;
      }
      var cached := groupCache[group];
      label start:
      for k := 0 to |join|
        invariant cached.members == JoinAll(old@start(cached.members), join[..k])
      {
        assert join[..k + 1][..k] == join[..k];
        var known := false;
        for i := 0 to |cached.members|
          invariant cached.members == JoinAll(old@start(cached.members), join[..k])
          invariant join[k] !in cached.members[..i] && !known
        {
          if join[k] == cached.members[i] {
            known := true;
            break;
          }
        }
        if known {
          continue;
        }
        cached.members := cached.members + [join[k]];
      }
      assert join[..|join|] == join;
      label joined:
      for k := 0 to |leave|
        invariant cached.members == LeaveAll(old@joined(cached.members), leave[..k])
      {
        assert leave[..k + 1][..k] == leave[..k];
        RemoveFirst(cached, leave[k]);
      }
      assert leave[..|leave|] == leave;
    }

    /** The inner loop over the members for one JID that leaves. */
    method RemoveFirst(cached: GroupMeta, jid: JID)
      modifies cached
      ensures cached.members == Leave(old(cached.members), jid)
    {
      var n := |cached.members|;
      for i := 0 to n
        invariant cached.members == old(cached.members) && forall k | 0 <= k < i :: cached.members[k] != jid
      {
        if cached.members[i] == jid {
          FirstIndexIs(cached.members, jid, i);
          cached.members := cached.members[i := cached.members[|cached.members| - 1]];
          cached.members := cached.members[..|cached.members| - 1];
          return;
        }
      }
    }
  }

  lemma FirstIndexIs(members: seq<JID>, jid: JID, i: nat)
    requires i < |members| && members[i] == jid && forall k | 0 <= k < i :: members[k] != jid
    ensures FirstIndex(members, jid) == i
  {
  }

  // ----- What the loops mean

  /** Leaving takes one occurrence out, wherever the others move. */
  lemma LeaveMultiset(members: seq<JID>, jid: JID)
    ensures multiset(Leave(members, jid)) == multiset(members) - multiset{jid}
  {
    var i := FirstIndex(members, jid);
    if i < |members| {
      SwapMultiset(members, i);
    } else {
      assert jid !in members;
    }
  }

  lemma SwapMultiset(members: seq<JID>, i: nat)
    requires i < |members|
    ensures multiset(SwapWithLast(members, i)) == multiset(members) - multiset{members[i]}
  {
    var init, last := members[..|members| - 1], members[|members| - 1];
    assert members == init + [last];
    if i < |init| {
      assert SwapWithLast(members, i) == init[i := last];
      assert multiset(init[i := last]) == multiset(init)[init[i] := multiset(init)[init[i]] - 1] + multiset{last};
    } else {
      assert SwapWithLast(members, i) == init;
    }
  }

  /** For any list, with or without repeats: each JID that leaves takes out one occurrence. */
  lemma {:induction false} LeaveAllMultiset(members: seq<JID>, jids: seq<JID>)
    ensures multiset(LeaveAll(members, jids)) == multiset(members) - multiset(jids)
  {
    if jids != [] {
      var before, last := jids[..|jids| - 1], jids[|jids| - 1];
      LeaveAllMultiset(members, before);
      LeaveMultiset(LeaveAll(members, before), last);
      assert jids == before + [last];
      SubtractTwice(multiset(members), multiset(before), multiset{last});
    }
  }

  lemma SubtractTwice(a: multiset<JID>, b: multiset<JID>, c: multiset<JID>)
    ensures a - b - c == a - (b + c)
  {
  }

  lemma {:induction false} JoinAllSet(members: seq<JID>, jids: seq<JID>)
    requires Distinct(members)
    ensures Distinct(JoinAll(members, jids))
    ensures Elements(JoinAll(members, jids)) == Elements(members) + Elements(jids)
  {
    if jids != [] {
      var before, last := jids[..|jids| - 1], jids[|jids| - 1];
      JoinAllSet(members, before);
      ElementsSnoc(before, last);
      assert jids == before + [last];
      ElementsSnoc(JoinAll(members, before), last);
    }
  }

  lemma ElementsSnoc(members: seq<JID>, jid: JID)
    ensures Elements(members + [jid]) == Elements(members) + {jid}
  {
  }

  lemma {:induction false} DistinctCounts(members: seq<JID>)
    ensures Distinct(members) <==> forall j :: multiset(members)[j] <= 1
  {
    if members != [] {
      var init, last := members[..|members| - 1], members[|members| - 1];
      DistinctCounts(init);
      assert members == init + [last];
      assert multiset(members)[last] == multiset(init)[last] + 1;
      if Distinct(members) {
        assert last !in init;
        assert forall j :: multiset(members)[j] == multiset(init)[j] + if j == last then 1 else 0;
      }
      if forall j :: multiset(members)[j] <= 1 {
        assert forall j :: multiset(init)[j] <= multiset(members)[j];
        assert last !in multiset(init);
        assert Distinct(members);
      }
    }
  }

  /** From a list without repeats, for any lists of joins and leaves with repeats and overlaps: no repeats
      afterwards, and exactly the members and joins that did not leave. */
  lemma UpdateIsSetUpdate(members: seq<JID>, join: seq<JID>, leave: seq<JID>)
    requires Distinct(members)
    ensures var after := LeaveAll(JoinAll(members, join), leave);
            Distinct(after) && Elements(after) == (Elements(members) + Elements(join)) - Elements(leave)
  {
    var joined := JoinAll(members, join);
    JoinAllSet(members, join);
    LeaveAllMultiset(joined, leave);
    var after := LeaveAll(joined, leave);
    DistinctCounts(joined);
    DistinctCounts(after);
    forall j ensures j in after <==> j in joined && j !in leave {
      assert j in after <==> multiset(after)[j] > 0;
      assert j in leave <==> multiset(leave)[j] > 0;
      assert j in joined <==> multiset(joined)[j] > 0;
    }
  }

  /** With repeats in the list, a member is gone exactly when it was named to leave often enough. */
  lemma GoneWhenNamedOften(members: seq<JID>, leave: seq<JID>, jid: JID)
    ensures jid !in LeaveAll(members, leave) <==> multiset(members)[jid] <= multiset(leave)[jid]
  {
    LeaveAllMultiset(members, leave);
    assert jid in LeaveAll(members, leave) <==> jid in multiset(LeaveAll(members, leave));
  }
}
