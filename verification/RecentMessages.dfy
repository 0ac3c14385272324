/** The ring of recently sent messages with its map (retry.go:78-97). */
module RecentMessages {
  import opened Bytes
  import opened Jid

  const SIZE := 256

  datatype Key = Key(to: JID, id: Bytes)

  /** A sent message with the key it is looked up by. */
  datatype Sent = Sent(key: Key, message: Bytes)

  const NoKey := Key(JID([], 0, 0, 0, []), [])

  datatype Ring = Ring(list: seq<Key>, ptr: nat, entries: map<Key, Bytes>)

  function EmptyRing(): Ring {
    Ring(seq(SIZE, _ => NoKey), 0, map[])
  }

  predicate Shaped(r: Ring) {
    |r.list| == SIZE && r.ptr < SIZE
  }

  function Add(r: Ring, s: Sent): (r': Ring)
    requires Shaped(r)
    ensures Shaped(r')
  {
    Ring(r.list[r.ptr := s.key], if r.ptr + 1 >= SIZE then 0 else r.ptr + 1,
         Evict(r.entries, r.list[r.ptr])[s.key := s.message])
  }

  /** An empty ID marks a slot that was never used. */
  function Evict(entries: map<Key, Bytes>, key: Key): map<Key, Bytes> {
    if key.id != [] then entries - {key} else entries
  }

  function AddAll(sends: seq<Sent>): (r: Ring)
    ensures Shaped(r)
  {
    if sends == [] then EmptyRing() else Add(AddAll(sends[..|sends| - 1]), sends[|sends| - 1])
  }

  class Client {
    var recentMessagesMap: map<Key, Bytes>
    var recentMessagesList: array<Key>
    var recentMessagesPtr: nat

    predicate Valid()
      reads this, recentMessagesList
    {
      Shaped(State())
    }

    function State(): Ring
      reads this, recentMessagesList
    {
      Ring(recentMessagesList[..], recentMessagesPtr, recentMessagesMap)
    }

    constructor ()
      ensures Valid() && State() == EmptyRing() && fresh(recentMessagesList)
    {
      recentMessagesMap, recentMessagesPtr := map[], 0;
      recentMessagesList := new Key[SIZE](_ => NoKey);
      new;
      assert recentMessagesList[..] == EmptyRing().list;
    }

    /** addRecentMessage, after the persistent retry store */
    method AddRecentMessage(to: JID, id: Bytes, message: Bytes)
      requires Valid()
      modifies this`recentMessagesMap, this`recentMessagesPtr, recentMessagesList
      ensures Valid() && State() == Add(old(State()), Sent(Key(to, id), message))
    {
      var key := Key(to, id);
      if recentMessagesList[recentMessagesPtr].id != [] {
        recentMessagesMap := recentMessagesMap - {recentMessagesList[recentMessagesPtr]};
      }
      recentMessagesMap := recentMessagesMap[key := message];
      recentMessagesList[recentMessagesPtr] := key;
      recentMessagesPtr := recentMessagesPtr + 1;
      if recentMessagesPtr >= recentMessagesList.Length {
        recentMessagesPtr := 0;
      }
    }

    method GetRecentMessage(to: JID, id: Bytes) returns (message: Option<Bytes>)
      ensures message == Lookup(recentMessagesMap, Key(to, id))
    {
      message := if Key(to, id) in recentMessagesMap then Some(recentMessagesMap[Key(to, id)]) else None;
    }
  }

  // ----- What is found after any number of sends

  function LastSend(sends: seq<Sent>, key: Key): (j: Option<nat>)
    ensures j.Some? ==> j.value < |sends| && sends[j.value].key == key
    ensures forall i | 0 <= i < |sends| && (j.None? || j.value < i) :: sends[i].key != key
  {
    if sends == [] then None
    else if sends[|sends| - 1].key == key then Some(|sends| - 1)
    else LastSend(sends[..|sends| - 1], key)
  }

  /** Send i leaves the ring at send i + 256, and the map loses its key then, unless the ID is empty: an earlier
      send of the key of send j takes the entry of send j along. */
  predicate Evicted(sends: seq<Sent>, j: nat)
    requires j < |sends|
  {
    sends[j].key.id != [] && exists i | 0 <= i <= j :: sends[i].key == sends[j].key && j < i + SIZE < |sends|
  }

  /** The reference: the message of the last send of a key, unless it was evicted. */
  function Found(sends: seq<Sent>, key: Key): Option<Bytes> {
    var j := LastSend(sends, key);
    if j.None? || Evicted(sends, j.value) then None else Some(sends[j.value].message)
  }

  /** The slots hold the keys of the last 256 sends. */
  lemma {:induction false} SlotsHoldLast(sends: seq<Sent>)
    ensures AddAll(sends).ptr == |sends| % SIZE
    ensures forall i | 0 <= i < |sends| && |sends| <= i + SIZE :: AddAll(sends).list[i % SIZE] == sends[i].key
    ensures forall p | |sends| <= p < SIZE :: AddAll(sends).list[p] == NoKey
  {
    if sends != [] {
      var before, n := sends[..|sends| - 1], |sends| - 1;
      SlotsHoldLast(before);
      NextSlot(n);
      forall i | 0 <= i < |sends| && |sends| <= i + SIZE ensures AddAll(sends).list[i % SIZE] == sends[i].key {
        if i < n {
          SlotsDiffer(i, n);
          assert before[i] == sends[i];
        }
      }
    }
  }

  lemma NextSlot(n: nat)
    ensures (n + 1) % SIZE == if n % SIZE + 1 >= SIZE then 0 else n % SIZE + 1
  {
  }

  lemma SlotsDiffer(i: nat, n: nat)
    requires i < n < i + SIZE
    ensures i % SIZE != n % SIZE
  {
  }

  /** Exactly: a lookup finds the message of the last send of the key if that send has not been evicted,
      and nothing otherwise, whatever was sent how often and with or without an ID. */
  lemma {:induction false} LookupAfterSends(sends: seq<Sent>, key: Key)
    ensures Lookup(AddAll(sends).entries, key) == Found(sends, key)
  {
    if sends != [] {
      var before, n := sends[..|sends| - 1], |sends| - 1;
      LookupAfterSends(before, key);
      if n >= SIZE {
        ReusedSlot(before, n - SIZE);
      } else {
        FreshSlot(before);
      }
      if key != sends[n].key {
        var j := LastSend(before, key);
        if j.Some? {
          EvictedBefore(sends, j.value);
        } else if n >= SIZE {
          assert before[n - SIZE].key != key;
        }
      }
    }
  }

  /** The slot about to be reused is unused at first, ... */
  lemma FreshSlot(before: seq<Sent>)
    requires |before| < SIZE
    ensures AddAll(before).list[AddAll(before).ptr] == NoKey
  {
    UnusedSlot(before, |before|);
    SmallSlot(|before|);
  }

  lemma UnusedSlot(sends: seq<Sent>, p: nat)
    requires |sends| <= p < SIZE
    ensures AddAll(sends).ptr == |sends| % SIZE && AddAll(sends).list[p] == NoKey
  {
    SlotsHoldLast(sends);
  }

  lemma SmallSlot(i: nat)
    requires i < SIZE
    ensures i % SIZE == i
  {
  }

  /** ... and holds the key sent 256 sends ago later. */
  lemma ReusedSlot(before: seq<Sent>, i: nat)
    requires |before| == i + SIZE
    ensures AddAll(before).list[AddAll(before).ptr] == before[i].key
  {
    SlotHolds(before, i);
    SlotAgain(i);
  }

  lemma SlotHolds(sends: seq<Sent>, i: nat)
    requires i < |sends| <= i + SIZE
    ensures AddAll(sends).ptr == |sends| % SIZE && AddAll(sends).list[i % SIZE] == sends[i].key
  {
    SlotsHoldLast(sends);
  }

  lemma SlotAgain(i: nat)
    ensures i % SIZE == (i + SIZE) % SIZE
  {
  }

  lemma EvictedBefore(sends: seq<Sent>, j: nat)
    requires sends != [] && j < |sends| - 1
    requires forall i | j < i < |sends| - 1 :: sends[i].key != sends[j].key
    ensures var before, n := sends[..|sends| - 1], |sends| - 1;
            Evicted(sends, j) <==>
            Evicted(before, j) || (sends[j].key.id != [] && n >= SIZE && sends[n - SIZE].key == sends[j].key)
  {
    var before, n := sends[..|sends| - 1], |sends| - 1;
    if Evicted(sends, j) {
      var i :| 0 <= i <= j && sends[i].key == sends[j].key && j < i + SIZE < |sends|;
      assert before[i].key == before[j].key;
    }
    if Evicted(before, j) {
      var i :| 0 <= i <= j && before[i].key == before[j].key && j < i + SIZE < |before|;
      assert sends[i].key == sends[j].key;
    }
    if sends[j].key.id != [] && n >= SIZE && sends[n - SIZE].key == sends[j].key {
      assert n - SIZE <= j;
      assert Evicted(sends, j);
    }
  }

  /** The entries with an ID: never more than 256, and each of their keys is in the ring. */
  lemma MapWithinRing(sends: seq<Sent>)
    ensures forall key | key in AddAll(sends).entries :: key.id == [] || key in AddAll(sends).list
    ensures |set key | key in AddAll(sends).entries && key.id != []| <= SIZE
  {
    var r := AddAll(sends);
    var identified := set key | key in r.entries && key.id != [];
    forall key | key in identified ensures key in r.list {
      FoundInRing(sends, key);
    }
    ElementsBound(r.list);
    SubsetBound(identified, set k | k in r.list);
  }

  /** With an ID in every send the whole map is bounded by the ring. */
  lemma IdentifiedMapIsBounded(sends: seq<Sent>)
    requires forall i | 0 <= i < |sends| :: sends[i].key.id != []
    ensures |AddAll(sends).entries| <= SIZE
  {
    var r := AddAll(sends);
    forall key | key in r.entries ensures exists i :: 0 <= i < |sends| && sends[i].key == key {
      LookupAfterSends(sends, key);
      assert sends[LastSend(sends, key).value].key == key;
    }
    MapWithinRing(sends);
    assert r.entries.Keys == set key | key in r.entries && key.id != [];
  }

  lemma FoundInRing(sends: seq<Sent>, key: Key)
    requires key.id != [] && key in AddAll(sends).entries
    ensures key in AddAll(sends).list
  {
    LookupAfterSends(sends, key);
    SlotsHoldLast(sends);
    var j := LastSend(sends, key).value;
    assert !(j < j + SIZE < |sends|);
    assert AddAll(sends).list[j % SIZE] == key;
  }

  lemma {:induction false} ElementsBound(list: seq<Key>)
    ensures |set k | k in list| <= |list|
  {
    if list != [] {
      var init, last := list[..|list| - 1], list[|list| - 1];
      ElementsBound(init);
      assert (set k | k in list) == (set k | k in init) + {last};
    }
  }

  lemma {:induction false} SubsetBound(a: set<Key>, b: set<Key>)
    requires a <= b
    ensures |a| <= |b|
  {
    if a != {} {
      var x :| x in a;
      SubsetBound(a - {x}, b - {x});
    }
  }

  /** No key is sent again within 256 consecutive sends. */
  predicate NoQuickRepeat(sends: seq<Sent>) {
    forall i, j | 0 <= i < j < |sends| && j < i + 256 :: sends[i].key != sends[j].key
  }

  /** Then the map is a bounded queue: each of the last 256 sent messages is found, ... */
  lemma QueueFinds(sends: seq<Sent>, j: nat)
    requires NoQuickRepeat(sends)
    requires j < |sends| <= j + 256
    ensures Lookup(AddAll(sends).entries, sends[j].key) == Some(sends[j].message)
  {
    LookupAfterSends(sends, sends[j].key);
    var last := LastSend(sends, sends[j].key).value;
    assert last == j;
  }

  /** ... and a key that is not among them is found if and only if its ID is empty and it was ever sent. */
  lemma QueueForgets(sends: seq<Sent>, key: Key)
    requires forall j | 0 <= j < |sends| && |sends| <= j + 256 :: sends[j].key != key
    ensures Lookup(AddAll(sends).entries, key) == None <==> key.id != [] || LastSend(sends, key).None?
  {
    LookupAfterSends(sends, key);
    var last := LastSend(sends, key);
    if last.Some? {
      var j := last.value;
      assert sends[j].key == sends[j].key && j < j + SIZE < |sends|;
    }
  }

  // ----- Sends without an ID

  /** Sends to n different users, all without an ID. */
  function Unidentified(n: nat): (sends: seq<Sent>)
    ensures |sends| == n
  {
    seq(n, i requires 0 <= i < n => Sent(Key(JID(Digits(i), 0, 0, 0, []), []), []))
  }

  /** They pile up: the map then holds all n of them, for every n, and so more than 256 from the 257th on. */
  lemma {:induction false} EmptyIDsPileUp(n: nat)
    ensures |AddAll(Unidentified(n)).entries| == n
  {
    if n != 0 {
      var sends, before := Unidentified(n), Unidentified(n - 1);
      assert sends[..n - 1] == before;
      EmptyIDsPileUp(n - 1);
      IsNewKey(n);
      OneMoreEntry(sends);
    }
  }

  lemma IsNewKey(n: nat)
    requires n != 0
    ensures Unidentified(n)[n - 1].key !in AddAll(Unidentified(n - 1)).entries
  {
    var key, before := Unidentified(n)[n - 1].key, Unidentified(n - 1);
    LookupAfterSends(before, key);
    forall i | 0 <= i < n - 1 ensures before[i].key != key {
      DigitsParse(i);
      DigitsParse(n - 1);
    }
  }

  lemma OneMoreEntry(sends: seq<Sent>)
    requires sends != [] && forall i | 0 <= i < |sends| :: sends[i].key.id == []
    requires sends[|sends| - 1].key !in AddAll(sends[..|sends| - 1]).entries
    ensures |AddAll(sends).entries| == |AddAll(sends[..|sends| - 1]).entries| + 1
  {
    SlotWithoutID(sends[..|sends| - 1]);
    AddWithoutEviction(AddAll(sends[..|sends| - 1]), sends[|sends| - 1]);
  }

  lemma SlotWithoutID(before: seq<Sent>)
    requires forall i | 0 <= i < |before| :: before[i].key.id == []
    ensures AddAll(before).list[AddAll(before).ptr].id == []
  {
    if |before| >= SIZE {
      OldestWithoutID(before, Oldest(|before|));
    } else {
      FreshSlot(before);
    }
  }

  function Oldest(n: nat): nat
    requires n >= SIZE
  {
    n - SIZE
  }

  lemma OldestWithoutID(before: seq<Sent>, i: nat)
    requires |before| == i + SIZE && before[i].key.id == []
    ensures AddAll(before).list[AddAll(before).ptr].id == []
  {
    ReusedSlot(before, i);
  }

  lemma AddWithoutEviction(r: Ring, s: Sent)
    requires Shaped(r) && r.list[r.ptr].id == [] && s.key !in r.entries
    ensures |Add(r, s).entries| == |r.entries| + 1
  {
    assert r.entries[s.key := s.message].Keys == r.entries.Keys + {s.key};
  }
}
