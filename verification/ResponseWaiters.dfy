/** The table of response waiters (request.go:19-97). Every method body between Lock and Unlock is one
    step; steps of any number of callers interleave in any order. */
module ResponseWaiters {
  import opened Bytes

  datatype Node = Node(tag: Bytes, id: Option<Bytes>)

  /** A buffered channel of size 1, with everything ever put into it and the id it was made for. */
  datatype Channel = Channel(id: Bytes, buffer: Option<Node>, closed: bool, put: seq<Node>)

  function NewChannel(id: Bytes): Channel {
    Channel(id, None, false, [])
  }

  function Put(c: Channel, node: Node): Channel {
    c.(buffer := Some(node), put := c.put + [node])
  }

  /** A response that was taken off the table and is about to be sent into channel ch. */
  datatype Delivery = Delivery(ch: nat, node: Node)

  /** Channels are named by the order they were made in. */
  datatype State = State(channels: seq<Channel>, table: map<Bytes, nat>, deliveries: seq<Delivery>)

  const Initial := State([], map[], [])

  datatype Step =
    | Wait(id: Bytes)
    | Cancel(id: Bytes, ch: nat)
    | Take(node: Node)
    | Deliver(index: nat)
    | Drop(index: nat)
    | Clear(node: Node)
    | Receive(ch: nat)

  predicate IsResponse(node: Node) {
    node.id.Some? && (node.tag == Ascii("iq") || node.tag == Ascii("ack"))
  }

  predicate IsDisconnect(node: Node) {
    node.tag == Ascii("xmlstreamend") || node.tag == Ascii("stream:error")
  }

  /** What the callers keep to: a caller cancels with its own channel, once; clear gets a disconnect node. Ids may
      be in use already, and a caller may give up while a response is on its way to it. */
  predicate Allowed(s: State, step: Step) {
    match step
    case Cancel(id, ch) => ch < |s.channels| && s.channels[ch].id == id && !s.channels[ch].closed
    case Deliver(i) => i < |s.deliveries|
    case Drop(i) => i < |s.deliveries|
    case Clear(node) => IsDisconnect(node)
    case Receive(ch) => ch < |s.channels| && s.channels[ch].buffer.Some?
    case Wait(_) => true
    case Take(_) => true
  }

  function Without<T>(s: seq<T>, i: nat): seq<T>
    requires i < |s|
  {
    s[..i] + s[i + 1..]
  }

  /** The select of clearResponseWaiters: send if the buffer has room, else close. */
  function ClearOne(c: Channel, node: Node): Channel {
    if c.buffer.None? then Put(c, node) else c.(closed := true)
  }

  predicate TableInRange(s: State) {
    && (forall id | id in s.table :: s.table[id] < |s.channels|)
    && (forall d | d in s.deliveries :: d.ch < |s.channels|)
  }

  /** What the step needs to exist at all: the channel or the delivery it names, the latter with room for it. */
  predicate Possible(s: State, step: Step) {
    match step
    case Cancel(_, ch) => ch < |s.channels| && !s.channels[ch].closed
    case Deliver(i) => i < |s.deliveries|
    case Drop(i) => i < |s.deliveries|
    case Receive(ch) => ch < |s.channels|
    case _ => true
  }

  function Next(s: State, step: Step): State
    requires Possible(s, step) && TableInRange(s)
  {
    match step
    case Wait(id) => State(s.channels + [NewChannel(id)], s.table[id := |s.channels|], s.deliveries)
    case Cancel(id, ch) => State(s.channels[ch := s.channels[ch].(closed := true)], s.table - {id}, s.deliveries)
    case Take(node) =>
      if IsResponse(node) && node.id.value in s.table
      then State(s.channels, s.table - {node.id.value}, s.deliveries + [Delivery(s.table[node.id.value], node)])
      else s
    case Deliver(i) =>
      var d := s.deliveries[i];
      State(s.channels[d.ch := Put(s.channels[d.ch], d.node)], s.table, Without(s.deliveries, i))
    case Drop(i) => State(s.channels, s.table, Without(s.deliveries, i))
    case Clear(node) => State(ClearAll(s.channels, s.table, node), map[], s.deliveries)
    case Receive(ch) => State(s.channels[ch := s.channels[ch].(buffer := None)], s.table, s.deliveries)
  }

  /** Closing a channel that is closed, and sending into one, panics. */
  predicate Panics(s: State, step: Step)
    requires TableInRange(s)
  {
    match step
    case Cancel(_, ch) => ch < |s.channels| && s.channels[ch].closed
    case Deliver(i) => i < |s.deliveries| && s.channels[s.deliveries[i].ch].closed
    case Clear(_) => exists id | id in s.table :: s.channels[s.table[id]].closed
    case _ => false
  }

  function ClearAll(channels: seq<Channel>, table: map<Bytes, nat>, node: Node): seq<Channel> {
    seq(|channels|, i requires 0 <= i < |channels| =>
          if i in table.Values then ClearOne(channels[i], node) else channels[i])
  }

  // ----- The invariant of every run

  /** A channel in the table is the one made for that id; it is open, empty, has never held a node, and no
      delivery holds it. */
  predicate TableFresh(s: State)
    requires TableInRange(s)
  {
    forall id | id in s.table ::
      && s.channels[s.table[id]] == NewChannel(id)
      && forall d | d in s.deliveries :: d.ch != s.table[id]
  }

  /** A node put into a channel answers the id the channel was made for, or is the disconnect node. */
  predicate Addressed(c: Channel, node: Node) {
    node.id == Some(c.id) || IsDisconnect(node)
  }

  /** Each channel has been given at most one node, counting the one on its way. */
  predicate AtMostOne(s: State)
    requires TableInRange(s)
  {
    && (forall c | 0 <= c < |s.channels| ::
          && |s.channels[c].put| <= 1
          && (s.channels[c].buffer.Some? ==> s.channels[c].put == [s.channels[c].buffer.value])
          && forall n | n in s.channels[c].put :: Addressed(s.channels[c], n))
    && (forall d | d in s.deliveries ::
          s.channels[d.ch].put == [] && d.node.id == Some(s.channels[d.ch].id))
    && (forall i, j | 0 <= i < j < |s.deliveries| :: s.deliveries[i].ch != s.deliveries[j].ch)
  }

  predicate Inv(s: State) {
    TableInRange(s) && TableFresh(s) && AtMostOne(s)
  }

  lemma InitialInv()
    ensures Inv(Initial)
  {
  }

  lemma WithoutMembers<T>(s: seq<T>, i: nat)
    requires i < |s|
    ensures forall x | x in Without(s, i) :: x in s
  {
  }

  lemma NextKeepsInv(s: State, step: Step)
    requires Inv(s) && Allowed(s, step) && !Panics(s, step)
    ensures Inv(Next(s, step))
  {
    match step
    case Wait(id) =>
      WaitKeepsInv(s, id);
    case Cancel(id, ch) =>
      CancelKeepsInv(s, id, ch);
    case Take(node) =>
      TakeKeepsInv(s, node);
    case Deliver(i) =>
      DeliverKeepsInv(s, i);
    case Drop(i) =>
      WithoutMembers(s.deliveries, i);
    case Clear(node) =>
      ClearKeepsInv(s, node);
    case Receive(ch) =>
      ReceiveKeepsInv(s, ch);
  }

  lemma WaitKeepsInv(s: State, id: Bytes)
    requires Inv(s) && Allowed(s, Wait(id))
    ensures Inv(Next(s, Wait(id)))
  {
  }

  lemma CancelKeepsInv(s: State, id: Bytes, ch: nat)
    requires Inv(s) && Allowed(s, Cancel(id, ch))
    ensures Inv(Next(s, Cancel(id, ch)))
  {
    var s' := Next(s, Cancel(id, ch));
    forall other | other in s'.table ensures s'.table[other] != ch {
      assert s.channels[s.table[other]].id == other;
    }
  }

  lemma TakeKeepsInv(s: State, node: Node)
    requires Inv(s)
    ensures Inv(Next(s, Take(node)))
  {
    if IsResponse(node) && node.id.value in s.table {
      var id := node.id.value;
      var s' := Next(s, Take(node));
      forall other | other in s'.table ensures s'.table[other] != s.table[id] {
        assert s.channels[s.table[other]].id == other && s.channels[s.table[id]].id == id;
      }
    }
  }

  lemma DeliverKeepsInv(s: State, i: nat)
    requires Inv(s) && Allowed(s, Deliver(i)) && !Panics(s, Deliver(i))
    ensures Inv(Next(s, Deliver(i)))
  {
    var d := s.deliveries[i];
    var s' := Next(s, Deliver(i));
    WithoutMembers(s.deliveries, i);
    OthersElsewhere(s.deliveries, i);
    assert d in s.deliveries;
    assert s'.channels[d.ch].put == [d.node];
  }

  /** Only one delivery is on its way to a channel. */
  lemma OthersElsewhere(deliveries: seq<Delivery>, i: nat)
    requires i < |deliveries|
    requires forall j, k | 0 <= j < k < |deliveries| :: deliveries[j].ch != deliveries[k].ch
    ensures forall e | e in Without(deliveries, i) :: e.ch != deliveries[i].ch
  {
    var others := Without(deliveries, i);
    forall k | 0 <= k < |others| ensures others[k].ch != deliveries[i].ch {
      assert others[k] == deliveries[if k < i then k else k + 1];
    }
  }

  lemma ReceiveKeepsInv(s: State, ch: nat)
    requires Inv(s) && Allowed(s, Receive(ch))
    ensures Inv(Next(s, Receive(ch)))
  {
  }

  /** The close branch of clearResponseWaiters is never taken: every channel in the table has room. */
  lemma ClearNeverCloses(s: State, id: Bytes, node: Node)
    requires Inv(s) && id in s.table
    ensures ClearOne(s.channels[s.table[id]], node) == Put(s.channels[s.table[id]], node)
  {
  }

  lemma ClearKeepsInv(s: State, node: Node)
    requires Inv(s) && IsDisconnect(node)
    ensures Inv(Next(s, Clear(node)))
  {
    var s' := Next(s, Clear(node));
    forall c | 0 <= c < |s.channels| && c in s.table.Values
      ensures s'.channels[c].put == [node] && s'.channels[c].buffer == Some(node)
      ensures forall d | d in s.deliveries :: d.ch != c
    {
      var id :| id in s.table && s.table[id] == c;
      assert s.channels[c] == NewChannel(id);
      assert [] + [node] == [node];
    }
  }

  // ----- Runs

  /** Steps that are allowed, none of which panics. */
  predicate IsRun(s: State, steps: seq<Step>)
    requires Inv(s)
    decreases |steps|
  {
    steps != [] ==>
      && Allowed(s, steps[0]) && !Panics(s, steps[0])
      && (NextKeepsInv(s, steps[0]); IsRun(Next(s, steps[0]), steps[1..]))
  }

  function Run(s: State, steps: seq<Step>): (r: State)
    requires Inv(s) && IsRun(s, steps)
    ensures Inv(r)
    decreases |steps|
  {
    if steps == [] then s else NextKeepsInv(s, steps[0]); Run(Next(s, steps[0]), steps[1..])
  }

  /** Some step cancelled this channel. */
  predicate Cancelled(steps: seq<Step>, ch: nat) {
    exists k | 0 <= k < |steps| :: steps[k].Cancel? && steps[k].ch == ch
  }

  predicate IsClosed(s: State, ch: nat) {
    ch < |s.channels| && s.channels[ch].closed
  }

  /** Only a cancel closes a channel. */
  lemma NextCloses(s: State, step: Step, ch: nat)
    requires Inv(s) && Allowed(s, step) && !Panics(s, step)
    ensures IsClosed(Next(s, step), ch) <==> IsClosed(s, ch) || (step.Cancel? && step.ch == ch)
  {
    if step.Clear? && ch < |s.channels| && ch in s.table.Values {
      var id :| id in s.table && s.table[id] == ch;
      ClearNeverCloses(s, id, step.node);
    }
  }

  lemma {:induction false} ClosedMeansCancelled(s: State, steps: seq<Step>, ch: nat)
    requires Inv(s) && IsRun(s, steps)
    ensures IsClosed(Run(s, steps), ch) <==> IsClosed(s, ch) || Cancelled(steps, ch)
    decreases |steps|
  {
    if steps != [] {
      NextKeepsInv(s, steps[0]);
      NextCloses(s, steps[0], ch);
      ClosedMeansCancelled(Next(s, steps[0]), steps[1..], ch);
      if Cancelled(steps[1..], ch) {
        var k :| 0 <= k < |steps[1..]| && steps[1..][k].Cancel? && steps[1..][k].ch == ch;
        assert steps[k + 1].Cancel?;
      }
      if Cancelled(steps, ch) {
        var k :| 0 <= k < |steps| && steps[k].Cancel? && steps[k].ch == ch;
        assert k > 0 ==> steps[1..][k - 1] == steps[k];
      }
    }
  }

  /** Over every interleaving, with ids used twice and callers that give up at any time: what is in the table is
      open, empty and held by no delivery; every channel was given at most one node, which answers its id or
      reports the disconnect; and the next step panics if and only if it sends a response into a channel whose
      caller cancelled after the response was taken off the table. */
  lemma EveryRunIsSafe(steps: seq<Step>, step: Step)
    requires Inv(Initial) && IsRun(Initial, steps) && Allowed(Run(Initial, steps), step)
    ensures var s := Run(Initial, steps);
            && (forall id | id in s.table ::
                  && s.table[id] < |s.channels| && s.channels[s.table[id]] == NewChannel(id)
                  && forall d | d in s.deliveries :: d.ch != s.table[id])
            && (forall c | 0 <= c < |s.channels| ::
                  |s.channels[c].put| <= 1 && forall n | n in s.channels[c].put :: Addressed(s.channels[c], n))
            && (Panics(s, step) <==> step.Deliver? && Cancelled(steps, s.deliveries[step.index].ch))
  {
    var s := Run(Initial, steps);
    assert Inv(s);
    if step.Deliver? {
      assert s.deliveries[step.index] in s.deliveries;
      ClosedMeansCancelled(Initial, steps, s.deliveries[step.index].ch);
    }
  }

  /** It can happen: a response is taken off the table, its caller gives up, and the response is sent. */
  lemma CancelRacePanics(id: Bytes, node: Node)
    requires IsResponse(node) && node.id == Some(id)
    ensures var steps := [Wait(id), Take(node), Cancel(id, 0)];
            Inv(Initial) && IsRun(Initial, steps) && Panics(Run(Initial, steps), Deliver(0))
  {
    var waiting := State([NewChannel(id)], map[id := 0], []);
    var taken := State([NewChannel(id)], map[], [Delivery(0, node)]);
    var closed := State([NewChannel(id).(closed := true)], map[], [Delivery(0, node)]);
    var steps := [Wait(id), Take(node), Cancel(id, 0)];
    assert Next(Initial, Wait(id)) == waiting && Next(waiting, Take(node)) == taken;
    assert Next(taken, Cancel(id, 0)) == closed;
    assert steps[1..] == [Take(node), Cancel(id, 0)] && steps[1..][1..] == [Cancel(id, 0)];
    NextKeepsInv(Initial, Wait(id));
    NextKeepsInv(waiting, Take(node));
    NextKeepsInv(taken, Cancel(id, 0));
    assert IsRun(closed, []);
    assert IsRun(taken, [Cancel(id, 0)]) && Run(taken, [Cancel(id, 0)]) == closed;
    assert IsRun(waiting, steps[1..]) && Run(waiting, steps[1..]) == closed;
  }

  // ----- What arrives

  /** A response to an id in the table takes it off; its delivery does not panic and puts it into the channel of
      that id, which is open. */
  lemma ResponseArrives(s: State, id: Bytes, node: Node)
    requires Inv(s) && id in s.table
    requires node.id == Some(id) && (node.tag == Ascii("iq") || node.tag == Ascii("ack"))
    ensures var ch, taken, i := s.table[id], Next(s, Take(node)), |s.deliveries|;
            && taken.table == s.table - {id} && taken.channels == s.channels
            && Allowed(taken, Deliver(i)) && TableInRange(taken) && !Panics(taken, Deliver(i))
            && var done := Next(taken, Deliver(i));
               && done.table == taken.table && done.deliveries == s.deliveries
               && done.channels == s.channels[ch := Channel(id, Some(node), false, [node])]
  {
    TakeKeepsInv(s, node);
    var deliveries := s.deliveries + [Delivery(s.table[id], node)];
    assert Without(deliveries, |s.deliveries|) == s.deliveries;
    assert NewChannel(id).put + [node] == [node];
  }

  /** Anything else passes: a node without an id, of another kind, or with an id nobody waits for. */
  lemma OthersPass(s: State, node: Node)
    requires TableInRange(s)
    requires node.id.None? || node.id.value !in s.table || (node.tag != Ascii("iq") && node.tag != Ascii("ack"))
    ensures Next(s, Take(node)) == s
  {
  }

  /** A disconnect reaches everyone who waits, and no one else. */
  lemma DisconnectReachesAll(s: State, node: Node)
    requires Inv(s)
    ensures var s' := Next(s, Clear(node));
            && s'.table == map[] && s'.deliveries == s.deliveries && |s'.channels| == |s.channels|
            && (forall id | id in s.table ::
                  s'.channels[s.table[id]] == Channel(id, Some(node), false, [node]))
            && (forall c | 0 <= c < |s.channels| && c !in s.table.Values :: s'.channels[c] == s.channels[c])
  {
    forall id | id in s.table
      ensures Next(s, Clear(node)).channels[s.table[id]] == Channel(id, Some(node), false, [node])
    {
      assert s.table[id] in s.table.Values;
      assert NewChannel(id).put + [node] == [node];
    }
  }

  // ----- The table itself

  class Waiters {
    var channels: seq<Channel>
    var responseWaiters: map<Bytes, nat>
    var deliveries: seq<Delivery>
    var idCounter: uint64
    const uniqueID: Bytes

    function Contents(): State
      reads this
    {
      State(channels, responseWaiters, deliveries)
    }

    constructor (uniqueID: Bytes)
      ensures Contents() == Initial && idCounter == 0 && this.uniqueID == uniqueID
    {
      channels, responseWaiters, deliveries, idCounter := [], map[], [], 0;
      this.uniqueID := uniqueID;
    }

    method GenerateRequestID() returns (id: Bytes)
      modifies this`idCounter
      ensures idCounter as int == (old(idCounter) as int + 1) % 0x1_0000_0000_0000_0000
      ensures id == uniqueID + Digits(idCounter)
    {
      idCounter := NextCounter(idCounter);
      return uniqueID + Digits(idCounter);
    }

    method WaitResponse(reqID: Bytes) returns (ch: nat)
      requires TableInRange(Contents())
      modifies this`channels, this`responseWaiters
      ensures Contents() == Next(old(Contents()), Wait(reqID)) && ch == |old(channels)|
    {
      ch := |channels|;
      channels := channels + [NewChannel(reqID)];
      responseWaiters := responseWaiters[reqID := ch];
    }

    method CancelResponse(reqID: Bytes, ch: nat)
      requires TableInRange(Contents()) && ch < |channels| && !channels[ch].closed
      modifies this`channels, this`responseWaiters
      ensures Contents() == Next(old(Contents()), Cancel(reqID, ch))
    {
      channels := channels[ch := channels[ch].(closed := true)];
      responseWaiters := responseWaiters - {reqID};
    }

    /** The locked part of receiveResponse. */
    method TakeWaiter(data: Node) returns (found: bool)
      requires TableInRange(Contents())
      modifies this`responseWaiters, this`deliveries
      ensures Contents() == Next(old(Contents()), Take(data))
      ensures found == (IsResponse(data) && data.id.value in old(responseWaiters))
    {
      if data.id.None? || (data.tag != Ascii("iq") && data.tag != Ascii("ack")) {
        return false;
      }
      var id := data.id.value;
      if id !in responseWaiters {
        return false;
      }
      deliveries := deliveries + [Delivery(responseWaiters[id], data)];
      responseWaiters := responseWaiters - {id};
      return true;
    }

    /** clearResponseWaiters, visiting the waiters in any order. The branch that closes a full channel
        cannot be reached. */
    method ClearResponseWaiters(node: Node)
      requires Inv(Contents()) && Allowed(Contents(), Clear(node))
      modifies this`channels, this`responseWaiters
      ensures Contents() == Next(old(Contents()), Clear(node))
    {
      var todo := responseWaiters.Keys;
      while todo != {}
        invariant todo <= responseWaiters.Keys && responseWaiters == old(responseWaiters)
        invariant channels == ClearAll(old(channels), responseWaiters - todo, node)
        decreases todo
      {
        var id :| id in todo;
        var waiter := responseWaiters[id];
        ClearStep(old(Contents()), todo, id, node);
        if channels[waiter].buffer.None? {
          channels := channels[waiter := Put(channels[waiter], node)];
        } else {
          assert false;
        }
        todo := todo - {id};
      }
      assert responseWaiters - todo == responseWaiters;
      assert channels == ClearAll(old(channels), old(responseWaiters), node);
      responseWaiters := map[];
    }
  }

  /** Clearing one more waiter changes the channel of that waiter, which still has room. */
  lemma ClearStep(s: State, todo: set<Bytes>, id: Bytes, node: Node)
    requires Inv(s) && id in s.table && id in todo
    ensures var before := ClearAll(s.channels, s.table - todo, node);
            && before[s.table[id]] == NewChannel(id)
            && ClearAll(s.channels, s.table - (todo - {id}), node) ==
               before[s.table[id] := Put(NewChannel(id), node)]
  {
    var done, more := s.table - todo, s.table - (todo - {id});
    assert more == done[id := s.table[id]];
    forall other | other in done ensures done[other] != s.table[id] {
      assert s.channels[s.table[other]] == NewChannel(other) && s.channels[s.table[id]] == NewChannel(id);
    }
    forall i ensures i in more.Values <==> i in done.Values || i == s.table[id] {
      if i in more.Values {
        var k :| k in more && more[k] == i;
      }
      if i in done.Values {
        var k :| k in done && done[k] == i;
        assert k in more && more[k] == i;
      }
      assert more[id] == s.table[id];
    }
  }

  function NextCounter(counter: uint64): uint64 {
    (counter as int + 1) % 0x1_0000_0000_0000_0000
  }

  function RequestID(uniqueID: Bytes, counter: uint64): Bytes {
    uniqueID + Digits(counter)
  }

  /** Two ids of one client are equal only if their counters are: none repeats within 2^64 requests. */
  lemma RequestIDsDiffer(uniqueID: Bytes, a: uint64, b: uint64)
    ensures RequestID(uniqueID, a) == RequestID(uniqueID, b) <==> a == b
  {
    if RequestID(uniqueID, a) == RequestID(uniqueID, b) {
      assert RequestID(uniqueID, a)[|uniqueID|..] == Digits(a) && RequestID(uniqueID, b)[|uniqueID|..] == Digits(b);
      DigitsParse(a);
      DigitsParse(b);
    }
  }
}
