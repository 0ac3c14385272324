/** The sync loops of appstate.go: fetchAppState, applyAppStatePatches and sendAppState. The server is
    the list of its replies; a call that runs out of replies has lost its connection. */
module AppStateSync {
  import opened Bytes
  import opened LtHash
  import opened AppState
  import opened AppStateStore
  import opened AppStateDecode
  import opened AppStateProofs
  import opened AppStateEncode

  /** eventsOk says whether collectEventsToDispatch succeeds on the decoded mutations. */
  datatype Reply = Lost | Patches(list: PatchList, eventsOk: bool)

  datatype SyncError =
    | StoredVersionZero | FetchFailed | UnexpectedSnapshot | NonEmptyState | DecodeFailed(error: Error)
    | EventsFailed | NoKey | EncodeFailed(error: Error) | NoResponse | MissingCollection | Rejected

  /** What a sync leaves in the database, and the version it ends at, None when it had nothing to do. */
  datatype SyncOutcome = SyncOutcome(collection: Collection, result: Result<Option<HashState>, SyncError>)

  /** The head of the loop of fetchAppState: what is in memory and what is in the database. */
  datatype Head = Head(state: HashState, collection: Collection)

  /** One round of the loop: the next head, or the end of the call. */
  datatype Round = Again(next: Head) | Done(outcome: SyncOutcome)

  function RunRound(cr: Crypto, name: Bytes, h: Head, wantSnapshot: bool, reply: Reply): Round {
    match reply
    case Lost => Done(SyncOutcome(h.collection, Err(FetchFailed)))
    case Patches(list, eventsOk) =>
      if !wantSnapshot && list.snapshot.Some? then Done(SyncOutcome(h.collection, Err(UnexpectedSnapshot)))
      else if list.snapshot.Some? && h.state != EmptyState() then Done(SyncOutcome(h.collection, Err(NonEmptyState)))
      else
        var out := RunList(cr, name, h.collection, h.state, list, true);
        if out.result.Err? then Done(SyncOutcome(out.collection, Err(DecodeFailed(out.result.error))))
        else if !eventsOk then Done(SyncOutcome(out.collection, Err(EventsFailed)))
        else if list.hasMorePatches then Again(Head(out.result.value.0, out.collection))
        else Done(SyncOutcome(out.collection, Ok(Some(out.result.value.0))))
  }

  function RunRounds(cr: Crypto, name: Bytes, h: Head, wantSnapshot: bool, replies: seq<Reply>): SyncOutcome
    decreases |replies|
  {
    if replies == [] then SyncOutcome(h.collection, Err(FetchFailed))
    else
      match RunRound(cr, name, h, wantSnapshot, replies[0])
      case Done(out) => out
      case Again(next) => RunRounds(cr, name, next, false, replies[1..])
  }

  lemma RoundsFirst(cr: Crypto, name: Bytes, h: Head, wantSnapshot: bool, reply: Reply, later: seq<Reply>)
    ensures var round := RunRound(cr, name, h, wantSnapshot, reply);
            RunRounds(cr, name, h, wantSnapshot, [reply] + later) ==
            if round.Done? then round.outcome else RunRounds(cr, name, round.next, false, later)
  {
    assert ([reply] + later)[1..] == later;
  }

  /** Every head the loop reaches. */
  function Heads(cr: Crypto, name: Bytes, h: Head, wantSnapshot: bool, replies: seq<Reply>): seq<Head>
    decreases |replies|
  {
    if replies == [] then [h]
    else
      match RunRound(cr, name, h, wantSnapshot, replies[0])
      case Done(_) => [h]
      case Again(next) => [h] + Heads(cr, name, next, false, replies[1..])
  }

  /** fetchAppState */
  function RunFetch(cr: Crypto, name: Bytes, c: Collection, fullSync: bool, onlyIfNotSynced: bool, replies: seq<Reply>)
    : SyncOutcome
  {
    var start := if fullSync then Collection(None, map[]) else c;
    if !Readable(start) then SyncOutcome(start, Err(StoredVersionZero))
    else
      var state := Current(start);
      if state.version != 0 && onlyIfNotSynced then SyncOutcome(start, Ok(None))
      else RunRounds(cr, name, Head(state, start), fullSync || state.version == 0, replies)
  }

  method FetchAppState(proc: Processor, fullSync: bool, onlyIfNotSynced: bool, replies: seq<Reply>)
    returns (r: Result<Option<HashState>, SyncError>)
    modifies proc.store
    ensures SyncOutcome(proc.store.Contents(), r) ==
            RunFetch(proc.cr, proc.name, old(proc.store.Contents()), fullSync, onlyIfNotSynced, replies)
  {
    if fullSync {
      proc.store.DeleteAppStateVersion();
    }
    var stored := proc.store.GetAppStateVersion();
    if stored == None {
      return Err(StoredVersionZero);
    }
    var state, full := stored.value, fullSync;
    if state.version == 0 {
      full := true;
    } else if onlyIfNotSynced {
      return Ok(None);
    }
    r := FetchLoop(proc, state, full, replies);
  }

  /** The loop of fetchAppState. */
  method FetchLoop(proc: Processor, initialState: HashState, fullSync: bool, replies: seq<Reply>)
    returns (r: Result<Option<HashState>, SyncError>)
    modifies proc.store
    ensures SyncOutcome(proc.store.Contents(), r) ==
            RunRounds(proc.cr, proc.name, Head(initialState, old(proc.store.Contents())), fullSync, replies)
  {
    ghost var all := RunRounds(proc.cr, proc.name, Head(initialState, proc.store.Contents()), fullSync, replies);
    var state, hasMore, wantSnapshot, i := initialState, true, fullSync, 0;
    while hasMore
      invariant 0 <= i <= |replies|
      invariant all == if hasMore
                       then RunRounds(proc.cr, proc.name, Head(state, proc.store.Contents()), wantSnapshot,
                                      replies[i..])
                       else SyncOutcome(proc.store.Contents(), Ok(Some(state)))
      decreases |replies| - i, hasMore
    {
      if i == |replies| {
        return Err(FetchFailed);
      }
      assert replies[i..] == [replies[i]] + replies[i + 1..];
      RoundsFirst(proc.cr, proc.name, Head(state, proc.store.Contents()), wantSnapshot, replies[i], replies[i + 1..]);
      var applied :- FetchRound(proc, state, wantSnapshot, replies[i]);
      wantSnapshot := false;
      state, hasMore, i := applied.0, applied.1, i + 1;
    }
    return Ok(Some(state));
  }

  /** The body of the loop: the next state, and whether the server has more patches. */
  method FetchRound(proc: Processor, state: HashState, wantSnapshot: bool, reply: Reply)
    returns (r: Result<(HashState, bool), SyncError>)
    modifies proc.store
    ensures var spec := RunRound(proc.cr, proc.name, Head(state, old(proc.store.Contents())), wantSnapshot, reply);
            && (r.Ok? && r.value.1 ==> spec == Again(Head(r.value.0, proc.store.Contents())))
            && (r.Ok? && !r.value.1 ==> spec == Done(SyncOutcome(proc.store.Contents(), Ok(Some(r.value.0)))))
            && (r.Err? ==> spec == Done(SyncOutcome(proc.store.Contents(), Err(r.error))))
  {
    if reply == Lost {
      return Err(FetchFailed);
    } else if !wantSnapshot && reply.list.snapshot.Some? {
      return Err(UnexpectedSnapshot);
    } else if reply.list.snapshot.Some? && state != EmptyState() {
      return Err(NonEmptyState);
    }
    var applied :- ApplyAppStatePatches(proc, state, reply.list, reply.eventsOk);
    return Ok((applied, reply.list.hasMorePatches));
  }

  /** applyAppStatePatches */
  method ApplyAppStatePatches(proc: Processor, state: HashState, list: PatchList, eventsOk: bool)
    returns (r: Result<HashState, SyncError>)
    modifies proc.store
    ensures var out := RunList(proc.cr, proc.name, old(proc.store.Contents()), state, list, true);
            && proc.store.Contents() == out.collection
            && r == if out.result.Err? then Err(DecodeFailed(out.result.error))
                    else if !eventsOk then Err(EventsFailed) else Ok(out.result.value.0)
  {
    var decoded := proc.DecodePatches(list, state, true);
    if decoded.Err? {
      return Err(DecodeFailed(decoded.error));
    } else if !eventsOk {
      return Err(EventsFailed);
    }
    return Ok(decoded.value.0);
  }

  // ----- What a fetch keeps

  /** What a round stores, overwrites and keeps: the list, unless a guard stops it. */
  ghost function RoundTrace(cr: Crypto, name: Bytes, c: Collection, wantSnapshot: bool, reply: Reply): Trace {
    if reply.Lost? then NoTrace()
    else if reply.list.snapshot.Some? && (!wantSnapshot || Current(c) != EmptyState()) then NoTrace()
    else ListTrace(cr, name, c, reply.list, true)
  }

  ghost function RoundsTrace(cr: Crypto, name: Bytes, c: Collection, wantSnapshot: bool, replies: seq<Reply>): Trace
    decreases |replies|
  {
    if replies == [] then NoTrace()
    else
      var first := RoundTrace(cr, name, c, wantSnapshot, replies[0]);
      match RunRound(cr, name, Head(Current(c), c), wantSnapshot, replies[0])
      case Done(_) => first
      case Again(next) => Then(first, RoundsTrace(cr, name, next.collection, false, replies[1..]))
  }

  /** The collection a fetch starts from: a full sync empties it. */
  function FetchStart(c: Collection, fullSync: bool): Collection {
    if fullSync then Collection(None, map[]) else c
  }

  ghost function FetchTrace(cr: Crypto, name: Bytes, c: Collection, fullSync: bool, onlyIfNotSynced: bool,
                      replies: seq<Reply>): Trace
  {
    var start := FetchStart(c, fullSync);
    if !Readable(start) || (Current(start).version != 0 && onlyIfNotSynced) then NoTrace()
    else RoundsTrace(cr, name, start, fullSync || Current(start).version == 0, replies)
  }

  /** The in-memory state is what the database reports. */
  predicate InStep(h: Head) {
    h.state == Current(h.collection)
  }

  lemma RoundKeepsInStep(cr: Crypto, name: Bytes, c: Collection, wantSnapshot: bool, reply: Reply)
    ensures match RunRound(cr, name, Head(Current(c), c), wantSnapshot, reply)
            case Again(next) =>
              InStep(next) && Explains(cr, c, RoundTrace(cr, name, c, wantSnapshot, reply), next.collection)
            case Done(out) =>
              && Explains(cr, c, RoundTrace(cr, name, c, wantSnapshot, reply), out.collection)
              && (out.result.Ok? ==> out.result.value == Some(Current(out.collection)))
  {
    NothingExplains(cr, c);
    if reply.Patches? {
      ListExplained(cr, name, c, reply.list, true);
    }
  }

  /** For any replies: the rounds end where their trace says, and a call that succeeds returns the stored pair. */
  lemma {:induction false} RoundsExplained(cr: Crypto, name: Bytes, c: Collection, wantSnapshot: bool,
                                           replies: seq<Reply>)
    ensures var out := RunRounds(cr, name, Head(Current(c), c), wantSnapshot, replies);
            && Explains(cr, c, RoundsTrace(cr, name, c, wantSnapshot, replies), out.collection)
            && (out.result.Ok? ==> out.result.value == Some(Current(out.collection)))
    decreases |replies|
  {
    if replies == [] {
      NothingExplains(cr, c);
    } else {
      RoundKeepsInStep(cr, name, c, wantSnapshot, replies[0]);
      var round := RunRound(cr, name, Head(Current(c), c), wantSnapshot, replies[0]);
      if round.Again? {
        var next := round.next.collection;
        RoundsExplained(cr, name, next, false, replies[1..]);
        ExplainsThen(cr, c, RoundTrace(cr, name, c, wantSnapshot, replies[0]), next,
                     RoundsTrace(cr, name, next, false, replies[1..]),
                     RunRounds(cr, name, Head(Current(next), next), false, replies[1..]).collection);
      }
    }
  }

  lemma HeadsFirst(cr: Crypto, name: Bytes, h: Head, wantSnapshot: bool, replies: seq<Reply>)
    ensures Heads(cr, name, h, wantSnapshot, replies) != [] && Heads(cr, name, h, wantSnapshot, replies)[0] == h
  {
  }

  lemma HeadsLater(cr: Crypto, name: Bytes, h: Head, wantSnapshot: bool, replies: seq<Reply>, k: nat)
    requires 0 < k < |Heads(cr, name, h, wantSnapshot, replies)|
    ensures replies != [] && RunRound(cr, name, h, wantSnapshot, replies[0]).Again?
    ensures var later := Heads(cr, name, RunRound(cr, name, h, wantSnapshot, replies[0]).next, false, replies[1..]);
            k - 1 < |later| && Heads(cr, name, h, wantSnapshot, replies)[k] == later[k - 1]
  {
  }

  lemma RoundsOver(cr: Crypto, name: Bytes, h: Head, wantSnapshot: bool, replies: seq<Reply>, k: nat)
    requires 0 < k <= |replies| && RunRound(cr, name, h, wantSnapshot, replies[0]).Again?
    ensures RunRounds(cr, name, h, wantSnapshot, replies[..k]) ==
            RunRounds(cr, name, RunRound(cr, name, h, wantSnapshot, replies[0]).next, false, replies[1..][..k - 1])
  {
    RoundsFirst(cr, name, h, wantSnapshot, replies[0], replies[1..][..k - 1]);
    assert replies[..k] == [replies[0]] + replies[1..][..k - 1];
  }

  /** At every head of the loop, for any replies, the state in memory equals the stored version and hash, and
      the database is what the rounds so far left: the run over the first k replies. */
  lemma {:induction false} HeadsInStep(cr: Crypto, name: Bytes, c: Collection, wantSnapshot: bool,
                                       replies: seq<Reply>, k: nat)
    requires k < |Heads(cr, name, Head(Current(c), c), wantSnapshot, replies)|
    ensures k <= |replies|
    ensures var h := Heads(cr, name, Head(Current(c), c), wantSnapshot, replies)[k];
            && InStep(h)
            && h.collection == RunRounds(cr, name, Head(Current(c), c), wantSnapshot, replies[..k]).collection
    decreases |replies|
  {
    var h := Head(Current(c), c);
    if k == 0 {
      HeadsFirst(cr, name, h, wantSnapshot, replies);
    } else {
      HeadsLater(cr, name, h, wantSnapshot, replies, k);
      RoundKeepsInStep(cr, name, c, wantSnapshot, replies[0]);
      var next := RunRound(cr, name, h, wantSnapshot, replies[0]).next;
      HeadsInStep(cr, name, next.collection, false, replies[1..], k - 1);
      RoundsOver(cr, name, h, wantSnapshot, replies, k);
    }
  }

  /** A fetch from a valid start, however it ends, leaves a valid start again if and only if the values its
      snapshot overwrites and the values its patches keep under unknown operations sum to the same and the last
      version it stores is not 0. */
  lemma FetchKeepsValidStart(cr: Crypto, name: Bytes, c: Collection, fullSync: bool, onlyIfNotSynced: bool,
                             replies: seq<Reply>)
    ensures var out := RunFetch(cr, name, c, fullSync, onlyIfNotSynced, replies);
            var t := FetchTrace(cr, name, c, fullSync, onlyIfNotSynced, replies);
            && Explains(cr, FetchStart(c, fullSync), t, out.collection)
            && (ValidStart(cr, c) ==> (ValidStart(cr, out.collection) <==> Harmless(t)))
  {
    var start := FetchStart(c, fullSync);
    NothingExplains(cr, start);
    RoundsExplained(cr, name, start, fullSync || Current(start).version == 0, replies);
    if ValidStart(cr, c) {
      assert ValidStart(cr, start);
      ExplainedEnd(cr, start, FetchTrace(cr, name, c, fullSync, onlyIfNotSynced, replies),
                   RunFetch(cr, name, c, fullSync, onlyIfNotSynced, replies).collection);
    }
  }

  /** Every mutation in the replies is a SET or a REMOVE. */
  predicate AllRepliesKnown(replies: seq<Reply>) {
    forall r | r in replies && r.Patches? :: AllKnown(r.list.patches)
  }

  /** No round after the first one accepts a snapshot, so none of them overwrites. */
  lemma {:induction false} LaterRoundsAreClean(cr: Crypto, name: Bytes, c: Collection, replies: seq<Reply>)
    ensures RoundsTrace(cr, name, c, false, replies).overwritten == Zero()
    ensures AllRepliesKnown(replies) ==> RoundsTrace(cr, name, c, false, replies).kept == Zero()
    decreases |replies|
  {
    PlusZero(Zero());
    if replies != [] {
      RoundIsClean(cr, name, c, false, replies[0]);
      var round := RunRound(cr, name, Head(Current(c), c), false, replies[0]);
      if round.Again? {
        LaterRoundsAreClean(cr, name, round.next.collection, replies[1..]);
      }
    }
  }

  /** A round overwrites nothing without a snapshot that is wanted, or with distinct records into an emptied
      collection; it keeps nothing without unknown operations. */
  lemma RoundIsClean(cr: Crypto, name: Bytes, c: Collection, wantSnapshot: bool, reply: Reply)
    ensures (reply.Patches? && wantSnapshot && Current(c) == EmptyState() && reply.list.snapshot.Some? ==>
               c.macs == map[] && Distinct(reply.list.snapshot.value.records)) ==>
              RoundTrace(cr, name, c, wantSnapshot, reply).overwritten == Zero()
    ensures reply.Patches? && AllKnown(reply.list.patches) ==>
              RoundTrace(cr, name, c, wantSnapshot, reply).kept == Zero()
  {
    if reply.Patches? {
      DistinctListIsClean(cr, name, c, reply.list, true);
    }
  }

  /** From a valid start only the snapshot of the first reply can overwrite anything, and only by a repeated
      index among its records: nothing when they are distinct. Nothing is kept without unknown operations. */
  lemma DistinctFetchIsClean(cr: Crypto, name: Bytes, c: Collection, fullSync: bool, onlyIfNotSynced: bool,
                             replies: seq<Reply>)
    requires ValidStart(cr, c)
    ensures (replies != [] && replies[0].Patches? && replies[0].list.snapshot.Some? ==>
               Distinct(replies[0].list.snapshot.value.records)) ==>
              FetchTrace(cr, name, c, fullSync, onlyIfNotSynced, replies).overwritten == Zero()
    ensures AllRepliesKnown(replies) ==>
              FetchTrace(cr, name, c, fullSync, onlyIfNotSynced, replies).kept == Zero()
  {
    PlusZero(Zero());
    var start := FetchStart(c, fullSync);
    var want := fullSync || Current(start).version == 0;
    if replies != [] {
      RoundIsClean(cr, name, start, want, replies[0]);
      var round := RunRound(cr, name, Head(Current(start), start), want, replies[0]);
      if round.Again? {
        LaterRoundsAreClean(cr, name, round.next.collection, replies[1..]);
      }
    }
  }

  /** A stored version 0 locks the collection: no later fetch but a full sync gets past reading it. */
  lemma VersionZeroLocksOut(cr: Crypto, name: Bytes, c: Collection, list: PatchList, onlyIfNotSynced: bool,
                            replies: seq<Reply>)
    requires |list.patches| == 1 && list.patches[0].version == 0 && list.snapshot.None?
    requires DecodePatch(cr, name, c, Current(c), list.patches[0], true).Ok?
    ensures var locked := RunList(cr, name, c, Current(c), list, true).collection;
            && !Readable(locked)
            && RunFetch(cr, name, locked, false, onlyIfNotSynced, replies) ==
               SyncOutcome(locked, Err(StoredVersionZero))
  {
    ListExplained(cr, name, c, list, true);
    OnePatchTrace(cr, name, c, list.patches, true);
  }

  // ----- Sending

  /** The server's answer to a sent patch: accepted, with the replies the following fetch gets; an error
      other than a conflict; or a conflict with the patches that cause it, None when they do not parse. */
  datatype Answer =
    | NoAnswer
    | WithoutCollection
    | Accepted(replies: seq<Reply>)
    | Refused
    | Conflict(list: Option<PatchList>, eventsOk: bool)

  /** The random initialisation vector of mutation i in pass n. */
  type Draw = (nat, nat) -> IV

  function IVs(draw: Draw, pass: nat, n: nat): (ivs: seq<IV>)
    ensures |ivs| == n
  {
    seq(n, i requires 0 <= i < n => draw(pass, i))
  }

  /** A server that says nothing more has lost the connection. */
  function Next(answers: seq<Answer>): Answer {
    if answers == [] then NoAnswer else answers[0]
  }

  function Later(answers: seq<Answer>): seq<Answer> {
    if answers == [] then [] else answers[1..]
  }

  /** A patch that was sent, with the database it was encoded against and the answer it got. */
  datatype Sending = Sending(patch: SyncdPatch, against: Collection, answer: Answer)

  /** What sendAppState leaves in the database, returns, and has sent. */
  datatype SendOutcome = SendOutcome(collection: Collection, result: Result<(), SyncError>, sent: seq<Sending>)

  /** What follows a patch that was sent from database c. */
  function AfterSend(cr: Crypto, name: Bytes, c: Collection, answer: Answer, allowRetry: bool)
    : (Collection, Result<bool, SyncError>)
  {
    match answer
    case NoAnswer => (c, Err(NoResponse))
    case WithoutCollection => (c, Err(MissingCollection))
    case Refused => (c, Err(Rejected))
    case Accepted(replies) =>
      var fetched := RunFetch(cr, name, c, false, false, replies);
      (fetched.collection, if fetched.result.Err? then Err(fetched.result.error) else Ok(false))
    case Conflict(list, eventsOk) =>
      if !allowRetry || list.None? then (c, Err(Rejected))
      else
        var out := RunList(cr, name, c, Current(c), list.value, true);
        (out.collection,
         if out.result.Err? then Err(DecodeFailed(out.result.error))
         else if !eventsOk then Err(EventsFailed) else Ok(true))
  }

  /** One pass through sendAppState: the database after it, whether to send again, and what it sent. */
  datatype Pass = Pass(collection: Collection, again: Result<bool, SyncError>, sent: seq<Sending>)

  function RunPass(cr: Crypto, name: Bytes, c: Collection, keyID: Option<Bytes>, infos: seq<MutationInfo>,
                   ivs: seq<IV>, answer: Answer, allowRetry: bool): (pass: Pass)
    requires |ivs| == |infos|
    ensures pass.again.Ok? && pass.again.value ==> allowRetry
  {
    if !Readable(c) then Pass(c, Err(StoredVersionZero), [])
    else if keyID.None? then Pass(c, Err(NoKey), [])
    else if cr.key(keyID.value).None? then Pass(c, Err(EncodeFailed(KeyNotFound)), [])
    else
      var (after, next) := AfterSend(cr, name, c, answer, allowRetry);
      Pass(after, next, [Sending(PatchFor(cr, name, c, keyID.value, infos, ivs), c, answer)])
  }

  /** sendAppState. A conflict allows one retry, with the conflicting patches applied. */
  function RunSend(cr: Crypto, name: Bytes, c: Collection, keyID: Option<Bytes>, infos: seq<MutationInfo>,
                   draw: Draw, n: nat, answers: seq<Answer>, allowRetry: bool): SendOutcome
    decreases allowRetry
  {
    var pass := RunPass(cr, name, c, keyID, infos, IVs(draw, n, |infos|), Next(answers), allowRetry);
    if pass.again.Err? then SendOutcome(pass.collection, Err(pass.again.error), pass.sent)
    else if !pass.again.value then SendOutcome(pass.collection, Ok(()), pass.sent)
    else
      var last := RunSend(cr, name, pass.collection, keyID, infos, draw, n + 1, Later(answers), false);
      last.(sent := pass.sent + last.sent)
  }

  /** The patch encoded for what database c holds. */
  function PatchFor(cr: Crypto, name: Bytes, c: Collection, keyID: Bytes, infos: seq<MutationInfo>, ivs: seq<IV>)
    : SyncdPatch
    requires cr.key(keyID).Some? && |ivs| == |infos|
  {
    var keys := cr.key(keyID).value;
    BuildPatch(cr, name, keys, keyID, c.macs, Current(c), EncodeMutations(cr, keys, keyID, infos, ivs))
  }

  method SendAppState(proc: Processor, keyID: Option<Bytes>, infos: seq<MutationInfo>, draw: Draw, n: nat,
                      answers: seq<Answer>, allowRetry: bool)
    returns (r: Result<(), SyncError>, sent: seq<Sending>)
    modifies proc.store
    ensures SendOutcome(proc.store.Contents(), r, sent) ==
            RunSend(proc.cr, proc.name, old(proc.store.Contents()), keyID, infos, draw, n, answers, allowRetry)
    decreases allowRetry
  {
    var next;
    next, sent := SendPatch(proc, keyID, infos, IVs(draw, n, |infos|), Next(answers), allowRetry);
    if next.Err? {
      return Err(next.error), sent;
    } else if !next.value {
      return Ok(()), sent;
    }
    var again;
    r, again := SendAppState(proc, keyID, infos, draw, n + 1, Later(answers), false);
    sent := sent + again;
  }

  /** sendAppState up to the retry: whether to send again. */
  method SendPatch(proc: Processor, keyID: Option<Bytes>, infos: seq<MutationInfo>, ivs: seq<IV>, answer: Answer,
                   allowRetry: bool)
    returns (next: Result<bool, SyncError>, sent: seq<Sending>)
    requires |ivs| == |infos|
    modifies proc.store
    ensures Pass(proc.store.Contents(), next, sent) ==
            RunPass(proc.cr, proc.name, old(proc.store.Contents()), keyID, infos, ivs, answer, allowRetry)
  {
    sent := [];
    var before := proc.store.Contents();
    var stored := proc.store.GetAppStateVersion();
    if stored == None {
      return Err(StoredVersionZero), sent;
    } else if keyID == None {
      return Err(NoKey), sent;
    }
    var encoded := EncodePatch(proc, keyID.value, stored.value, infos, ivs);
    if encoded.Err? {
      return Err(EncodeFailed(encoded.error)), sent;
    }
    sent := [Sending(encoded.value, before, answer)];
    next := HandleAnswer(proc, stored.value, answer, allowRetry);
  }

  /** The part of sendAppState after the request was answered: whether to send again. */
  method HandleAnswer(proc: Processor, state: HashState, answer: Answer, allowRetry: bool)
    returns (r: Result<bool, SyncError>)
    requires state == Current(proc.store.Contents())
    modifies proc.store
    ensures (proc.store.Contents(), r) == AfterSend(proc.cr, proc.name, old(proc.store.Contents()), answer, allowRetry)
  {
    match answer {
      case NoAnswer => return Err(NoResponse);
      case WithoutCollection => return Err(MissingCollection);
      case Refused => return Err(Rejected);
      case Accepted(replies) =>
        var fetched := FetchAppState(proc, false, false, replies);
        r := if fetched.Err? then Err(fetched.error) else Ok(false);
      case Conflict(list, eventsOk) =>
        if !allowRetry || list.None? {
          return Err(Rejected);
        }
        var _ :- ApplyAppStatePatches(proc, state, list.value, eventsOk);
        return Ok(true);
    }
  }

  // ----- What leaves the client

  /** The sent patch is the one for the database it was encoded against. */
  predicate EncodedAgainst(cr: Crypto, name: Bytes, keyID: Option<Bytes>, infos: seq<MutationInfo>, ivs: seq<IV>,
                           s: Sending)
    requires |ivs| == |infos|
  {
    keyID.Some? && cr.key(keyID.value).Some? && s.patch == PatchFor(cr, name, s.against, keyID.value, infos, ivs)
  }

  /** What may have left the client: no patch; or one, encoded against the database of the start; or two,
      the second one after a conflict, encoded against the database with the conflicting patches applied. */
  predicate SentInOrder(cr: Crypto, name: Bytes, c: Collection, keyID: Option<Bytes>, infos: seq<MutationInfo>,
                        draw: Draw, n: nat, sent: seq<Sending>)
  {
    && |sent| <= 2
    && (|sent| >= 1 ==>
          sent[0].against == c && EncodedAgainst(cr, name, keyID, infos, IVs(draw, n, |infos|), sent[0]))
    && (|sent| == 2 ==>
          && EncodedAgainst(cr, name, keyID, infos, IVs(draw, n + 1, |infos|), sent[1])
          && sent[0].answer.Conflict? && sent[0].answer.list.Some?
          && sent[1].against == RunList(cr, name, c, Current(c), sent[0].answer.list.value, true).collection)
  }

  /** However many answers the server has ready: at most two patches leave per call, at most one when no retry
      is allowed, and success means the last one was accepted. */
  lemma {:induction false} SendsAtMostTwo(cr: Crypto, name: Bytes, c: Collection, keyID: Option<Bytes>,
                                          infos: seq<MutationInfo>, draw: Draw, n: nat, answers: seq<Answer>,
                                          allowRetry: bool)
    ensures var out := RunSend(cr, name, c, keyID, infos, draw, n, answers, allowRetry);
            && SentInOrder(cr, name, c, keyID, infos, draw, n, out.sent)
            && (!allowRetry ==> |out.sent| <= 1)
            && (out.result.Ok? ==> out.sent != [] && out.sent[|out.sent| - 1].answer.Accepted?)
    decreases allowRetry
  {
    var ivs := IVs(draw, n, |infos|);
    var pass := RunPass(cr, name, c, keyID, infos, ivs, Next(answers), allowRetry);
    PassSendsOne(cr, name, c, keyID, infos, ivs, Next(answers), allowRetry);
    if pass.again.Ok? && pass.again.value {
      SendsAtMostTwo(cr, name, pass.collection, keyID, infos, draw, n + 1, Later(answers), false);
    }
  }

  /** What a pass sends, and when it asks for another one. */
  predicate SendsOne(cr: Crypto, name: Bytes, c: Collection, keyID: Option<Bytes>, infos: seq<MutationInfo>,
                     ivs: seq<IV>, answer: Answer, allowRetry: bool, pass: Pass)
    requires |ivs| == |infos|
  {
    && |pass.sent| <= 1
    && (pass.sent != [] ==>
          && pass.sent[0].against == c && pass.sent[0].answer == answer
          && EncodedAgainst(cr, name, keyID, infos, ivs, pass.sent[0]))
    && (pass.again.Ok? && !pass.again.value ==> pass.sent != [] && answer.Accepted?)
    && (pass.again.Ok? && pass.again.value ==>
          && pass.sent != [] && allowRetry && answer.Conflict? && answer.list.Some?
          && pass.collection == RunList(cr, name, c, Current(c), answer.list.value, true).collection)
  }

  lemma PassSendsOne(cr: Crypto, name: Bytes, c: Collection, keyID: Option<Bytes>, infos: seq<MutationInfo>,
                     ivs: seq<IV>, answer: Answer, allowRetry: bool)
    requires |ivs| == |infos|
    ensures SendsOne(cr, name, c, keyID, infos, ivs, answer, allowRetry,
                     RunPass(cr, name, c, keyID, infos, ivs, answer, allowRetry))
  {
  }

  // ----- What a send keeps

  ghost function AnswerTrace(cr: Crypto, name: Bytes, c: Collection, answer: Answer, allowRetry: bool): Trace {
    match answer
    case Accepted(replies) => FetchTrace(cr, name, c, false, false, replies)
    case Conflict(list, _) =>
      if allowRetry && list.Some? then ListTrace(cr, name, c, list.value, true) else NoTrace()
    case _ => NoTrace()
  }

  /** A pass that sends nothing stores nothing. */
  predicate CanSend(cr: Crypto, c: Collection, keyID: Option<Bytes>) {
    Readable(c) && keyID.Some? && cr.key(keyID.value).Some?
  }

  ghost function SendTrace(cr: Crypto, name: Bytes, c: Collection, keyID: Option<Bytes>, answers: seq<Answer>,
                     allowRetry: bool): Trace
    decreases allowRetry
  {
    if !CanSend(cr, c, keyID) then NoTrace()
    else
      var first := AnswerTrace(cr, name, c, Next(answers), allowRetry);
      var (after, again) := AfterSend(cr, name, c, Next(answers), allowRetry);
      if allowRetry && again == Ok(true) then Then(first, SendTrace(cr, name, after, keyID, Later(answers), false))
      else first
  }

  lemma AnswerExplained(cr: Crypto, name: Bytes, c: Collection, answer: Answer, allowRetry: bool)
    ensures Explains(cr, c, AnswerTrace(cr, name, c, answer, allowRetry), AfterSend(cr, name, c, answer, allowRetry).0)
  {
    NothingExplains(cr, c);
    if answer.Accepted? {
      FetchKeepsValidStart(cr, name, c, false, false, answer.replies);
    } else if answer.Conflict? && answer.list.Some? {
      ListExplained(cr, name, c, answer.list.value, true);
    }
  }

  lemma {:induction false} SendExplained(cr: Crypto, name: Bytes, c: Collection, keyID: Option<Bytes>,
                                         infos: seq<MutationInfo>, draw: Draw, n: nat, answers: seq<Answer>,
                                         allowRetry: bool)
    ensures Explains(cr, c, SendTrace(cr, name, c, keyID, answers, allowRetry),
                     RunSend(cr, name, c, keyID, infos, draw, n, answers, allowRetry).collection)
    decreases allowRetry
  {
    NothingExplains(cr, c);
    if CanSend(cr, c, keyID) {
      AnswerExplained(cr, name, c, Next(answers), allowRetry);
      var (after, again) := AfterSend(cr, name, c, Next(answers), allowRetry);
      if allowRetry && again == Ok(true) {
        SendExplained(cr, name, after, keyID, infos, draw, n + 1, Later(answers), false);
        ExplainsThen(cr, c, AnswerTrace(cr, name, c, Next(answers), allowRetry), after,
                     SendTrace(cr, name, after, keyID, Later(answers), false),
                     RunSend(cr, name, after, keyID, infos, draw, n + 1, Later(answers), false).collection);
      }
    }
  }

  /** Whatever the server answers: sending from a valid start leaves a valid start if and only if the values the
      snapshots in the answers overwrite and the values their patches keep under unknown operations sum to the
      same and the last version stored is not 0. */
  lemma SendKeepsValidStart(cr: Crypto, name: Bytes, c: Collection, keyID: Option<Bytes>, infos: seq<MutationInfo>,
                            draw: Draw, answers: seq<Answer>)
    requires ValidStart(cr, c)
    ensures ValidStart(cr, RunSend(cr, name, c, keyID, infos, draw, 0, answers, true).collection)
            <==> Harmless(SendTrace(cr, name, c, keyID, answers, true))
  {
    SendExplained(cr, name, c, keyID, infos, draw, 0, answers, true);
    ExplainedEnd(cr, c, SendTrace(cr, name, c, keyID, answers, true),
                 RunSend(cr, name, c, keyID, infos, draw, 0, answers, true).collection);
  }

  /** A conflict whose snapshot holds one record of an index that is stored: applying it leaves the hash off by
      the old value, and consistent only if that value expands to zero. */
  lemma ConflictSnapshotDrifts(cr: Crypto, name: Bytes, c: Collection, list: PatchList, eventsOk: bool)
    requires ValidStart(cr, c) && list.patches == [] && list.snapshot.Some?
    requires DecodeSnapshot(cr, name, Current(c), list.snapshot.value, true).Ok?
    requires |list.snapshot.value.records| == 1 && list.snapshot.value.records[0].index in c.macs
    ensures Consistent(cr, AfterSend(cr, name, c, Conflict(Some(list), eventsOk), true).0)
            <==> Words(cr.hkdf(c.macs[list.snapshot.value.records[0].index])) == Zero()
  {
    SingleRecordOverwrites(cr, c, list.snapshot.value);
    SnapshotAlone(cr, name, c, list, true);
  }

  /** Functions under which everything decodes and every value expands to the block 1, 0, 0, ... */
  function Permissive(): Crypto {
    Crypto(_ => seq(SIZE, i => if i == 0 then 1 else 0), (_, _) => seq(32, _ => 0), (_, _) => seq(64, _ => 0),
           _ => Some(ExpandedKeys([], [], [], [], [])), (_, _, _) => [], (_, _, _) => Some([]),
           _ => [], _ => Some(SyncActionData([], [], 0)), _ => [], _ => Some([]))
  }

  function OneRecord(): SyncdSnapshot {
    SyncdSnapshot(2, [SyncdRecord(seq(32, _ => 0), seq(48, _ => 0), [])], seq(32, _ => 0), [])
  }

  lemma OneRecordDecodes(state: HashState)
    ensures DecodeSnapshot(Permissive(), [], state, OneRecord(), true).Ok?
  {
    var cr, muts := Permissive(), AsMutations(OneRecord().records);
    var r := muts[0].record;
    assert muts == [muts[0]] && muts[..1] == muts && muts[..0] == [];
    assert ContentMAC(cr, SET, r.blob[..|r.blob| - MAC_SIZE], r.keyID, []) == Suffix(r.blob, MAC_SIZE);
    assert DecodeMutation(cr, muts[0], true).Ok?;
    assert DecodeMutations(cr, muts[..0], true, 2) == Ok([]);
    DecodeAppend(cr, muts, 0, true, 2);
  }

  /** A collection that holds that record. */
  function Holding(): Collection {
    Collection(Some(HashState(1, Words(Permissive().hkdf([])))), map[OneRecord().records[0].index := []])
  }

  lemma HoldingIsValid()
    ensures ValidStart(Permissive(), Holding()) && Words(Permissive().hkdf([])) != Zero()
  {
    OneTotal(Permissive(), OneRecord().records[0].index, []);
    assert Words(Permissive().hkdf([]))[0] == 1;
  }

  /** It does happen: a valid start, and a conflict whose snapshot holds the stored record again. The hash then
      counts the value twice. */
  lemma DriftHappens()
    ensures var answer := Conflict(Some(PatchList(false, [], Some(OneRecord()))), true);
            && ValidStart(Permissive(), Holding())
            && !Consistent(Permissive(), AfterSend(Permissive(), [], Holding(), answer, true).0)
  {
    HoldingIsValid();
    OneRecordDecodes(Current(Holding()));
    ConflictSnapshotDrifts(Permissive(), [], Holding(), PatchList(false, [], Some(OneRecord())), true);
  }

  /** A patch of one mutation, on the index of the stored record, with an operation that is neither SET nor
      REMOVE. */
  function UnknownPatch(): SyncdPatch {
    var none: Bytes := [];
    SyncdPatch(2, [SyncdMutation(Unknown(2), OneRecord().records[0])], seq(32, _ => 0), seq(32, _ => 0), none)
  }

  lemma UnknownPatchDecodes(c: Collection)
    ensures DecodePatch(Permissive(), [], c, Current(c), UnknownPatch(), true).Ok?
  {
    var cr, muts := Permissive(), UnknownPatch().mutations;
    var r := muts[0].record;
    assert muts == [muts[0]] && muts[..1] == muts && muts[..0] == [];
    assert ContentMAC(cr, Unknown(2), r.blob[..|r.blob| - MAC_SIZE], r.keyID, []) == Suffix(r.blob, MAC_SIZE);
    assert DecodeMutation(cr, muts[0], true).Ok?;
    assert DecodeMutations(cr, muts[..0], true, 2) == Ok([]);
    DecodeAppend(cr, muts, 0, true, 2);
  }

  /** Without any snapshot: a fetch from a valid start whose one patch has an unknown operation on the stored
      index. It succeeds, and the hash no longer counts the value that stays stored. */
  lemma LossHappens()
    ensures var out := RunFetch(Permissive(), [], Holding(), false, false,
                                [Patches(PatchList(false, [UnknownPatch()], None), true)]);
            ValidStart(Permissive(), Holding()) && out.result.Ok? && !Consistent(Permissive(), out.collection)
  {
    var list := PatchList(false, [UnknownPatch()], None);
    HoldingIsValid();
    UnknownPatchDecodes(Holding());
    UnknownMutationDrifts(Permissive(), [], Holding(), list, true);
    OneRoundFetch(Permissive(), Holding(), list);
  }

  lemma OneRoundFetch(cr: Crypto, c: Collection, list: PatchList)
    requires Readable(c) && Current(c).version != 0 && list.snapshot.None? && !list.hasMorePatches
    requires |list.patches| == 1 && DecodePatch(cr, [], c, Current(c), list.patches[0], true).Ok?
    ensures var out := RunFetch(cr, [], c, false, false, [Patches(list, true)]);
            out.result.Ok? && out.collection == RunList(cr, [], c, Current(c), list, true).collection
  {
    var one := DecodePatch(cr, [], c, Current(c), list.patches[0], true).value;
    var next := Collection(Some(one.0), ApplyAll(c.macs, list.patches[0].mutations));
    assert list.patches[1..] == [];
    assert RunPatches(cr, [], next, one.0, [], true, [] + one.1).result.Ok?;
    assert RunList(cr, [], c, Current(c), list, true).result.Ok?;
    assert RunRound(cr, [], Head(Current(c), c), false, Patches(list, true)).outcome.result.Ok?;
  }

  // ----- Histories

  datatype Step =
    | Fetch(fullSync: bool, onlyIfNotSynced: bool, replies: seq<Reply>)
    | Send(keyID: Option<Bytes>, infos: seq<MutationInfo>, draw: Draw, answers: seq<Answer>)

  function RunStep(cr: Crypto, name: Bytes, c: Collection, step: Step): Collection {
    match step
    case Fetch(fullSync, onlyIfNotSynced, replies) =>
      RunFetch(cr, name, c, fullSync, onlyIfNotSynced, replies).collection
    case Send(keyID, infos, draw, answers) =>
      RunSend(cr, name, c, keyID, infos, draw, 0, answers, true).collection
  }

  function RunHistory(cr: Crypto, name: Bytes, history: seq<Step>): Collection {
    if history == [] then Collection(None, map[])
    else RunStep(cr, name, RunHistory(cr, name, history[..|history| - 1]), history[|history| - 1])
  }

  ghost function StepTrace(cr: Crypto, name: Bytes, c: Collection, step: Step): Trace {
    match step
    case Fetch(fullSync, onlyIfNotSynced, replies) => FetchTrace(cr, name, c, fullSync, onlyIfNotSynced, replies)
    case Send(keyID, _, _, answers) => SendTrace(cr, name, c, keyID, answers, true)
  }

  /** What the history stores, overwrites and keeps since its last full sync. */
  ghost function HistoryTrace(cr: Crypto, name: Bytes, history: seq<Step>): Trace {
    if history == [] then NoTrace()
    else
      var before, last := history[..|history| - 1], history[|history| - 1];
      var step := StepTrace(cr, name, RunHistory(cr, name, before), last);
      if last.Fetch? && last.fullSync then step else Then(HistoryTrace(cr, name, before), step)
  }

  lemma {:induction false} HistoryExplained(cr: Crypto, name: Bytes, history: seq<Step>)
    ensures Explains(cr, Collection(None, map[]), HistoryTrace(cr, name, history), RunHistory(cr, name, history))
  {
    var empty := Collection(None, map[]);
    if history == [] {
      NothingExplains(cr, empty);
    } else {
      var before, last := history[..|history| - 1], history[|history| - 1];
      var c := RunHistory(cr, name, before);
      HistoryExplained(cr, name, before);
      StepExplained(cr, name, c, last);
      if !(last.Fetch? && last.fullSync) {
        ExplainsThen(cr, empty, HistoryTrace(cr, name, before), c, StepTrace(cr, name, c, last),
                     RunStep(cr, name, c, last));
      }
    }
  }

  lemma StepExplained(cr: Crypto, name: Bytes, c: Collection, step: Step)
    ensures Explains(cr, if step.Fetch? then FetchStart(c, step.fullSync) else c, StepTrace(cr, name, c, step),
                     RunStep(cr, name, c, step))
  {
    match step
    case Fetch(fullSync, onlyIfNotSynced, replies) =>
      FetchKeepsValidStart(cr, name, c, fullSync, onlyIfNotSynced, replies);
    case Send(keyID, infos, draw, answers) =>
      SendExplained(cr, name, c, keyID, infos, draw, 0, answers, true);
  }

  /** A history of fetches and sends ends in a valid start if and only if, since its last full sync, what its
      snapshots overwrite and what its patches keep under unknown operations sum to the same and the last version
      stored is not 0. */
  lemma HistoryIsValid(cr: Crypto, name: Bytes, history: seq<Step>)
    ensures ValidStart(cr, RunHistory(cr, name, history)) <==> Harmless(HistoryTrace(cr, name, history))
  {
    var empty := Collection(None, map[]);
    HistoryExplained(cr, name, history);
    assert ValidStart(cr, empty);
    ExplainedEnd(cr, empty, HistoryTrace(cr, name, history), RunHistory(cr, name, history));
  }

  /** Any two histories of snapshots, patches and sends that end in the same map of MACs end in the same hash
      if and only if they drift by the same: a full resync and an incremental sync that overwrite nothing and
      keep nothing under an unknown operation cannot diverge. */
  lemma SnapshotAndReplayAgree(cr: Crypto, name: Bytes, history: seq<Step>, other: seq<Step>)
    requires RunHistory(cr, name, history).macs == RunHistory(cr, name, other).macs
    ensures Current(RunHistory(cr, name, history)).hash == Current(RunHistory(cr, name, other)).hash
            <==> Drift(HistoryTrace(cr, name, history)) == Drift(HistoryTrace(cr, name, other))
  {
    HistoryExplained(cr, name, history);
    HistoryExplained(cr, name, other);
    SameOffset(cr, RunHistory(cr, name, history), Drift(HistoryTrace(cr, name, history)));
    SameOffset(cr, RunHistory(cr, name, other), Drift(HistoryTrace(cr, name, other)));
    var t := MapTotal(cr.hkdf, RunHistory(cr, name, history).macs);
    if Current(RunHistory(cr, name, history)).hash == Current(RunHistory(cr, name, other)).hash {
      Cancels(Drift(HistoryTrace(cr, name, history)), Drift(HistoryTrace(cr, name, other)), t);
    }
  }

  /** The hash is the drift on top of the sum over the map. */
  lemma SameOffset(cr: Crypto, c: Collection, drift: Sum)
    requires Offset(cr, c) == Plus(Offset(cr, Collection(None, map[])), drift)
    ensures Current(c).hash == Plus(drift, MapTotal(cr.hkdf, c.macs))
  {
    var empty := Collection(None, map[]);
    assert Consistent(cr, empty);
    ConsistentOffset(cr, empty);
    PlusZero(drift);
    MinusInverts(Current(c).hash, MapTotal(cr.hkdf, c.macs));
  }
}
