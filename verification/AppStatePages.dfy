/** What a fetch applies and when a send succeeds, said without the rounds of the loops: by the lists of the server
    that are applied, one after the other. */
module AppStatePages {
  import opened Bytes
  import opened LtHash
  import opened AppState
  import opened AppStateProofs
  import opened AppStateEncode
  import opened AppStateSync

  // ----- Fetching

  function Lists(pages: seq<Reply>): (lists: seq<PatchList>)
    requires forall i | 0 <= i < |pages| :: pages[i].Patches?
    ensures |lists| == |pages|
  {
    seq(|pages|, i requires 0 <= i < |pages| => pages[i].list)
  }

  function AfterList(cr: Crypto, name: Bytes, c: Collection, list: PatchList): Collection {
    RunList(cr, name, c, Current(c), list, true).collection
  }

  /** The collection after these lists. */
  function Applied(cr: Crypto, name: Bytes, c: Collection, lists: seq<PatchList>): Collection
    decreases |lists|
  {
    if lists == [] then c
    else Applied(cr, name, AfterList(cr, name, c, lists[0]), lists[1..])
  }

  predicate AllPatches(pages: seq<Reply>) {
    forall i | 0 <= i < |pages| :: pages[i].Patches?
  }

  /** A page that decodes, with a snapshot only when it was asked for and there is nothing to overwrite. */
  predicate PageApplies(cr: Crypto, name: Bytes, c: Collection, wantSnapshot: bool, page: Reply) {
    && page.Patches? && page.eventsOk
    && (page.list.snapshot.Some? ==> wantSnapshot && Current(c) == EmptyState())
    && RunList(cr, name, c, Current(c), page.list, true).result.Ok?
  }

  /** The pages of one fetch: each is applied, all but the last one announce more, and only the first one may hold
      a snapshot. */
  predicate AllApply(cr: Crypto, name: Bytes, c: Collection, wantSnapshot: bool, pages: seq<Reply>)
    decreases |pages|
  {
    && pages != [] && PageApplies(cr, name, c, wantSnapshot, pages[0])
    && (pages[0].list.hasMorePatches <==> |pages| > 1)
    && (|pages| > 1 ==> AllApply(cr, name, AfterList(cr, name, c, pages[0].list), false, pages[1..]))
  }

  lemma {:induction false} ApplyingPages(cr: Crypto, name: Bytes, c: Collection, wantSnapshot: bool, pages: seq<Reply>)
    requires AllApply(cr, name, c, wantSnapshot, pages)
    ensures AllPatches(pages)
    decreases |pages|
  {
    if |pages| > 1 {
      ApplyingPages(cr, name, AfterList(cr, name, c, pages[0].list), false, pages[1..]);
      assert forall i | 0 < i < |pages| :: pages[i] == pages[1..][i - 1];
    }
  }

  lemma AppliedFirst(cr: Crypto, name: Bytes, c: Collection, pages: seq<Reply>)
    requires pages != [] && AllPatches(pages)
    ensures AllPatches(pages[1..])
    ensures Applied(cr, name, c, Lists(pages)) ==
            Applied(cr, name, AfterList(cr, name, c, pages[0].list), Lists(pages[1..]))
  {
    assert Lists(pages)[1..] == Lists(pages[1..]);
  }

  /** A page that applies goes on to the next round exactly when it announces more. */
  lemma PageRound(cr: Crypto, name: Bytes, c: Collection, wantSnapshot: bool, reply: Reply)
    ensures var round := RunRound(cr, name, Head(Current(c), c), wantSnapshot, reply);
            if !PageApplies(cr, name, c, wantSnapshot, reply) then round.Done? && round.outcome.result.Err?
            else
              var after := AfterList(cr, name, c, reply.list);
              if reply.list.hasMorePatches then round == Again(Head(Current(after), after))
              else round == Done(SyncOutcome(after, Ok(Some(Current(after)))))
  {
    if reply.Patches? {
      ListExplained(cr, name, c, reply.list, true);
    }
  }

  lemma PageThen(cr: Crypto, name: Bytes, c: Collection, wantSnapshot: bool, page: Reply, later: seq<Reply>,
                 after: Collection)
    requires PageApplies(cr, name, c, wantSnapshot, page) && after == AfterList(cr, name, c, page.list)
    ensures RunRounds(cr, name, Head(Current(c), c), wantSnapshot, [page] + later) ==
            if page.list.hasMorePatches then RunRounds(cr, name, Head(Current(after), after), false, later)
            else SyncOutcome(after, Ok(Some(Current(after))))
  {
    PageRound(cr, name, c, wantSnapshot, page);
    RoundsFirst(cr, name, Head(Current(c), c), wantSnapshot, page, later);
  }

  /** Pages that apply, with anything after them: the rounds use exactly these and succeed. */
  lemma {:induction false} PagesSucceed(cr: Crypto, name: Bytes, c: Collection, wantSnapshot: bool, pages: seq<Reply>,
                                        later: seq<Reply>, after: Collection)
    requires AllApply(cr, name, c, wantSnapshot, pages) && AllPatches(pages)
    requires after == Applied(cr, name, c, Lists(pages))
    ensures RunRounds(cr, name, Head(Current(c), c), wantSnapshot, pages + later) ==
            SyncOutcome(after, Ok(Some(Current(after))))
    decreases |pages|
  {
    var next := AfterList(cr, name, c, pages[0].list);
    AppliedFirst(cr, name, c, pages);
    PageThen(cr, name, c, wantSnapshot, pages[0], pages[1..] + later, next);
    assert pages + later == [pages[0]] + (pages[1..] + later);
    if |pages| > 1 {
      PagesSucceed(cr, name, next, false, pages[1..], later, after);
    } else {
      assert Lists(pages[1..]) == [];
    }
  }

  /** Rounds that succeed have used pages that apply. */
  lemma {:induction false} SuccessUsesPages(cr: Crypto, name: Bytes, c: Collection, wantSnapshot: bool,
                                            replies: seq<Reply>) returns (n: nat)
    requires RunRounds(cr, name, Head(Current(c), c), wantSnapshot, replies).result.Ok?
    ensures n <= |replies| && AllApply(cr, name, c, wantSnapshot, replies[..n])
    decreases |replies|
  {
    PageRound(cr, name, c, wantSnapshot, replies[0]);
    if replies[0].list.hasMorePatches {
      var next := AfterList(cr, name, c, replies[0].list);
      var m := SuccessUsesPages(cr, name, next, false, replies[1..]);
      n := m + 1;
      assert replies[..n][1..] == replies[1..][..m];
      assert m > 0;
    } else {
      n := 1;
    }
  }

  /** The loop succeeds if and only if the replies start with pages that all apply, up to the first one that does
      not announce more. */
  lemma RoundsSucceed(cr: Crypto, name: Bytes, c: Collection, wantSnapshot: bool, replies: seq<Reply>)
    ensures RunRounds(cr, name, Head(Current(c), c), wantSnapshot, replies).result.Ok?
            <==> exists n :: 0 <= n <= |replies| && AllApply(cr, name, c, wantSnapshot, replies[..n])
  {
    if RunRounds(cr, name, Head(Current(c), c), wantSnapshot, replies).result.Ok? {
      var n := SuccessUsesPages(cr, name, c, wantSnapshot, replies);
    }
    if n :| 0 <= n <= |replies| && AllApply(cr, name, c, wantSnapshot, replies[..n]) {
      ApplyingPages(cr, name, c, wantSnapshot, replies[..n]);
      PagesSucceed(cr, name, c, wantSnapshot, replies[..n], replies[n..],
                   Applied(cr, name, c, Lists(replies[..n])));
      assert replies[..n] + replies[n..] == replies;
    }
  }

  /** A fetch does nothing if and only if the collection is synced and that is enough. Otherwise it succeeds if and
      only if the stored version can be read and the replies start with pages that all apply; and the collection
      is then the one after these pages, from an emptied one in a full sync. */
  lemma FetchAppliesPages(cr: Crypto, name: Bytes, c: Collection, fullSync: bool, onlyIfNotSynced: bool,
                          replies: seq<Reply>)
    ensures var start := if fullSync then Collection(None, map[]) else c;
            var out := RunFetch(cr, name, c, fullSync, onlyIfNotSynced, replies);
            var synced := start.row.Some? && start.row.value.version != 0;
            && (out.result == Ok(None) <==> synced && onlyIfNotSynced)
            && (out.result.Ok? && out.result.value.Some? <==>
                  && (start.row.None? || (synced && !onlyIfNotSynced))
                  && exists n :: 0 <= n <= |replies| && AllApply(cr, name, start, start.row.None?, replies[..n]))
  {
    var start := if fullSync then Collection(None, map[]) else c;
    RoundsSucceed(cr, name, start, start.row.None?, replies);
    RoundsExplained(cr, name, start, start.row.None?, replies);
  }

  lemma FetchedPages(cr: Crypto, name: Bytes, c: Collection, fullSync: bool, replies: seq<Reply>, n: nat)
    requires n <= |replies|
    requires var start := if fullSync then Collection(None, map[]) else c;
             && (start.row.Some? ==> start.row.value.version != 0)
             && AllApply(cr, name, start, start.row.None?, replies[..n])
    ensures AllPatches(replies[..n])
    ensures var start := if fullSync then Collection(None, map[]) else c;
            var after := Applied(cr, name, start, Lists(replies[..n]));
            RunFetch(cr, name, c, fullSync, false, replies) == SyncOutcome(after, Ok(Some(Current(after))))
  {
    var start := if fullSync then Collection(None, map[]) else c;
    ApplyingPages(cr, name, start, start.row.None?, replies[..n]);
    PagesSucceed(cr, name, start, start.row.None?, replies[..n], replies[n..],
                 Applied(cr, name, start, Lists(replies[..n])));
    assert replies[..n] + replies[n..] == replies;
  }

  // ----- Sending

  /** The first answer is a conflict whose patches apply. */
  predicate ConflictApplies(cr: Crypto, name: Bytes, c: Collection, answers: seq<Answer>) {
    && answers != [] && answers[0].Conflict? && answers[0].list.Some? && answers[0].eventsOk
    && RunList(cr, name, c, Current(c), answers[0].list.value, true).result.Ok?
  }

  /** A patch sent from this collection is accepted, and the fetch that follows succeeds. */
  predicate AcceptedFrom(cr: Crypto, name: Bytes, c: Collection, answers: seq<Answer>) {
    && answers != [] && answers[0].Accepted?
    && RunFetch(cr, name, c, false, false, answers[0].replies).result.Ok?
  }

  lemma AfterAccepted(cr: Crypto, name: Bytes, c: Collection, answers: seq<Answer>, allowRetry: bool)
    ensures var (after, again) := AfterSend(cr, name, c, Next(answers), allowRetry);
            && (again == Ok(false) <==> AcceptedFrom(cr, name, c, answers))
            && (again == Ok(false) ==>
                  after == RunFetch(cr, name, c, false, false, answers[0].replies).collection)
  {
  }

  lemma AfterConflict(cr: Crypto, name: Bytes, c: Collection, answers: seq<Answer>, allowRetry: bool)
    ensures var (after, again) := AfterSend(cr, name, c, Next(answers), allowRetry);
            && (again == Ok(true) <==> allowRetry && ConflictApplies(cr, name, c, answers))
            && (again == Ok(true) ==> after == AfterList(cr, name, c, answers[0].list.value))
  {
    var answer := Next(answers);
    if allowRetry && answer.Conflict? && answer.list.Some? {
      ConflictOutcome(cr, name, c, answer.list.value, answer.eventsOk,
                      RunList(cr, name, c, Current(c), answer.list.value, true));
    }
  }

  lemma ConflictOutcome(cr: Crypto, name: Bytes, c: Collection, list: PatchList, eventsOk: bool, out: Outcome)
    requires out == RunList(cr, name, c, Current(c), list, true)
    ensures AfterSend(cr, name, c, Conflict(Some(list), eventsOk), true).0 == out.collection
    ensures AfterSend(cr, name, c, Conflict(Some(list), eventsOk), true).1 == Ok(true) <==> out.result.Ok? && eventsOk
  {
  }

  /** A pass sends one patch, when it can, and goes on as its answer says. */
  lemma PassOutcome(cr: Crypto, name: Bytes, c: Collection, keyID: Option<Bytes>, infos: seq<MutationInfo>,
                    ivs: seq<IV>, answer: Answer, allowRetry: bool)
    requires |ivs| == |infos|
    ensures var pass := RunPass(cr, name, c, keyID, infos, ivs, answer, allowRetry);
            if CanSend(cr, c, keyID)
            then |pass.sent| == 1 && (pass.collection, pass.again) == AfterSend(cr, name, c, answer, allowRetry)
            else |pass.sent| == 0 && pass.again.Err?
  {
  }

  /** The last pass, without a retry. */
  lemma LastPass(cr: Crypto, name: Bytes, c: Collection, keyID: Option<Bytes>, infos: seq<MutationInfo>, draw: Draw,
                 n: nat, answers: seq<Answer>)
    ensures var out := RunSend(cr, name, c, keyID, infos, draw, n, answers, false);
            && |out.sent| == (if CanSend(cr, c, keyID) then 1 else 0)
            && (out.result.Ok? <==> CanSend(cr, c, keyID) && AcceptedFrom(cr, name, c, answers))
            && (out.result.Ok? ==>
                  out.collection == RunFetch(cr, name, c, false, false, answers[0].replies).collection)
  {
    PassOutcome(cr, name, c, keyID, infos, IVs(draw, n, |infos|), Next(answers), false);
    AfterAccepted(cr, name, c, answers, false);
    AfterConflict(cr, name, c, answers, false);
  }

  /** A second patch leaves if and only if the first one met a conflict that applies and leaves a collection that
      can be sent from; and a send succeeds if and only if its last patch is accepted and the fetch after it
      succeeds, whose collection it leaves. */
  lemma ConflictIsRetried(cr: Crypto, name: Bytes, c: Collection, keyID: Option<Bytes>, infos: seq<MutationInfo>,
                          draw: Draw, answers: seq<Answer>)
    ensures var out := RunSend(cr, name, c, keyID, infos, draw, 0, answers, true);
            if !CanSend(cr, c, keyID) then |out.sent| == 0 && out.result.Err?
            else if ConflictApplies(cr, name, c, answers) then
              var after := AfterList(cr, name, c, answers[0].list.value);
              && |out.sent| == (if CanSend(cr, after, keyID) then 2 else 1)
              && (out.result.Ok? <==> CanSend(cr, after, keyID) && AcceptedFrom(cr, name, after, answers[1..]))
              && (out.result.Ok? ==>
                    out.collection == RunFetch(cr, name, after, false, false, answers[1].replies).collection)
            else
              && |out.sent| == 1
              && (out.result.Ok? <==> AcceptedFrom(cr, name, c, answers))
              && (out.result.Ok? ==>
                    out.collection == RunFetch(cr, name, c, false, false, answers[0].replies).collection)
  {
    PassOutcome(cr, name, c, keyID, infos, IVs(draw, 0, |infos|), Next(answers), true);
    AfterAccepted(cr, name, c, answers, true);
    AfterConflict(cr, name, c, answers, true);
    if CanSend(cr, c, keyID) && ConflictApplies(cr, name, c, answers) {
      LastPass(cr, name, AfterList(cr, name, c, answers[0].list.value), keyID, infos, draw, 1, answers[1..]);
    }
  }

  // ----- A patch that comes back

  /** The server accepts a patch and the fetch returns it, stamped with the next version: the collection ends at
      that version with the mutations applied, and is a valid start again. */
  lemma SentPatchComesBack(cr: Crypto, name: Bytes, c: Collection, keyID: Bytes, keys: ExpandedKeys,
                           infos: seq<MutationInfo>, draw: Draw)
    requires Lawful(cr) && ValidStart(cr, c) && cr.key(keyID) == Some(keys)
    requires Current(c).version as int + 1 < 0x1_0000_0000_0000_0000
    requires DistinctIndexes(EncodeMutations(cr, keys, keyID, infos, IVs(draw, 0, |infos|)))
    ensures var muts := EncodeMutations(cr, keys, keyID, infos, IVs(draw, 0, |infos|));
            var patch := PatchFor(cr, name, c, keyID, infos, IVs(draw, 0, |infos|));
            var stamped := patch.(version := Current(c).version as int + 1);
            var answers := [Accepted([Patches(PatchList(false, [stamped], None), true)])];
            var out := RunSend(cr, name, c, Some(keyID), infos, draw, 0, answers, true);
            && out.result == Ok(()) && |out.sent| == 1 && out.sent[0].patch == patch
            && out.collection.macs == ApplyAll(c.macs, muts)
            && Current(out.collection).version as int == Current(c).version as int + 1
            && ValidStart(cr, out.collection)
  {
    var ivs := IVs(draw, 0, |infos|);
    var stamped := PatchFor(cr, name, c, keyID, infos, ivs).(version := Current(c).version as int + 1);
    StampedDecodes(cr, name, c, keyID, keys, infos, ivs, stamped);
    AcceptedPatch(cr, name, c, keyID, infos, draw, stamped);
    EncodedIsSound(cr, name, c, stamped);
  }

  lemma StampedDecodes(cr: Crypto, name: Bytes, c: Collection, keyID: Bytes, keys: ExpandedKeys,
                       infos: seq<MutationInfo>, ivs: seq<IV>, stamped: SyncdPatch)
    requires Lawful(cr) && cr.key(keyID) == Some(keys) && |ivs| == |infos|
    requires Current(c).version as int + 1 < 0x1_0000_0000_0000_0000
    requires DistinctIndexes(EncodeMutations(cr, keys, keyID, infos, ivs))
    requires stamped == PatchFor(cr, name, c, keyID, infos, ivs).(version := Current(c).version as int + 1)
    ensures DecodePatch(cr, name, c, Current(c), stamped, true).Ok?
    ensures stamped.mutations == EncodeMutations(cr, keys, keyID, infos, ivs)
    ensures forall i | 0 <= i < |stamped.mutations| :: stamped.mutations[i].operation.SET?
  {
    var muts := EncodeMutations(cr, keys, keyID, infos, ivs);
    EncodedPatchDecodes(cr, name, c, Current(c), keys, keyID, infos, ivs);
    StampedIs(cr, name, c, keyID, keys, infos, ivs, muts, stamped);
    forall i | 0 <= i < |muts| ensures muts[i].operation.SET? {
      assert muts[i] == EncodeMutation(cr, keys, keyID, infos[i], ivs[i]);
    }
  }

  lemma StampedIs(cr: Crypto, name: Bytes, c: Collection, keyID: Bytes, keys: ExpandedKeys, infos: seq<MutationInfo>,
                  ivs: seq<IV>, muts: seq<SyncdMutation>, stamped: SyncdPatch)
    requires cr.key(keyID) == Some(keys) && |ivs| == |infos| && muts == EncodeMutations(cr, keys, keyID, infos, ivs)
    requires Current(c).version as int + 1 < 0x1_0000_0000_0000_0000
    requires stamped == PatchFor(cr, name, c, keyID, infos, ivs).(version := Current(c).version as int + 1)
    ensures stamped.mutations == muts
    ensures stamped == BuildPatch(cr, name, keys, keyID, c.macs, Current(c), muts)
                         .(version := NextVersion(Current(c).version))
  {
  }

  /** A sent patch whose answer brings back this patch, which decodes. */
  lemma AcceptedPatch(cr: Crypto, name: Bytes, c: Collection, keyID: Bytes, infos: seq<MutationInfo>, draw: Draw,
                      patch: SyncdPatch)
    requires CanSend(cr, c, Some(keyID)) && DecodePatch(cr, name, c, Current(c), patch, true).Ok?
    ensures var answers := [Accepted([Patches(PatchList(false, [patch], None), true)])];
            var out := RunSend(cr, name, c, Some(keyID), infos, draw, 0, answers, true);
            var newState := DecodePatch(cr, name, c, Current(c), patch, true).value.0;
            && out.result == Ok(()) && |out.sent| == 1
            && out.sent[0].patch == PatchFor(cr, name, c, keyID, infos, IVs(draw, 0, |infos|))
            && out.collection == Collection(Some(newState), ApplyAll(c.macs, patch.mutations))
  {
    var answers := [Accepted([Patches(PatchList(false, [patch], None), true)])];
    FetchOnePatch(cr, name, c, patch);
    ConflictIsRetried(cr, name, c, Some(keyID), infos, draw, answers);
    SendsAtMostTwo(cr, name, c, Some(keyID), infos, draw, 0, answers, true);
  }

  /** A fetch that gets one patch that decodes applies it. */
  lemma FetchOnePatch(cr: Crypto, name: Bytes, c: Collection, patch: SyncdPatch)
    requires Readable(c) && DecodePatch(cr, name, c, Current(c), patch, true).Ok?
    ensures var out := RunFetch(cr, name, c, false, false, [Patches(PatchList(false, [patch], None), true)]);
            var newState := DecodePatch(cr, name, c, Current(c), patch, true).value.0;
            out.result.Ok? && out.collection == Collection(Some(newState), ApplyAll(c.macs, patch.mutations))
  {
    var list := PatchList(false, [patch], None);
    var page := [Patches(list, true)];
    OnePatchApplies(cr, name, c, patch);
    assert page[..1] == page && AllApply(cr, name, c, c.row.None?, page[..1]);
    FetchedPages(cr, name, c, false, page, 1);
    assert Lists(page)[1..] == [] && Applied(cr, name, c, Lists(page)) == AfterList(cr, name, c, list);
  }

  lemma OnePatchApplies(cr: Crypto, name: Bytes, c: Collection, patch: SyncdPatch)
    requires DecodePatch(cr, name, c, Current(c), patch, true).Ok?
    ensures var out := RunList(cr, name, c, Current(c), PatchList(false, [patch], None), true);
            var newState := DecodePatch(cr, name, c, Current(c), patch, true).value.0;
            out.result.Ok? && out.collection == Collection(Some(newState), ApplyAll(c.macs, patch.mutations))
  {
    var one := DecodePatch(cr, name, c, Current(c), patch, true).value;
    var next := Collection(Some(one.0), ApplyAll(c.macs, patch.mutations));
    assert [patch][1..] == [];
    assert RunPatches(cr, name, next, one.0, [], true, [] + one.1) == Outcome(next, Ok((one.0, [] + one.1)));
  }

  /** A patch of SETs keeps a valid start valid. */
  lemma EncodedIsSound(cr: Crypto, name: Bytes, c: Collection, patch: SyncdPatch)
    requires ValidStart(cr, c) && patch.version != 0
    requires forall i | 0 <= i < |patch.mutations| :: patch.mutations[i].operation.SET?
    requires DecodePatch(cr, name, c, Current(c), patch, true).Ok?
    ensures var newState := DecodePatch(cr, name, c, Current(c), patch, true).value.0;
            newState.version == patch.version
            && ValidStart(cr, Collection(Some(newState), ApplyAll(c.macs, patch.mutations)))
  {
    PatchMovesOffset(cr, name, c, patch, true);
    KnownKeepsNothing(cr, c, patch);
    var newState := DecodePatch(cr, name, c, Current(c), patch, true).value.0;
    ExplainedEnd(cr, c, PatchTrace(cr, c, patch), Collection(Some(newState), ApplyAll(c.macs, patch.mutations)));
  }
}
