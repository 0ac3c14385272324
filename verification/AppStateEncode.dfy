/** EncodePatch (appstate/encode.go) and its agreement with the decoder. */
module AppStateEncode {
  import opened Bytes
  import opened LtHash
  import opened AppState
  import opened AppStateStore
  import opened AppStateDecode
  import opened AppStateProofs
  import opened Jid
  import JidText

  /** A mutation to send; value is the action with its time stamp already set. */
  datatype MutationInfo = MutationInfo(index: seq<Bytes>, version: int, value: Bytes)

  type IV = b: Bytes | |b| == IV_SIZE witness seq(IV_SIZE, _ => 0)

  function EncodeMutation(cr: Crypto, keys: ExpandedKeys, keyID: Bytes, info: MutationInfo, iv: IV): SyncdMutation {
    var indexBytes := cr.marshalIndex(info.index);
    var content := cr.marshalAction(SyncActionData(indexBytes, info.value, info.version));
    var encrypted := iv + cr.cbcEncrypt(keys.valueEncryption, iv, content);
    var valueMAC := ContentMAC(cr, SET, encrypted, keyID, keys.valueMAC);
    SyncdMutation(SET, SyncdRecord(cr.hmacSha256(keys.index, indexBytes), encrypted + valueMAC, keyID))
  }

  function EncodeMutations(cr: Crypto, keys: ExpandedKeys, keyID: Bytes, infos: seq<MutationInfo>, ivs: seq<IV>)
    : (muts: seq<SyncdMutation>)
    requires |ivs| == |infos|
    ensures |muts| == |infos|
  {
    seq(|infos|, i requires 0 <= i < |infos| => EncodeMutation(cr, keys, keyID, infos[i], ivs[i]))
  }

  function NextVersion(v: uint64): uint64 {
    (v as int + 1) % 0x1_0000_0000_0000_0000
  }

  /** The state EncodePatch signs: its updateHash callback asks the database only. */
  function EncodedState(cr: Crypto, macs: MacMap, state: HashState, muts: seq<SyncdMutation>): HashState {
    HashState(NextVersion(state.version), UpdatedHash(cr, StoreOnly, macs, state.hash, muts))
  }

  /** The patch EncodePatch builds. It carries no version: the server stamps it. */
  function BuildPatch(cr: Crypto, name: Bytes, keys: ExpandedKeys, keyID: Bytes, macs: MacMap, state: HashState,
                      muts: seq<SyncdMutation>): SyncdPatch
  {
    var newState := EncodedState(cr, macs, state, muts);
    var unsigned := SyncdPatch(0, muts, SnapshotMAC(cr, newState, name, keys.snapshotMAC), [], keyID);
    unsigned.(patchMAC := PatchMAC(cr, unsigned, name, keys.patchMAC, newState.version))
  }

  /** EncodePatch. The initialisation vectors are the random bytes it draws. */
  method EncodePatch(proc: Processor, keyID: Bytes, state: HashState, infos: seq<MutationInfo>, ivs: seq<IV>)
    returns (r: Result<SyncdPatch, Error>)
    requires |ivs| == |infos|
    ensures match proc.cr.key(keyID)
            case None => r == Err(KeyNotFound)
            case Some(keys) =>
              r == Ok(BuildPatch(proc.cr, proc.name, keys, keyID, proc.store.macs, state,
                                 EncodeMutations(proc.cr, keys, keyID, infos, ivs)))
  {
    var keys := proc.cr.key(keyID);
    if keys == None {
      return Err(KeyNotFound);
    }
    ghost var all := EncodeMutations(proc.cr, keys.value, keyID, infos, ivs);
    var muts: seq<SyncdMutation> := [];
    for i := 0 to |infos|
      invariant muts == all[..i]
    {
      muts := muts + [EncodeMutation(proc.cr, keys.value, keyID, infos[i], ivs[i])];
    }
    assert muts == all;
    EncodedSliceable(proc.cr, keys.value, keyID, infos, ivs);
    var updated := proc.UpdateHash(StoreOnly, state, muts);
    var newState := updated.value.(version := NextVersion(updated.value.version));
    var snapshotMAC := SnapshotMAC(proc.cr, newState, proc.name, keys.value.snapshotMAC);
    var patch := SyncdPatch(0, muts, snapshotMAC, [], keyID);
    var mac := GeneratePatchMAC(proc.cr, patch, proc.name, keys.value.patchMAC, newState.version);
    return Ok(patch.(patchMAC := mac.value));
  }

  lemma EncodedSliceable(cr: Crypto, keys: ExpandedKeys, keyID: Bytes, infos: seq<MutationInfo>, ivs: seq<IV>)
    requires |ivs| == |infos|
    ensures var muts := EncodeMutations(cr, keys, keyID, infos, ivs); SetsSliceable(muts) && AllSliceable(muts)
  {
    forall i | 0 <= i < |infos| ensures Sliceable(EncodeMutation(cr, keys, keyID, infos[i], ivs[i]).record) {
    }
  }

  predicate DistinctIndexes(muts: seq<SyncdMutation>) {
    forall i, j | 0 <= i < j < |muts| :: muts[i].record.index != muts[j].record.index
  }

  // ----- Where the two callbacks part

  /** A mutation of the list has the index. */
  predicate Occurs(muts: seq<SyncdMutation>, index: Bytes) {
    exists i | 0 <= i < |muts| :: muts[i].record.index == index
  }

  function AtMostOne(value: Option<Bytes>): seq<Bytes> {
    if value.Some? then [value.value] else []
  }

  /** What the database holds for the indexes that occur for the first time. */
  function FirstValues(macs: MacMap, muts: seq<SyncdMutation>): seq<Bytes> {
    if muts == [] then []
    else
      var before, index := muts[..|muts| - 1], muts[|muts| - 1].record.index;
      FirstValues(macs, before) + if Occurs(before, index) then [] else AtMostOne(Lookup(macs, index))
  }

  /** What the database holds for the indexes that occur again, once for every repetition. */
  function StoredAgain(macs: MacMap, muts: seq<SyncdMutation>): seq<Bytes> {
    if muts == [] then []
    else
      var before, index := muts[..|muts| - 1], muts[|muts| - 1].record.index;
      StoredAgain(macs, before) + if Occurs(before, index) then AtMostOne(Lookup(macs, index)) else []
  }

  /** What the patch itself sets earlier for the indexes that occur again, whatever the database holds. */
  function SetAgain(muts: seq<SyncdMutation>): seq<Bytes> {
    if muts == [] then []
    else
      var before, index := muts[..|muts| - 1], muts[|muts| - 1].record.index;
      SetAgain(before) + if Occurs(before, index) then AtMostOne(Lookup(SeenByHash(map[], before), index)) else []
  }

  lemma {:induction false} LooksInPatch(macs: MacMap, muts: seq<SyncdMutation>, x: Bytes)
    ensures Lookup(SeenByHash(macs, muts), x) ==
            if Occurs(muts, x) then Lookup(SeenByHash(map[], muts), x) else Lookup(macs, x)
  {
    if muts != [] {
      var before, last := muts[..|muts| - 1], muts[|muts| - 1];
      LooksInPatch(macs, before, x);
      OccursSnoc(muts, x);
    }
  }

  lemma OccursSnoc(muts: seq<SyncdMutation>, x: Bytes)
    requires muts != []
    ensures Occurs(muts, x) <==> Occurs(muts[..|muts| - 1], x) || muts[|muts| - 1].record.index == x
  {
    var before := muts[..|muts| - 1];
    if i :| 0 <= i < |before| && before[i].record.index == x {
      assert muts[i].record.index == x;
    }
    if i :| 0 <= i < |muts| && muts[i].record.index == x {
      assert i < |before| ==> before[i].record.index == x;
    }
  }

  lemma TotalMore(expand: Bytes -> Block, values: seq<Bytes>, more: Option<Bytes>)
    ensures Total(expand, values + AtMostOne(more)) ==
            if more.Some? then Plus(Total(expand, values), Words(expand(more.value))) else Total(expand, values)
  {
    if more.Some? {
      TotalSnoc(expand, values, more.value);
    } else {
      assert values + [] == values;
    }
  }

  lemma SumGrows(a: Sum, b: Sum, x: Sum)
    ensures Plus(Plus(a, b), x) == Plus(Plus(a, x), b) == Plus(a, Plus(b, x))
  {
    PlusAssociates(a, b, x);
    PlusCommutes(b, x);
    PlusAssociates(a, x, b);
  }

  /** A value found joins either part of a total. */
  lemma PartsGrow(expand: Bytes -> Block, all: seq<Bytes>, a: seq<Bytes>, b: seq<Bytes>, more: Option<Bytes>)
    requires Total(expand, all) == Plus(Total(expand, a), Total(expand, b))
    ensures Total(expand, all + AtMostOne(more)) == Plus(Total(expand, a + AtMostOne(more)), Total(expand, b))
    ensures Total(expand, all + AtMostOne(more)) == Plus(Total(expand, a), Total(expand, b + AtMostOne(more)))
  {
    TotalMore(expand, all, more);
    TotalMore(expand, a, more);
    TotalMore(expand, b, more);
    if more.Some? {
      SumGrows(Total(expand, a), Total(expand, b), Words(expand(more.value)));
    }
  }

  /** Both callbacks find the same for an index that occurs for the first time; when it occurs again one finds what
      the patch sets and the other what the database holds. */
  lemma {:induction false} RemovalsSplit(expand: Bytes -> Block, macs: MacMap, muts: seq<SyncdMutation>)
    ensures Total(expand, Removals(PatchThenStore, macs, muts)) ==
            Plus(Total(expand, FirstValues(macs, muts)), Total(expand, SetAgain(muts)))
    ensures Total(expand, Removals(StoreOnly, macs, muts)) ==
            Plus(Total(expand, FirstValues(macs, muts)), Total(expand, StoredAgain(macs, muts)))
  {
    if muts == [] {
      PlusZero(Zero());
    } else {
      var before, index := muts[..|muts| - 1], muts[|muts| - 1].record.index;
      RemovalsSplit(expand, macs, before);
      LooksInPatch(macs, before, index);
      var first, set', stored := FirstValues(macs, before), SetAgain(before), StoredAgain(macs, before);
      PartsGrow(expand, Removals(PatchThenStore, macs, before), first, set', Lookup(SeenByHash(macs, before), index));
      PartsGrow(expand, Removals(StoreOnly, macs, before), first, stored, Lookup(macs, index));
      RemovalsSnoc(macs, muts);
      AgainSnoc(macs, muts);
    }
  }

  lemma RemovalsSnoc(macs: MacMap, muts: seq<SyncdMutation>)
    requires muts != []
    ensures var before, index := muts[..|muts| - 1], muts[|muts| - 1].record.index;
            && Removals(PatchThenStore, macs, muts) ==
               Removals(PatchThenStore, macs, before) + AtMostOne(Lookup(SeenByHash(macs, before), index))
            && Removals(StoreOnly, macs, muts) == Removals(StoreOnly, macs, before) + AtMostOne(Lookup(macs, index))
  {
  }

  lemma AgainSnoc(macs: MacMap, muts: seq<SyncdMutation>)
    requires muts != []
    ensures var before, index := muts[..|muts| - 1], muts[|muts| - 1].record.index;
            if Occurs(before, index)
            then
              && FirstValues(macs, muts) == FirstValues(macs, before)
              && SetAgain(muts) == SetAgain(before) + AtMostOne(Lookup(SeenByHash(map[], before), index))
              && StoredAgain(macs, muts) == StoredAgain(macs, before) + AtMostOne(Lookup(macs, index))
            else
              && FirstValues(macs, muts) == FirstValues(macs, before) + AtMostOne(Lookup(macs, index))
              && SetAgain(muts) == SetAgain(before) && StoredAgain(macs, muts) == StoredAgain(macs, before)
  {
  }

  /** With distinct indexes nothing occurs again. */
  lemma {:induction false} DistinctNeverAgain(macs: MacMap, muts: seq<SyncdMutation>)
    requires DistinctIndexes(muts)
    ensures SetAgain(muts) == [] && StoredAgain(macs, muts) == []
  {
    if muts != [] {
      var before, n := muts[..|muts| - 1], |muts| - 1;
      assert forall i | 0 <= i < n :: before[i] == muts[i] && muts[i].record.index != muts[n].record.index;
      DistinctNeverAgain(macs, before);
    }
  }

  /** The mutation the decoder hands out for an encoded one. */
  function Sent(cr: Crypto, keys: ExpandedKeys, keyID: Bytes, info: MutationInfo, mut: SyncdMutation, version: uint64)
    : Mutation
  {
    Mutation(keyID, SET, info.value, info.version, info.index, mut.record.index, ValueMAC(mut.record), version)
  }

  function AllSent(cr: Crypto, keys: ExpandedKeys, keyID: Bytes, infos: seq<MutationInfo>, muts: seq<SyncdMutation>,
                   version: uint64): seq<Mutation>
    requires |infos| == |muts|
  {
    seq(|infos|, i requires 0 <= i < |infos| => Sent(cr, keys, keyID, infos[i], muts[i], version))
  }

  /** One encoded mutation passes the content and index MAC checks and yields its index and value. */
  lemma EncodedMutationDecodes(cr: Crypto, keys: ExpandedKeys, keyID: Bytes, info: MutationInfo, iv: IV,
                               version: uint64)
    requires Lawful(cr) && cr.key(keyID) == Some(keys)
    ensures var mut := EncodeMutation(cr, keys, keyID, info, iv);
            && Sliceable(mut.record)
            && DecodeMutation(cr, mut, true).Ok?
            && ToMutation(mut, DecodeMutation(cr, mut, true).value, version) ==
               Sent(cr, keys, keyID, info, mut, version)
  {
    var indexBytes := cr.marshalIndex(info.index);
    var action := SyncActionData(indexBytes, info.value, info.version);
    var cipher := cr.cbcEncrypt(keys.valueEncryption, iv, cr.marshalAction(action));
    var valueMAC := ContentMAC(cr, SET, iv + cipher, keyID, keys.valueMAC);
    var r := EncodeMutation(cr, keys, keyID, info, iv).record;
    assert r.blob[..|r.blob| - MAC_SIZE] == iv + cipher && Suffix(r.blob, MAC_SIZE) == valueMAC;
    assert (iv + cipher)[..IV_SIZE] == iv && (iv + cipher)[IV_SIZE..] == cipher;
    assert cr.cbcDecrypt(keys.valueEncryption, iv, cipher) == Some(cr.marshalAction(action));
    assert cr.unmarshalAction(cr.marshalAction(action)) == Some(action);
    assert cr.unmarshalIndex(indexBytes) == Some(info.index);
  }

  lemma {:induction false} EncodedMutationsDecode(cr: Crypto, keys: ExpandedKeys, keyID: Bytes,
                                                  infos: seq<MutationInfo>, ivs: seq<IV>, version: uint64, n: nat)
    requires Lawful(cr) && cr.key(keyID) == Some(keys) && |ivs| == |infos| && n <= |infos|
    ensures var muts := EncodeMutations(cr, keys, keyID, infos, ivs);
            && DecodeMutations(cr, muts[..n], true, version) ==
               Ok(AllSent(cr, keys, keyID, infos, muts, version)[..n])
  {
    if n != 0 {
      var muts := EncodeMutations(cr, keys, keyID, infos, ivs);
      EncodedMutationsDecode(cr, keys, keyID, infos, ivs, version, n - 1);
      EncodedMutationDecodes(cr, keys, keyID, infos[n - 1], ivs[n - 1], version);
      DecodesOneMore(cr, muts, n - 1, version, AllSent(cr, keys, keyID, infos, muts, version));
    }
  }

  lemma DecodesOneMore(cr: Crypto, muts: seq<SyncdMutation>, n: nat, version: uint64, sent: seq<Mutation>)
    requires n < |muts| == |sent|
    requires DecodeMutations(cr, muts[..n], true, version) == Ok(sent[..n])
    requires DecodeMutation(cr, muts[n], true).Ok?
    requires ToMutation(muts[n], DecodeMutation(cr, muts[n], true).value, version) == sent[n]
    ensures DecodeMutations(cr, muts[..n + 1], true, version) == Ok(sent[..n + 1])
  {
    DecodeAppend(cr, muts, n, true, version);
    TakeOneMore(sent, n);
  }

  lemma TakeOneMore<T>(s: seq<T>, n: nat)
    requires n < |s|
    ensures s[..n + 1] == s[..n] + [s[n]]
  {
  }

  /** The state the receiver computes for the stamped patch. */
  function ReceivedState(cr: Crypto, macs: MacMap, state: HashState, muts: seq<SyncdMutation>): HashState {
    HashState(NextVersion(state.version), UpdatedHash(cr, PatchThenStore, macs, state.hash, muts))
  }

  /** An encoded patch, stamped with the next version, decodes against the state it was encoded for
      exactly when the two sides' snapshot MACs agree; it then yields the indexes and values sent. */
  lemma EncodedPatchAccepted(cr: Crypto, name: Bytes, c: Collection, state: HashState, keys: ExpandedKeys, keyID: Bytes,
                             infos: seq<MutationInfo>, ivs: seq<IV>)
    requires Lawful(cr) && cr.key(keyID) == Some(keys) && |ivs| == |infos|
    ensures var muts := EncodeMutations(cr, keys, keyID, infos, ivs);
            var patch := BuildPatch(cr, name, keys, keyID, c.macs, state, muts).(version := NextVersion(state.version));
            var received := ReceivedState(cr, c.macs, state, muts);
            DecodePatch(cr, name, c, state, patch, true) ==
            if SnapshotMAC(cr, received, name, keys.snapshotMAC) ==
               SnapshotMAC(cr, EncodedState(cr, c.macs, state, muts), name, keys.snapshotMAC)
            then Ok((received, AllSent(cr, keys, keyID, infos, muts, patch.version)))
            else Err(MismatchingLTHash)
  {
    var muts := EncodeMutations(cr, keys, keyID, infos, ivs);
    EncodedMutationsDecode(cr, keys, keyID, infos, ivs, NextVersion(state.version), |infos|);
    assert muts[..|infos|] == muts;
    var sent := AllSent(cr, keys, keyID, infos, muts, NextVersion(state.version));
    assert sent[..|infos|] == sent;
  }

  /** The two sides sign the same state exactly when, over the mutations whose index occurs earlier in the patch,
      the values the patch set for them and the values the database holds for them sum to the same. */
  lemma StatesAgree(cr: Crypto, macs: MacMap, state: HashState, muts: seq<SyncdMutation>)
    ensures ReceivedState(cr, macs, state, muts) == EncodedState(cr, macs, state, muts)
            <==> Total(cr.hkdf, SetAgain(muts)) == Total(cr.hkdf, StoredAgain(macs, muts))
  {
    RemovalsSplit(cr.hkdf, macs, muts);
    SameDifference(state.hash, Total(cr.hkdf, Additions(muts)), Total(cr.hkdf, FirstValues(macs, muts)),
                   Total(cr.hkdf, SetAgain(muts)), Total(cr.hkdf, StoredAgain(macs, muts)));
  }

  lemma SameDifference(h: Sum, a: Sum, f: Sum, p: Sum, s: Sum)
    ensures Plus(Minus(h, Plus(f, p)), a) == Plus(Minus(h, Plus(f, s)), a) <==> p == s
  {
    if Plus(Minus(h, Plus(f, p)), a) == Plus(Minus(h, Plus(f, s)), a) {
      var q, t := Plus(f, p), Plus(f, s);
      Cancels(Minus(h, q), Minus(h, t), a);
      MinusInverts(h, q);
      MinusInverts(h, t);
      PlusCommutes(Minus(h, q), q);
      PlusCommutes(Minus(h, t), t);
      Cancels(q, t, Minus(h, q));
      PlusCommutes(f, p);
      PlusCommutes(f, s);
      Cancels(p, s, f);
    }
  }

  /** With pairwise distinct index MACs every check passes and the indexes and values come back. */
  lemma EncodedPatchDecodes(cr: Crypto, name: Bytes, c: Collection, state: HashState, keys: ExpandedKeys, keyID: Bytes,
                            infos: seq<MutationInfo>, ivs: seq<IV>)
    requires Lawful(cr) && cr.key(keyID) == Some(keys) && |ivs| == |infos|
    requires DistinctIndexes(EncodeMutations(cr, keys, keyID, infos, ivs))
    ensures var muts := EncodeMutations(cr, keys, keyID, infos, ivs);
            var patch := BuildPatch(cr, name, keys, keyID, c.macs, state, muts).(version := NextVersion(state.version));
            DecodePatch(cr, name, c, state, patch, true) ==
            Ok((EncodedState(cr, c.macs, state, muts), AllSent(cr, keys, keyID, infos, muts, patch.version)))
  {
    var muts := EncodeMutations(cr, keys, keyID, infos, ivs);
    DistinctNeverAgain(c.macs, muts);
    StatesAgree(cr, c.macs, state, muts);
    EncodedPatchAccepted(cr, name, c, state, keys, keyID, infos, ivs);
  }

  /** BuildArchive: archiving a chat also unpins it. The actions are given in serialised form. */
  function BuildArchive(target: JID, archive: bool, archiveAction: Bytes, unpinAction: Bytes): seq<MutationInfo> {
    var chat := JidText.Text(target);
    [MutationInfo([Ascii("archive"), chat], 3, archiveAction)]
    + if archive then [MutationInfo([Ascii("pin_v1"), chat], 5, unpinAction)] else []
  }

  function IndexMAC(cr: Crypto, keys: ExpandedKeys, kind: Bytes, target: JID): Bytes {
    cr.hmacSha256(keys.index, cr.marshalIndex([kind, JidText.Text(target)]))
  }

  /** What an archive patch brings back: the archive action, of version 3, and for archiving the pin action, of
      version 5, each under its kind and the chat. */
  predicate ArchiveActions(target: JID, archive: bool, archiveAction: Bytes, unpinAction: Bytes, muts: seq<Mutation>) {
    var chat := JidText.Text(target);
    && |muts| == (if archive then 2 else 1)
    && muts[0].operation.SET? && muts[0].action == archiveAction && muts[0].version == 3
    && muts[0].index == [Ascii("archive"), chat]
    && (archive ==>
          && muts[1].operation.SET? && muts[1].action == unpinAction && muts[1].version == 5
          && muts[1].index == [Ascii("pin_v1"), chat])
  }

  /** When the MACs of its two indexes differ, an archive patch is accepted and both actions come back,
      whatever the database holds. */
  lemma ArchivePatchDecodes(cr: Crypto, name: Bytes, c: Collection, state: HashState, keys: ExpandedKeys, keyID: Bytes,
                            target: JID, archive: bool, archiveAction: Bytes, unpinAction: Bytes, ivs: seq<IV>)
    requires Lawful(cr) && cr.key(keyID) == Some(keys)
    requires |ivs| == |BuildArchive(target, archive, archiveAction, unpinAction)|
    requires archive ==> IndexMAC(cr, keys, Ascii("archive"), target) != IndexMAC(cr, keys, Ascii("pin_v1"), target)
    ensures var infos := BuildArchive(target, archive, archiveAction, unpinAction);
            var muts := EncodeMutations(cr, keys, keyID, infos, ivs);
            var patch := BuildPatch(cr, name, keys, keyID, c.macs, state, muts).(version := NextVersion(state.version));
            DecodePatch(cr, name, c, state, patch, true) ==
            Ok((EncodedState(cr, c.macs, state, muts), AllSent(cr, keys, keyID, infos, muts, patch.version)))
            && ArchiveActions(target, archive, archiveAction, unpinAction,
                              AllSent(cr, keys, keyID, infos, muts, patch.version))
  {
    var infos := BuildArchive(target, archive, archiveAction, unpinAction);
    var muts := EncodeMutations(cr, keys, keyID, infos, ivs);
    if archive {
      assert muts[0].record.index == IndexMAC(cr, keys, Ascii("archive"), target);
      assert muts[1].record.index == IndexMAC(cr, keys, Ascii("pin_v1"), target);
    }
    EncodedPatchDecodes(cr, name, c, state, keys, keyID, infos, ivs);
  }

  /** Two mutations of one index that the database lacks: the sender subtracts nothing and the receiver
      subtracts the first value, so the two states differ unless that value expands to zero. */
  lemma RepeatedIndexDiffers(cr: Crypto, macs: MacMap, state: HashState, muts: seq<SyncdMutation>)
    requires |muts| == 2 && muts[0].operation == muts[1].operation == SET
    requires muts[0].record.index == muts[1].record.index && muts[0].record.index !in macs
    ensures ReceivedState(cr, macs, state, muts) == EncodedState(cr, macs, state, muts)
            <==> Words(cr.hkdf(ValueMAC(muts[0].record))) == Zero()
  {
    var value := ValueMAC(muts[0].record);
    assert muts[..1] == [muts[0]] && muts[..1][..0] == [];
    assert muts[..1][0].record.index == muts[1].record.index;
    assert !Occurs([], muts[0].record.index);
    assert SetAgain([]) == [] && StoredAgain(macs, []) == [];
    assert SetAgain(muts[..1]) == [] && StoredAgain(macs, muts[..1]) == [];
    assert SetAgain(muts) == [] + [value] && StoredAgain(macs, muts) == [];
    ListTotal(cr, value);
    StatesAgree(cr, macs, state, muts);
  }
}
