/** What the decoder accepts with validation on, written out byte by byte: every MAC over the strings that the
    sender signed. Whatever is not authentic ends the list there and leaves the collection as it was. */
module AppStateAuth {
  import opened Bytes
  import opened LtHash
  import opened AppState

  // ----- Signed strings

  /** The number of the operation in the message. */
  function Number(op: Operation): int {
    match op
    case SET => 0
    case REMOVE => 1
    case Unknown(n) => n
  }

  /** The last 32 bytes. */
  function Tail(blob: Bytes): Bytes
    requires |blob| >= 32
  {
    blob[|blob| - 32..]
  }

  function Content(blob: Bytes): Bytes
    requires |blob| >= 32
  {
    blob[..|blob| - 32]
  }

  /** The value MAC is the one over operation, key id, content and the length of the key id plus one. */
  predicate ContentSigned(cr: Crypto, mut: SyncdMutation, key: Bytes)
    requires |mut.record.blob| >= 32
  {
    var r := mut.record;
    var signed := [(Number(mut.operation) + 1) % 256] + r.keyID + Content(r.blob) + BytesOf(|r.keyID| + 1, 8);
    cr.hmacSha512(key, signed)[..32] == Tail(r.blob)
  }

  /** What the content decrypts to. */
  function ActionIn(cr: Crypto, blob: Bytes, key: Bytes): Option<SyncActionData>
    requires |blob| >= 48
  {
    var plaintext := cr.cbcDecrypt(key, Content(blob)[..16], Content(blob)[16..]);
    if plaintext.None? then None else cr.unmarshalAction(plaintext.value)
  }

  /** The key is known, the content is signed and decrypts, and its index is the signed one. */
  predicate Authentic(cr: Crypto, mut: SyncdMutation) {
    var r := mut.record;
    cr.key(r.keyID).Some? && |r.blob| >= 48 &&
    var keys := cr.key(r.keyID).value;
    var action := ActionIn(cr, r.blob, keys.valueEncryption);
    && ContentSigned(cr, mut, keys.valueMAC)
    && action.Some? && cr.hmacSha256(keys.index, action.value.index) == r.index
    && cr.unmarshalIndex(action.value.index).Some?
  }

  /** What is handed out for an authentic mutation. */
  function HandedOut(cr: Crypto, mut: SyncdMutation, version: uint64): Mutation
    requires Authentic(cr, mut)
  {
    var r := mut.record;
    var action := ActionIn(cr, r.blob, cr.key(r.keyID).value.valueEncryption).value;
    Mutation(r.keyID, mut.operation, action.value, action.version, cr.unmarshalIndex(action.index).value, r.index,
             Tail(r.blob), version)
  }

  lemma ContentSignedIs(cr: Crypto, mut: SyncdMutation, key: Bytes)
    requires |mut.record.blob| >= 32
    ensures ContentSigned(cr, mut, key)
            <==> ContentMAC(cr, mut.operation, Content(mut.record.blob), mut.record.keyID, key) == ValueMAC(mut.record)
  {
    BigEndianBytes(|mut.record.keyID| + 1, 8);
  }

  /** With validation on a mutation decodes if and only if it is authentic. */
  lemma DecodesAuthentic(cr: Crypto, mut: SyncdMutation, version: uint64)
    ensures DecodeMutation(cr, mut, true).Ok? <==> Authentic(cr, mut)
    ensures Authentic(cr, mut) ==>
              ToMutation(mut, DecodeMutation(cr, mut, true).value, version) == HandedOut(cr, mut, version)
  {
    var r := mut.record;
    if cr.key(r.keyID).Some? && |r.blob| >= 32 {
      ContentSignedIs(cr, mut, cr.key(r.keyID).value.valueMAC);
    }
  }

  /** A forged content and a forged index have their own errors. */
  lemma ForgedMutation(cr: Crypto, mut: SyncdMutation)
    requires cr.key(mut.record.keyID).Some? && |mut.record.blob| >= 32
    ensures var r, keys := mut.record, cr.key(mut.record.keyID).value;
            && (!ContentSigned(cr, mut, keys.valueMAC) ==> DecodeMutation(cr, mut, true) == Err(MismatchingContentMAC))
            && (ContentSigned(cr, mut, keys.valueMAC) && |r.blob| >= 48 ==>
                  var action := ActionIn(cr, r.blob, keys.valueEncryption);
                  action.Some? && cr.hmacSha256(keys.index, action.value.index) != r.index ==>
                    DecodeMutation(cr, mut, true) == Err(MismatchingIndexMAC))
  {
    ContentSignedIs(cr, mut, cr.key(mut.record.keyID).value.valueMAC);
  }

  predicate AllAuthentic(cr: Crypto, muts: seq<SyncdMutation>) {
    forall i | 0 <= i < |muts| :: Authentic(cr, muts[i])
  }

  function AllHandedOut(cr: Crypto, muts: seq<SyncdMutation>, version: uint64): seq<Mutation>
    requires AllAuthentic(cr, muts)
  {
    seq(|muts|, i requires 0 <= i < |muts| => HandedOut(cr, muts[i], version))
  }

  lemma AuthenticSnoc(cr: Crypto, before: seq<SyncdMutation>, last: SyncdMutation)
    ensures AllAuthentic(cr, before + [last]) <==> AllAuthentic(cr, before) && Authentic(cr, last)
  {
    var muts := before + [last];
    assert muts[|before|] == last;
    if AllAuthentic(cr, muts) {
      forall i | 0 <= i < |before| ensures Authentic(cr, before[i]) {
        assert muts[i] == before[i];
      }
    }
  }

  lemma HandedOutSnoc(cr: Crypto, before: seq<SyncdMutation>, last: SyncdMutation, version: uint64)
    requires AllAuthentic(cr, before + [last]) && AllAuthentic(cr, before) && Authentic(cr, last)
    ensures AllHandedOut(cr, before + [last], version) ==
            AllHandedOut(cr, before, version) + [HandedOut(cr, last, version)]
  {
  }

  lemma {:induction false} DecodesAllAuthentic(cr: Crypto, muts: seq<SyncdMutation>, version: uint64)
    ensures DecodeMutations(cr, muts, true, version).Ok? <==> AllAuthentic(cr, muts)
    ensures AllAuthentic(cr, muts) ==> DecodeMutations(cr, muts, true, version) == Ok(AllHandedOut(cr, muts, version))
  {
    if muts != [] {
      var before, last := muts[..|muts| - 1], muts[|muts| - 1];
      DecodesAllAuthentic(cr, before, version);
      DecodesAuthentic(cr, last, version);
      AuthenticSnoc(cr, before, last);
      assert muts == before + [last];
      if AllAuthentic(cr, muts) {
        HandedOutSnoc(cr, before, last, version);
      }
    } else {
      assert AllHandedOut(cr, muts, version) == [];
    }
  }

  // ----- Snapshots and patches

  /** The hash as bytes: 64 words, the low byte first. */
  function HashBytes(hash: Sum): Bytes {
    seq(128, i requires 0 <= i < 128 => if i % 2 == 0 then hash[i / 2] % 256 else hash[i / 2] / 256)
  }

  /** The snapshot MAC is the one over hash, version and name. */
  predicate StateSigned(cr: Crypto, name: Bytes, state: HashState, key: Bytes, mac: Bytes) {
    cr.hmacSha256(key, HashBytes(state.hash) + BytesOf(state.version, 8) + name) == mac
  }

  lemma StateSignedIs(cr: Crypto, name: Bytes, state: HashState, key: Bytes, mac: Bytes)
    ensures StateSigned(cr, name, state, key, mac) <==> SnapshotMAC(cr, state, name, key) == mac
  {
    BigEndianBytes(state.version, 8);
    assert HashBytes(state.hash) == BlockOf(state.hash);
  }

  /** The value MACs of the mutations, one after the other. */
  function Tails(muts: seq<SyncdMutation>): Bytes
    requires forall i | 0 <= i < |muts| :: |muts[i].record.blob| >= 32
  {
    if muts == [] then [] else Tail(muts[0].record.blob) + Tails(muts[1..])
  }

  /** The patch MAC is the one over the snapshot MAC, the value MACs, the version and the name. */
  predicate PatchSigned(cr: Crypto, name: Bytes, patch: SyncdPatch, key: Bytes)
    requires forall i | 0 <= i < |patch.mutations| :: |patch.mutations[i].record.blob| >= 32
  {
    cr.hmacSha256(key, patch.snapshotMAC + Tails(patch.mutations) + BytesOf(patch.version, 8) + name) == patch.patchMAC
  }

  lemma {:induction false} ConcatFront(first: Bytes, parts: seq<Bytes>)
    ensures Concat([first] + parts) == first + Concat(parts)
  {
    if parts == [] {
      assert [first] + parts == [first] && [first][..0] == [];
    } else {
      var before := parts[..|parts| - 1];
      ConcatFront(first, before);
      assert ([first] + parts)[..|parts|] == [first] + before;
    }
  }

  lemma {:induction false} ConcatBoth(a: seq<Bytes>, b: seq<Bytes>)
    ensures Concat(a + b) == Concat(a) + Concat(b)
  {
    if b == [] {
      assert a + b == a;
    } else {
      ConcatBoth(a, b[..|b| - 1]);
      assert (a + b)[..|a + b| - 1] == a + b[..|b| - 1];
    }
  }

  lemma {:induction false} TailsAre(muts: seq<SyncdMutation>)
    requires AllSliceable(muts)
    ensures Concat(ValueMACs(muts)) == Tails(muts)
  {
    if muts != [] {
      TailsAre(muts[1..]);
      ConcatFront(Tail(muts[0].record.blob), ValueMACs(muts[1..]));
      assert ValueMACs(muts) == [Tail(muts[0].record.blob)] + ValueMACs(muts[1..]);
    }
  }

  lemma PatchSignedIs(cr: Crypto, name: Bytes, patch: SyncdPatch, key: Bytes)
    requires AllSliceable(patch.mutations)
    ensures PatchSigned(cr, name, patch, key) <==> PatchMAC(cr, patch, name, key, patch.version) == patch.patchMAC
  {
    var last := [BigEndian(patch.version, 8), name];
    BigEndianBytes(patch.version, 8);
    TailsAre(patch.mutations);
    ConcatFront(patch.snapshotMAC, ValueMACs(patch.mutations));
    ConcatBoth([patch.snapshotMAC] + ValueMACs(patch.mutations), last);
    ConcatFront(BigEndian(patch.version, 8), [name]);
    assert last == [BigEndian(patch.version, 8)] + [name] && [name][..0] == [];
    assert Concat(last) == BigEndian(patch.version, 8) + name;
    Associates(patch.snapshotMAC + Tails(patch.mutations), BigEndian(patch.version, 8), name);
  }

  /** The state that a patch leads to. */
  function PatchedState(cr: Crypto, c: Collection, patch: SyncdPatch): HashState {
    HashState(patch.version, UpdatedHash(cr, PatchThenStore, c.macs, Current(c).hash, patch.mutations))
  }

  /** All three MACs of a patch, over the state it leads to, over its mutations, and over each of them. */
  predicate PatchAuthentic(cr: Crypto, name: Bytes, c: Collection, patch: SyncdPatch) {
    && cr.key(patch.keyID).Some? && AllAuthentic(cr, patch.mutations)
    && StateSigned(cr, name, PatchedState(cr, c, patch), cr.key(patch.keyID).value.snapshotMAC, patch.snapshotMAC)
    && PatchSigned(cr, name, patch, cr.key(patch.keyID).value.patchMAC)
  }

  lemma AuthenticSliceable(cr: Crypto, muts: seq<SyncdMutation>)
    requires AllAuthentic(cr, muts)
    ensures AllSliceable(muts) && SetsSliceable(muts)
  {
    forall i | 0 <= i < |muts| ensures Sliceable(muts[i].record) {
      assert Authentic(cr, muts[i]);
    }
  }

  /** A patch decodes if and only if it is authentic. */
  lemma PatchDecodesAuthentic(cr: Crypto, name: Bytes, c: Collection, patch: SyncdPatch)
    ensures DecodePatch(cr, name, c, Current(c), patch, true).Ok? <==> PatchAuthentic(cr, name, c, patch)
    ensures PatchAuthentic(cr, name, c, patch) ==>
              DecodePatch(cr, name, c, Current(c), patch, true) ==
              Ok((PatchedState(cr, c, patch), AllHandedOut(cr, patch.mutations, patch.version)))
  {
    DecodesAllAuthentic(cr, patch.mutations, patch.version);
    if AllAuthentic(cr, patch.mutations) {
      AuthenticSliceable(cr, patch.mutations);
    }
    ValidatesSigned(cr, name, c, patch);
  }

  /** validatePatch checks the snapshot MAC and the patch MAC. */
  lemma ValidatesSigned(cr: Crypto, name: Bytes, c: Collection, patch: SyncdPatch)
    ensures ValidatePatch(cr, name, c.macs, Current(c), patch, true) ==
            if !SetsSliceable(patch.mutations) then Err(Panic)
            else if cr.key(patch.keyID).None? then Err(KeyNotFound)
            else if !StateSigned(cr, name, PatchedState(cr, c, patch), cr.key(patch.keyID).value.snapshotMAC,
                                 patch.snapshotMAC) then Err(MismatchingLTHash)
            else if !AllSliceable(patch.mutations) then Err(Panic)
            else if !PatchSigned(cr, name, patch, cr.key(patch.keyID).value.patchMAC) then Err(MismatchingPatchMAC)
            else Ok(PatchedState(cr, c, patch))
  {
    if cr.key(patch.keyID).Some? {
      StateSignedIs(cr, name, PatchedState(cr, c, patch), cr.key(patch.keyID).value.snapshotMAC, patch.snapshotMAC);
      if AllSliceable(patch.mutations) {
        PatchSignedIs(cr, name, patch, cr.key(patch.keyID).value.patchMAC);
      }
    }
  }

  function SnapshotState(cr: Crypto, c: Collection, ss: SyncdSnapshot): HashState {
    HashState(ss.version, Plus(Current(c).hash, Total(cr.hkdf, Additions(AsMutations(ss.records)))))
  }

  predicate SnapshotAuthentic(cr: Crypto, name: Bytes, c: Collection, ss: SyncdSnapshot) {
    && cr.key(ss.keyID).Some? && AllAuthentic(cr, AsMutations(ss.records))
    && StateSigned(cr, name, SnapshotState(cr, c, ss), cr.key(ss.keyID).value.snapshotMAC, ss.mac)
  }

  /** A snapshot decodes if and only if it is authentic. */
  lemma SnapshotDecodesAuthentic(cr: Crypto, name: Bytes, c: Collection, ss: SyncdSnapshot)
    ensures DecodeSnapshot(cr, name, Current(c), ss, true).Ok? <==> SnapshotAuthentic(cr, name, c, ss)
    ensures SnapshotAuthentic(cr, name, c, ss) ==>
              DecodeSnapshot(cr, name, Current(c), ss, true) ==
              Ok((SnapshotState(cr, c, ss), AllHandedOut(cr, AsMutations(ss.records), ss.version)))
  {
    var muts := AsMutations(ss.records);
    DecodesAllAuthentic(cr, muts, ss.version);
    if AllAuthentic(cr, muts) {
      AuthenticSliceable(cr, muts);
    }
    RemovalsOfNothing(map[], muts);
    PlusZero(Current(c).hash);
    if cr.key(ss.keyID).Some? {
      StateSignedIs(cr, name, SnapshotState(cr, c, ss), cr.key(ss.keyID).value.snapshotMAC, ss.mac);
    }
  }

  // ----- Lists

  function AfterPatch(cr: Crypto, c: Collection, patch: SyncdPatch): Collection {
    Collection(Some(PatchedState(cr, c, patch)), ApplyAll(c.macs, patch.mutations))
  }

  function AfterSnapshot(cr: Crypto, c: Collection, ss: SyncdSnapshot): Collection {
    Collection(Some(SnapshotState(cr, c, ss)), ApplyAll(c.macs, AsMutations(ss.records)))
  }

  /** Each patch is authentic for the collection that those before it leave. */
  predicate PatchesAuthentic(cr: Crypto, name: Bytes, c: Collection, patches: seq<SyncdPatch>)
    decreases |patches|
  {
    patches != [] ==>
      PatchAuthentic(cr, name, c, patches[0]) && PatchesAuthentic(cr, name, AfterPatch(cr, c, patches[0]), patches[1..])
  }

  /** The mutations of all the patches, in order. */
  function AllMutations(cr: Crypto, name: Bytes, c: Collection, patches: seq<SyncdPatch>): seq<Mutation>
    requires PatchesAuthentic(cr, name, c, patches)
    decreases |patches|
  {
    if patches == [] then []
    else
      AllHandedOut(cr, patches[0].mutations, patches[0].version)
      + AllMutations(cr, name, AfterPatch(cr, c, patches[0]), patches[1..])
  }

  /** The collection after the patches before the first one that is not authentic. */
  function AfterAuthentic(cr: Crypto, name: Bytes, c: Collection, patches: seq<SyncdPatch>): Collection
    decreases |patches|
  {
    if patches == [] || !PatchAuthentic(cr, name, c, patches[0]) then c
    else AfterAuthentic(cr, name, AfterPatch(cr, c, patches[0]), patches[1..])
  }

  /** The patch loop succeeds if and only if every patch is authentic, and then hands out all mutations in order;
      it stores exactly the patches before the first one that is not. */
  lemma {:induction false} PatchesStopAtForgery(cr: Crypto, name: Bytes, c: Collection, patches: seq<SyncdPatch>,
                                                done: seq<Mutation>)
    ensures var out := RunPatches(cr, name, c, Current(c), patches, true, done);
            && (out.result.Ok? <==> PatchesAuthentic(cr, name, c, patches))
            && out.collection == AfterAuthentic(cr, name, c, patches)
            && (PatchesAuthentic(cr, name, c, patches) ==>
                  out.result == Ok((Current(out.collection), done + AllMutations(cr, name, c, patches))))
    decreases |patches|
  {
    if patches == [] {
      assert done + [] == done;
    } else {
      PatchDecodesAuthentic(cr, name, c, patches[0]);
      if PatchAuthentic(cr, name, c, patches[0]) {
        var muts := AllHandedOut(cr, patches[0].mutations, patches[0].version);
        PatchesStopAtForgery(cr, name, AfterPatch(cr, c, patches[0]), patches[1..], done + muts);
        if PatchesAuthentic(cr, name, c, patches) {
          Associates(done, muts, AllMutations(cr, name, AfterPatch(cr, c, patches[0]), patches[1..]));
        }
      }
    }
  }

  /** DecodePatches on any list: a forged snapshot leaves the collection as it was; otherwise the patches before
      the first forged one are stored, and the call succeeds if and only if there is none. */
  lemma ListStopsAtForgery(cr: Crypto, name: Bytes, c: Collection, list: PatchList)
    ensures var out := RunList(cr, name, c, Current(c), list, true);
            if list.snapshot.None? then
              && (out.result.Ok? <==> PatchesAuthentic(cr, name, c, list.patches))
              && out.collection == AfterAuthentic(cr, name, c, list.patches)
            else if !SnapshotAuthentic(cr, name, c, list.snapshot.value) then
              out.result.Err? && out.collection == c
            else
              var after := AfterSnapshot(cr, c, list.snapshot.value);
              && (out.result.Ok? <==> PatchesAuthentic(cr, name, after, list.patches))
              && out.collection == AfterAuthentic(cr, name, after, list.patches)
  {
    if list.snapshot.None? {
      PatchesStopAtForgery(cr, name, c, list.patches, []);
    } else {
      var ss := list.snapshot.value;
      SnapshotDecodesAuthentic(cr, name, c, ss);
      if SnapshotAuthentic(cr, name, c, ss) {
        PatchesStopAtForgery(cr, name, AfterSnapshot(cr, c, ss), list.patches,
                             AllHandedOut(cr, AsMutations(ss.records), ss.version));
      }
    }
  }
}
