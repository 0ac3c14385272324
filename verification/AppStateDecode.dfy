/** The loops of appstate/decode.go and appstate/hash.go, each proved to compute the function of
    module AppState that describes it. */
module AppStateDecode {
  import opened Bytes
  import opened LtHash
  import opened AppState
  import opened AppStateStore

  method ConcatAndHMAC(hmac: (Bytes, Bytes) -> Mac, key: Bytes, data: seq<Bytes>) returns (mac: Mac)
    ensures mac == hmac(key, Concat(data))
  {
    var written: Bytes := [];
    for i := 0 to |data|
      invariant written == Concat(data[..i])
    {
      assert data[..i + 1][..i] == data[..i];
      written := written + data[i];
    }
    assert data[..|data|] == data;
    mac := hmac(key, written);
  }

  /** generatePatchMAC */
  method GeneratePatchMAC(cr: Crypto, patch: SyncdPatch, name: Bytes, key: Bytes, version: uint64)
    returns (r: Result<Mac, Error>)
    ensures r == if AllSliceable(patch.mutations) then Ok(PatchMAC(cr, patch, name, key, version)) else Err(Panic)
  {
    var dataToHash := [patch.snapshotMAC];
    for i := 0 to |patch.mutations|
      invariant AllSliceable(patch.mutations[..i])
      invariant dataToHash == [patch.snapshotMAC] + ValueMACs(patch.mutations)[..i]
    {
      var record := patch.mutations[i].record;
      if !Sliceable(record) {
        return Err(Panic);
      }
      dataToHash := dataToHash + [ValueMAC(record)];
    }
    assert ValueMACs(patch.mutations)[..|patch.mutations|] == ValueMACs(patch.mutations);
    var all := dataToHash + [BigEndian(version, 8), name];
    assert all == [patch.snapshotMAC] + ValueMACs(patch.mutations) + [BigEndian(version, 8), name];
    var mac := ConcatAndHMAC(cr.hmacSha256, key, all);
    return Ok(mac);
  }

  lemma ConcatThree(a: Bytes, b: Bytes, c: Bytes)
    ensures Concat([a, b, c]) == a + b + c
  {
    assert [a, b, c][..2] == [a, b] && [a, b][..1] == [a];
    assert Concat([a]) == a;
  }

  class Processor {
    const cr: Crypto
    const name: Bytes
    const store: Store

    constructor (cr: Crypto, name: Bytes, store: Store)
      ensures this.cr == cr && this.name == name && this.store == store
    {
      this.cr, this.name, this.store := cr, name, store;
    }

    /** The getPrevSetValueMAC callbacks: the scan backwards through the patch, then the database,
        find exactly the value the index holds just before mutation maxIndex. */
    method GetPrevSetValueMAC(kind: Previous, muts: seq<SyncdMutation>, index: Bytes, maxIndex: nat)
      returns (previous: Option<Bytes>)
      requires maxIndex <= |muts| && SetsSliceable(muts[..maxIndex])
      ensures previous == PreviousValue(kind, store.macs, muts[..maxIndex], index)
    {
      if kind == Nothing {
        return None;
      }
      if kind == PatchThenStore {
        var i := maxIndex;
        while i > 0
          invariant 0 <= i <= maxIndex
          invariant Lookup(SeenByHash(store.macs, muts[..maxIndex]), index) ==
                    Lookup(SeenByHash(store.macs, muts[..i]), index)
        {
          i := i - 1;
          SeenSnoc(store.macs, muts, i);
          if muts[i].record.index == index {
            if muts[i].operation == SET {
              assert muts[..maxIndex][i] == muts[i];
              return Some(Suffix(muts[i].record.blob, MAC_SIZE));
            }
            return None;
          }
        }
      }
      previous := store.GetAppStateMutationMAC(index);
    }

    /** HashState.updateHash */
    method UpdateHash(kind: Previous, hs: HashState, muts: seq<SyncdMutation>) returns (r: Result<HashState, Error>)
      ensures r == if SetsSliceable(muts)
                   then Ok(hs.(hash := UpdatedHash(cr, kind, store.macs, hs.hash, muts))) else Err(Panic)
    {
      var added, removed: seq<Bytes> := [], [];
      for i := 0 to |muts|
        invariant SetsSliceable(muts[..i])
        invariant added == Additions(muts[..i]) && removed == Removals(kind, store.macs, muts[..i])
      {
        assert muts[..i + 1][..i] == muts[..i];
        var record := muts[i].record;
        if muts[i].operation == SET {
          if !Sliceable(record) {
            return Err(Panic);
          }
          added := added + [Suffix(record.blob, MAC_SIZE)];
        }
        var removal := GetPrevSetValueMAC(kind, muts, record.index, i);
        if removal.Some? {
          removed := removed + [removal.value];
        }
      }
      assert muts[..|muts|] == muts;
      WordsOfBlock(hs.hash);
      var buffer := new byte[SIZE](k requires 0 <= k < SIZE => BlockOf(hs.hash)[k]);
      assert buffer[..] == BlockOf(hs.hash);
      SubtractThenAddInPlace(cr.hkdf, buffer, removed, added);
      return Ok(hs.(hash := Words(buffer[..])));
    }

    /** decodeMutations */
    method DecodeMutationsInto(muts: seq<SyncdMutation>, out: PatchOutput, validateMACs: bool, patchVersion: uint64)
      returns (r: Result<(), Error>)
      requires out.removedMACs == [] && out.addedMACs == []
      modifies out
      ensures var spec := DecodeMutations(cr, muts, validateMACs, patchVersion);
              && (spec.Err? ==> r == Err(spec.error))
              && (spec.Ok? ==> r.Ok? && out.mutations == old(out.mutations) + spec.value
                               && out.removedMACs == RemovedMACs(muts) && out.addedMACs == AddedMACs(muts))
    {
      for i := 0 to |muts|
        invariant var spec := DecodeMutations(cr, muts[..i], validateMACs, patchVersion);
                  spec.Ok? && out.mutations == old(out.mutations) + spec.value
        invariant out.removedMACs == RemovedMACs(muts[..i]) && out.addedMACs == AddedMACs(muts[..i])
      {
        DecodeSnoc(cr, muts, i, validateMACs, patchVersion);
        var d := DecodeMutation(cr, muts[i], validateMACs);
        if d.Err? {
          DecodeMutationsFails(cr, muts, i, validateMACs, patchVersion);
          return Err(d.error);
        }
        out.Record(muts[i], d.value, patchVersion);
      }
      assert muts[..|muts|] == muts;
      return Ok(());
    }

    /** storeMACs */
    method StoreMACs(currentState: HashState, out: PatchOutput)
      modifies store
      ensures store.Contents() ==
              Collection(Some(currentState), Batched(old(store.macs), out.removedMACs, out.addedMACs))
    {
      store.PutAppStateVersion(currentState.version, currentState.hash);
      store.DeleteAppStateMutationMACs(out.removedMACs);
      store.PutAppStateMutationMACs(out.addedMACs);
    }

    method ValidateSnapshotMAC(currentState: HashState, keyID: Bytes, expected: Bytes)
      returns (r: Result<ExpandedKeys, Error>)
      ensures r == CheckSnapshotMAC(cr, name, currentState, keyID, expected)
    {
      var keys := cr.key(keyID);
      if keys == None {
        return Err(KeyNotFound);
      }
      var data := [BlockOf(currentState.hash), BigEndian(currentState.version, 8), name];
      ConcatThree(data[0], data[1], data[2]);
      var mac := ConcatAndHMAC(cr.hmacSha256, keys.value.snapshotMAC, data);
      if mac != expected {
        return Err(MismatchingLTHash);
      }
      return Ok(keys.value);
    }

    /** validatePatch */
    method ValidatePatchMACs(patch: SyncdPatch, currentState: HashState, validateMACs: bool)
      returns (r: Result<HashState, Error>)
      ensures r == ValidatePatch(cr, name, store.macs, currentState, patch, validateMACs)
    {
      var newState :- UpdateHash(PatchThenStore, currentState.(version := patch.version), patch.mutations);
      if validateMACs {
        var keys :- ValidateSnapshotMAC(newState, patch.keyID, patch.snapshotMAC);
        var patchMAC :- GeneratePatchMAC(cr, patch, name, keys.patchMAC, patch.version);
        if patchMAC != patch.patchMAC {
          return Err(MismatchingPatchMAC);
        }
      }
      return Ok(newState);
    }

    /** decodeSnapshot */
    method DecodeAndStoreSnapshot(ss: SyncdSnapshot, initialState: HashState, validateMACs: bool, input: seq<Mutation>)
      returns (r: Result<(HashState, seq<Mutation>), Error>)
      modifies store
      ensures var spec := DecodeSnapshot(cr, name, initialState, ss, validateMACs);
              && (spec.Err? ==> r == Err(spec.error) && store.Contents() == old(store.Contents()))
              && (spec.Ok? ==>
                    && r == Ok((spec.value.0, input + spec.value.1))
                    && store.Contents() ==
                       Collection(Some(spec.value.0), ApplyAll(old(store.macs), AsMutations(ss.records))))
    {
      var muts: seq<SyncdMutation> := [];
      for i := 0 to |ss.records|
        invariant muts == AsMutations(ss.records)[..i]
      {
        muts := muts + [SyncdMutation(SET, ss.records[i])];
      }
      assert muts == AsMutations(ss.records);
      RemovalsOfNothing(store.macs, muts);
      RemovalsOfNothing(map[], muts);
      var currentState :- UpdateHash(Nothing, initialState.(version := ss.version), muts);
      if validateMACs {
        var _ :- ValidateSnapshotMAC(currentState, ss.keyID, ss.mac);
      }
      var out := new PatchOutput(input);
      var _ :- DecodeMutationsInto(muts, out, validateMACs, currentState.version);
      BatchRefinesSequence(store.macs, muts);
      StoreMACs(currentState, out);
      return Ok((currentState, out.mutations));
    }

    /** One round of the patch loop of DecodePatches. */
    method DecodeAndStorePatch(patch: SyncdPatch, currentState: HashState, validateMACs: bool, input: seq<Mutation>)
      returns (r: Result<(HashState, seq<Mutation>), Error>)
      modifies store
      ensures var spec := DecodePatch(cr, name, old(store.Contents()), currentState, patch, validateMACs);
              && (spec.Err? ==> r == Err(spec.error) && store.Contents() == old(store.Contents()))
              && (spec.Ok? ==>
                    && r == Ok((spec.value.0, input + spec.value.1))
                    && store.Contents() == Collection(Some(spec.value.0), ApplyAll(old(store.macs), patch.mutations)))
    {
      var newState :- ValidatePatchMACs(patch, currentState, validateMACs);
      var out := new PatchOutput(input);
      var _ :- DecodeMutationsInto(patch.mutations, out, validateMACs, newState.version);
      BatchRefinesSequence(store.macs, patch.mutations);
      StoreMACs(newState, out);
      return Ok((newState, out.mutations));
    }

    /** DecodePatches: the database ends as the run of the list says, also when patch k fails. */
    method DecodePatches(list: PatchList, initialState: HashState, validateMACs: bool)
      returns (r: Result<(HashState, seq<Mutation>), Error>)
      modifies store
      ensures Outcome(store.Contents(), r) ==
              RunList(cr, name, old(store.Contents()), initialState, list, validateMACs)
    {
      var newMutations: seq<Mutation> := [];
      var currentState := initialState;
      if list.snapshot.Some? {
        var decoded :- DecodeAndStoreSnapshot(list.snapshot.value, currentState, validateMACs, newMutations);
        assert decoded.1 == DecodeSnapshot(cr, name, initialState, list.snapshot.value, validateMACs).value.1;
        currentState, newMutations := decoded.0, decoded.1;
      }
      r := DecodePatchLoop(list.patches, currentState, validateMACs, newMutations);
    }

    method DecodePatchLoop(patches: seq<SyncdPatch>, initialState: HashState, validateMACs: bool, input: seq<Mutation>)
      returns (r: Result<(HashState, seq<Mutation>), Error>)
      modifies store
      ensures Outcome(store.Contents(), r) ==
              RunPatches(cr, name, old(store.Contents()), initialState, patches, validateMACs, input)
    {
      var currentState, newMutations := initialState, input;
      for i := 0 to |patches|
        invariant RunPatches(cr, name, old(store.Contents()), initialState, patches, validateMACs, input) ==
                  RunPatches(cr, name, store.Contents(), currentState, patches[i..], validateMACs, newMutations)
      {
        assert patches[i..][0] == patches[i] && patches[i..][1..] == patches[i + 1..];
        var decoded :- DecodeAndStorePatch(patches[i], currentState, validateMACs, newMutations);
        currentState, newMutations := decoded.0, decoded.1;
      }
      return Ok((currentState, newMutations));
    }
  }

  /** The first mutation that does not decode decides the result of the whole list. */
  lemma {:induction false} DecodeMutationsFails(cr: Crypto, muts: seq<SyncdMutation>, i: nat, validateMACs: bool,
                                                patchVersion: uint64)
    requires i < |muts|
    requires DecodeMutations(cr, muts[..i], validateMACs, patchVersion).Ok?
    requires DecodeMutation(cr, muts[i], validateMACs).Err?
    ensures DecodeMutations(cr, muts, validateMACs, patchVersion) ==
            Err(DecodeMutation(cr, muts[i], validateMACs).error)
  {
    var before := muts[..|muts| - 1];
    if i < |before| {
      assert before[..i] == muts[..i] && before[i] == muts[i];
      DecodeMutationsFails(cr, before, i, validateMACs, patchVersion);
    }
  }
}
