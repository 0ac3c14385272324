/** The database side of the app state sync: one collection's version row and mutation MACs
    (the interface of store/store.go:73-81), and the accumulator decodeMutations fills. */
module AppStateStore {
  import opened Bytes
  import opened LtHash
  import opened AppState

  class Store {
    var row: Option<HashState>
    var macs: MacMap

    function Contents(): Collection
      reads this
    {
      Collection(row, macs)
    }

    constructor ()
      ensures Contents() == Collection(None, map[])
    {
      row, macs := None, map[];
    }

    /** A stored version 0 is refused by the SQL store; a missing row is version 0. */
    method GetAppStateVersion() returns (r: Option<HashState>)
      ensures r == if row.Some? && row.value.version == 0 then None else Some(Current(Contents()))
    {
      if row == None {
        return Some(EmptyState());
      } else if row.value.version == 0 {
        return None;
      }
      return Some(row.value);
    }

    method PutAppStateVersion(version: uint64, hash: Sum)
      modifies this
      ensures Contents() == old(Contents()).(row := Some(HashState(version, hash)))
    {
      row := Some(HashState(version, hash));
    }

    /** Deleting the version row cascades to the MACs of the collection. */
    method DeleteAppStateVersion()
      modifies this
      ensures Contents() == Collection(None, map[])
    {
      row, macs := None, map[];
    }

    method GetAppStateMutationMAC(index: Bytes) returns (value: Option<Bytes>)
      ensures value == Lookup(macs, index)
    {
      value := if index in macs then Some(macs[index]) else None;
    }

    method DeleteAppStateMutationMACs(indexes: seq<Bytes>)
      modifies this
      ensures Contents() == old(Contents()).(macs := old(macs) - SetOf(indexes))
    {
      for i := 0 to |indexes|
        invariant row == old(row) && macs == old(macs) - SetOf(indexes[..i])
      {
        assert indexes[..i + 1] == indexes[..i] + [indexes[i]];
        macs := macs - {indexes[i]};
      }
      assert indexes[..|indexes|] == indexes;
    }

    method PutAppStateMutationMACs(added: seq<AppStateMutationMAC>)
      modifies this
      ensures Contents() == old(Contents()).(macs := PutAll(old(macs), added))
    {
      for i := 0 to |added|
        invariant row == old(row) && macs == PutAll(old(macs), added[..i])
      {
        assert added[..i + 1] == added[..i] + [added[i]];
        PutSnoc(old(macs), added[..i], added[i]);
        macs := macs[added[i].index := added[i].value];
      }
      assert added[..|added|] == added;
    }
  }

  /** patchOutput */
  class PatchOutput {
    var removedMACs: seq<Bytes>
    var addedMACs: seq<AppStateMutationMAC>
    var mutations: seq<Mutation>

    constructor (mutations: seq<Mutation>)
      ensures removedMACs == [] && addedMACs == [] && this.mutations == mutations
    {
      removedMACs, addedMACs, this.mutations := [], [], mutations;
    }

    method RemoveMAC(index: Bytes)
      modifies this`removedMACs, this`addedMACs
      ensures removedMACs == old(removedMACs) + [index]
      ensures addedMACs == Without(old(addedMACs), index)
    {
      removedMACs := removedMACs + [index];
      DeleteFunc(index);
    }

    /** slices.DeleteFunc, moving the kept entries forward. */
    method DeleteFunc(index: Bytes)
      modifies this`addedMACs
      ensures addedMACs == Without(old(addedMACs), index)
    {
      var kept: seq<AppStateMutationMAC> := [];
      for i := 0 to |addedMACs|
        invariant addedMACs == old(addedMACs) && kept == Without(addedMACs[..i], index)
      {
        assert addedMACs[..i + 1][..i] == addedMACs[..i];
        if addedMACs[i].index != index {
          kept := kept + [addedMACs[i]];
        }
      }
      assert addedMACs[..|addedMACs|] == addedMACs;
      addedMACs := kept;
    }

    method AddMAC(index: Bytes, value: Bytes)
      modifies this`addedMACs
      ensures addedMACs == old(addedMACs) + [AppStateMutationMAC(index, value)]
    {
      addedMACs := addedMACs + [AppStateMutationMAC(index, value)];
    }

    /** The operation switch of decodeMutations. */
    method Record(mut: SyncdMutation, d: Decoded, patchVersion: uint64)
      modifies this
      ensures removedMACs == old(removedMACs) + if mut.operation.REMOVE? then [d.indexMAC] else []
      ensures addedMACs == match mut.operation
                           case SET => old(addedMACs) + [AppStateMutationMAC(d.indexMAC, d.valueMAC)]
                           case REMOVE => Without(old(addedMACs), d.indexMAC)
                           case Unknown(_) => old(addedMACs)
      ensures mutations == old(mutations) + [ToMutation(mut, d, patchVersion)]
    {
      if mut.operation == REMOVE {
        RemoveMAC(d.indexMAC);
      } else if mut.operation == SET {
        AddMAC(d.indexMAC, d.valueMAC);
      }
      mutations := mutations + [ToMutation(mut, d, patchVersion)];
    }
  }
}
