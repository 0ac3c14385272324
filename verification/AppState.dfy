/** Values of the app state sync (appstate/hash.go, appstate/decode.go) and the functions that say
    what its loops compute. Cryptography, protobuf and JSON are parameters. */
module AppState {
  import opened Bytes
  import opened LtHash

  const MAC_SIZE := 32
  const IV_SIZE := 16

  type Mac = b: Bytes | |b| == 32 witness seq(32, _ => 0)
  type LongMac = b: Bytes | |b| == 64 witness seq(64, _ => 0)

  /** The number of an operation is whatever the sender puts in the field: an enumeration is open. */
  datatype Operation = SET | REMOVE | Unknown(number: OtherNumber)

  type OtherNumber = n: int | -0x8000_0000 <= n < 0x8000_0000 && n != 0 && n != 1 witness 2

  datatype SyncdRecord = SyncdRecord(index: Bytes, blob: Bytes, keyID: Bytes)

  datatype SyncdMutation = SyncdMutation(operation: Operation, record: SyncdRecord)

  datatype SyncdPatch = SyncdPatch(
    version: uint64, mutations: seq<SyncdMutation>, snapshotMAC: Bytes, patchMAC: Bytes, keyID: Bytes)

  datatype SyncdSnapshot = SyncdSnapshot(version: uint64, records: seq<SyncdRecord>, mac: Bytes, keyID: Bytes)

  datatype PatchList = PatchList(hasMorePatches: bool, patches: seq<SyncdPatch>, snapshot: Option<SyncdSnapshot>)

  datatype SyncActionData = SyncActionData(index: Bytes, value: Bytes, version: int)

  datatype Mutation = Mutation(
    keyID: Bytes, operation: Operation, action: Bytes, version: int, index: seq<Bytes>,
    indexMAC: Bytes, valueMAC: Bytes, patchVersion: uint64)

  datatype ExpandedKeys = ExpandedKeys(
    index: Bytes, valueEncryption: Bytes, valueMAC: Bytes, snapshotMAC: Bytes, patchMAC: Bytes)

  /** Panic stands for the run-time panic of a slice expression on a value blob that is too short. */
  datatype Error =
    | KeyNotFound | MismatchingContentMAC | MismatchingIndexMAC | MismatchingLTHash | MismatchingPatchMAC
    | DecryptionFailed | InvalidAction | InvalidIndex | Panic

  /** The functions whose insides are not modelled. */
  datatype Crypto = Crypto(
    hkdf: Bytes -> Block,
    hmacSha256: (Bytes, Bytes) -> Mac,
    hmacSha512: (Bytes, Bytes) -> LongMac,
    key: Bytes -> Option<ExpandedKeys>,
    cbcEncrypt: (Bytes, Bytes, Bytes) -> Bytes,
    cbcDecrypt: (Bytes, Bytes, Bytes) -> Option<Bytes>,
    marshalAction: SyncActionData -> Bytes,
    unmarshalAction: Bytes -> Option<SyncActionData>,
    marshalIndex: seq<Bytes> -> Bytes,
    unmarshalIndex: Bytes -> Option<seq<Bytes>>)

  /** What an encoded patch needs from them: each decoder undoes its encoder. */
  ghost predicate Lawful(cr: Crypto) {
    && (forall k, iv, x :: cr.cbcDecrypt(k, iv, cr.cbcEncrypt(k, iv, x)) == Some(x))
    && (forall a :: cr.unmarshalAction(cr.marshalAction(a)) == Some(a))
    && (forall i :: cr.unmarshalIndex(cr.marshalIndex(i)) == Some(i))
  }

  type MacMap = map<Bytes, Bytes>

  datatype HashState = HashState(version: uint64, hash: Sum)

  /** The rows one collection has in the database: its version row and its mutation MACs. */
  datatype Collection = Collection(row: Option<HashState>, macs: MacMap)

  function EmptyState(): HashState {
    HashState(0, Zero())
  }

  /** What GetAppStateVersion reports; a missing row reads as version 0 with a zero hash. */
  function Current(c: Collection): HashState {
    if c.row.Some? then c.row.value else EmptyState()
  }

  /** The invariant of a collection: its hash is the sum over its stored value MACs. */
  ghost predicate Consistent(cr: Crypto, c: Collection) {
    Current(c).hash == MapTotal(cr.hkdf, c.macs)
  }

  // ----- One mutation at a time

  predicate Sliceable(r: SyncdRecord) {
    MAC_SIZE <= |r.blob|
  }

  /** The last 32 bytes of the value blob; every use is guarded by Sliceable. */
  function ValueMAC(r: SyncdRecord): Bytes {
    if Sliceable(r) then Suffix(r.blob, MAC_SIZE) else []
  }

  /** What storing a mutation does. An unknown operation is decoded and handed out, and stores nothing. */
  function Apply(m: MacMap, mut: SyncdMutation): MacMap {
    match mut.operation
    case SET => m[mut.record.index := ValueMAC(mut.record)]
    case REMOVE => m - {mut.record.index}
    case Unknown(_) => m
  }

  /** The reference: the mutations applied one after the other. */
  function ApplyAll(m: MacMap, muts: seq<SyncdMutation>): MacMap {
    if muts == [] then m
    else Apply(ApplyAll(m, muts[..|muts| - 1]), muts[|muts| - 1])
  }

  lemma ApplySnoc(m: MacMap, muts: seq<SyncdMutation>, n: nat)
    requires n < |muts|
    ensures ApplyAll(m, muts[..n + 1]) == Apply(ApplyAll(m, muts[..n]), muts[n])
  {
    assert muts[..n + 1][..n] == muts[..n];
  }

  /** Mutation i is the last one of the index that is a SET or a REMOVE. */
  predicate LastKnown(muts: seq<SyncdMutation>, index: Bytes, i: int) {
    && 0 <= i < |muts| && muts[i].record.index == index && !muts[i].operation.Unknown?
    && forall j | i < j < |muts| && muts[j].record.index == index :: muts[j].operation.Unknown?
  }

  /** What is stored for an index: the last 32 bytes of the value of its last SET, and nothing after a REMOVE, ... */
  lemma {:induction false} StoredFor(m: MacMap, muts: seq<SyncdMutation>, x: Bytes, i: nat)
    requires LastKnown(muts, x, i)
    ensures var blob := muts[i].record.blob;
            Lookup(ApplyAll(m, muts), x) ==
            if muts[i].operation.REMOVE? then None
            else Some(if |blob| >= 32 then blob[|blob| - 32..] else [])
  {
    var before, n := muts[..|muts| - 1], |muts| - 1;
    if i < n {
      assert forall j | i < j < n :: before[j] == muts[j];
      StoredFor(m, before, x, i);
    }
  }

  /** ... and what was stored before when no mutation sets or removes it. */
  lemma {:induction false} StoredBefore(m: MacMap, muts: seq<SyncdMutation>, x: Bytes)
    requires forall i | 0 <= i < |muts| && muts[i].record.index == x :: muts[i].operation.Unknown?
    ensures Lookup(ApplyAll(m, muts), x) == Lookup(m, x)
  {
    if muts != [] {
      StoredBefore(m, muts[..|muts| - 1], x);
    }
  }

  /** The map as updateHash sees it: every operation other than SET takes its index out. */
  function SeenByHash(m: MacMap, muts: seq<SyncdMutation>): MacMap {
    if muts == [] then m
    else
      var before, last := SeenByHash(m, muts[..|muts| - 1]), muts[|muts| - 1];
      if last.operation.SET? then before[last.record.index := ValueMAC(last.record)]
      else before - {last.record.index}
  }

  lemma SeenSnoc(m: MacMap, muts: seq<SyncdMutation>, n: nat)
    requires n < |muts|
    ensures SeenByHash(m, muts[..n + 1]) ==
            if muts[n].operation.SET?
            then SeenByHash(m, muts[..n])[muts[n].record.index := ValueMAC(muts[n].record)]
            else SeenByHash(m, muts[..n]) - {muts[n].record.index}
  {
    assert muts[..n + 1][..n] == muts[..n];
  }

  /** The last mutation of the index has an unknown operation. */
  predicate EndsUnknown(muts: seq<SyncdMutation>, index: Bytes) {
    muts != [] &&
    var last := muts[|muts| - 1];
    if last.record.index == index then last.operation.Unknown? else EndsUnknown(muts[..|muts| - 1], index)
  }

  /** The entries that stay stored although updateHash takes them out. */
  function Kept(m: MacMap, muts: seq<SyncdMutation>): MacMap {
    var stored := ApplyAll(m, muts);
    map x | x in stored && EndsUnknown(muts, x) :: stored[x]
  }

  lemma {:induction false} SeenLookup(m: MacMap, muts: seq<SyncdMutation>, x: Bytes)
    ensures Lookup(SeenByHash(m, muts), x) ==
            if EndsUnknown(muts, x) then None else Lookup(ApplyAll(m, muts), x)
  {
    if muts != [] {
      SeenLookup(m, muts[..|muts| - 1], x);
    }
  }

  /** What updateHash sees is what is stored, without the entries whose last operation is unknown. */
  lemma SeenIsStored(m: MacMap, muts: seq<SyncdMutation>)
    ensures SeenByHash(m, muts) == ApplyAll(m, muts) - Kept(m, muts).Keys
  {
    var seen, stored := SeenByHash(m, muts), ApplyAll(m, muts) - Kept(m, muts).Keys;
    forall x ensures Lookup(seen, x) == Lookup(stored, x) {
      SeenLookup(m, muts, x);
    }
    SameLookups(seen, stored);
  }

  /** Nothing is kept when every stored entry a mutation names last is set or removed by it. */
  lemma NothingKept(m: MacMap, muts: seq<SyncdMutation>)
    requires forall x | x in ApplyAll(m, muts) :: !EndsUnknown(muts, x)
    ensures Kept(m, muts) == map[]
  {
  }

  lemma {:induction false} KnownEndsKnown(muts: seq<SyncdMutation>, x: Bytes)
    requires forall i | 0 <= i < |muts| :: !muts[i].operation.Unknown?
    ensures !EndsUnknown(muts, x)
  {
    if muts != [] {
      KnownEndsKnown(muts[..|muts| - 1], x);
    }
  }

  // ----- updateHash

  /** The three callbacks updateHash is given to find the value an index held before. */
  datatype Previous = Nothing | StoreOnly | PatchThenStore

  function PreviousValue(kind: Previous, macs: MacMap, before: seq<SyncdMutation>, index: Bytes): Option<Bytes> {
    match kind
    case Nothing => None
    case StoreOnly => Lookup(macs, index)
    case PatchThenStore => Lookup(SeenByHash(macs, before), index)
  }

  function Additions(muts: seq<SyncdMutation>): seq<Bytes> {
    if muts == [] then []
    else
      var last := muts[|muts| - 1];
      Additions(muts[..|muts| - 1]) + if last.operation.SET? then [ValueMAC(last.record)] else []
  }

  function Removals(kind: Previous, macs: MacMap, muts: seq<SyncdMutation>): seq<Bytes> {
    if muts == [] then []
    else
      var before, last := muts[..|muts| - 1], muts[|muts| - 1];
      var previous := PreviousValue(kind, macs, before, last.record.index);
      Removals(kind, macs, before) + if previous.Some? then [previous.value] else []
  }

  function UpdatedHash(cr: Crypto, kind: Previous, macs: MacMap, hash: Sum, muts: seq<SyncdMutation>): Sum {
    Plus(Minus(hash, Total(cr.hkdf, Removals(kind, macs, muts))), Total(cr.hkdf, Additions(muts)))
  }

  lemma {:induction false} RemovalsOfNothing(macs: MacMap, muts: seq<SyncdMutation>)
    ensures Removals(Nothing, macs, muts) == []
  {
    if muts != [] {
      RemovalsOfNothing(macs, muts[..|muts| - 1]);
    }
  }

  predicate SetsSliceable(muts: seq<SyncdMutation>) {
    forall i | 0 <= i < |muts| :: muts[i].operation.SET? ==> Sliceable(muts[i].record)
  }

  /** The value an index held before the last of the mutations, as a list of at most one. */
  function Held(m: MacMap, index: Bytes): seq<Bytes> {
    if index in m then [m[index]] else []
  }

  lemma RemovalTracksMap(expand: Bytes -> Block, m: MacMap, index: Bytes, start: Sum, r: seq<Bytes>, a: Sum)
    requires MapTotal(expand, m) == Plus(Minus(start, Total(expand, r)), a)
    ensures MapTotal(expand, m - {index}) == Plus(Minus(start, Total(expand, r + Held(m, index))), a)
  {
    MapTotalRemove(expand, m, index);
    if index in m {
      TotalSnoc(expand, r, m[index]);
      TakeOut(start, Total(expand, r), a, Words(expand(m[index])));
    } else {
      assert r + Held(m, index) == r;
    }
  }

  lemma AdditionTracksMap(expand: Bytes -> Block, m: MacMap, index: Bytes, value: Bytes, left: Sum, a: seq<Bytes>)
    requires MapTotal(expand, m - {index}) == Plus(left, Total(expand, a))
    ensures MapTotal(expand, m[index := value]) == Plus(left, Total(expand, a + [value]))
  {
    MapTotalPut(expand, m, index, value);
    TotalSnoc(expand, a, value);
    PlusAssociates(left, Total(expand, a), Words(expand(value)));
  }

  /** The lists of the hash update grow by what the last mutation's index held, and by what it sets. */
  lemma ListsSnoc(macs: MacMap, muts: seq<SyncdMutation>)
    requires muts != []
    ensures var before, last := muts[..|muts| - 1], muts[|muts| - 1];
            && Removals(PatchThenStore, macs, muts) ==
               Removals(PatchThenStore, macs, before) + Held(SeenByHash(macs, before), last.record.index)
            && Additions(muts) ==
               if last.operation.SET? then Additions(before) + [ValueMAC(last.record)] else Additions(before)
  {
  }

  lemma {:induction false} HashTracksSeen(cr: Crypto, macs: MacMap, muts: seq<SyncdMutation>)
    ensures MapTotal(cr.hkdf, SeenByHash(macs, muts)) ==
            UpdatedHash(cr, PatchThenStore, macs, MapTotal(cr.hkdf, macs), muts)
  {
    if muts == [] {
      PlusZero(MapTotal(cr.hkdf, macs));
    } else {
      var before, last := muts[..|muts| - 1], muts[|muts| - 1];
      HashTracksSeen(cr, macs, before);
      ListsSnoc(macs, muts);
      var m, start, index := SeenByHash(macs, before), MapTotal(cr.hkdf, macs), last.record.index;
      var r, a := Removals(PatchThenStore, macs, before), Additions(before);
      RemovalTracksMap(cr.hkdf, m, index, start, r, Total(cr.hkdf, a));
      if last.operation.SET? {
        AdditionTracksMap(cr.hkdf, m, index, ValueMAC(last.record),
                          Minus(start, Total(cr.hkdf, r + Held(m, index))), a);
      }
    }
  }

  /** For every list of mutations, with repeated indexes, SET/REMOVE/SET chains, REMOVEs of missing indexes and
      unknown operations: the updated hash is the sum over the map with the mutations applied one by one, less
      the entries kept under an unknown operation. */
  lemma HashTracksMap(cr: Crypto, macs: MacMap, muts: seq<SyncdMutation>)
    ensures var updated := UpdatedHash(cr, PatchThenStore, macs, MapTotal(cr.hkdf, macs), muts);
            && updated == MapTotal(cr.hkdf, ApplyAll(macs, muts) - Kept(macs, muts).Keys)
            && MapTotal(cr.hkdf, ApplyAll(macs, muts)) == Plus(updated, MapTotal(cr.hkdf, Kept(macs, muts)))
  {
    var stored, kept := ApplyAll(macs, muts), Kept(macs, muts);
    HashTracksSeen(cr, macs, muts);
    SeenIsStored(macs, muts);
    MapTotalSplit(cr.hkdf, stored, kept.Keys);
    assert (map x | x in stored && x in kept.Keys :: stored[x]) == kept;
  }

  lemma TakeOut(start: Sum, r: Sum, a: Sum, x: Sum)
    ensures Minus(Plus(Minus(start, r), a), x) == Plus(Minus(start, Plus(r, x)), a)
  {
    MinusPlusSwap(Minus(start, r), x, a);
    MinusPlus(start, r, x);
  }

  // ----- The batched update of the database

  datatype AppStateMutationMAC = AppStateMutationMAC(index: Bytes, value: Bytes)

  function SetOf(keys: seq<Bytes>): set<Bytes> {
    set k | k in keys
  }

  /** PutAppStateMutationMACs: upserts in list order. */
  function PutAll(m: MacMap, added: seq<AppStateMutationMAC>): MacMap {
    if added == [] then m
    else
      var last := added[|added| - 1];
      PutAll(m, added[..|added| - 1])[last.index := last.value]
  }

  /** storeMACs: every removal first, then every addition. */
  function Batched(m: MacMap, removed: seq<Bytes>, added: seq<AppStateMutationMAC>): MacMap {
    PutAll(m - SetOf(removed), added)
  }

  /** slices.DeleteFunc of RemoveMAC: the entries of other indexes, in order. */
  function Without(added: seq<AppStateMutationMAC>, index: Bytes): seq<AppStateMutationMAC> {
    if added == [] then []
    else
      var last := added[|added| - 1];
      Without(added[..|added| - 1], index) + if last.index == index then [] else [last]
  }

  lemma {:induction false} PutWithout(m: MacMap, added: seq<AppStateMutationMAC>, index: Bytes)
    ensures PutAll(m - {index}, Without(added, index)) == PutAll(m, added) - {index}
  {
    if added != [] {
      var init, last := added[..|added| - 1], added[|added| - 1];
      PutWithout(m, init, index);
      SetThenRemove(PutAll(m, init), last.index, last.value, index);
      if last.index != index {
        PutSnoc(m - {index}, Without(init, index), last);
      } else {
        assert Without(added, index) == Without(init, index);
      }
    }
  }

  lemma PutSnoc(m: MacMap, added: seq<AppStateMutationMAC>, mac: AppStateMutationMAC)
    ensures PutAll(m, added + [mac]) == PutAll(m, added)[mac.index := mac.value]
  {
    assert (added + [mac])[..|added|] == added;
  }

  lemma SetThenRemove(m: MacMap, k: Bytes, v: Bytes, index: Bytes)
    ensures m[k := v] - {index} == if k == index then m - {index} else (m - {index})[k := v]
  {
  }

  /** RemoveMAC has the effect of removing the index after everything batched so far. */
  lemma BatchedRemove(m: MacMap, removed: seq<Bytes>, added: seq<AppStateMutationMAC>, index: Bytes)
    ensures Batched(m, removed + [index], Without(added, index)) == Batched(m, removed, added) - {index}
  {
    assert m - SetOf(removed + [index]) == m - SetOf(removed) - {index};
    PutWithout(m - SetOf(removed), added, index);
  }

  /** AddMAC has the effect of setting the index after everything batched so far. */
  lemma BatchedAdd(m: MacMap, removed: seq<Bytes>, added: seq<AppStateMutationMAC>, mac: AppStateMutationMAC)
    ensures Batched(m, removed, added + [mac]) == Batched(m, removed, added)[mac.index := mac.value]
  {
    PutSnoc(m - SetOf(removed), added, mac);
  }

  /** The two lists decodeMutations leaves in its output. */
  function RemovedMACs(muts: seq<SyncdMutation>): seq<Bytes> {
    if muts == [] then []
    else
      var last := muts[|muts| - 1];
      RemovedMACs(muts[..|muts| - 1]) + if last.operation.REMOVE? then [last.record.index] else []
  }

  function AddedMACs(muts: seq<SyncdMutation>): seq<AppStateMutationMAC> {
    if muts == [] then []
    else
      var before, last := AddedMACs(muts[..|muts| - 1]), muts[|muts| - 1];
      match last.operation
      case SET => before + [AppStateMutationMAC(last.record.index, ValueMAC(last.record))]
      case REMOVE => Without(before, last.record.index)
      case Unknown(_) => before
  }

  /** Storing all removals and then all additions leaves the map that applying the mutations one
      after the other leaves, whatever the map was. */
  lemma {:induction false} BatchRefinesSequence(m: MacMap, muts: seq<SyncdMutation>)
    ensures Batched(m, RemovedMACs(muts), AddedMACs(muts)) == ApplyAll(m, muts)
  {
    if muts == [] {
      assert m - SetOf([]) == m;
    } else {
      var before, last := muts[..|muts| - 1], muts[|muts| - 1];
      BatchRefinesSequence(m, before);
      match last.operation {
        case SET =>
          assert RemovedMACs(muts) == RemovedMACs(before);
          BatchedAdd(m, RemovedMACs(before), AddedMACs(before),
                     AppStateMutationMAC(last.record.index, ValueMAC(last.record)));
        case REMOVE =>
          BatchedRemove(m, RemovedMACs(before), AddedMACs(before), last.record.index);
        case Unknown(_) =>
          assert RemovedMACs(muts) == RemovedMACs(before);
      }
    }
  }

  // ----- Message authentication codes

  function Concat(parts: seq<Bytes>): Bytes {
    if parts == [] then [] else Concat(parts[..|parts| - 1]) + parts[|parts| - 1]
  }

  function SnapshotMAC(cr: Crypto, state: HashState, name: Bytes, key: Bytes): Mac {
    cr.hmacSha256(key, BlockOf(state.hash) + BigEndian(state.version, 8) + name)
  }

  /** byte(operation) + 1 */
  function OperationByte(op: Operation): byte {
    match op
    case SET => 1
    case REMOVE => 2
    case Unknown(n) => (n + 1) % 256
  }

  function ContentMAC(cr: Crypto, op: Operation, data: Bytes, keyID: Bytes, key: Bytes): Bytes {
    cr.hmacSha512(key, [OperationByte(op)] + keyID + data + BigEndian(|keyID| + 1, 8))[..MAC_SIZE]
  }

  function ValueMACs(muts: seq<SyncdMutation>): seq<Bytes> {
    seq(|muts|, i requires 0 <= i < |muts| => ValueMAC(muts[i].record))
  }

  function PatchMAC(cr: Crypto, patch: SyncdPatch, name: Bytes, key: Bytes, version: uint64): Mac {
    cr.hmacSha256(key, Concat([patch.snapshotMAC] + ValueMACs(patch.mutations) + [BigEndian(version, 8), name]))
  }

  predicate AllSliceable(muts: seq<SyncdMutation>) {
    forall i | 0 <= i < |muts| :: Sliceable(muts[i].record)
  }

  lemma SliceableSnoc(muts: seq<SyncdMutation>)
    requires muts != [] && AllSliceable(muts[..|muts| - 1]) && Sliceable(muts[|muts| - 1].record)
    ensures AllSliceable(muts)
  {
    forall i | 0 <= i < |muts| ensures Sliceable(muts[i].record) {
      assert i < |muts| - 1 ==> muts[..|muts| - 1][i] == muts[i];
    }
  }

  // ----- Decoding

  datatype Decoded = Decoded(indexMAC: Bytes, valueMAC: Bytes, index: seq<Bytes>, action: SyncActionData)

  function OrElse<T>(o: Option<T>, e: Error): Result<T, Error> {
    if o.Some? then Ok(o.value) else Err(e)
  }

  function Check(good: bool, e: Error): Result<(), Error> {
    if good then Ok(()) else Err(e)
  }

  /** decodeMutation */
  function DecodeMutation(cr: Crypto, mut: SyncdMutation, validateMACs: bool): (d: Result<Decoded, Error>)
    ensures d.Ok? ==> Sliceable(mut.record) && d.value.indexMAC == mut.record.index
                      && d.value.valueMAC == ValueMAC(mut.record)
  {
    var r := mut.record;
    var keys :- OrElse(cr.key(r.keyID), KeyNotFound);
    var _ :- Check(Sliceable(r), Panic);
    var content, valueMAC := r.blob[..|r.blob| - MAC_SIZE], Suffix(r.blob, MAC_SIZE);
    var _ :- Check(validateMACs ==> ContentMAC(cr, mut.operation, content, r.keyID, keys.valueMAC) == valueMAC,
                   MismatchingContentMAC);
    var _ :- Check(IV_SIZE <= |content|, Panic);
    var plaintext :- OrElse(cr.cbcDecrypt(keys.valueEncryption, content[..IV_SIZE], content[IV_SIZE..]),
                            DecryptionFailed);
    var action :- OrElse(cr.unmarshalAction(plaintext), InvalidAction);
    var _ :- Check(validateMACs ==> cr.hmacSha256(keys.index, action.index) == r.index, MismatchingIndexMAC);
    var index :- OrElse(cr.unmarshalIndex(action.index), InvalidIndex);
    Ok(Decoded(r.index, valueMAC, index, action))
  }

  function ToMutation(mut: SyncdMutation, d: Decoded, patchVersion: uint64): Mutation {
    Mutation(mut.record.keyID, mut.operation, d.action.value, d.action.version, d.index,
             d.indexMAC, d.valueMAC, patchVersion)
  }

  /** decodeMutations: the decoded mutations, or the first error. */
  function DecodeMutations(cr: Crypto, muts: seq<SyncdMutation>, validateMACs: bool, patchVersion: uint64)
    : (r: Result<seq<Mutation>, Error>)
    ensures r.Ok? ==> |r.value| == |muts| && AllSliceable(muts)
  {
    if muts == [] then Ok([])
    else
      var last := muts[|muts| - 1];
      var before :- DecodeMutations(cr, muts[..|muts| - 1], validateMACs, patchVersion);
      var d :- DecodeMutation(cr, last, validateMACs);
      SliceableSnoc(muts);
      Ok(before + [ToMutation(last, d, patchVersion)])
  }

  lemma DecodeAppend(cr: Crypto, muts: seq<SyncdMutation>, n: nat, validateMACs: bool, patchVersion: uint64)
    requires n < |muts| && DecodeMutations(cr, muts[..n], validateMACs, patchVersion).Ok?
    ensures var d := DecodeMutation(cr, muts[n], validateMACs);
            DecodeMutations(cr, muts[..n + 1], validateMACs, patchVersion) ==
            if d.Err? then Err(d.error)
            else Ok(DecodeMutations(cr, muts[..n], validateMACs, patchVersion).value
                    + [ToMutation(muts[n], d.value, patchVersion)])
  {
    assert muts[..n + 1][..n] == muts[..n];
  }

  /** Decoding one more mutation; the three lists grow as the switch of the loop says. */
  lemma DecodeSnoc(cr: Crypto, muts: seq<SyncdMutation>, n: nat, validateMACs: bool, patchVersion: uint64)
    requires n < |muts| && DecodeMutations(cr, muts[..n], validateMACs, patchVersion).Ok?
    ensures RemovedMACs(muts[..n + 1]) ==
            RemovedMACs(muts[..n]) + if muts[n].operation.REMOVE? then [muts[n].record.index] else []
    ensures AddedMACs(muts[..n + 1]) ==
            match muts[n].operation
            case SET => AddedMACs(muts[..n]) + [AppStateMutationMAC(muts[n].record.index, ValueMAC(muts[n].record))]
            case REMOVE => Without(AddedMACs(muts[..n]), muts[n].record.index)
            case Unknown(_) => AddedMACs(muts[..n])
    ensures var d := DecodeMutation(cr, muts[n], validateMACs);
            DecodeMutations(cr, muts[..n + 1], validateMACs, patchVersion) ==
            if d.Err? then Err(d.error)
            else Ok(DecodeMutations(cr, muts[..n], validateMACs, patchVersion).value
                    + [ToMutation(muts[n], d.value, patchVersion)])
  {
    assert muts[..n + 1][..n] == muts[..n];
    DecodeAppend(cr, muts, n, validateMACs, patchVersion);
  }

  /** validateSnapshotMAC */
  function CheckSnapshotMAC(cr: Crypto, name: Bytes, state: HashState, keyID: Bytes, expected: Bytes)
    : Result<ExpandedKeys, Error>
  {
    var keys :- OrElse(cr.key(keyID), KeyNotFound);
    var _ :- Check(SnapshotMAC(cr, state, name, keys.snapshotMAC) == expected, MismatchingLTHash);
    Ok(keys)
  }

  /** validatePatch */
  function ValidatePatch(cr: Crypto, name: Bytes, macs: MacMap, state: HashState, patch: SyncdPatch, validateMACs: bool)
    : Result<HashState, Error>
  {
    var _ :- Check(SetsSliceable(patch.mutations), Panic);
    var newState := HashState(patch.version, UpdatedHash(cr, PatchThenStore, macs, state.hash, patch.mutations));
    if !validateMACs then Ok(newState)
    else
      var keys :- CheckSnapshotMAC(cr, name, newState, patch.keyID, patch.snapshotMAC);
      var _ :- Check(AllSliceable(patch.mutations), Panic);
      var _ :- Check(PatchMAC(cr, patch, name, keys.patchMAC, patch.version) == patch.patchMAC, MismatchingPatchMAC);
      Ok(newState)
  }

  /** One round of the patch loop of DecodePatches: the new state and the decoded mutations. */
  function DecodePatch(cr: Crypto, name: Bytes, c: Collection, state: HashState, patch: SyncdPatch, validateMACs: bool)
    : Result<(HashState, seq<Mutation>), Error>
  {
    var newState :- ValidatePatch(cr, name, c.macs, state, patch, validateMACs);
    var muts :- DecodeMutations(cr, patch.mutations, validateMACs, newState.version);
    Ok((newState, muts))
  }

  function AsMutations(records: seq<SyncdRecord>): (muts: seq<SyncdMutation>)
    ensures |muts| == |records|
  {
    seq(|records|, i requires 0 <= i < |records| => SyncdMutation(SET, records[i]))
  }

  /** decodeSnapshot */
  function DecodeSnapshot(cr: Crypto, name: Bytes, state: HashState, ss: SyncdSnapshot, validateMACs: bool)
    : Result<(HashState, seq<Mutation>), Error>
  {
    var muts := AsMutations(ss.records);
    var _ :- Check(SetsSliceable(muts), Panic);
    var newState := HashState(ss.version, UpdatedHash(cr, Nothing, map[], state.hash, muts));
    var _ :- if validateMACs then CheckSnapshotMAC(cr, name, newState, ss.keyID, ss.mac)
             else Ok(ExpandedKeys([], [], [], [], []));
    var decoded :- DecodeMutations(cr, muts, validateMACs, newState.version);
    Ok((newState, decoded))
  }

  /** What a call leaves in the database, and what it returns. */
  datatype Outcome = Outcome(collection: Collection, result: Result<(HashState, seq<Mutation>), Error>)

  /** The patch loop of DecodePatches. Each decoded patch is stored before the next one is looked at. */
  function RunPatches(cr: Crypto, name: Bytes, c: Collection, state: HashState, patches: seq<SyncdPatch>,
                      validateMACs: bool, done: seq<Mutation>): Outcome
    decreases |patches|
  {
    if patches == [] then Outcome(c, Ok((state, done)))
    else
      match DecodePatch(cr, name, c, state, patches[0], validateMACs)
      case Err(e) => Outcome(c, Err(e))
      case Ok((newState, muts)) =>
        RunPatches(cr, name, Collection(Some(newState), ApplyAll(c.macs, patches[0].mutations)), newState,
                   patches[1..], validateMACs, done + muts)
  }

  /** DecodePatches */
  function RunList(cr: Crypto, name: Bytes, c: Collection, state: HashState, list: PatchList, validateMACs: bool)
    : Outcome
  {
    match list.snapshot
    case None => RunPatches(cr, name, c, state, list.patches, validateMACs, [])
    case Some(ss) =>
      match DecodeSnapshot(cr, name, state, ss, validateMACs)
      case Err(e) => Outcome(c, Err(e))
      case Ok((newState, muts)) =>
        RunPatches(cr, name, Collection(Some(newState), ApplyAll(c.macs, AsMutations(ss.records))), newState,
                   list.patches, validateMACs, muts)
  }
}
