/** The SQL tables behind the store interface (store/sqlstore/store.go:493-598): one MAC row per version and
    index, plain INSERTs under that key, and when they agree with the map the interface stands for. */
module AppStateSql {
  import opened Bytes
  import opened LtHash
  import opened AppState
  import opened AppStateProofs

  type Rows = map<(uint64, Bytes), Bytes>

  datatype Tables = Tables(row: Option<HashState>, macs: Rows)

  /** The map GetAppStateMutationMAC reads off the rows: for each index the value of its highest version. */
  ghost predicate Shows(rows: Rows, m: MacMap) {
    && (forall k | k in rows :: k.1 in m)
    && (forall x | x in m :: exists v: uint64 :: (v, x) in rows && rows[(v, x)] == m[x] && Newest(rows, v, x))
  }

  ghost predicate Newest(rows: Rows, v: uint64, x: Bytes) {
    forall w: uint64 | (w, x) in rows :: w <= v
  }

  /** The CHECKs of the table on both columns. */
  predicate Sized(mac: AppStateMutationMAC) {
    |mac.index| == MAC_SIZE && |mac.value| == MAC_SIZE
  }

  predicate AllSized(added: seq<AppStateMutationMAC>) {
    forall i | 0 <= i < |added| :: Sized(added[i])
  }

  /** PutAppStateMutationMACs: None when a row of that key exists or a length is wrong, and then the transaction
      leaves nothing. */
  function InsertAll(rows: Rows, version: uint64, added: seq<AppStateMutationMAC>): Option<Rows> {
    if added == [] then Some(rows)
    else
      var before, last := InsertAll(rows, version, added[..|added| - 1]), added[|added| - 1];
      if before.None? || (version, last.index) in before.value || !Sized(last) then None
      else Some(before.value[(version, last.index) := last.value])
  }

  /** DeleteAppStateMutationMACs: the rows of these indexes, of every version. */
  function DeleteAll(rows: Rows, indexes: set<Bytes>): Rows {
    map k | k in rows && k.1 !in indexes :: rows[k]
  }

  /** storeMACs on these tables: three statements, no transaction around them. */
  function StoreAll(t: Tables, state: HashState, removed: seq<Bytes>, added: seq<AppStateMutationMAC>): (Tables, bool) {
    var left := DeleteAll(t.macs, SetOf(removed));
    var inserted := InsertAll(left, state.version, added);
    (Tables(Some(state), if inserted.Some? then inserted.value else left), inserted.Some?)
  }

  // ----- When the insert succeeds

  function Count(added: seq<AppStateMutationMAC>, x: Bytes): nat {
    if added == [] then 0
    else Count(added[..|added| - 1], x) + if added[|added| - 1].index == x then 1 else 0
  }

  predicate DistinctMACs(added: seq<AppStateMutationMAC>) {
    forall i, j | 0 <= i < j < |added| :: added[i].index != added[j].index
  }

  lemma {:induction false} CountPositive(added: seq<AppStateMutationMAC>, x: Bytes)
    ensures Count(added, x) > 0 <==> exists i :: 0 <= i < |added| && added[i].index == x
  {
    if added != [] {
      var before := added[..|added| - 1];
      CountPositive(before, x);
      if i :| 0 <= i < |before| && before[i].index == x {
        assert added[i].index == x;
      }
      if i :| 0 <= i < |added| && added[i].index == x {
        assert i < |before| ==> before[i].index == x;
      }
    }
  }

  lemma {:induction false} DistinctCounts(added: seq<AppStateMutationMAC>)
    ensures DistinctMACs(added) <==> forall x :: Count(added, x) <= 1
  {
    if added != [] {
      var before, last := added[..|added| - 1], added[|added| - 1];
      DistinctCounts(before);
      CountPositive(before, last.index);
      if DistinctMACs(added) {
        assert DistinctMACs(before);
        forall i | 0 <= i < |before| ensures before[i].index != last.index {
          assert added[i] == before[i] && added[|before|] == last;
        }
        forall x ensures Count(added, x) <= 1 {
          assert Count(before, x) <= 1;
        }
      } else if DistinctMACs(before) {
        var i, j :| 0 <= i < j < |added| && added[i].index == added[j].index;
        assert j == |before| && before[i].index == last.index;
        assert Count(added, last.index) > 1;
      } else {
        var x :| Count(before, x) > 1;
        assert Count(added, x) > 1;
      }
    }
  }

  /** A batch goes in exactly when every MAC is 32 bytes for 32 bytes, no index repeats in it and no row of its
      version holds one of them. */
  lemma {:induction false} InsertSucceeds(rows: Rows, version: uint64, added: seq<AppStateMutationMAC>)
    ensures InsertAll(rows, version, added).Some?
            <==> AllSized(added) && DistinctMACs(added)
                 && forall i | 0 <= i < |added| :: (version, added[i].index) !in rows
    ensures InsertAll(rows, version, added).Some? ==>
              forall k :: k in InsertAll(rows, version, added).value <==>
                          k in rows || (k.0 == version && Count(added, k.1) > 0)
  {
    if added != [] {
      var before, last := added[..|added| - 1], added[|added| - 1];
      InsertSucceeds(rows, version, before);
      CountPositive(before, last.index);
      if DistinctMACs(added) {
        assert DistinctMACs(before);
      }
      if AllSized(added) {
        assert AllSized(before);
      }
    }
  }

  // ----- Which patches repeat an index

  /** The SETs of an index after its last REMOVE. */
  function LiveSets(muts: seq<SyncdMutation>, x: Bytes): nat {
    if muts == [] then 0
    else
      var before, last := LiveSets(muts[..|muts| - 1], x), muts[|muts| - 1];
      if last.record.index != x || last.operation.Unknown? then before
      else if last.operation.SET? then before + 1 else 0
  }

  lemma {:induction false} CountWithout(added: seq<AppStateMutationMAC>, index: Bytes, x: Bytes)
    ensures Count(Without(added, index), x) == if x == index then 0 else Count(added, x)
  {
    if added != [] {
      var before, last := added[..|added| - 1], added[|added| - 1];
      CountWithout(before, index, x);
      if last.index != index {
        CountSnoc(Without(before, index), last, x);
      } else {
        assert Without(added, index) == Without(before, index);
      }
    }
  }

  lemma CountSnoc(added: seq<AppStateMutationMAC>, mac: AppStateMutationMAC, x: Bytes)
    ensures Count(added + [mac], x) == Count(added, x) + if mac.index == x then 1 else 0
  {
    assert (added + [mac])[..|added|] == added;
  }

  lemma {:induction false} AddedCounts(muts: seq<SyncdMutation>, x: Bytes)
    ensures Count(AddedMACs(muts), x) == LiveSets(muts, x)
  {
    if muts != [] {
      var before, last := muts[..|muts| - 1], muts[|muts| - 1];
      AddedCounts(before, x);
      if last.operation.SET? {
        CountSnoc(AddedMACs(before), AppStateMutationMAC(last.record.index, ValueMAC(last.record)), x);
      } else if last.operation.REMOVE? {
        CountWithout(AddedMACs(before), last.record.index, x);
      }
    }
  }

  /** Mutation i sets x, and no later one removes it. */
  predicate LiveSet(muts: seq<SyncdMutation>, i: int, x: Bytes) {
    && 0 <= i < |muts| && muts[i].operation.SET? && muts[i].record.index == x
    && forall k | i < k < |muts| :: !(muts[k].operation.REMOVE? && muts[k].record.index == x)
  }

  /** Two SETs of one index with no REMOVE of it after the first. */
  predicate SetsTwice(muts: seq<SyncdMutation>) {
    exists i, j | 0 <= i < j < |muts| ::
      LiveSet(muts, i, muts[i].record.index) && LiveSet(muts, j, muts[i].record.index)
  }

  ghost predicate SomeLive(muts: seq<SyncdMutation>, x: Bytes) {
    exists i :: LiveSet(muts, i, x)
  }

  ghost predicate TwoLive(muts: seq<SyncdMutation>, x: Bytes) {
    exists i, j | i < j :: LiveSet(muts, i, x) && LiveSet(muts, j, x)
  }

  lemma {:induction false} LiveSetsCount(muts: seq<SyncdMutation>, x: Bytes)
    ensures LiveSets(muts, x) >= 1 <==> SomeLive(muts, x)
    ensures LiveSets(muts, x) >= 2 <==> TwoLive(muts, x)
  {
    if muts != [] {
      LiveSetsCount(muts[..|muts| - 1], x);
      LiveSnoc(muts, x);
    }
  }

  lemma LiveSnoc(muts: seq<SyncdMutation>, x: Bytes)
    requires muts != []
    ensures var before, last := muts[..|muts| - 1], muts[|muts| - 1];
            if last.record.index != x || last.operation.Unknown?
            then SomeLive(muts, x) == SomeLive(before, x) && TwoLive(muts, x) == TwoLive(before, x)
            else if last.operation.SET? then SomeLive(muts, x) && TwoLive(muts, x) == SomeLive(before, x)
            else !SomeLive(muts, x) && !TwoLive(muts, x)
  {
    var before, last, n := muts[..|muts| - 1], muts[|muts| - 1], |muts| - 1;
    forall i ensures LiveSet(muts, i, x) <==>
                     if last.record.index != x || last.operation.Unknown? then LiveSet(before, i, x)
                     else last.operation.SET? && (i == n || LiveSet(before, i, x)) {
      LiveSetSnoc(muts, i, x);
    }
    if last.record.index == x && last.operation.SET? {
      assert LiveSet(muts, n, x);
      if TwoLive(muts, x) {
        var i, j :| i < j && LiveSet(muts, i, x) && LiveSet(muts, j, x);
        assert LiveSet(before, i, x);
      }
      if SomeLive(before, x) {
        var i :| LiveSet(before, i, x);
        assert LiveSet(muts, i, x);
      }
    }
  }

  lemma LiveSetSnoc(muts: seq<SyncdMutation>, i: int, x: Bytes)
    requires muts != []
    ensures var before, last, n := muts[..|muts| - 1], muts[|muts| - 1], |muts| - 1;
            LiveSet(muts, i, x) <==>
            if last.record.index != x || last.operation.Unknown? then LiveSet(before, i, x)
            else last.operation.SET? && (i == n || LiveSet(before, i, x))
  {
    var before := muts[..|muts| - 1];
    if LiveSet(muts, i, x) && i < |before| {
      assert forall k | i < k < |before| :: before[k] == muts[k];
    }
    if LiveSet(before, i, x) {
      assert muts[i] == before[i];
      assert forall k | i < k < |before| :: before[k] == muts[k];
    }
  }

  /** The additions of a patch repeat an index exactly when two SETs of one index have no REMOVE of it after
      the first. */
  lemma AddedRepeat(muts: seq<SyncdMutation>)
    ensures DistinctMACs(AddedMACs(muts)) <==> !SetsTwice(muts)
  {
    DistinctCounts(AddedMACs(muts));
    forall x ensures Count(AddedMACs(muts), x) > 1 <==> TwoLive(muts, x) {
      AddedCounts(muts, x);
      LiveSetsCount(muts, x);
    }
    TwiceIsTwoLive(muts);
    if x :| TwoLive(muts, x) {
      assert Count(AddedMACs(muts), x) > 1;
    } else {
      forall x ensures Count(AddedMACs(muts), x) <= 1 {
        assert !TwoLive(muts, x);
      }
    }
  }

  lemma TwiceIsTwoLive(muts: seq<SyncdMutation>)
    ensures SetsTwice(muts) <==> exists x :: TwoLive(muts, x)
  {
    if SetsTwice(muts) {
      var i, j :|
        0 <= i < j < |muts| && LiveSet(muts, i, muts[i].record.index) && LiveSet(muts, j, muts[i].record.index);
      assert TwoLive(muts, muts[i].record.index);
    }
    if x :| TwoLive(muts, x) {
      var i, j :| i < j && LiveSet(muts, i, x) && LiveSet(muts, j, x);
      assert x == muts[i].record.index;
    }
  }

  // ----- What the rows show

  lemma DeleteShows(rows: Rows, m: MacMap, indexes: set<Bytes>)
    requires Shows(rows, m)
    ensures Shows(DeleteAll(rows, indexes), m - indexes)
  {
    var left := DeleteAll(rows, indexes);
    forall x | x in m - indexes
      ensures exists v: uint64 :: (v, x) in left && left[(v, x)] == (m - indexes)[x] && Newest(left, v, x)
    {
      var v: uint64 :| (v, x) in rows && rows[(v, x)] == m[x] && Newest(rows, v, x);
      assert (v, x) in left && Newest(left, v, x);
    }
  }

  /** A row of a version that no row of the index exceeds is what the rows show for it. */
  lemma PutShows(rows: Rows, m: MacMap, version: uint64, mac: AppStateMutationMAC)
    requires Shows(rows, m) && Newest(rows, version, mac.index)
    ensures Shows(rows[(version, mac.index) := mac.value], m[mac.index := mac.value])
  {
    var more, m' := rows[(version, mac.index) := mac.value], m[mac.index := mac.value];
    forall x | x in m' ensures exists v: uint64 :: (v, x) in more && more[(v, x)] == m'[x] && Newest(more, v, x) {
      if x == mac.index {
        assert (version, x) in more && Newest(more, version, x);
      } else {
        var v: uint64 :| (v, x) in rows && rows[(v, x)] == m[x] && Newest(rows, v, x);
        assert (v, x) in more && Newest(more, v, x);
      }
    }
  }

  /** A row below another one of its index changes nothing of what the rows show. */
  lemma PutHidden(rows: Rows, m: MacMap, version: uint64, mac: AppStateMutationMAC)
    requires Shows(rows, m) && !Newest(rows, version, mac.index) && (version, mac.index) !in rows
    ensures Shows(rows[(version, mac.index) := mac.value], m)
  {
    var more := rows[(version, mac.index) := mac.value];
    var above: uint64 :| (above, mac.index) in rows && above > version;
    assert (above, mac.index).1 in m;
    forall x | x in m ensures exists v: uint64 :: (v, x) in more && more[(v, x)] == m[x] && Newest(more, v, x) {
      var v: uint64 :| (v, x) in rows && rows[(v, x)] == m[x] && Newest(rows, v, x);
      assert (v, x) in more && Newest(more, v, x);
    }
  }

  /** What the rows show once a batch is in: a MAC counts unless its index has a row of a higher version. */
  ghost function PutNewest(rows: Rows, m: MacMap, version: uint64, added: seq<AppStateMutationMAC>): MacMap {
    if added == [] then m
    else
      var before, last := PutNewest(rows, m, version, added[..|added| - 1]), added[|added| - 1];
      if Newest(rows, version, last.index) then before[last.index := last.value] else before
  }

  lemma InsertKeepsNewest(rows: Rows, version: uint64, added: seq<AppStateMutationMAC>, x: Bytes)
    requires InsertAll(rows, version, added).Some?
    ensures Newest(InsertAll(rows, version, added).value, version, x) <==> Newest(rows, version, x)
  {
    InsertSucceeds(rows, version, added);
  }

  lemma {:induction false} InsertShows(rows: Rows, m: MacMap, version: uint64, added: seq<AppStateMutationMAC>)
    requires Shows(rows, m) && InsertAll(rows, version, added).Some?
    ensures Shows(InsertAll(rows, version, added).value, PutNewest(rows, m, version, added))
  {
    if added != [] {
      var before, last := added[..|added| - 1], added[|added| - 1];
      InsertShows(rows, m, version, before);
      InsertKeepsNewest(rows, version, before, last.index);
      var more, m' := InsertAll(rows, version, before).value, PutNewest(rows, m, version, before);
      if Newest(rows, version, last.index) {
        PutShows(more, m', version, last);
      } else {
        PutHidden(more, m', version, last);
      }
    }
  }

  /** Rows show one map only. */
  lemma ShowsOne(rows: Rows, m: MacMap, m': MacMap)
    requires Shows(rows, m) && Shows(rows, m')
    ensures m == m'
  {
    forall x ensures Lookup(m, x) == Lookup(m', x) {
      if x in m {
        var v: uint64 :| (v, x) in rows && rows[(v, x)] == m[x] && Newest(rows, v, x);
        assert (v, x).1 in m';
        var w: uint64 :| (w, x) in rows && rows[(w, x)] == m'[x] && Newest(rows, w, x);
        assert v <= w <= v;
      }
    }
    SameLookups(m, m');
  }

  /** No row of the index has a higher version, or the index is shown with the value already. */
  ghost predicate Surfaces(rows: Rows, m: MacMap, version: uint64, mac: AppStateMutationMAC) {
    Newest(rows, version, mac.index) || Lookup(m, mac.index) == Some(mac.value)
  }

  ghost predicate AllSurface(rows: Rows, m: MacMap, version: uint64, added: seq<AppStateMutationMAC>) {
    forall i | 0 <= i < |added| :: Surfaces(rows, m, version, added[i])
  }

  lemma {:induction false} Untouched(rows: Rows, m: MacMap, version: uint64, added: seq<AppStateMutationMAC>, x: Bytes)
    requires forall i | 0 <= i < |added| :: added[i].index != x
    ensures Lookup(PutNewest(rows, m, version, added), x) == Lookup(PutAll(m, added), x) == Lookup(m, x)
  {
    if added != [] {
      Untouched(rows, m, version, added[..|added| - 1], x);
    }
  }

  /** A batch of distinct indexes is shown like upserts exactly when each of its MACs surfaces. */
  lemma {:induction false} NewestIsAll(rows: Rows, m: MacMap, version: uint64, added: seq<AppStateMutationMAC>)
    requires DistinctMACs(added)
    ensures PutNewest(rows, m, version, added) == PutAll(m, added) <==> AllSurface(rows, m, version, added)
  {
    if added != [] {
      var before, last := added[..|added| - 1], added[|added| - 1];
      NewestIsAll(rows, m, version, before);
      forall i | 0 <= i < |before| ensures before[i].index != last.index {
        assert added[i] == before[i] && added[|before|] == last;
      }
      Untouched(rows, m, version, before, last.index);
      LastSurfaces(PutNewest(rows, m, version, before), PutAll(m, before), last,
                   Newest(rows, version, last.index));
      assert AllSurface(rows, m, version, added)
             <==> AllSurface(rows, m, version, before) && Surfaces(rows, m, version, last);
    }
  }

  lemma LastSurfaces(shown: MacMap, put: MacMap, last: AppStateMutationMAC, newest: bool)
    requires Lookup(shown, last.index) == Lookup(put, last.index)
    ensures (if newest then shown[last.index := last.value] else shown) == put[last.index := last.value]
            <==> shown == put && (newest || Lookup(put, last.index) == Some(last.value))
  {
    var more, put' := if newest then shown[last.index := last.value] else shown, put[last.index := last.value];
    if more == put' {
      forall x ensures Lookup(shown, x) == Lookup(put, x) {
        if x != last.index {
          assert Lookup(shown, x) == Lookup(more, x) && Lookup(put, x) == Lookup(put', x);
        }
      }
      SameLookups(shown, put);
    } else if !newest && Lookup(put, last.index) == Some(last.value) {
      assert put' == put;
    }
  }

  /** Decoding with the checks on leaves only MACs of the size the table asks for. */
  lemma {:induction false} DecodedSized(cr: Crypto, muts: seq<SyncdMutation>, patchVersion: uint64)
    requires DecodeMutations(cr, muts, true, patchVersion).Ok?
    ensures AllSized(AddedMACs(muts))
  {
    if muts != [] {
      var before, last := muts[..|muts| - 1], muts[|muts| - 1];
      DecodedSized(cr, before, patchVersion);
      var d := DecodeMutation(cr, last, true);
      assert d.Ok?;
      if last.operation.REMOVE? {
        SizedWithout(AddedMACs(before), last.record.index);
      }
    }
  }

  lemma {:induction false} SizedWithout(added: seq<AppStateMutationMAC>, index: Bytes)
    requires AllSized(added)
    ensures AllSized(Without(added, index))
  {
    if added != [] {
      SizedWithout(added[..|added| - 1], index);
    }
  }

  /** storeMACs for the mutations of a patch, whatever the tables hold. The version row is replaced in any case. The
      MACs go in exactly when they have the right size, the patch sets no index twice and no row of its version is
      left for an index it adds. The rows then show the map with the mutations applied exactly when every MAC it
      adds surfaces; when the MACs do not go in, they show the old map without the removed indexes, under the new
      hash. */
  lemma StoresPatch(t: Tables, m: MacMap, state: HashState, muts: seq<SyncdMutation>)
    requires Shows(t.macs, m)
    ensures var (t', ok) := StoreAll(t, state, RemovedMACs(muts), AddedMACs(muts));
            var removed, added := SetOf(RemovedMACs(muts)), AddedMACs(muts);
            var left := DeleteAll(t.macs, removed);
            && t'.row == Some(state)
            && (ok <==> && AllSized(added) && !SetsTwice(muts)
                        && forall i | 0 <= i < |added| :: (state.version, added[i].index) !in left)
            && Shows(t'.macs, if ok then PutNewest(left, m - removed, state.version, added) else m - removed)
            && (ok ==> (Shows(t'.macs, ApplyAll(m, muts))
                        <==> AllSurface(left, m - removed, state.version, added)))
  {
    var removed, added := SetOf(RemovedMACs(muts)), AddedMACs(muts);
    var left := DeleteAll(t.macs, removed);
    DeleteShows(t.macs, m, removed);
    InsertSucceeds(left, state.version, added);
    AddedRepeat(muts);
    BatchRefinesSequence(m, muts);
    if InsertAll(left, state.version, added).Some? {
      InsertShows(left, m - removed, state.version, added);
      NewestIsAll(left, m - removed, state.version, added);
      SameShown(InsertAll(left, state.version, added).value, PutNewest(left, m - removed, state.version, added),
                ApplyAll(m, muts));
    }
  }

  lemma SameShown(rows: Rows, m: MacMap, m': MacMap)
    requires Shows(rows, m)
    ensures Shows(rows, m') <==> m == m'
  {
    if Shows(rows, m') {
      ShowsOne(rows, m, m');
    }
  }

  predicate Above(version: uint64, rows: Rows) {
    forall k | k in rows :: k.0 < version
  }

  /** With a version above every stored one a decoded patch fails only by a doubled SET, and shows when it does
      not. */
  lemma NewVersionStores(cr: Crypto, t: Tables, m: MacMap, state: HashState, muts: seq<SyncdMutation>)
    requires Shows(t.macs, m) && Above(state.version, t.macs)
    requires DecodeMutations(cr, muts, true, state.version).Ok?
    ensures var (t', ok) := StoreAll(t, state, RemovedMACs(muts), AddedMACs(muts));
            && (ok <==> !SetsTwice(muts))
            && (ok ==> Shows(t'.macs, ApplyAll(m, muts)) && forall k | k in t'.macs :: k.0 <= state.version)
  {
    var left, added := DeleteAll(t.macs, SetOf(RemovedMACs(muts))), AddedMACs(muts);
    DecodedSized(cr, muts, state.version);
    StoresPatch(t, m, state, muts);
    InsertSucceeds(left, state.version, added);
    assert forall x :: Newest(left, state.version, x);
    assert AllSurface(left, m - SetOf(RemovedMACs(muts)), state.version, added);
  }

  // ----- The patch loop on the tables

  /** How the patch loop ends on the tables: m is what the rows show, stored is false when storing failed. */
  datatype TablesOutcome = TablesOutcome(tables: Tables, m: MacMap, stored: bool)

  /** storeMACs for these mutations, with what the rows show afterwards. */
  ghost function StoreShown(t: Tables, m: MacMap, state: HashState, muts: seq<SyncdMutation>): TablesOutcome {
    var removed, added := RemovedMACs(muts), AddedMACs(muts);
    var (t', ok) := StoreAll(t, state, removed, added);
    var left, rest := DeleteAll(t.macs, SetOf(removed)), m - SetOf(removed);
    TablesOutcome(t', if ok then PutNewest(left, rest, state.version, added) else rest, ok)
  }

  ghost function RunTables(cr: Crypto, name: Bytes, t: Tables, m: MacMap, patches: seq<SyncdPatch>): TablesOutcome
    decreases |patches|
  {
    if patches == [] then TablesOutcome(t, m, true)
    else
      var c := Collection(t.row, m);
      var one := DecodePatch(cr, name, c, Current(c), patches[0], true);
      if one.Err? then TablesOutcome(t, m, true)
      else
        var step := StoreShown(t, m, one.value.0, patches[0].mutations);
        if step.stored then RunTables(cr, name, step.tables, step.m, patches[1..]) else step
  }

  /** A patch that the loop decodes sets an index twice. */
  predicate DecodesDoubled(cr: Crypto, name: Bytes, c: Collection, patches: seq<SyncdPatch>)
    decreases |patches|
  {
    patches != [] &&
    var one := DecodePatch(cr, name, c, Current(c), patches[0], true);
    one.Ok? && (SetsTwice(patches[0].mutations)
                || DecodesDoubled(cr, name, Collection(Some(one.value.0), ApplyAll(c.macs, patches[0].mutations)),
                                  patches[1..]))
  }

  predicate Increasing(patches: seq<SyncdPatch>) {
    forall i, j | 0 <= i < j < |patches| :: patches[i].version < patches[j].version
  }

  lemma StoreShows(t: Tables, m: MacMap, state: HashState, muts: seq<SyncdMutation>)
    requires Shows(t.macs, m)
    ensures var step := StoreShown(t, m, state, muts); Shows(step.tables.macs, step.m)
  {
    StoresPatch(t, m, state, muts);
  }

  /** Whatever the patches are, the rows show what the loop takes them to show. */
  lemma {:induction false} TablesShow(cr: Crypto, name: Bytes, t: Tables, m: MacMap, patches: seq<SyncdPatch>)
    requires Shows(t.macs, m)
    ensures var out := RunTables(cr, name, t, m, patches); Shows(out.tables.macs, out.m)
    decreases |patches|
  {
    if patches != [] {
      var c := Collection(t.row, m);
      var one := DecodePatch(cr, name, c, Current(c), patches[0], true);
      if one.Ok? {
        StoreShows(t, m, one.value.0, patches[0].mutations);
        var step := StoreShown(t, m, one.value.0, patches[0].mutations);
        if step.stored {
          TablesShow(cr, name, step.tables, step.m, patches[1..]);
        }
      }
    }
  }

  /** One round under a new version: what the tables show is what the collection holds. */
  lemma NewPatchStores(cr: Crypto, t: Tables, m: MacMap, state: HashState, muts: seq<SyncdMutation>,
                       step: TablesOutcome)
    requires Shows(t.macs, m) && Above(state.version, t.macs)
    requires DecodeMutations(cr, muts, true, state.version).Ok? && step == StoreShown(t, m, state, muts)
    ensures step.stored <==> !SetsTwice(muts)
    ensures step.stored ==>
              && step.tables.row == Some(state) && step.m == ApplyAll(m, muts)
              && Shows(step.tables.macs, step.m) && forall k | k in step.tables.macs :: k.0 <= state.version
  {
    NewVersionStores(cr, t, m, state, muts);
    StoresPatch(t, m, state, muts);
    if step.stored {
      ShowsOne(step.tables.macs, step.m, ApplyAll(m, muts));
    }
  }

  /** The tables after the first patches hold what the collection holds, and so on for the others. */
  lemma IncreasingTail(patches: seq<SyncdPatch>, version: uint64, rows: Rows)
    requires patches != [] && Increasing(patches) && patches[0].version == version
    requires forall k | k in rows :: k.0 <= version
    ensures Increasing(patches[1..]) && (patches[1..] != [] ==> Above(patches[1..][0].version, rows))
  {
  }

  /** Patches whose versions grow, from tables of lower versions: storing fails exactly when a patch that decodes
      sets an index twice. Otherwise the tables end as the collection does: the same version and hash, and rows
      that show its map. */
  lemma {:induction false} GrowingVersionsStore(cr: Crypto, name: Bytes, t: Tables, m: MacMap, patches: seq<SyncdPatch>,
                                                done: seq<Mutation>)
    requires Shows(t.macs, m) && Increasing(patches) && (patches != [] ==> Above(patches[0].version, t.macs))
    ensures var c := Collection(t.row, m);
            var out := RunTables(cr, name, t, m, patches);
            && (out.stored <==> !DecodesDoubled(cr, name, c, patches))
            && (out.stored ==>
                  RunPatches(cr, name, c, Current(c), patches, true, done).collection ==
                  Collection(out.tables.row, out.m))
    decreases |patches|
  {
    if patches != [] {
      var c := Collection(t.row, m);
      var one := DecodePatch(cr, name, c, Current(c), patches[0], true);
      if one.Ok? {
        var step := StoreShown(t, m, one.value.0, patches[0].mutations);
        NewPatchStores(cr, t, m, one.value.0, patches[0].mutations, step);
        if step.stored {
          IncreasingTail(patches, one.value.0.version, step.tables.macs);
          GrowingVersionsStore(cr, name, step.tables, step.m, patches[1..], done + one.value.1);
        }
      }
    }
  }

  /** DecodePatches on the tables: the snapshot, then the patches. */
  ghost function RunListTables(cr: Crypto, name: Bytes, t: Tables, m: MacMap, list: PatchList): TablesOutcome {
    if list.snapshot.None? then RunTables(cr, name, t, m, list.patches)
    else
      var ss := list.snapshot.value;
      var one := DecodeSnapshot(cr, name, Current(Collection(t.row, m)), ss, true);
      if one.Err? then TablesOutcome(t, m, true)
      else
        var step := StoreShown(t, m, one.value.0, AsMutations(ss.records));
        if step.stored then RunTables(cr, name, step.tables, step.m, list.patches) else step
  }

  /** A snapshot that decodes holds an index twice, or a patch that decodes sets one twice. */
  predicate ListDecodesDoubled(cr: Crypto, name: Bytes, c: Collection, list: PatchList) {
    if list.snapshot.None? then DecodesDoubled(cr, name, c, list.patches)
    else
      var ss := list.snapshot.value;
      var one := DecodeSnapshot(cr, name, Current(c), ss, true);
      one.Ok? && (!Distinct(ss.records)
                  || DecodesDoubled(cr, name, Collection(Some(one.value.0), ApplyAll(c.macs, AsMutations(ss.records))),
                                    list.patches))
  }

  lemma SnapshotSetsTwice(records: seq<SyncdRecord>)
    ensures SetsTwice(AsMutations(records)) <==> !Distinct(records)
  {
    var muts := AsMutations(records);
    if i, j :| 0 <= i < j < |records| && records[i].index == records[j].index {
      assert LiveSet(muts, i, muts[i].record.index) && LiveSet(muts, j, muts[i].record.index);
    }
  }

  /** The same for a whole list: storing fails exactly when a snapshot or a patch that decodes has an index twice,
      and otherwise the tables end as the collection does. */
  lemma GrowingListStores(cr: Crypto, name: Bytes, t: Tables, m: MacMap, list: PatchList)
    requires Shows(t.macs, m) && Increasing(list.patches)
    requires list.snapshot.None? && list.patches != [] ==> Above(list.patches[0].version, t.macs)
    requires list.snapshot.Some? ==>
               && Above(list.snapshot.value.version, t.macs)
               && (list.patches != [] ==> list.snapshot.value.version < list.patches[0].version)
    ensures var c := Collection(t.row, m);
            var out := RunListTables(cr, name, t, m, list);
            && (out.stored <==> !ListDecodesDoubled(cr, name, c, list))
            && (out.stored ==>
                  RunList(cr, name, c, Current(c), list, true).collection == Collection(out.tables.row, out.m))
  {
    if list.snapshot.None? {
      GrowingVersionsStore(cr, name, t, m, list.patches, []);
    } else {
      var ss := list.snapshot.value;
      var one := DecodeSnapshot(cr, name, Current(Collection(t.row, m)), ss, true);
      if one.Ok? {
        var step := StoreShown(t, m, one.value.0, AsMutations(ss.records));
        SnapshotSetsTwice(ss.records);
        NewPatchStores(cr, t, m, one.value.0, AsMutations(ss.records), step);
        if step.stored {
          GrowingVersionsStore(cr, name, step.tables, step.m, list.patches, one.value.1);
        }
      }
    }
  }

  /** Whatever the list is, the rows show what the decoder takes them to show. */
  lemma ListTablesShow(cr: Crypto, name: Bytes, t: Tables, m: MacMap, list: PatchList)
    requires Shows(t.macs, m)
    ensures var out := RunListTables(cr, name, t, m, list); Shows(out.tables.macs, out.m)
  {
    if list.snapshot.None? {
      TablesShow(cr, name, t, m, list.patches);
    } else {
      var ss := list.snapshot.value;
      var one := DecodeSnapshot(cr, name, Current(Collection(t.row, m)), ss, true);
      if one.Ok? {
        StoreShows(t, m, one.value.0, AsMutations(ss.records));
        var step := StoreShown(t, m, one.value.0, AsMutations(ss.records));
        if step.stored {
          TablesShow(cr, name, step.tables, step.m, list.patches);
        }
      }
    }
  }

  // ----- Patches that the tables do not follow

  predicate DoubledSet(muts: seq<SyncdMutation>) {
    && |muts| == 2 && muts[0].operation == muts[1].operation == SET
    && muts[0].record.index == muts[1].record.index
  }

  lemma DoubledSetFails(state: HashState, muts: seq<SyncdMutation>)
    requires DoubledSet(muts)
    ensures StoreAll(Tables(None, map[]), state, RemovedMACs(muts), AddedMACs(muts)) ==
            (Tables(Some(state), map[]), false)
  {
    var index := muts[1].record.index;
    assert LiveSet(muts, 0, index) && LiveSet(muts, 1, index);
    StoresPatch(Tables(None, map[]), map[], state, muts);
  }

  lemma DoubledSetTotal(cr: Crypto, muts: seq<SyncdMutation>)
    requires DoubledSet(muts)
    ensures UpdatedHash(cr, PatchThenStore, map[], Zero(), muts) == Words(cr.hkdf(ValueMAC(muts[1].record)))
  {
    HashTracksSeen(cr, map[], muts);
    DoubledSetSeen(muts);
    OneTotal(cr, muts[1].record.index, ValueMAC(muts[1].record));
  }

  lemma DoubledSetSeen(muts: seq<SyncdMutation>)
    requires DoubledSet(muts)
    ensures SeenByHash(map[], muts) == map[muts[1].record.index := ValueMAC(muts[1].record)]
  {
    var none: MacMap := map[];
    SeenSnoc(none, muts, 0);
    SeenSnoc(none, muts, 1);
    assert muts[..0] == [] && muts[..2] == muts;
  }

  /** Two SETs of one new index: the hash is stored, the MACs are not, and the collection is consistent only if
      the value that stays out expands to zero. */
  lemma DoubledSetBreaksHash(cr: Crypto, state: HashState, muts: seq<SyncdMutation>)
    requires DoubledSet(muts) && state.hash == UpdatedHash(cr, PatchThenStore, map[], Zero(), muts)
    ensures var (t, ok) := StoreAll(Tables(None, map[]), state, RemovedMACs(muts), AddedMACs(muts));
            && !ok && t == Tables(Some(state), map[])
            && (Consistent(cr, Collection(t.row, map[])) <==> Words(cr.hkdf(ValueMAC(muts[1].record))) == Zero())
  {
    DoubledSetFails(state, muts);
    DoubledSetTotal(cr, muts);
  }

  lemma LowerVersionStores(t: Tables, index: Bytes, value: Bytes, shown: Bytes, state: HashState)
    requires t.macs == map[(5, index) := shown] && state.version == 3 && |index| == MAC_SIZE && |value| == MAC_SIZE
    ensures StoreAll(t, state, [], [AppStateMutationMAC(index, value)]) ==
            (Tables(Some(state), t.macs[(3, index) := value]), true)
    ensures Shows(t.macs[(3, index) := value], map[index := shown])
  {
    var mac := AppStateMutationMAC(index, value);
    assert SetOf([]) == {} && DeleteAll(t.macs, {}) == t.macs;
    assert [mac][..0] == [] && InsertAll(t.macs, 3, []) == Some(t.macs);
    assert InsertAll(t.macs, 3, [mac]) == Some(t.macs[(3, index) := value]);
    assert (5, index) in t.macs && !Newest(t.macs, 3, index) && Newest(t.macs, 5, index);
    PutHidden(t.macs, map[index := shown], 3, mac);
  }

  lemma OneSetTotal(cr: Crypto, shown: Bytes, mut: SyncdMutation)
    requires mut.operation.SET?
    ensures UpdatedHash(cr, PatchThenStore, map[mut.record.index := shown], Words(cr.hkdf(shown)), [mut]) ==
            Words(cr.hkdf(ValueMAC(mut.record)))
  {
    var index, value, m := mut.record.index, ValueMAC(mut.record), map[mut.record.index := shown];
    HashTracksSeen(cr, m, [mut]);
    OneTotal(cr, index, shown);
    assert [mut][..0] == [] && SeenByHash(m, [mut]) == map[index := value];
    OneTotal(cr, index, value);
  }

  /** One SET of version 3 for an index that has a row of version 5: it goes in without an error, and the rows go
      on showing the old value under the new hash. */
  lemma LowerVersionIsHidden(cr: Crypto, t: Tables, shown: Bytes, state: HashState, mut: SyncdMutation)
    requires mut.operation.SET? && Sliceable(mut.record) && |mut.record.index| == MAC_SIZE
    requires t.macs == map[(5, mut.record.index) := shown] && state.version == 3
    requires state.hash ==
             UpdatedHash(cr, PatchThenStore, map[mut.record.index := shown], Words(cr.hkdf(shown)), [mut])
    ensures var (t', ok) := StoreAll(t, state, RemovedMACs([mut]), AddedMACs([mut]));
            && ok && Shows(t'.macs, map[mut.record.index := shown])
            && (Consistent(cr, Collection(t'.row, map[mut.record.index := shown]))
                <==> Words(cr.hkdf(ValueMAC(mut.record))) == Words(cr.hkdf(shown)))
  {
    var index, value := mut.record.index, ValueMAC(mut.record);
    assert [mut][..0] == [];
    assert RemovedMACs([]) == [] && AddedMACs([]) == [];
    assert RemovedMACs([mut]) == [] && AddedMACs([mut]) == [] + [AppStateMutationMAC(index, value)];
    LowerVersionStores(t, index, value, shown, state);
    OneSetTotal(cr, shown, mut);
    OneTotal(cr, index, shown);
  }
}
