/** The hash of a collection against its stored MACs, over whole lists of snapshots and patches. */
module AppStateProofs {
  import opened Bytes
  import opened LtHash
  import opened AppState

  predicate Distinct(records: seq<SyncdRecord>) {
    forall i, j | 0 <= i < j < |records| :: records[i].index != records[j].index
  }

  /** A row the store hands out again: GetAppStateVersion refuses a stored version 0. */
  predicate Readable(c: Collection) {
    c.row.Some? ==> c.row.value.version != 0
  }

  /** A collection the next sync can start from. Without a version row there are no MACs either. */
  ghost predicate ValidStart(cr: Crypto, c: Collection) {
    Consistent(cr, c) && Readable(c) && (c.row.None? ==> c.macs == map[])
  }

  // ----- What the hash is off by

  /** The difference between the stored hash and the sum over the stored MACs. */
  ghost function Offset(cr: Crypto, c: Collection): Sum {
    Minus(Current(c).hash, MapTotal(cr.hkdf, c.macs))
  }

  lemma ConsistentOffset(cr: Crypto, c: Collection)
    ensures Consistent(cr, c) <==> Offset(cr, c) == Zero()
  {
    NoDifference(Current(c).hash, MapTotal(cr.hkdf, c.macs));
  }

  lemma NoDifference(a: Sum, b: Sum)
    ensures Minus(a, b) == Zero() <==> a == b
  {
    PlusZero(b);
    MinusInverts(Zero(), b);
    MinusInverts(a, b);
  }

  /** The same removals and additions on both sides keep a difference. */
  lemma DifferenceKept(h: Sum, t: Sum, r: Sum, a: Sum)
    ensures Minus(Plus(Minus(h, r), a), Plus(Minus(t, r), a)) == Minus(h, t)
  {
    var d, y := Minus(h, t), Plus(Minus(t, r), a);
    MinusInverts(h, t);
    PlusCommutes(d, t);
    MinusPlusSwap(t, r, d);
    PlusAssociates(Minus(t, r), d, a);
    PlusCommutes(d, a);
    PlusAssociates(Minus(t, r), a, d);
    PlusCommutes(y, d);
    MinusInverts(d, y);
  }

  /** Removals on one side only are added to a difference. */
  lemma DifferenceGrows(h: Sum, t: Sum, r: Sum, a: Sum)
    ensures Minus(Plus(h, a), Plus(Minus(t, r), a)) == Plus(Minus(h, t), r)
  {
    MinusInverts(h, r);
    var x := Plus(h, r);
    DifferenceKept(x, t, r, a);
    MinusPlusSwap(h, t, r);
  }

  // ----- What a run stores and overwrites

  /** The versions a run stores, in order, the total of the values its snapshots overwrite, in the database or
      earlier among their own records, and the total of the values its patches keep under unknown operations. */
  datatype Trace = Trace(versions: seq<uint64>, overwritten: Sum, kept: Sum)

  function NoTrace(): Trace {
    Trace([], Zero(), Zero())
  }

  function Then(t: Trace, u: Trace): Trace {
    Trace(t.versions + u.versions, Plus(t.overwritten, u.overwritten), Plus(t.kept, u.kept))
  }

  /** What the hash has too much, less what it lacks. */
  function Drift(t: Trace): Sum {
    Minus(t.overwritten, t.kept)
  }

  lemma DriftThen(t: Trace, u: Trace)
    ensures Drift(Then(t, u)) == Plus(Drift(t), Drift(u))
  {
    var a, b, c, d := t.overwritten, t.kept, u.overwritten, u.kept;
    MinusPlus(Plus(a, c), b, d);
    MinusPlusSwap(a, b, c);
    PlusCommutes(Minus(a, b), c);
    MinusPlusSwap(c, d, Minus(a, b));
    PlusCommutes(Minus(c, d), Minus(a, b));
  }

  /** The trace accounts for the whole way from one collection to the other. */
  ghost predicate Explains(cr: Crypto, before: Collection, t: Trace, after: Collection) {
    && Offset(cr, after) == Plus(Offset(cr, before), Drift(t))
    && (if t.versions == [] then after == before
        else after.row.Some? && after.row.value.version == t.versions[|t.versions| - 1])
  }

  /** What is overwritten and what is kept sum to the same, and the last version stored is one the store hands
      out again. */
  predicate Harmless(t: Trace) {
    t.overwritten == t.kept && (t.versions != [] ==> t.versions[|t.versions| - 1] != 0)
  }

  lemma NothingExplains(cr: Crypto, c: Collection)
    ensures Explains(cr, c, NoTrace(), c)
  {
    PlusZero(Zero());
    PlusZero(Offset(cr, c));
  }

  lemma ExplainsThen(cr: Crypto, a: Collection, t: Trace, b: Collection, u: Trace, c: Collection)
    requires Explains(cr, a, t, b) && Explains(cr, b, u, c)
    ensures Explains(cr, a, Then(t, u), c)
  {
    DriftThen(t, u);
    PlusAssociates(Offset(cr, a), Drift(t), Drift(u));
    assert u.versions != [] ==> Then(t, u).versions[|t.versions| + |u.versions| - 1] == u.versions[|u.versions| - 1];
    assert u.versions == [] ==> Then(t, u).versions == t.versions;
  }

  /** From a valid start: the end is consistent exactly when the values overwritten and the values kept sum to the
      same, readable exactly when the last version stored is not 0, and a valid start exactly when both hold. */
  lemma ExplainedEnd(cr: Crypto, before: Collection, t: Trace, after: Collection)
    requires Explains(cr, before, t, after) && ValidStart(cr, before)
    ensures Consistent(cr, after) <==> t.overwritten == t.kept
    ensures Readable(after) <==> (t.versions != [] ==> t.versions[|t.versions| - 1] != 0)
    ensures ValidStart(cr, after) <==> Harmless(t)
  {
    ConsistentOffset(cr, before);
    ConsistentOffset(cr, after);
    PlusZero(Drift(t));
    NoDifference(t.overwritten, t.kept);
  }

  // ----- Patches

  /** The values that stay stored although the hash of the patch no longer counts them. */
  ghost function KeptTotal(cr: Crypto, c: Collection, patch: SyncdPatch): Sum {
    MapTotal(cr.hkdf, Kept(c.macs, patch.mutations))
  }

  ghost function PatchTrace(cr: Crypto, c: Collection, patch: SyncdPatch): Trace {
    Trace([patch.version], Zero(), KeptTotal(cr, c, patch))
  }

  /** The same removals and additions on both sides, and k more on the right. */
  lemma DifferenceShrinks(h: Sum, t: Sum, r: Sum, a: Sum, k: Sum)
    ensures Minus(Plus(Minus(h, r), a), Plus(Plus(Minus(t, r), a), k)) == Plus(Minus(h, t), Minus(Zero(), k))
  {
    DifferenceKept(h, t, r, a);
    MinusPlus(Plus(Minus(h, r), a), Plus(Minus(t, r), a), k);
    PlusZero(Minus(h, t));
    PlusCommutes(Minus(h, t), Minus(Zero(), k));
    MinusPlusSwap(Zero(), k, Minus(h, t));
  }

  /** A decoded patch moves the hash away from the map by exactly the values it keeps under an unknown operation:
      by nothing when every entry it names last is set or removed. */
  lemma PatchMovesOffset(cr: Crypto, name: Bytes, c: Collection, patch: SyncdPatch, validateMACs: bool)
    requires DecodePatch(cr, name, c, Current(c), patch, validateMACs).Ok?
    ensures var newState := DecodePatch(cr, name, c, Current(c), patch, validateMACs).value.0;
            && Explains(cr, c, PatchTrace(cr, c, patch),
                        Collection(Some(newState), ApplyAll(c.macs, patch.mutations)))
            && newState.version == patch.version
  {
    var muts := patch.mutations;
    var r, a := Total(cr.hkdf, Removals(PatchThenStore, c.macs, muts)), Total(cr.hkdf, Additions(muts));
    HashTracksMap(cr, c.macs, muts);
    DifferenceShrinks(Current(c).hash, MapTotal(cr.hkdf, c.macs), r, a, KeptTotal(cr, c, patch));
  }

  /** What the patch loop stores and keeps before it finishes or stops. */
  ghost function PatchesTrace(cr: Crypto, name: Bytes, c: Collection, patches: seq<SyncdPatch>, validateMACs: bool)
    : Trace
    decreases |patches|
  {
    if patches == [] then NoTrace()
    else
      var one := DecodePatch(cr, name, c, Current(c), patches[0], validateMACs);
      if one.Err? then NoTrace()
      else
        var next := Collection(Some(one.value.0), ApplyAll(c.macs, patches[0].mutations));
        Then(PatchTrace(cr, c, patches[0]), PatchesTrace(cr, name, next, patches[1..], validateMACs))
  }

  lemma OnePatchTrace(cr: Crypto, name: Bytes, c: Collection, patches: seq<SyncdPatch>, validateMACs: bool)
    requires |patches| == 1 && DecodePatch(cr, name, c, Current(c), patches[0], validateMACs).Ok?
    ensures PatchesTrace(cr, name, c, patches, validateMACs) == PatchTrace(cr, c, patches[0])
  {
    var newState := DecodePatch(cr, name, c, Current(c), patches[0], validateMACs).value.0;
    var next := Collection(Some(newState), ApplyAll(c.macs, patches[0].mutations));
    assert patches[1..] == [] && PatchesTrace(cr, name, next, [], validateMACs) == NoTrace();
    PlusZero(Zero());
    PlusZero(KeptTotal(cr, c, patches[0]));
  }

  /** Any run of patches, finished or stopped by an error at patch k, moves the hash by what it keeps, and a
      finished run returns the stored state. */
  lemma {:induction false} PatchesMoveOffset(cr: Crypto, name: Bytes, c: Collection, patches: seq<SyncdPatch>,
                                             validateMACs: bool, done: seq<Mutation>)
    ensures var out := RunPatches(cr, name, c, Current(c), patches, validateMACs, done);
            && Explains(cr, c, PatchesTrace(cr, name, c, patches, validateMACs), out.collection)
            && (out.result.Ok? ==> out.result.value.0 == Current(out.collection))
    decreases |patches|
  {
    NothingExplains(cr, c);
    if patches != [] {
      var one := DecodePatch(cr, name, c, Current(c), patches[0], validateMACs);
      if one.Ok? {
        PatchMovesOffset(cr, name, c, patches[0], validateMACs);
        var next := Collection(Some(one.value.0), ApplyAll(c.macs, patches[0].mutations));
        PatchesMoveOffset(cr, name, next, patches[1..], validateMACs, done + one.value.1);
        var out := RunPatches(cr, name, next, one.value.0, patches[1..], validateMACs, done + one.value.1);
        ExplainsThen(cr, c, PatchTrace(cr, c, patches[0]), next,
                     PatchesTrace(cr, name, next, patches[1..], validateMACs), out.collection);
      }
    }
  }

  /** Every mutation of the patches is a SET or a REMOVE. */
  predicate AllKnown(patches: seq<SyncdPatch>) {
    forall p, i | p in patches && 0 <= i < |p.mutations| :: !p.mutations[i].operation.Unknown?
  }

  /** Patches overwrite nothing, and keep nothing without unknown operations. */
  lemma {:induction false} PatchesAreClean(cr: Crypto, name: Bytes, c: Collection, patches: seq<SyncdPatch>,
                                           validateMACs: bool)
    ensures PatchesTrace(cr, name, c, patches, validateMACs).overwritten == Zero()
    ensures AllKnown(patches) ==> PatchesTrace(cr, name, c, patches, validateMACs).kept == Zero()
    decreases |patches|
  {
    PlusZero(Zero());
    if patches != [] {
      var one := DecodePatch(cr, name, c, Current(c), patches[0], validateMACs);
      if one.Ok? {
        PatchesAreClean(cr, name, Collection(Some(one.value.0), ApplyAll(c.macs, patches[0].mutations)), patches[1..],
                        validateMACs);
        if AllKnown(patches) {
          KnownKeepsNothing(cr, c, patches[0]);
        }
      }
    }
  }

  lemma KnownKeepsNothing(cr: Crypto, c: Collection, patch: SyncdPatch)
    requires AllKnown([patch])
    ensures KeptTotal(cr, c, patch) == Zero()
  {
    assert patch in [patch];
    forall x ensures !EndsUnknown(patch.mutations, x) {
      KnownEndsKnown(patch.mutations, x);
    }
    NothingKept(c.macs, patch.mutations);
  }

  /** One mutation of an unknown operation on a stored index: the hash loses the value, the database keeps it. */
  lemma UnknownKeepsValue(cr: Crypto, c: Collection, patch: SyncdPatch)
    requires |patch.mutations| == 1 && patch.mutations[0].operation.Unknown?
    requires patch.mutations[0].record.index in c.macs
    ensures KeptTotal(cr, c, patch) == Words(cr.hkdf(c.macs[patch.mutations[0].record.index]))
  {
    var muts := patch.mutations;
    var index := muts[0].record.index;
    assert muts[..0] == [] && ApplyAll(c.macs, muts) == c.macs;
    assert forall x :: EndsUnknown(muts, x) <==> x == index;
    assert Kept(c.macs, muts) == map[index := c.macs[index]];
    OneTotal(cr, index, c.macs[index]);
  }

  // ----- Snapshots

  function Overwritten(cr: Crypto, c: Collection, ss: SyncdSnapshot): Sum {
    Total(cr.hkdf, Removals(PatchThenStore, c.macs, AsMutations(ss.records)))
  }

  function SnapshotTrace(cr: Crypto, c: Collection, ss: SyncdSnapshot): Trace {
    Trace([ss.version], Overwritten(cr, c, ss), Zero())
  }

  /** A snapshot moves the hash away from the map by exactly the values it overwrites, in the database or
      earlier in its own records. */
  lemma SnapshotMovesOffset(cr: Crypto, name: Bytes, c: Collection, ss: SyncdSnapshot, validateMACs: bool)
    requires DecodeSnapshot(cr, name, Current(c), ss, validateMACs).Ok?
    ensures var newState := DecodeSnapshot(cr, name, Current(c), ss, validateMACs).value.0;
            && Explains(cr, c, SnapshotTrace(cr, c, ss),
                        Collection(Some(newState), ApplyAll(c.macs, AsMutations(ss.records))))
            && newState.version == ss.version
  {
    var muts, h := AsMutations(ss.records), Current(c).hash;
    KnownKeepsNothing(cr, c, SyncdPatch(0, muts, [], [], []));
    HashTracksMap(cr, c.macs, muts);
    PlusZero(UpdatedHash(cr, PatchThenStore, c.macs, MapTotal(cr.hkdf, c.macs), muts));
    RemovalsOfNothing(map[], muts);
    PlusZero(h);
    PlusZero(Overwritten(cr, c, ss));
    DifferenceGrows(h, MapTotal(cr.hkdf, c.macs), Overwritten(cr, c, ss), Total(cr.hkdf, Additions(muts)));
  }

  /** Records of pairwise distinct indexes overwrite nothing in an emptied collection. */
  lemma {:induction false} DistinctOverwritesNothing(records: seq<SyncdRecord>, n: nat)
    requires Distinct(records) && n <= |records|
    ensures Removals(PatchThenStore, map[], AsMutations(records)[..n]) == []
    ensures forall k :: k in SeenByHash(map[], AsMutations(records)[..n]) ==>
                        exists i :: 0 <= i < n && records[i].index == k
  {
    if n != 0 {
      DistinctOverwritesNothing(records, n - 1);
      assert AsMutations(records)[..n][..n - 1] == AsMutations(records)[..n - 1];
      assert records[n - 1].index == AsMutations(records)[..n][n - 1].record.index;
    }
  }

  // ----- Lists

  /** What DecodePatches stores, overwrites and keeps. */
  ghost function ListTrace(cr: Crypto, name: Bytes, c: Collection, list: PatchList, validateMACs: bool): Trace {
    if list.snapshot.None? then PatchesTrace(cr, name, c, list.patches, validateMACs)
    else
      var one := DecodeSnapshot(cr, name, Current(c), list.snapshot.value, validateMACs);
      if one.Err? then NoTrace()
      else
        var next := Collection(Some(one.value.0), ApplyAll(c.macs, AsMutations(list.snapshot.value.records)));
        Then(SnapshotTrace(cr, c, list.snapshot.value), PatchesTrace(cr, name, next, list.patches, validateMACs))
  }

  lemma ListExplained(cr: Crypto, name: Bytes, c: Collection, list: PatchList, validateMACs: bool)
    ensures var out := RunList(cr, name, c, Current(c), list, validateMACs);
            && Explains(cr, c, ListTrace(cr, name, c, list, validateMACs), out.collection)
            && (out.result.Ok? ==> out.result.value.0 == Current(out.collection))
  {
    if list.snapshot.None? {
      PatchesMoveOffset(cr, name, c, list.patches, validateMACs, []);
    } else {
      var ss := list.snapshot.value;
      var one := DecodeSnapshot(cr, name, Current(c), ss, validateMACs);
      if one.Err? {
        NothingExplains(cr, c);
      } else {
        SnapshotMovesOffset(cr, name, c, ss, validateMACs);
        var next := Collection(Some(one.value.0), ApplyAll(c.macs, AsMutations(ss.records)));
        PatchesMoveOffset(cr, name, next, list.patches, validateMACs, one.value.1);
        ExplainsThen(cr, c, SnapshotTrace(cr, c, ss), next, PatchesTrace(cr, name, next, list.patches, validateMACs),
                     RunList(cr, name, c, Current(c), list, validateMACs).collection);
      }
    }
  }

  /** DecodePatches on any list, whether it succeeds or fails part way: from a consistent collection it leaves a
      consistent one if and only if the values a decoded snapshot overwrites and the values the decoded patches
      keep under unknown operations sum to the same. */
  lemma ListKeepsHash(cr: Crypto, name: Bytes, c: Collection, list: PatchList, validateMACs: bool)
    requires Consistent(cr, c)
    ensures var out := RunList(cr, name, c, Current(c), list, validateMACs);
            var t := ListTrace(cr, name, c, list, validateMACs);
            && (Consistent(cr, out.collection) <==> t.overwritten == t.kept)
            && (out.result.Ok? ==> out.result.value.0 == Current(out.collection))
  {
    var t := ListTrace(cr, name, c, list, validateMACs);
    ListExplained(cr, name, c, list, validateMACs);
    ConsistentOffset(cr, c);
    ConsistentOffset(cr, RunList(cr, name, c, Current(c), list, validateMACs).collection);
    PlusZero(Drift(t));
    NoDifference(t.overwritten, t.kept);
  }

  /** What the sender can see to: no snapshot, or one of distinct records into an emptied collection, overwrites
      nothing; patches of SETs and REMOVEs keep nothing. */
  lemma DistinctListIsClean(cr: Crypto, name: Bytes, c: Collection, list: PatchList, validateMACs: bool)
    ensures (list.snapshot.Some? ==> c.macs == map[] && Distinct(list.snapshot.value.records)) ==>
              ListTrace(cr, name, c, list, validateMACs).overwritten == Zero()
    ensures AllKnown(list.patches) ==> ListTrace(cr, name, c, list, validateMACs).kept == Zero()
  {
    PlusZero(Zero());
    if list.snapshot.None? {
      PatchesAreClean(cr, name, c, list.patches, validateMACs);
    } else {
      var ss := list.snapshot.value;
      var one := DecodeSnapshot(cr, name, Current(c), ss, validateMACs);
      if one.Ok? {
        var next := Collection(Some(one.value.0), ApplyAll(c.macs, AsMutations(ss.records)));
        PatchesAreClean(cr, name, next, list.patches, validateMACs);
      }
      if c.macs == map[] && Distinct(ss.records) {
        DistinctOverwritesNothing(ss.records, |ss.records|);
        assert AsMutations(ss.records)[..|ss.records|] == AsMutations(ss.records);
      }
    }
  }

  /** A snapshot without patches leaves a consistent collection exactly when what it overwrites sums to zero. */
  lemma SnapshotAlone(cr: Crypto, name: Bytes, c: Collection, list: PatchList, validateMACs: bool)
    requires Consistent(cr, c) && list.snapshot.Some? && list.patches == []
    requires DecodeSnapshot(cr, name, Current(c), list.snapshot.value, validateMACs).Ok?
    ensures Consistent(cr, RunList(cr, name, c, Current(c), list, validateMACs).collection)
            <==> Overwritten(cr, c, list.snapshot.value) == Zero()
  {
    ListKeepsHash(cr, name, c, list, validateMACs);
    PlusZero(Overwritten(cr, c, list.snapshot.value));
    PlusZero(Zero());
  }

  /** One mutation of an unknown operation on a stored index: it is decoded and handed out, the hash loses the
      value, the database keeps it. Consistent only if the value expands to zero. */
  lemma UnknownMutationDrifts(cr: Crypto, name: Bytes, c: Collection, list: PatchList, validateMACs: bool)
    requires Consistent(cr, c) && list.snapshot.None? && |list.patches| == 1
    requires DecodePatch(cr, name, c, Current(c), list.patches[0], validateMACs).Ok?
    requires |list.patches[0].mutations| == 1 && list.patches[0].mutations[0].operation.Unknown?
    requires list.patches[0].mutations[0].record.index in c.macs
    ensures Consistent(cr, RunList(cr, name, c, Current(c), list, validateMACs).collection)
            <==> Words(cr.hkdf(c.macs[list.patches[0].mutations[0].record.index])) == Zero()
  {
    ListKeepsHash(cr, name, c, list, validateMACs);
    OnePatchTrace(cr, name, c, list.patches, validateMACs);
    UnknownKeepsValue(cr, c, list.patches[0]);
  }

  /** A process that dies right after storing the version row leaves the new hash over the old map: consistent
      exactly when what the patch takes out and what it adds sum to the same. */
  lemma VersionRowAlone(cr: Crypto, name: Bytes, c: Collection, patch: SyncdPatch, validateMACs: bool)
    requires Consistent(cr, c) && DecodePatch(cr, name, c, Current(c), patch, validateMACs).Ok?
    ensures var newState := DecodePatch(cr, name, c, Current(c), patch, validateMACs).value.0;
            Consistent(cr, c.(row := Some(newState))) <==>
            Total(cr.hkdf, Removals(PatchThenStore, c.macs, patch.mutations)) ==
            Total(cr.hkdf, Additions(patch.mutations))
  {
    var t := MapTotal(cr.hkdf, c.macs);
    var r := Total(cr.hkdf, Removals(PatchThenStore, c.macs, patch.mutations));
    var a := Total(cr.hkdf, Additions(patch.mutations));
    MinusInverts(t, r);
    if Plus(Minus(t, r), a) == t {
      PlusCommutes(Minus(t, r), a);
      PlusCommutes(Minus(t, r), r);
      Cancels(a, r, Minus(t, r));
    }
  }

  // ----- Snapshots that break it

  /** Two records of one index: the hash counts both values, the database keeps the last one. */
  lemma RepeatedRecordBreaksHash(cr: Crypto, ss: SyncdSnapshot)
    requires |ss.records| == 2 && ss.records[0].index == ss.records[1].index
    ensures Overwritten(cr, Collection(None, map[]), ss) == Words(cr.hkdf(ValueMAC(ss.records[0])))
  {
    var muts := AsMutations(ss.records);
    assert muts[..1] == [muts[0]] && muts[..1][..0] == [];
    assert Removals(PatchThenStore, map[], muts[..1]) == [];
    assert Removals(PatchThenStore, map[], muts) == [ValueMAC(ss.records[0])];
    ListTotal(cr, ValueMAC(ss.records[0]));
  }

  /** A snapshot of one record overwrites the value its index holds. */
  lemma SingleRecordOverwrites(cr: Crypto, c: Collection, ss: SyncdSnapshot)
    requires |ss.records| == 1 && ss.records[0].index in c.macs
    ensures Overwritten(cr, c, ss) == Words(cr.hkdf(c.macs[ss.records[0].index]))
  {
    var muts := AsMutations(ss.records);
    assert muts[..0] == [] && SeenByHash(c.macs, muts[..0]) == c.macs;
    assert Removals(PatchThenStore, c.macs, muts[..0]) == [];
    assert Removals(PatchThenStore, c.macs, muts) == [] + [c.macs[ss.records[0].index]];
    ListTotal(cr, c.macs[ss.records[0].index]);
  }

  lemma ListTotal(cr: Crypto, value: Bytes)
    ensures Total(cr.hkdf, [value]) == Words(cr.hkdf(value))
  {
    TotalSnoc(cr.hkdf, [], value);
    assert [] + [value] == [value];
    PlusZero(Words(cr.hkdf(value)));
  }

  lemma OneTotal(cr: Crypto, index: Bytes, value: Bytes)
    ensures MapTotal(cr.hkdf, map[index := value]) == Words(cr.hkdf(value))
  {
    var none: MacMap := map[];
    MapTotalPut(cr.hkdf, none, index, value);
    assert none[index := value] == map[index := value] && none - {index} == none;
    PlusZero(Words(cr.hkdf(value)));
  }
}
