/** extractReportingTokenContent and the search, sort and concatenation it uses (reportingtoken.go:75-176). */
module ReportingExtract {
  import opened Bytes
  import opened Varint
  import opened ReportingToken
  import opened ReportingIndex

  /** How an extraction ends. Fault: a slice expression leaves the data, and the source panics or reads the array
      behind the slice. Loops: it never returns. */
  datatype Extraction = Content(bytes: Bytes) | Fault | Loops

  /** One round of the loop: the next index and the pieces collected; the end of the loop at a malformed tag; an
      empty result for a wire type that is refused; a failing slice; a message that is never done. */
  datatype Round = Next(index: int, added: seq<Piece>) | Malformed | Refused | Failed | Stuck

  /** A complete field whose inside is readable is taken whole. */
  predicate Reads(data: Bytes, config: seq<Config>, i: nat, r: Round)
    requires i <= |data|
  {
    var f := FirstField(data[i..]);
    f.Some? && ReadableInside(f.value, Find(config, f.value.Num())) ==>
      r.Next? && r.index == i + |f.value.bytes| && Taken(f.value, config, r.added)
  }

  /** The index after a value that is not configured. It goes back for exactly the values that MovesBack names,
      and past a complete value for all others that are complete. */
  method SkipValue(data: Bytes, i: nat, wireType: nat) returns (next: int)
    requires i <= |data| < LENGTH_LIMIT && KnownWire(wireType) && wireType < 8
    ensures next == AfterValue(wireType, Uvarint(data[i..]), i)
    ensures next < i <==> MovesBack(wireType, Uvarint(data[i..]), i)
    ensures ValueSize(wireType, data[i..]).Some? ==> next == i + ValueSize(wireType, data[i..]).value
  {
    ValueMovesBack(data, i, wireType);
    if ValueSize(wireType, data[i..]).Some? {
      CompleteMovesOn(data, i, wireType);
    }
    var r := Uvarint(data[i..]);
    if wireType == WIRE_VARINT {
      next := i + r.n;
    } else if wireType == WIRE_64BIT {
      next := i + 8;
    } else if wireType == WIRE_BYTES {
      next := Wrap(i + Wrap(r.n + Wrap(r.value)));
    } else {
      next := i + 4;
    }
  }

  lemma RawReads(data: Bytes, config: seq<Config>, fieldStart: nat, end: nat)
    requires fieldStart <= end <= |data|
    requires var f := FirstField(data[fieldStart..]);
             f.Some? ==>
               && Find(config, f.value.Num()).Some? && !Descends(Find(config, f.value.Num()).value, f.value.tag)
               && end == fieldStart + |f.value.bytes|
    ensures Reads(data, config, fieldStart,
                  Next(end, [Piece(Uvarint(data[fieldStart..]).value / 8, data[fieldStart..end])]))
  {
    var s := data[fieldStart..];
    if FirstField(s).Some? {
      BytesAt(data, fieldStart);
      RawTaken(s, config);
      var f := FirstField(s).value;
      assert [Piece(f.Num(), f.bytes)] == [Piece(Uvarint(s).value / 8, data[fieldStart..end])];
    }
  }

  /** A configured field that is not taken apart. */
  method TakeRaw(data: Bytes, config: seq<Config>, fieldStart: nat, tag: nat, tagLen: nat) returns (r: Round)
    requires fieldStart < |data| < LENGTH_LIMIT
    requires tagLen > 0 && Uvarint(data[fieldStart..]) == Read(tag, tagLen) && KnownWire(tag)
    requires Find(config, tag / 8).Some? && !Descends(Find(config, tag / 8).value, tag)
    ensures r.Failed? || r.Next?
    ensures r.Failed? ==> FaultsAt(data, config, fieldStart)
    ensures r.Next? ==> NextIndex(data, fieldStart) == Some(r.index) && Passes(data, config, fieldStart)
    ensures Reads(data, config, fieldStart, r)
  {
    var next := SkipValue(data, fieldStart + tagLen, tag % 8);
    RawOutcome(data, config, fieldStart, tag, next);
    if FirstField(data[fieldStart..]).Some? {
      FieldMovesOn(data, fieldStart);
    }
    if !(fieldStart <= next <= |data|) {
      return Failed;
    }
    RawReads(data, config, fieldStart, next);
    return Next(next, [Piece(tag / 8, data[fieldStart..next])]);
  }

  function MessageRound(end: nat, tag: nat, sub: Extraction): Round {
    match sub
    case Content(b) => Next(end, if b == [] then [] else [Piece(tag / 8, Wrapped(tag, b))])
    case Fault => Failed
    case Loops => Stuck
  }

  lemma MessageReads(data: Bytes, config: seq<Config>, fieldStart: nat, sub: Extraction, end: nat)
    requires fieldStart <= |data|
    requires var f := FirstField(data[fieldStart..]);
             f.Some? ==>
               var cfg := Find(config, f.value.Num());
               && cfg.Some? && Descends(cfg.value, f.value.tag) && end == fieldStart + |f.value.bytes|
               && (Readable(f.value.payload, cfg.value.subfields) ==>
                     sub.Content? && Projects(f.value.payload, cfg.value.subfields, sub.bytes))
    ensures Reads(data, config, fieldStart, MessageRound(end, Uvarint(data[fieldStart..]).value, sub))
  {
    var f := FirstField(data[fieldStart..]);
    if f.Some? && ReadableInside(f.value, Find(config, f.value.Num())) {
      MessageTaken(data[fieldStart..], config, sub.bytes);
    }
  }

  /** The slice of a message after its length, and the index after it. */
  method TakePayload(data: Bytes, fieldStart: nat, tagLen: nat) returns (payload: Option<Bytes>, valEnd: int)
    requires fieldStart < |data| < LENGTH_LIMIT && tagLen > 0 && Uvarint(data[fieldStart..]).n == tagLen
    requires Uvarint(data[fieldStart..]).value % 8 == WIRE_BYTES
    ensures payload == Payload(data, fieldStart) && NextIndex(data, fieldStart) == Some(valEnd)
    ensures payload.Some? ==> valEnd >= 0
  {
    var i := fieldStart + tagLen;
    var l := Uvarint(data[i..]);
    var valStart := i + l.n;
    valEnd := SkipValue(data, i, WIRE_BYTES);
    if !(0 <= valStart <= valEnd <= |data|) {
      return None, valEnd;
    }
    WithinData(data, fieldStart, valStart, valEnd);
    return Some(data[valStart..valEnd]), valEnd;
  }

  /** What the end of the extraction inside says about this one. */
  lemma InsideOut(data: Bytes, config: seq<Config>, i: nat, payload: Bytes, sub: Extraction)
    requires i < |data| && Payload(data, i) == Some(payload) && NextIndex(data, i).Some?
    requires var tag := Uvarint(data[i..]).value;
             var cfg := Find(config, tag / 8);
             && cfg.Some? && Descends(cfg.value, tag)
             && (sub.Loops? ==> Diverges(payload, cfg.value.subfields))
             && (sub.Fault? ==> Faults(payload, cfg.value.subfields))
             && (sub.Content? ==> !Diverges(payload, cfg.value.subfields) && !Faults(payload, cfg.value.subfields))
    ensures sub.Loops? ==> DivergesAt(data, config, i)
    ensures sub.Fault? ==> FaultsAt(data, config, i)
    ensures sub.Content? ==> Passes(data, config, i)
  {
  }

  /** A configured message. */
  method TakeMessage(data: Bytes, config: seq<Config>, fieldStart: nat, tag: nat, tagLen: nat, fieldCfg: Config)
    returns (r: Round)
    requires fieldStart < |data| < LENGTH_LIMIT
    requires tagLen > 0 && Uvarint(data[fieldStart..]) == Read(tag, tagLen)
    requires Find(config, tag / 8) == Some(fieldCfg) && Descends(fieldCfg, tag)
    ensures r.Next? || r.Failed? || r.Stuck?
    ensures r.Next? ==> NextIndex(data, fieldStart) == Some(r.index) && Passes(data, config, fieldStart)
    ensures r.Stuck? ==> DivergesAt(data, config, fieldStart)
    ensures r.Failed? ==> FaultsAt(data, config, fieldStart)
    ensures Reads(data, config, fieldStart, r)
    decreases |data|, 0
  {
    if FirstField(data[fieldStart..]).Some? {
      PayloadOf(data, fieldStart);
      FieldMovesOn(data, fieldStart);
    }
    var payload, valEnd := TakePayload(data, fieldStart, tagLen);
    if payload == None {
      return Failed;
    }
    var sub := Extract(payload.value, fieldCfg.subfields);
    InsideOut(data, config, fieldStart, payload.value, sub);
    MessageReads(data, config, fieldStart, sub, valEnd);
    return MessageRound(valEnd, tag, sub);
  }

  /** The payload is shorter than the data: at least the tag comes before it, or it is empty. */
  lemma WithinData(data: Bytes, fieldStart: nat, valStart: nat, valEnd: nat)
    requires fieldStart < |data| < LENGTH_LIMIT && Uvarint(data[fieldStart..]).n > 0 && valStart <= valEnd <= |data|
    requires var i := fieldStart + Uvarint(data[fieldStart..]).n;
             valStart == i + Uvarint(data[i..]).n && valEnd == AfterValue(WIRE_BYTES, Uvarint(data[i..]), i)
    ensures valEnd - valStart < |data|
  {
    var i := fieldStart + Uvarint(data[fieldStart..]).n;
    var l := Uvarint(data[i..]);
    if l.n <= 0 {
      FailedIsZero(data[i..], 0);
      WrapSum(i, l.n, 0);
    }
  }

  /** What a round does at readable bytes. */
  predicate ReadsOn(data: Bytes, config: seq<Config>, i: nat, r: Round)
    requires i <= |data| && Readable(data[i..], config)
  {
    var tag, f := Uvarint(data[i..]), FirstField(data[i..]);
    if tag.n <= 0 then r.Malformed?
    else if !KnownWire(tag.value) then r.Refused?
    else
      && f.Some? && ReadableInside(f.value, Find(config, f.value.Num()))
      && r.Next? && r.index == i + |f.value.bytes| && Taken(f.value, config, r.added)
  }

  lemma RoundReadsOn(data: Bytes, config: seq<Config>, i: nat, r: Round)
    requires i <= |data| && Readable(data[i..], config) && Reads(data, config, i, r)
    requires Uvarint(data[i..]).n > 0 && KnownWire(Uvarint(data[i..]).value)
    ensures ReadsOn(data, config, i, r)
  {
    KeptStep(data[i..], config);
  }

  /** The body of the loop. */
  method ReadField(data: Bytes, config: seq<Config>, i: nat) returns (r: Round)
    requires i < |data| < LENGTH_LIMIT
    ensures r.Next? ==> NextIndex(data, i) == Some(r.index) && Passes(data, config, i)
    ensures r.Malformed? || r.Refused? ==> NextIndex(data, i) == None
    ensures r.Stuck? ==> DivergesAt(data, config, i)
    ensures r.Failed? ==> FaultsAt(data, config, i)
    ensures Honest(data, config, i, r)
    decreases |data|, 1
  {
    var tag := Uvarint(data[i..]);
    if tag.n <= 0 {
      return Malformed;
    } else if !KnownWire(tag.value) {
      return Refused;
    }
    var fieldCfg := GetConfigForField(config, tag.value / 8);
    if fieldCfg == None {
      if FirstField(data[i..]).Some? {
        BytesAt(data, i);
      }
      var next := SkipValue(data, i + tag.n, tag.value % 8);
      r := Next(next, []);
    } else if Descends(fieldCfg.value, tag.value) {
      r := TakeMessage(data, config, i, tag.value, tag.n, fieldCfg.value);
    } else {
      r := TakeRaw(data, config, i, tag.value, tag.n);
    }
    if Readable(data[i..], config) {
      RoundReadsOn(data, config, i, r);
    }
  }

  /** A round, whatever it meets, at the index i. */
  predicate Honest(data: Bytes, config: seq<Config>, i: int, r: Round) {
    0 <= i <= |data| && Readable(data[i..], config) ==> ReadsOn(data, config, i, r)
  }

  /** At readable bytes a round takes the field there, or ends the loop. */
  lemma NextTaken(data: Bytes, config: seq<Config>, i: nat, r: Round)
    requires i <= |data| && Readable(data[i..], config) && Honest(data, config, i, r)
    ensures r.Next? || r.Malformed? || r.Refused?
    ensures r.Malformed? <==> Uvarint(data[i..]).n <= 0
    ensures r.Refused? <==> Uvarint(data[i..]).n > 0 && !KnownWire(Uvarint(data[i..]).value)
    ensures var f := FirstField(data[i..]);
            r.Next? ==>
              && f.Some? && ReadableInside(f.value, Find(config, f.value.Num()))
              && r.index == i + |f.value.bytes| && Taken(f.value, config, r.added)
  {
  }

  /** A set of indexes of the data is no larger than the data. */
  lemma {:induction false} IndexesBound(visited: set<int>, n: nat)
    requires forall x | x in visited :: 0 <= x < n
    ensures |visited| <= n
  {
    if n == 0 {
      assert forall x :: x !in visited;
      assert visited == {};
    } else {
      IndexesBound(visited - {n - 1}, n - 1);
    }
  }

  /** The indexes visited are those of the rounds so far. */
  ghost predicate Visited(data: Bytes, visited: set<int>, rounds: nat) {
    forall x | x in visited :: 0 <= x < |data| && exists j: nat :: j < rounds && Index(data, j) == Some(x)
  }

  lemma VisitNext(data: Bytes, visited: set<int>, rounds: nat, i: nat)
    requires Visited(data, visited, rounds) && i < |data| && Index(data, rounds) == Some(i)
    ensures Visited(data, visited + {i}, rounds + 1)
  {
    forall x | x in visited + {i}
      ensures 0 <= x < |data| && exists j: nat :: j < rounds + 1 && Index(data, j) == Some(x)
    {
      if x in visited {
        var j: nat :| j < rounds && Index(data, j) == Some(x);
        assert j < rounds + 1;
      }
    }
  }

  lemma VisitedAgain(data: Bytes, visited: set<int>, rounds: nat, i: nat)
    requires Visited(data, visited, rounds) && i in visited && Index(data, rounds) == Some(i)
    ensures Forever(data)
  {
    var j: nat :| j < rounds && Index(data, j) == Some(i);
    RepeatedForever(data, j, rounds);
  }

  // ----- The loop

  /** The index and the pieces after these rounds. */
  function At(rounds: seq<Round>): int {
    if rounds == [] || !rounds[|rounds| - 1].Next? then 0 else rounds[|rounds| - 1].index
  }

  function Collected(rounds: seq<Round>): seq<Piece> {
    if rounds == [] then []
    else
      var last := rounds[|rounds| - 1];
      Collected(rounds[..|rounds| - 1]) + if last.Next? then last.added else []
  }

  predicate AllHonest(data: Bytes, config: seq<Config>, rounds: seq<Round>) {
    forall j | 0 <= j < |rounds| :: rounds[j].Next? && Honest(data, config, At(rounds[..j]), rounds[j])
  }

  lemma OneMoreRound(data: Bytes, config: seq<Config>, rounds: seq<Round>, r: Round)
    requires AllHonest(data, config, rounds) && r.Next? && Honest(data, config, At(rounds), r)
    ensures AllHonest(data, config, rounds + [r])
    ensures At(rounds + [r]) == r.index && Collected(rounds + [r]) == Collected(rounds) + r.added
  {
    var more := rounds + [r];
    assert more[..|rounds|] == rounds;
    forall j | 0 <= j < |more| ensures more[j].Next? && Honest(data, config, At(more[..j]), more[j]) {
      assert j < |rounds| ==> more[..j] == rounds[..j] && more[j] == rounds[j];
    }
  }

  lemma LastRound(data: Bytes, config: seq<Config>, before: seq<Round>, last: Round)
    requires AllHonest(data, config, before + [last])
    ensures AllHonest(data, config, before) && last.Next? && Honest(data, config, At(before), last)
    ensures At(before + [last]) == last.index && Collected(before + [last]) == Collected(before) + last.added
  {
    var rounds := before + [last];
    assert rounds[..|before|] == before && rounds[|before|] == last;
    assert forall j | 0 <= j < |before| :: before[..j] == rounds[..j] && before[j] == rounds[j];
  }

  /** The field taken by a round at readable bytes. */
  lemma TakesField(data: Bytes, config: seq<Config>, i: nat, r: Round) returns (f: Field)
    requires i <= |data| && Readable(data[i..], config) && Honest(data, config, i, r) && r.Next?
    ensures FirstField(data[i..]) == Some(f) && ReadableInside(f, Find(config, f.Num()))
    ensures r.index == i + |f.bytes| && Taken(f, config, r.added)
  {
    NextTaken(data, config, i, r);
    f := FirstField(data[i..]).value;
  }

  lemma {:induction false} RoundsProgress(data: Bytes, config: seq<Config>, rounds: seq<Round>, i: int,
                                          pieces: seq<Piece>)
    requires Readable(data, config) && AllHonest(data, config, rounds)
    requires At(rounds) == i && Collected(rounds) == pieces
    ensures i >= 0 && Progress(data, config, i, pieces)
    decreases |rounds|
  {
    if rounds == [] {
      Start(data, config);
    } else {
      var before, last := rounds[..|rounds| - 1], rounds[|rounds| - 1];
      assert rounds == before + [last];
      LastRound(data, config, before, last);
      var j, done := At(before), Collected(before);
      RoundsProgress(data, config, before, j, done);
      var f := TakesField(data, config, j, last);
      Advance(data, config, j, done, f, last.added, last.index);
    }
  }

  /** How the loop ends: past the last byte, or in a round that is not followed by another. The set of visited
      indexes decides when the loop of the source goes on forever: an index that comes again does so whatever
      was collected. */
  datatype Ending = Finished | Repeats | NegativeIndex | EndsIn(last: Round)

  /** What the loop keeps after these rounds. */
  ghost predicate Running(data: Bytes, config: seq<Config>, i: int, visited: set<int>, fields: seq<Piece>,
                          rounds: seq<Round>) {
    && AllHonest(data, config, rounds) && At(rounds) == i && Collected(rounds) == fields
    && Index(data, |rounds|) == Some(i) && Visited(data, visited, |rounds|) && PassesBefore(data, config, |rounds|)
  }

  lemma GoesOn(data: Bytes, config: seq<Config>, i: nat, visited: set<int>, fields: seq<Piece>, rounds: seq<Round>,
               r: Round)
    requires Running(data, config, i, visited, fields, rounds) && i < |data|
    requires r.Next? && NextIndex(data, i) == Some(r.index) && Passes(data, config, i) && Honest(data, config, i, r)
    ensures Running(data, config, r.index, visited + {i}, fields + r.added, rounds + [r])
  {
    VisitNext(data, visited, |rounds|, i);
    OneMoreRound(data, config, rounds, r);
    PassNext(data, config, |rounds|, i);
  }

  /** What the end of the loop at index i says about the data. */
  ghost predicate EndsAs(data: Bytes, config: seq<Config>, end: Ending, i: int) {
    match end
    case Finished => i >= |data| && !Diverges(data, config) && !Faults(data, config)
    case Repeats => Diverges(data, config)
    case NegativeIndex => i < 0 && Faults(data, config)
    case EndsIn(last) =>
      && 0 <= i < |data| && !last.Next? && Honest(data, config, i, last)
      && (last.Stuck? ==> Diverges(data, config)) && (last.Failed? ==> Faults(data, config))
      && (last.Malformed? || last.Refused? ==> !Diverges(data, config) && !Faults(data, config))
  }

  /** A loop that finishes, finds the index negative or comes back to a visited one. */
  lemma EndsBetween(data: Bytes, config: seq<Config>, i: int, visited: set<int>, fields: seq<Piece>,
                    rounds: seq<Round>)
    requires Running(data, config, i, visited, fields, rounds)
    ensures i >= |data| ==> EndsAs(data, config, Finished, i)
    ensures i < 0 ==> EndsAs(data, config, NegativeIndex, i)
    ensures i in visited ==> EndsAs(data, config, Repeats, i)
  {
    if i >= |data| {
      PassesAll(data, config, |rounds|);
    } else if i < 0 {
      assert Index(data, |rounds|).value < 0;
    }
    if i in visited {
      VisitedAgain(data, visited, |rounds|, i);
    }
  }

  lemma EndsInside(data: Bytes, config: seq<Config>, k: nat, i: nat, r: Round)
    requires i < |data| && Index(data, k) == Some(i) && PassesBefore(data, config, k)
    requires !r.Next? && Honest(data, config, i, r)
    requires (r.Stuck? ==> DivergesAt(data, config, i)) && (r.Failed? ==> FaultsAt(data, config, i))
    requires r.Malformed? || r.Refused? ==> NextIndex(data, i) == None
    ensures EndsAs(data, config, EndsIn(r), i)
  {
    assert Inside(data, Index(data, k));
    if r.Malformed? || r.Refused? {
      StopPasses(data, config, i);
      PassNext(data, config, k, i);
      PassesAll(data, config, k + 1);
    }
  }

  method Collect(data: Bytes, config: seq<Config>) returns (end: Ending, fields: seq<Piece>, ghost rounds: seq<Round>)
    requires |data| < LENGTH_LIMIT
    ensures AllHonest(data, config, rounds) && fields == Collected(rounds)
    ensures EndsAs(data, config, end, At(rounds))
    decreases |data|, 2
  {
    var i: int, visited: set<int> := 0, {};
    fields, rounds := [], [];
    while i < |data|
      invariant Running(data, config, i, visited, fields, rounds)
      decreases |data| - |visited|
    {
      EndsBetween(data, config, i, visited, fields, rounds);
      if i < 0 {
        return NegativeIndex, fields, rounds;
      }
      if i in visited {
        return Repeats, fields, rounds;
      }
      var round := ReadField(data, config, i);
      if !round.Next? {
        EndsInside(data, config, |rounds|, i, round);
        return EndsIn(round), fields, rounds;
      }
      GoesOn(data, config, i, visited, fields, rounds, round);
      i, visited, fields, rounds := round.index, visited + {i}, fields + round.added, rounds + [round];
      IndexesBound(visited, |data|);
    }
    EndsBetween(data, config, i, visited, fields, rounds);
    end := Finished;
  }

  /** What a loop over readable bytes ends with. */
  lemma ReadableEnding(data: Bytes, config: seq<Config>, end: Ending, rounds: seq<Round>)
    requires Readable(data, config) && AllHonest(data, config, rounds)
    requires end.Finished? ==> At(rounds) >= |data|
    requires end.EndsIn? ==> 0 <= At(rounds) < |data| && !end.last.Next? && Honest(data, config, At(rounds), end.last)
    ensures At(rounds) >= 0
    ensures end.EndsIn? ==> end.last.Malformed? || end.last.Refused?
    ensures end.EndsIn? && end.last.Refused? ==> Projects(data, config, [])
    ensures end.Finished? || (end.EndsIn? && end.last.Malformed?) ==>
              && View(data, config) == Sum(Collected(rounds), Items(config))
              && AllGood(Collected(rounds), config) && |Joined(Collected(rounds))| <= |data|
  {
    var i, pieces := At(rounds), Collected(rounds);
    RoundsProgress(data, config, rounds, i, pieces);
    if end.Finished? {
      Stopped(data, config, i, pieces);
    } else if end.EndsIn? {
      NextTaken(data, config, i, end.last);
      if end.last.Malformed? {
        Stopped(data, config, i, pieces);
      } else {
        Voided(data, config, i, pieces);
      }
    }
  }

  /** extractReportingTokenContent */
  method Extract(data: Bytes, config: seq<Config>) returns (r: Extraction)
    requires |data| < LENGTH_LIMIT
    ensures Readable(data, config) ==> r.Content? && Projects(data, config, r.bytes)
    ensures r.Content? <==> !Diverges(data, config) && !Faults(data, config)
    ensures r.Loops? ==> Diverges(data, config)
    ensures r.Fault? ==> Faults(data, config)
    decreases |data|, 3
  {
    ghost var rounds;
    var end, fields;
    end, fields, rounds := Collect(data, config);
    ghost var readable := Readable(data, config);
    if readable {
      ReadableEnds(data, config);
      ReadableEnding(data, config, end, rounds);
    }
    match end {
      case NegativeIndex => return Fault;
      case Repeats => return Loops;
      case EndsIn(last) =>
        if last.Failed? {
          return Fault;
        } else if last.Stuck? {
          return Loops;
        }
        if last.Refused? {
          return Content([]);
        }
      case Finished =>
    }
    var sorted := SortByNumber(fields);
    if readable {
      SortedProjects(data, config, fields, sorted);
    }
    var out := Concatenate(sorted);
    return Content(out);
  }
}
