/** How the index moves in the loop of the reporting-token extractor (reportingtoken.go:101-167), on any bytes:
    also back, and then perhaps forever. */
module ReportingIndex {
  import opened Bytes
  import opened Varint
  import opened ReportingToken

  /** One more than the largest int. */
  const INT_LIMIT := 0x8000_0000_0000_0000

  /** No slice is longer than the 48-bit address space. */
  const LENGTH_LIMIT := 0x1_0000_0000_0000

  /** An int keeps the low 64 bits, as a signed number. */
  function Wrap(x: int): int {
    (x + INT_LIMIT) % (2 * INT_LIMIT) - INT_LIMIT
  }

  /** The index after a value of this wire type at index i, with r read there: `i += n + int(l)`. */
  function AfterValue(wire: nat, r: Read, i: nat): int {
    if wire == WIRE_VARINT then i + r.n
    else if wire == WIRE_64BIT then i + 8
    else if wire == WIRE_32BIT then i + 4
    else Wrap(i + Wrap(r.n + Wrap(r.value)))
  }

  /** The values that move the index back: a varint or a length that overflows 64 bits, and a length whose
      conversion to int is negative enough, or so large that the sum leaves the range of an int. */
  predicate MovesBack(wire: nat, r: Read, i: nat) {
    || (wire == WIRE_VARINT && r.n < 0)
    || (wire == WIRE_BYTES && (r.n < 0 || INT_LIMIT - i - r.n <= r.value < 2 * INT_LIMIT - r.n))
  }

  lemma ValueMovesBack(data: Bytes, i: nat, wire: nat)
    requires i <= |data| < LENGTH_LIMIT && KnownWire(wire) && wire < 8
    ensures AfterValue(wire, Uvarint(data[i..]), i) < i <==> MovesBack(wire, Uvarint(data[i..]), i)
  {
    var r := Uvarint(data[i..]);
    if r.n > 0 {
      AcceptedFits(data[i..]);
      WrapSum(i, r.n, r.value);
    } else {
      FailedIsZero(data[i..], 0);
      WrapSum(i, r.n, 0);
    }
  }

  lemma {:induction false} FailedIsZero(s: Bytes, k: nat)
    requires k <= |s| && k <= MAX_VARINT_LEN && UvarintFrom(s, k).n <= 0
    ensures UvarintFrom(s, k).value == 0 && -11 <= UvarintFrom(s, k).n
    decreases |s| - k
  {
    if k < |s| && k < MAX_VARINT_LEN && s[k] >= 0x80 {
      FailedIsZero(s, k + 1);
    }
  }

  lemma WrapSum(i: nat, n: int, l: nat)
    requires i < LENGTH_LIMIT && -11 <= n <= MAX_VARINT_LEN && l < 2 * INT_LIMIT && (n <= 0 ==> l == 0)
    ensures Wrap(i + Wrap(n + Wrap(l))) ==
            if l < INT_LIMIT - i - n then i + n + l else i + n + l - 2 * INT_LIMIT
  {
    assert Wrap(l) == if l < INT_LIMIT then l else l - 2 * INT_LIMIT;
    assert Wrap(n + Wrap(l)) == if l < INT_LIMIT - n then n + l else n + l - 2 * INT_LIMIT;
  }

  /** A complete value moves the index past itself. */
  lemma CompleteMovesOn(data: Bytes, i: nat, wire: nat)
    requires i <= |data| < LENGTH_LIMIT && ValueSize(wire, data[i..]).Some?
    ensures AfterValue(wire, Uvarint(data[i..]), i) == i + ValueSize(wire, data[i..]).value
  {
    var r := Uvarint(data[i..]);
    if wire == WIRE_BYTES {
      WrapSum(i, r.n, r.value);
    }
  }

  // ----- The index from round to round

  /** Where the loop goes on from index i; None when it stops there, for a malformed tag or a wire type it
      refuses. */
  function NextIndex(data: Bytes, i: nat): Option<int>
    requires i < |data|
  {
    var tag := Uvarint(data[i..]);
    if tag.n <= 0 || !KnownWire(tag.value) then None
    else Some(AfterValue(tag.value % 8, Uvarint(data[i + tag.n..]), i + tag.n))
  }

  predicate Inside(data: Bytes, i: Option<int>) {
    i.Some? && 0 <= i.value < |data|
  }

  /** The index at the head of the loop after k rounds, as long as no slice expression fails. */
  function Index(data: Bytes, k: nat): Option<int> {
    Iterate(Rounds(data), Some(0), k)
  }

  function Rounds(data: Bytes): Option<int> -> Option<int> {
    i => Course(data, i)
  }

  function Course(data: Bytes, i: Option<int>): Option<int> {
    if Inside(data, i) then NextIndex(data, i.value) else None
  }

  function Iterate<T>(f: T -> T, x: T, k: nat): T {
    if k == 0 then x else f(Iterate(f, x, k - 1))
  }

  /** No round ends the loop. */
  ghost predicate Forever(data: Bytes) {
    forall k: nat :: Inside(data, Index(data, k))
  }

  lemma {:induction false} SameCourse<T>(f: T -> T, x: T, j: nat, k: nat, d: nat)
    requires Iterate(f, x, j) == Iterate(f, x, k)
    ensures Iterate(f, x, j + d) == Iterate(f, x, k + d)
    decreases d
  {
    if d != 0 {
      SameCourse(f, x, j, k, d - 1);
    }
  }

  /** What comes again comes forever: from m >= k rounds it is what it was after m less the period. */
  lemma {:induction false} Cycles<T>(f: T -> T, x: T, j: nat, k: nat, m: nat) returns (n: nat)
    requires j < k && Iterate(f, x, j) == Iterate(f, x, k)
    ensures n < k && Iterate(f, x, n) == Iterate(f, x, m)
    decreases m
  {
    if m < k {
      n := m;
    } else {
      SameCourse(f, x, j, k, m - k);
      n := Cycles(f, x, j, k, m - (k - j));
    }
  }

  lemma {:induction false} IndexPrefix(data: Bytes, j: nat, k: nat)
    requires j < k && Index(data, k).Some?
    ensures Inside(data, Index(data, j))
    decreases k
  {
    if j < k - 1 {
      IndexPrefix(data, j, k - 1);
    }
  }

  /** An index that comes again comes forever: nothing else steers the loop. */
  lemma RepeatedForever(data: Bytes, j: nat, k: nat)
    requires j < k && Index(data, j) == Index(data, k) && Index(data, k).Some?
    ensures Forever(data)
  {
    forall m: nat ensures Inside(data, Index(data, m)) {
      var n := Cycles(Rounds(data), Some(0), j, k, m);
      IndexPrefix(data, n, k);
    }
  }

  /** Five fields `08 00` that are skipped, a sixth tag, and a varint that overflows after eleven bytes: the index
      returns to 0, again and again. */
  lemma OverflowLoops()
    ensures var ff: Bytes := seq(11, _ => 0xff); Forever([8, 0, 8, 0, 8, 0, 8, 0, 8, 0, 8] + ff)
  {
    var ff: Bytes := seq(11, _ => 0xff);
    var data := [8, 0, 8, 0, 8, 0, 8, 0, 8, 0, 8] + ff;
    SkipsZeroField(data, 0);
    SkipsZeroField(data, 2);
    SkipsZeroField(data, 4);
    SkipsZeroField(data, 6);
    SkipsZeroField(data, 8);
    assert Index(data, 1) == Some(2);
    assert Index(data, 2) == Some(4);
    assert Index(data, 3) == Some(6);
    assert Index(data, 4) == Some(8);
    assert Index(data, 5) == Some(10);
    assert data[10..][0] == 8 && Uvarint(data[10..]) == Read(8, 1);
    assert data[11..] == ff;
    Overflows(ff, 0);
    assert NextIndex(data, 10) == Some(0);
    assert Index(data, 6) == Some(0);
    RepeatedForever(data, 0, 6);
  }

  lemma SkipsZeroField(data: Bytes, i: nat)
    requires i + 1 < |data| && data[i] == 8 && data[i + 1] == 0
    ensures NextIndex(data, i) == Some(i + 2)
  {
    assert data[i..][0] == 8 && data[i + 1..][0] == 0;
    assert Uvarint(data[i..]) == Read(8, 1) && Uvarint(data[i + 1..]) == Read(0, 1);
  }

  lemma {:induction false} Overflows(s: Bytes, k: nat)
    requires k <= MAX_VARINT_LEN < |s| && forall m | k <= m < MAX_VARINT_LEN :: s[m] >= 0x80
    ensures UvarintFrom(s, k) == Read(0, -11)
    decreases |s| - k
  {
    if k < MAX_VARINT_LEN {
      Overflows(s, k + 1);
    }
  }

  // ----- Bytes that end the loop

  /** On readable bytes every round starts at readable bytes and moves on. */
  lemma {:induction false} ReadableMovesOn(data: Bytes, config: seq<Config>, k: nat)
    requires |data| < LENGTH_LIMIT && Readable(data, config) && Index(data, k).Some?
    ensures k <= Index(data, k).value <= |data| && Readable(data[Index(data, k).value..], config)
  {
    if k == 0 {
      assert data[0..] == data;
    } else {
      ReadableMovesOn(data, config, k - 1);
      var i := Index(data, k - 1).value;
      KeptStep(data[i..], config);
      FieldMovesOn(data, i);
      assert data[i..][|FirstField(data[i..]).value.bytes|..] == data[Index(data, k).value..];
    }
  }

  lemma FieldMovesOn(data: Bytes, i: nat)
    requires i < |data| < LENGTH_LIMIT && FirstField(data[i..]).Some?
    ensures NextIndex(data, i) == Some(i + |FirstField(data[i..]).value.bytes|)
  {
    BytesAt(data, i);
    var tag := Uvarint(data[i..]);
    CompleteMovesOn(data, i + tag.n, tag.value % 8);
  }

  /** The payload the extractor descends into from index i, when the slice expression is in range. */
  function Payload(data: Bytes, i: nat): (p: Option<Bytes>)
    requires i < |data|
    ensures p.Some? ==> |p.value| < |data|
  {
    var tag := Uvarint(data[i..]);
    if tag.n <= 0 then None
    else
      var l := Uvarint(data[i + tag.n..]);
      var start, end := i + tag.n + l.n, AfterValue(WIRE_BYTES, l, i + tag.n);
      if 0 <= start <= end <= |data| && end - start < |data| then Some(data[start..end]) else None
  }

  lemma PayloadSlice(data: Bytes, i: nat, start: nat, end: nat)
    requires i < |data| && Uvarint(data[i..]).n > 0
    requires var k := i + Uvarint(data[i..]).n;
             var l := Uvarint(data[k..]);
             start == k + l.n && end == AfterValue(WIRE_BYTES, l, k)
    requires start <= end <= |data| && end - start < |data|
    ensures Payload(data, i) == Some(data[start..end])
  {
  }

  /** The payload of a complete message is the one the slice expression takes. */
  lemma PayloadOf(data: Bytes, i: nat)
    requires i < |data| < LENGTH_LIMIT && FirstField(data[i..]).Some?
    requires Uvarint(data[i..]).value % 8 == WIRE_BYTES
    ensures Payload(data, i) == Some(FirstField(data[i..]).value.payload)
  {
    var tag, f := Uvarint(data[i..]), FirstField(data[i..]).value;
    BytesAt(data, i);
    var k := i + tag.n;
    var l := Uvarint(data[k..]);
    PayloadAt(data, i, k + l.n);
    CompleteMovesOn(data, k, WIRE_BYTES);
    PayloadSlice(data, i, k + l.n, i + |f.bytes|);
  }

  /** The extractor never returns: its loop goes on forever, or a message it descends into does not return. */
  ghost predicate Diverges(data: Bytes, config: seq<Config>)
    decreases |data|
  {
    Forever(data) || exists k: nat :: Inside(data, Index(data, k)) && DivergesAt(data, config, Index(data, k).value)
  }

  ghost predicate DivergesAt(data: Bytes, config: seq<Config>, i: nat)
    requires i < |data|
    decreases |data|, 0
  {
    var tag, cfg := Uvarint(data[i..]).value, Find(config, Uvarint(data[i..]).value / 8);
    && cfg.Some? && Descends(cfg.value, tag) && Payload(data, i).Some?
    && Diverges(Payload(data, i).value, cfg.value.subfields)
  }

  /** A slice expression leaves the data: the index is negative when the next tag is read, or a round faults. */
  ghost predicate Faults(data: Bytes, config: seq<Config>)
    decreases |data|
  {
    exists k: nat ::
      && Index(data, k).Some?
      && (Index(data, k).value < 0 || (Inside(data, Index(data, k)) && FaultsAt(data, config, Index(data, k).value)))
  }

  /** A configured field is sliced out of the data from its tag to the next index, a message from after its length
      and then inside. */
  ghost predicate FaultsAt(data: Bytes, config: seq<Config>, i: nat)
    requires i < |data|
    decreases |data|, 0
  {
    var tag, cfg := Uvarint(data[i..]).value, Find(config, Uvarint(data[i..]).value / 8);
    && cfg.Some? && NextIndex(data, i).Some?
    && (if Descends(cfg.value, tag)
        then Payload(data, i).None? || Faults(Payload(data, i).value, cfg.value.subfields)
        else !(i <= NextIndex(data, i).value <= |data|))
  }

  // ----- Rounds that are done

  /** The round at index i returns. */
  ghost predicate Passes(data: Bytes, config: seq<Config>, i: nat)
    requires i < |data|
  {
    !DivergesAt(data, config, i) && !FaultsAt(data, config, i)
  }

  ghost predicate PassesBefore(data: Bytes, config: seq<Config>, k: nat) {
    forall j: nat | j < k :: Inside(data, Index(data, j)) && Passes(data, config, Index(data, j).value)
  }

  lemma PassNext(data: Bytes, config: seq<Config>, k: nat, i: nat)
    requires PassesBefore(data, config, k) && i < |data| && Index(data, k) == Some(i) && Passes(data, config, i)
    ensures PassesBefore(data, config, k + 1) && Index(data, k + 1) == NextIndex(data, i)
  {
    forall j: nat | j < k + 1 ensures Inside(data, Index(data, j)) && Passes(data, config, Index(data, j).value) {
      assert j == k || j < k;
    }
  }

  /** A malformed tag or a refused wire type is no slice and no message. */
  lemma StopPasses(data: Bytes, config: seq<Config>, i: nat)
    requires i < |data| && NextIndex(data, i) == None
    ensures Passes(data, config, i)
  {
  }

  /** A configured field that is not taken apart needs one slice. */
  lemma RawOutcome(data: Bytes, config: seq<Config>, i: nat, tag: nat, next: int)
    requires i < |data| && Uvarint(data[i..]).value == tag && NextIndex(data, i) == Some(next)
    requires Find(config, tag / 8).Some? && !Descends(Find(config, tag / 8).value, tag)
    ensures if i <= next <= |data| then Passes(data, config, i) else FaultsAt(data, config, i)
  {
  }

  /** Rounds that all return up to an end of the loop are all there are. */
  lemma PassesAll(data: Bytes, config: seq<Config>, k: nat)
    requires PassesBefore(data, config, k)
    requires Index(data, k) == None || Index(data, k).value >= |data|
    ensures !Diverges(data, config) && !Faults(data, config)
  {
    forall j: nat | Index(data, j).Some? && j != k ensures j < k {
      if k < j {
        IndexPrefix(data, k, j);
      }
    }
    assert !Inside(data, Index(data, k));
  }

  /** Bytes that are readable along the configuration are never read forever. */
  lemma {:induction false} ReadableEnds(data: Bytes, config: seq<Config>)
    requires |data| < LENGTH_LIMIT && Readable(data, config)
    ensures !Diverges(data, config)
    decreases |data|
  {
    if Forever(data) {
      assert Inside(data, Index(data, |data|));
      ReadableMovesOn(data, config, |data|);
      assert false;
    }
    forall k: nat | Inside(data, Index(data, k)) ensures !DivergesAt(data, config, Index(data, k).value) {
      ReadableMovesOn(data, config, k);
      ReadableEndsAt(data, config, Index(data, k).value);
    }
  }

  lemma {:induction false} ReadableEndsAt(data: Bytes, config: seq<Config>, i: nat)
    requires i < |data| < LENGTH_LIMIT && Readable(data[i..], config)
    ensures !DivergesAt(data, config, i)
    decreases |data|, 0
  {
    if DivergesAt(data, config, i) {
      PayloadOf(data, i);
      KeptStep(data[i..], config);
      ReadableEnds(Payload(data, i).value, Find(config, Uvarint(data[i..]).value / 8).value.subfields);
    }
  }
}
