/** What the extractor works with, said in the numbers of the wire format (Protocol Buffers Encoding guide, "Message
    Structure"), and which top-level fields come out of it. */
module ReportingFields {
  import opened Bytes
  import opened Varint
  import opened ReportingToken

  // ----- The configuration

  /** Entry i is the first one with this number. */
  predicate FirstEntry(config: seq<Config>, num: nat, i: int) {
    && 0 <= i < |config| && config[i].number == num
    && forall j | 0 <= j < i :: config[j].number != num
  }

  predicate Configured(config: seq<Config>, num: nat) {
    exists i | 0 <= i < |config| :: config[i].number == num
  }

  /** The search finds the first entry with the number, and nothing exactly when there is none. */
  lemma {:induction false} FindsFirst(config: seq<Config>, num: nat)
    ensures forall i | FirstEntry(config, num, i) :: Find(config, num) == Some(config[i])
    ensures Find(config, num).Some? <==> Configured(config, num)
    ensures Find(config, num).Some? ==>
              exists i :: FirstEntry(config, num, i) && Find(config, num) == Some(config[i])
  {
    if config != [] {
      var rest := config[1..];
      FindsFirst(rest, num);
      if config[0].number == num {
        assert FirstEntry(config, num, 0);
      } else {
        forall i | FirstEntry(config, num, i) ensures Find(config, num) == Some(config[i]) {
          assert forall j | 0 <= j < i - 1 :: rest[j] == config[j + 1];
          assert FirstEntry(rest, num, i - 1);
        }
        if i :| FirstEntry(rest, num, i) && Find(rest, num) == Some(rest[i]) {
          assert forall j | 0 < j <= i :: config[j] == rest[j - 1];
          assert FirstEntry(config, num, i + 1);
        }
        if i :| 0 <= i < |config| && config[i].number == num {
          assert rest[i - 1].number == num;
        }
      }
    }
  }

  // ----- The four kinds of fields

  lemma VarintField(num: nat, v: uint64, rest: Bytes)
    requires 8 * num < 0x1_0000_0000_0000_0000
    ensures var b := PutUvarint(8 * num) + PutUvarint(v);
            FirstField(b + rest) == Some(Field(8 * num, b, []))
  {
    var tag, value := 8 * num, PutUvarint(v);
    UvarintRoundTrip(tag, value + rest);
    UvarintRoundTrip(v, rest);
    TagThen(tag, value, rest);
  }

  lemma Fixed64Field(num: nat, value: Bytes, rest: Bytes)
    requires 8 * num + 1 < 0x1_0000_0000_0000_0000 && |value| == 8
    ensures var b := PutUvarint(8 * num + 1) + value;
            FirstField(b + rest) == Some(Field(8 * num + 1, b, []))
  {
    UvarintRoundTrip(8 * num + 1, value + rest);
    TagThen(8 * num + 1, value, rest);
  }

  lemma BytesField(num: nat, payload: Bytes, rest: Bytes)
    requires 8 * num + 2 < 0x1_0000_0000_0000_0000 && |payload| < 0x1_0000_0000_0000_0000
    ensures var b := PutUvarint(8 * num + 2) + PutUvarint(|payload|) + payload;
            FirstField(b + rest) == Some(Field(8 * num + 2, b, payload))
  {
    WrappedIsField(8 * num + 2, payload, rest);
  }

  lemma Fixed32Field(num: nat, value: Bytes, rest: Bytes)
    requires 8 * num + 5 < 0x1_0000_0000_0000_0000 && |value| == 4
    ensures var b := PutUvarint(8 * num + 5) + value;
            FirstField(b + rest) == Some(Field(8 * num + 5, b, []))
  {
    UvarintRoundTrip(8 * num + 5, value + rest);
    TagThen(8 * num + 5, value, rest);
  }

  lemma TagThen(tag: nat, value: Bytes, rest: Bytes)
    ensures var s := PutUvarint(tag) + value + rest;
            && s == PutUvarint(tag) + (value + rest) && s[|PutUvarint(tag)|..] == value + rest
            && s[..|PutUvarint(tag)| + |value|] == PutUvarint(tag) + value
  {
  }

  /** The wire types that void what was collected. */
  lemma RefusedTags(tag: nat)
    ensures !KnownWire(tag) <==> tag % 8 == 3 || tag % 8 == 4 || tag % 8 == 6 || tag % 8 == 7
  {
  }

  // ----- The top-level fields that come out

  /** The complete fields up to the first tag that is malformed or refused. */
  function Fields(s: Bytes): seq<Field>
    decreases |s|
  {
    var f := FirstField(s);
    if f.None? then [] else [f.value] + Fields(s[|f.value.bytes|..])
  }

  /** No field is cut off or of a refused type, up to the end or to a malformed tag. */
  predicate WellFormed(s: Bytes)
    decreases |s|
  {
    Uvarint(s).n <= 0 || (FirstField(s).Some? && WellFormed(s[|FirstField(s).value.bytes|..]))
  }

  /** A field that is configured and not taken apart. */
  ghost predicate TakenWhole(config: seq<Config>, f: Field) {
    exists i :: FirstEntry(config, f.Num(), i) && !Descends(config[i], f.tag)
  }

  lemma TakenWholeIs(config: seq<Config>, f: Field)
    ensures TakenWhole(config, f) <==>
            Find(config, f.Num()).Some? && !Descends(Find(config, f.Num()).value, f.tag)
  {
    FindsFirst(config, f.Num());
  }

  /** The bytes of a complete field determine it. */
  lemma SameBytes(s: Bytes, s': Bytes)
    requires FirstField(s).Some? && FirstField(s').Some? && FirstField(s).value.bytes == FirstField(s').value.bytes
    ensures FirstField(s) == FirstField(s')
  {
    FirstFieldLocal(s, s');
  }

  predicate IsField(f: Field) {
    FirstField(f.bytes) == Some(f)
  }

  lemma FirstIsField(s: Bytes)
    requires FirstField(s).Some?
    ensures IsField(FirstField(s).value)
  {
    FirstFieldLocal(s, FirstField(s).value.bytes);
  }

  /** What is kept of one field holds another field whole exactly when they are the same. */
  lemma KeptWhole(g: Field, f: Field, config: seq<Config>)
    requires IsField(f) && IsField(g) && TakenWhole(config, f) && ReadableInside(g, Find(config, g.Num()))
    ensures KeptOf(g, Find(config, g.Num()))[Raw(f.Num(), f.bytes)] == if g == f then 1 else 0
  {
    TakenWholeIs(config, f);
    TakenWholeIs(config, g);
  }

  function CountField(fields: seq<Field>, f: Field): nat {
    if fields == [] then 0 else (if fields[0] == f then 1 else 0) + CountField(fields[1..], f)
  }

  /** What is kept holds a field whole as often as it occurs. */
  lemma {:induction false} KeptCounts(data: Bytes, config: seq<Config>, f: Field)
    requires Readable(data, config) && WellFormed(data) && IsField(f) && TakenWhole(config, f)
    ensures Kept(data, config).Some?
    ensures Kept(data, config).value[Raw(f.Num(), f.bytes)] == CountField(Fields(data), f)
    decreases |data|
  {
    if Uvarint(data).n > 0 {
      var g := FirstField(data).value;
      var rest := data[|g.bytes|..];
      KeptStep(data, config);
      KeptCounts(rest, config, f);
      FirstIsField(data);
      KeptWhole(g, f, config);
      assert Fields(data)[1..] == Fields(rest);
    }
  }

  lemma {:induction false} NormalIsWellFormed(out: Bytes, config: seq<Config>, least: nat)
    requires Normal(out, config, least)
    ensures WellFormed(out)
    ensures forall f | f in Fields(out) :: Configured(config, f.Num())
    decreases |out|
  {
    if out != [] {
      var g := FirstField(out).value;
      NormalIsWellFormed(out[|g.bytes|..], config, g.Num());
      FindsFirst(config, g.Num());
    }
  }

  lemma {:induction false} CountIsIn(fields: seq<Field>, f: Field)
    ensures CountField(fields, f) > 0 <==> f in fields
  {
    if fields != [] {
      CountIsIn(fields[1..], f);
    }
  }

  /** Every top-level field that is not taken apart comes out as often as it goes in when an entry of the
      configuration has its number, and not at all when none has. */
  lemma FieldsComeOut(data: Bytes, config: seq<Config>, out: Bytes, f: Field)
    requires Readable(data, config) && WellFormed(data) && Projects(data, config, out) && f in Fields(data)
    requires forall i | FirstEntry(config, f.Num(), i) && f.tag % 8 == 2 ::
               !config[i].isMessage && config[i].subfields == []
    ensures CountField(Fields(out), f) == if Configured(config, f.Num()) then CountField(Fields(data), f) else 0
    ensures f in Fields(out) <==> Configured(config, f.Num())
  {
    FieldOf(data, f);
    NormalIsWellFormed(out, config, 0);
    FindsFirst(config, f.Num());
    CountIsIn(Fields(out), f);
    CountIsIn(Fields(data), f);
    if Configured(config, f.Num()) {
      KeptCounts(data, config, f);
      KeptCounts(out, config, f);
    }
  }

  lemma {:induction false} FieldOf(data: Bytes, f: Field)
    requires f in Fields(data)
    ensures IsField(f)
    decreases |data|
  {
    var g := FirstField(data).value;
    FirstIsField(data);
    if f != g {
      assert Fields(data)[1..] == Fields(data[|g.bytes|..]);
      FieldOf(data[|g.bytes|..], f);
    }
  }

  /** A field of a wire type that is never taken apart: no condition on the configuration is left. */
  lemma ScalarsComeOut(data: Bytes, config: seq<Config>, out: Bytes, f: Field)
    requires Readable(data, config) && WellFormed(data) && Projects(data, config, out) && f in Fields(data)
    requires f.tag % 8 != 2
    ensures f in Fields(out) <==> exists i | 0 <= i < |config| :: config[i].number == f.tag / 8
  {
    FieldsComeOut(data, config, out, f);
  }

  // ----- Messages that are taken apart

  /** Whatever is kept is kept of one of the fields. */
  lemma {:induction false} KeptOfSome(data: Bytes, config: seq<Config>, x: Item) returns (f: Field)
    requires Readable(data, config) && x in View(data, config)
    ensures f in Fields(data) && ReadableInside(f, Find(config, f.Num())) && x in KeptOf(f, Find(config, f.Num()))
    decreases |data|
  {
    var g := FirstField(data).value;
    KeptStep(data, config);
    if x in KeptOf(g, Find(config, g.Num())) {
      f := g;
    } else {
      f := KeptOfSome(data[|g.bytes|..], config, x);
    }
  }

  lemma {:induction false} KeptOfEach(data: Bytes, config: seq<Config>, f: Field)
    requires Readable(data, config) && WellFormed(data) && f in Fields(data)
    ensures ReadableInside(f, Find(config, f.Num())) && Kept(data, config).Some?
    ensures KeptOf(f, Find(config, f.Num())) <= View(data, config)
    decreases |data|
  {
    var g := FirstField(data).value;
    var rest := data[|g.bytes|..];
    KeptStep(data, config);
    KeptIsSome(rest, config);
    if f != g {
      assert Fields(data)[1..] == Fields(rest);
      KeptOfEach(rest, config, f);
    }
  }

  lemma {:induction false} KeptIsSome(data: Bytes, config: seq<Config>)
    requires Readable(data, config) && WellFormed(data)
    ensures Kept(data, config).Some?
    decreases |data|
  {
    if Uvarint(data).n > 0 {
      KeptStep(data, config);
      KeptIsSome(data[|FirstField(data).value.bytes|..], config);
    }
  }

  /** A configured message of which something is kept comes out as one field with its tag, and the payload of that
      field is the extract of its own. */
  lemma MessageComesOut(data: Bytes, config: seq<Config>, out: Bytes, f: Field, i: nat) returns (g: Field)
    requires Readable(data, config) && WellFormed(data) && Projects(data, config, out) && f in Fields(data)
    requires FirstEntry(config, f.Num(), i) && Descends(config[i], f.tag)
    requires Readable(f.payload, config[i].subfields) ==> View(f.payload, config[i].subfields) != multiset{}
    ensures Readable(f.payload, config[i].subfields)
    ensures g in Fields(out) && g.tag == f.tag && Normal(g.payload, config[i].subfields, 0)
    ensures Readable(g.payload, config[i].subfields)
    ensures View(g.payload, config[i].subfields) == View(f.payload, config[i].subfields)
  {
    FindsFirst(config, f.Num());
    KeptOfEach(data, config, f);
    var x := Message(f.Num(), f.tag, View(f.payload, config[i].subfields));
    assert x in KeptOf(f, Find(config, f.Num()));
    g := KeptOfSome(out, config, x);
    NormalInside(out, config, 0, g);
  }

  lemma {:induction false} NormalInside(out: Bytes, config: seq<Config>, least: nat, g: Field)
    requires Normal(out, config, least) && g in Fields(out)
    ensures NormalField(g, Find(config, g.Num()))
    decreases |out|
  {
    var first := FirstField(out).value;
    if g != first {
      assert Fields(out)[1..] == Fields(out[|first.bytes|..]);
      NormalInside(out[|first.bytes|..], config, first.Num(), g);
    }
  }

  /** A scalar inside a configured message comes out inside it when an entry of the message's configuration has its
      number. */
  lemma InnerScalarComesOut(data: Bytes, config: seq<Config>, out: Bytes, f: Field, i: nat, h: Field)
    requires Readable(data, config) && WellFormed(data) && Projects(data, config, out) && f in Fields(data)
    requires FirstEntry(config, f.Num(), i) && f.tag % 8 == 2 && (config[i].isMessage || config[i].subfields != [])
    requires WellFormed(f.payload) && h in Fields(f.payload) && h.tag % 8 != 2
    requires Configured(config[i].subfields, h.Num())
    ensures exists g :: g in Fields(out) && g.tag == f.tag && h in Fields(g.payload)
  {
    var inner := config[i].subfields;
    FindsFirst(config, f.Num());
    KeptOfEach(data, config, f);
    FindsFirst(inner, h.Num());
    FieldOf(f.payload, h);
    KeptCounts(f.payload, inner, h);
    CountIsIn(Fields(f.payload), h);
    assert Raw(h.Num(), h.bytes) in View(f.payload, inner);
    var g := MessageComesOut(data, config, out, f, i);
    NormalIsWellFormed(g.payload, inner, 0);
    KeptCounts(g.payload, inner, h);
    CountIsIn(Fields(g.payload), h);
  }

  // ----- Which bytes are readable, and which are voided

  /** Bytes whose fields are complete are readable when the messages in them that are taken apart are. */
  lemma {:induction false} CompleteIsReadable(data: Bytes, config: seq<Config>)
    requires WellFormed(data)
    requires forall f, i | f in Fields(data) && FirstEntry(config, f.Num(), i) && Descends(config[i], f.tag) ::
               Readable(f.payload, config[i].subfields)
    ensures Readable(data, config)
    decreases |data|
  {
    if Uvarint(data).n > 0 {
      var f := FirstField(data).value;
      var rest := data[|f.bytes|..];
      assert f == Fields(data)[0] && Fields(data)[1..] == Fields(rest);
      FindsFirst(config, f.Num());
      assert forall g | g in Fields(rest) :: g in Fields(data);
      CompleteIsReadable(rest, config);
    }
  }

  /** After complete fields comes a tag with a wire type of the groups, or one that is not assigned. */
  predicate ReachesRefused(s: Bytes)
    decreases |s|
  {
    var tag := Uvarint(s);
    tag.n > 0 &&
    (tag.value % 8 == 3 || tag.value % 8 == 4 || tag.value % 8 == 6 || tag.value % 8 == 7 ||
     (FirstField(s).Some? && ReachesRefused(s[|FirstField(s).value.bytes|..])))
  }

  lemma {:induction false} RefusedKeepsNothing(data: Bytes, config: seq<Config>)
    requires Readable(data, config) && ReachesRefused(data)
    ensures Kept(data, config) == None
    decreases |data|
  {
    RefusedTags(Uvarint(data).value);
    if KnownWire(Uvarint(data).value) {
      RefusedKeepsNothing(data[|FirstField(data).value.bytes|..], config);
    }
  }

  /** Such a tag voids everything before it. */
  lemma RefusedVoids(data: Bytes, config: seq<Config>, out: Bytes)
    requires Readable(data, config) && ReachesRefused(data) && Projects(data, config, out)
    ensures out == []
  {
    RefusedKeepsNothing(data, config);
    NormalReads(out, config, 0);
  }
}
