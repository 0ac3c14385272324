/** The reporting-token extractor (reportingtoken.go:75-176): a filter over protobuf bytes that keeps the
    configured fields, in the order of their numbers, and rebuilds the messages in between. */
module ReportingToken {
  import opened Bytes
  import opened Varint

  /** reportingField */
  datatype Config = Config(number: int, isMessage: bool, subfields: seq<Config>)

  const WIRE_VARINT := 0
  const WIRE_64BIT := 1
  const WIRE_BYTES := 2
  const WIRE_32BIT := 5

  /** The first configuration for a field number. */
  function Find(config: seq<Config>, num: nat): Option<Config> {
    if config == [] then None
    else if config[0].number == num then Some(config[0])
    else Find(config[1..], num)
  }

  /** getConfigForField */
  method GetConfigForField(config: seq<Config>, num: nat) returns (r: Option<Config>)
    ensures r == Find(config, num)
  {
    for i := 0 to |config|
      invariant Find(config, num) == Find(config[i..], num)
    {
      if config[i].number == num {
        return Some(config[i]);
      }
    }
    return None;
  }

  predicate KnownWire(tag: nat) {
    tag % 8 in {WIRE_VARINT, WIRE_64BIT, WIRE_BYTES, WIRE_32BIT}
  }

  /** Whether a field is taken apart: it has the wire type of a message and is configured as one. */
  predicate Descends(cfg: Config, tag: nat) {
    tag % 8 == WIRE_BYTES && (cfg.isMessage || cfg.subfields != [])
  }

  // ----- Protobuf fields

  /** A field on the wire: its tag, all its bytes, and for a length-delimited one the bytes after the length. */
  datatype Field = Field(tag: nat, bytes: Bytes, payload: Bytes) {
    function Num(): nat { tag / 8 }
  }

  /** The length of a complete value at the start of s. */
  function ValueSize(wire: nat, s: Bytes): (n: Option<nat>)
    ensures n.Some? ==> n.value <= |s|
  {
    var r := Uvarint(s);
    if wire == WIRE_VARINT then if r.n > 0 then Some(r.n) else None
    else if wire == WIRE_64BIT then if |s| >= 8 then Some(8) else None
    else if wire == WIRE_BYTES then if r.n > 0 && r.n + r.value <= |s| then Some(r.n + r.value) else None
    else if wire == WIRE_32BIT then if |s| >= 4 then Some(4) else None
    else None
  }

  /** The field at the start of s, if it is complete. */
  function FirstField(s: Bytes): (f: Option<Field>)
    ensures f.Some? ==> f.value.bytes <= s && |f.value.payload| < |f.value.bytes| && KnownWire(f.value.tag)
  {
    var tag := Uvarint(s);
    if tag.n <= 0 then None
    else
      var value := s[tag.n..];
      var size := ValueSize(tag.value % 8, value);
      if size.None? then None
      else Some(Field(tag.value, s[..tag.n + size.value],
                      if tag.value % 8 == WIRE_BYTES then value[Uvarint(value).n..size.value] else []))
  }

  function Wrapped(tag: nat, payload: Bytes): Bytes {
    PutUvarint(tag) + PutUvarint(|payload|) + payload
  }

  lemma ValueLocal(wire: nat, v: Bytes, v': Bytes, size: nat)
    requires ValueSize(wire, v) == Some(size) && v[..size] <= v'
    ensures ValueSize(wire, v') == Some(size)
    ensures wire == WIRE_BYTES ==> Uvarint(v') == Uvarint(v)
  {
    if wire == WIRE_VARINT || wire == WIRE_BYTES {
      var n := Uvarint(v).n;
      assert v[..n] == v[..size][..n] == v'[..n];
      UvarintLocal(v, v', 0);
    }
  }

  /** The first field depends on its own bytes only. */
  lemma FirstFieldLocal(s: Bytes, s': Bytes)
    requires FirstField(s).Some? && FirstField(s).value.bytes <= s'
    ensures FirstField(s') == FirstField(s)
  {
    var f, tag := FirstField(s).value, Uvarint(s);
    assert s[..tag.n] == f.bytes[..tag.n] == s'[..tag.n];
    UvarintLocal(s, s', 0);
    var value, value' := s[tag.n..], s'[tag.n..];
    var size := |f.bytes| - tag.n;
    assert value[..size] == f.bytes[tag.n..] == value'[..size];
    ValueLocal(tag.value % 8, value, value', size);
    assert s'[..tag.n + size] == f.bytes;
    if tag.value % 8 == WIRE_BYTES {
      var n := Uvarint(value).n;
      assert value[n..size] == value[..size][n..] == value'[..size][n..] == value'[n..size];
    }
  }

  lemma WrappedIsField(tag: uint64, payload: Bytes, rest: Bytes)
    requires tag % 8 == WIRE_BYTES && |payload| < 0x1_0000_0000_0000_0000
    ensures FirstField(Wrapped(tag, payload) + rest) == Some(Field(tag, Wrapped(tag, payload), payload))
  {
    var s := Wrapped(tag, payload) + rest;
    var value := PutUvarint(|payload|) + payload + rest;
    assert s == PutUvarint(tag) + value;
    UvarintRoundTrip(tag, value);
    assert s[|PutUvarint(tag)|..] == value;
    assert value == PutUvarint(|payload|) + (payload + rest);
    UvarintRoundTrip(|payload|, payload + rest);
    assert s[..|Wrapped(tag, payload)|] == Wrapped(tag, payload);
    assert value[|PutUvarint(|payload|)|..|PutUvarint(|payload|)| + |payload|] == payload;
  }

  // ----- What the extractor keeps

  /** A kept field: its bytes as they are, or for a message the fields kept of it. */
  datatype Item = Raw(num: nat, bytes: Bytes) | Message(num: nat, tag: nat, items: multiset<Item>)

  /** The bytes can be read along the configuration: fields up to the end, to a malformed tag or to a wire
      type the extractor refuses, and the same inside every message it takes apart. */
  predicate Readable(data: Bytes, config: seq<Config>)
    decreases |data|, 1
  {
    var tag := Uvarint(data);
    tag.n <= 0 || !KnownWire(tag.value) ||
    var f := FirstField(data);
    f.Some? && ReadableInside(f.value, Find(config, f.value.Num())) && Readable(data[|f.value.bytes|..], config)
  }

  predicate ReadableInside(f: Field, cfg: Option<Config>)
    decreases |f.payload|, 3
  {
    cfg.Some? && Descends(cfg.value, f.tag) ==> Readable(f.payload, cfg.value.subfields)
  }

  /** The fields kept; None when a refused wire type voids them. */
  function Kept(data: Bytes, config: seq<Config>): Option<multiset<Item>>
    requires Readable(data, config)
    decreases |data|, 1
  {
    var tag := Uvarint(data);
    if tag.n <= 0 then Some(multiset{})
    else if !KnownWire(tag.value) then None
    else
      var f := FirstField(data).value;
      var rest := Kept(data[|f.bytes|..], config);
      if rest.None? then None
      else Some(KeptOf(f, Find(config, f.Num())) + rest.value)
  }

  function KeptOf(f: Field, cfg: Option<Config>): multiset<Item>
    requires ReadableInside(f, cfg)
    decreases |f.payload|, 3
  {
    if cfg.None? then multiset{}
    else if !Descends(cfg.value, f.tag) then multiset{Raw(f.Num(), f.bytes)}
    else
      var sub := View(f.payload, cfg.value.subfields);
      if sub == multiset{} then multiset{} else multiset{Message(f.Num(), f.tag, sub)}
  }

  function View(data: Bytes, config: seq<Config>): multiset<Item>
    requires Readable(data, config)
    decreases |data|, 2
  {
    var kept := Kept(data, config);
    if kept.None? then multiset{} else kept.value
  }

  /** What the extractor writes: complete fields with configured numbers, none below the number before it,
      and every message it takes apart non-empty, freshly wrapped and normal itself. */
  predicate Normal(out: Bytes, config: seq<Config>, least: nat)
    decreases |out|, 1
  {
    out == [] ||
    var f := FirstField(out);
    && f.Some? && least <= f.value.Num() && NormalField(f.value, Find(config, f.value.Num()))
    && Normal(out[|f.value.bytes|..], config, f.value.Num())
  }

  predicate NormalField(f: Field, cfg: Option<Config>)
    decreases |f.payload|, 3
  {
    && cfg.Some?
    && (Descends(cfg.value, f.tag) ==>
          f.payload != [] && f.bytes == Wrapped(f.tag, f.payload) && Normal(f.payload, cfg.value.subfields, 0))
  }

  /** out is a projection of data: normal, with the same fields kept, and no longer. */
  predicate Projects(data: Bytes, config: seq<Config>, out: Bytes)
    requires Readable(data, config)
  {
    Normal(out, config, 0) && Readable(out, config) && View(out, config) == View(data, config) && |out| <= |data|
  }

  lemma {:induction false} NormalReads(out: Bytes, config: seq<Config>, least: nat)
    requires Normal(out, config, least)
    ensures Readable(out, config) && Kept(out, config).Some?
    ensures out != [] ==> View(out, config) != multiset{}
    decreases |out|, 1
  {
    if out != [] {
      var f := FirstField(out).value;
      NormalFieldReads(f, Find(config, f.Num()));
      NormalReads(out[|f.bytes|..], config, f.Num());
    }
  }

  function TheItem(f: Field, cfg: Config): Item
    requires ReadableInside(f, Some(cfg))
  {
    if Descends(cfg, f.tag) then Message(f.Num(), f.tag, View(f.payload, cfg.subfields)) else Raw(f.Num(), f.bytes)
  }

  /** A normal field is kept as one item. */
  lemma {:induction false} NormalFieldReads(f: Field, cfg: Option<Config>)
    requires NormalField(f, cfg)
    ensures ReadableInside(f, cfg) && KeptOf(f, cfg) == multiset{TheItem(f, cfg.value)}
    decreases |f.payload|, 3
  {
    if Descends(cfg.value, f.tag) {
      NormalReads(f.payload, cfg.value.subfields, 0);
    }
  }

  // ----- The extractor

  /** What the source collects: a field number and the bytes to write. */
  datatype Piece = Piece(num: nat, bytes: Bytes)

  predicate Good(p: Piece, config: seq<Config>) {
    var f := FirstField(p.bytes);
    f.Some? && f.value.bytes == p.bytes && f.value.Num() == p.num && NormalField(f.value, Find(config, p.num))
  }

  predicate AllGood(pieces: seq<Piece>, config: seq<Config>) {
    forall i | 0 <= i < |pieces| :: Good(pieces[i], config)
  }

  function ItemOf(p: Piece, config: seq<Config>): multiset<Item> {
    if !Good(p, config) then multiset{}
    else
      NormalFieldReads(FirstField(p.bytes).value, Find(config, p.num));
      KeptOf(FirstField(p.bytes).value, Find(config, p.num))
  }

  function Items(config: seq<Config>): Piece -> multiset<Item> {
    p => ItemOf(p, config)
  }

  function Sum(pieces: seq<Piece>, items: Piece -> multiset<Item>): multiset<Item> {
    if pieces == [] then multiset{} else items(pieces[0]) + Sum(pieces[1..], items)
  }

  function Joined(pieces: seq<Piece>): Bytes {
    if pieces == [] then [] else pieces[0].bytes + Joined(pieces[1..])
  }

  predicate Sorted(pieces: seq<Piece>) {
    forall i, j | 0 <= i < j < |pieces| :: pieces[i].num <= pieces[j].num
  }

  lemma {:induction false} Append(a: seq<Piece>, b: seq<Piece>, items: Piece -> multiset<Item>)
    ensures Sum(a + b, items) == Sum(a, items) + Sum(b, items)
    ensures Joined(a + b) == Joined(a) + Joined(b)
    decreases |a|
  {
    if a == [] {
      assert a + b == b;
    } else {
      Append(a[1..], b, items);
      assert (a + b)[1..] == a[1..] + b;
    }
  }

  lemma Removed(a: seq<Piece>, k: nat, items: Piece -> multiset<Item>)
    requires k < |a|
    ensures Sum(a, items) == items(a[k]) + Sum(a[..k] + a[k + 1..], items)
    ensures |Joined(a)| == |a[k].bytes| + |Joined(a[..k] + a[k + 1..])|
    ensures multiset(a[..k] + a[k + 1..]) == multiset(a) - multiset{a[k]}
  {
    var last := a[k..];
    assert a == a[..k] + last && last[1..] == a[k + 1..];
    assert a == a[..k] + [a[k]] + a[k + 1..];
    Append(a[..k], last, items);
    Append(a[..k], a[k + 1..], items);
  }

  /** The order of the pieces matters neither to the items nor to the length. */
  lemma {:induction false} Permuted(a: seq<Piece>, b: seq<Piece>, items: Piece -> multiset<Item>)
    requires multiset(a) == multiset(b)
    ensures Sum(a, items) == Sum(b, items) && |Joined(a)| == |Joined(b)|
    decreases |a|
  {
    assert |a| == |multiset(a)| == |b|;
    if a != [] {
      var k := Position(a[0], b);
      Removed(b, k, items);
      TailMultiset(a);
      Permuted(a[1..], b[..k] + b[k + 1..], items);
    }
  }

  lemma Position(p: Piece, b: seq<Piece>) returns (k: nat)
    requires p in multiset(b)
    ensures k < |b| && b[k] == p
  {
    k :| k < |b| && b[k] == p;
  }

  lemma TailMultiset(a: seq<Piece>)
    requires a != []
    ensures multiset(a[1..]) == multiset(a) - multiset{a[0]} && a[0] in multiset(a)
  {
    assert a == [a[0]] + a[1..];
  }

  /** A good piece before normal bytes is their first field. */
  lemma PieceFirst(p: Piece, rest: Bytes, config: seq<Config>, least: nat)
    requires Good(p, config) && least <= p.num && Normal(rest, config, p.num)
    ensures Normal(p.bytes + rest, config, least)
    ensures Readable(p.bytes + rest, config) && Readable(rest, config)
    ensures View(p.bytes + rest, config) == ItemOf(p, config) + View(rest, config)
  {
    var f := FirstField(p.bytes).value;
    FirstFieldLocal(p.bytes, p.bytes + rest);
    assert (p.bytes + rest)[|f.bytes|..] == rest;
    NormalReads(p.bytes + rest, config, least);
    NormalReads(rest, config, p.num);
  }

  /** The bytes of sorted good pieces are normal and read back as their items. */
  lemma {:induction false} JoinedIsNormal(pieces: seq<Piece>, config: seq<Config>, least: nat)
    requires AllGood(pieces, config) && Sorted(pieces) && (pieces != [] ==> least <= pieces[0].num)
    ensures Normal(Joined(pieces), config, least)
    ensures Readable(Joined(pieces), config) && View(Joined(pieces), config) == Sum(pieces, Items(config))
    decreases |pieces|
  {
    if pieces != [] {
      JoinedIsNormal(pieces[1..], config, pieces[0].num);
      PieceFirst(pieces[0], Joined(pieces[1..]), config, least);
    }
  }

  lemma StillGood(a: seq<Piece>, b: seq<Piece>, config: seq<Config>)
    requires AllGood(a, config) && multiset(a) == multiset(b)
    ensures AllGood(b, config)
  {
    forall i | 0 <= i < |b| ensures Good(b[i], config) {
      assert b[i] in multiset(b);
      assert b[i] in multiset(a);
    }
  }

  /** The pieces collected for one field: what is kept of it, in no more bytes. */
  predicate Taken(f: Field, config: seq<Config>, added: seq<Piece>)
    requires ReadableInside(f, Find(config, f.Num()))
  {
    && AllGood(added, config)
    && Sum(added, Items(config)) == KeptOf(f, Find(config, f.Num()))
    && |Joined(added)| <= |f.bytes|
  }

  lemma OnePiece(p: Piece, items: Piece -> multiset<Item>)
    ensures Sum([p], items) == items(p) && Joined([p]) == p.bytes
  {
    var one := [p];
    assert one[1..] == [];
  }

  lemma RawTaken(s: Bytes, config: seq<Config>)
    requires FirstField(s).Some?
    requires var f := FirstField(s).value; Find(config, f.Num()).Some? && !Descends(Find(config, f.Num()).value, f.tag)
    ensures Taken(FirstField(s).value, config, [Piece(FirstField(s).value.Num(), FirstField(s).value.bytes)])
  {
    var f := FirstField(s).value;
    FirstFieldLocal(s, f.bytes);
    OnePiece(Piece(f.Num(), f.bytes), Items(config));
  }

  /** A wrapped projection takes no more bytes than the field it comes from. */
  lemma WrapFits(s: Bytes, sub: Bytes)
    requires FirstField(s).Some? && FirstField(s).value.tag % 8 == WIRE_BYTES && |sub| <= |FirstField(s).value.payload|
    ensures FirstField(s).value.tag < 0x1_0000_0000_0000_0000 && |sub| < 0x1_0000_0000_0000_0000
    ensures |Wrapped(FirstField(s).value.tag, sub)| <= |FirstField(s).value.bytes|
  {
    var f, tag := FirstField(s).value, Uvarint(s);
    var value := s[tag.n..];
    AcceptedFits(s);
    AcceptedFits(value);
    PutMonotone(|sub|, |f.payload|);
    assert |f.payload| == Uvarint(value).value;
  }

  lemma MessageTaken(s: Bytes, config: seq<Config>, sub: Bytes)
    requires FirstField(s).Some?
    requires var f := FirstField(s).value;
             var cfg := Find(config, f.Num());
             && cfg.Some? && Descends(cfg.value, f.tag) && ReadableInside(f, cfg)
             && Projects(f.payload, cfg.value.subfields, sub)
    ensures var f := FirstField(s).value;
            Taken(f, config, if sub == [] then [] else [Piece(f.Num(), Wrapped(f.tag, sub))])
  {
    var f := FirstField(s).value;
    NormalReads(sub, Find(config, f.Num()).value.subfields, 0);
    if sub != [] {
      WrapFits(s, sub);
      var wrapped := Wrapped(f.tag, sub);
      WrappedIsField(f.tag, sub, []);
      assert wrapped + [] == wrapped;
      OnePiece(Piece(f.Num(), wrapped), Items(config));
    }
  }

  function After(items: multiset<Item>, kept: Option<multiset<Item>>): Option<multiset<Item>> {
    if kept.None? then None else Some(items + kept.value)
  }

  /** Where the loop is: the pieces hold what is kept of the first i bytes. */
  predicate Progress(data: Bytes, config: seq<Config>, i: nat, pieces: seq<Piece>)
    requires Readable(data, config)
  {
    && i <= |data| && Readable(data[i..], config) && AllGood(pieces, config) && |Joined(pieces)| <= i
    && Kept(data, config) == After(Sum(pieces, Items(config)), Kept(data[i..], config))
  }

  lemma KeptStep(s: Bytes, config: seq<Config>)
    requires Readable(s, config) && FirstField(s).Some?
    ensures var f := FirstField(s).value;
            && ReadableInside(f, Find(config, f.Num())) && Readable(s[|f.bytes|..], config)
            && Kept(s, config) == After(KeptOf(f, Find(config, f.Num())), Kept(s[|f.bytes|..], config))
  {
  }

  lemma AppendGood(a: seq<Piece>, b: seq<Piece>, config: seq<Config>)
    requires AllGood(a, config) && AllGood(b, config)
    ensures AllGood(a + b, config)
  {
  }

  lemma AfterTwice(a: multiset<Item>, b: multiset<Item>, kept: Option<multiset<Item>>)
    ensures After(a, After(b, kept)) == After(a + b, kept)
  {
    if kept.Some? {
      assert a + (b + kept.value) == a + b + kept.value;
    }
  }

  lemma Advance(data: Bytes, config: seq<Config>, i: nat, pieces: seq<Piece>, f: Field, added: seq<Piece>, next: int)
    requires Readable(data, config) && Progress(data, config, i, pieces)
    requires FirstField(data[i..]) == Some(f) && ReadableInside(f, Find(config, f.Num())) && Taken(f, config, added)
    requires next == i + |f.bytes|
    ensures next >= 0 && Progress(data, config, next, pieces + added)
  {
    var s := data[i..];
    var rest := data[next..];
    assert s[|f.bytes|..] == rest;
    KeptStep(s, config);
    AppendGood(pieces, added, config);
    Append(pieces, added, Items(config));
    AfterTwice(Sum(pieces, Items(config)), Sum(added, Items(config)), Kept(rest, config));
  }

  lemma InsertSorted(sorted: seq<Piece>, k: nat, p: Piece)
    requires Sorted(sorted) && k <= |sorted| && (k < |sorted| ==> p.num <= sorted[k].num)
    requires forall j | 0 <= j < k :: sorted[j].num < p.num
    ensures Sorted(sorted[..k] + [p] + sorted[k..])
  {
    var r := sorted[..k] + [p] + sorted[k..];
    forall i, j | 0 <= i < j < |r| ensures r[i].num <= r[j].num {
      if i < k {
        assert r[i] == sorted[i];
      }
      if j > k {
        assert r[j] == sorted[j - 1];
      }
      if i > k {
        assert r[i] == sorted[i - 1];
      }
    }
  }

  method Insert(sorted: seq<Piece>, p: Piece) returns (r: seq<Piece>)
    requires Sorted(sorted)
    ensures Sorted(r) && multiset(r) == multiset(sorted) + multiset{p}
  {
    var k := 0;
    while k < |sorted| && sorted[k].num < p.num
      invariant k <= |sorted| && forall j | 0 <= j < k :: sorted[j].num < p.num
    {
      k := k + 1;
    }
    InsertSorted(sorted, k, p);
    assert sorted == sorted[..k] + sorted[k..];
    r := sorted[..k] + [p] + sorted[k..];
  }

  /** Sorting leaves the order of equal numbers open: sort.Slice is not stable. */
  method SortByNumber(pieces: seq<Piece>) returns (sorted: seq<Piece>)
    ensures Sorted(sorted) && multiset(sorted) == multiset(pieces)
  {
    sorted := [];
    for i := 0 to |pieces|
      invariant Sorted(sorted) && multiset(sorted) == multiset(pieces[..i])
    {
      assert pieces[..i + 1] == pieces[..i] + [pieces[i]];
      sorted := Insert(sorted, pieces[i]);
    }
    assert pieces[..|pieces|] == pieces;
  }

  /** Where the payload of a complete length-delimited field lies. */
  lemma PayloadAt(data: Bytes, fieldStart: nat, valStart: nat)
    requires fieldStart <= |data| && FirstField(data[fieldStart..]).Some?
    requires var tag := Uvarint(data[fieldStart..]);
             && tag.value % 8 == WIRE_BYTES
             && valStart == fieldStart + tag.n + Uvarint(data[fieldStart + tag.n..]).n
    ensures var f := FirstField(data[fieldStart..]).value;
            var valEnd := valStart + Uvarint(data[fieldStart + Uvarint(data[fieldStart..]).n..]).value;
            && valStart <= valEnd == fieldStart + |f.bytes| <= |data| && f.payload == data[valStart..valEnd]
  {
    var tag := Uvarint(data[fieldStart..]);
    assert data[fieldStart..][tag.n..] == data[fieldStart + tag.n..];
  }

  lemma BytesAt(data: Bytes, fieldStart: nat)
    requires fieldStart <= |data| && FirstField(data[fieldStart..]).Some?
    ensures var tag, f := Uvarint(data[fieldStart..]), FirstField(data[fieldStart..]).value;
            && fieldStart + tag.n <= |data|
            && ValueSize(tag.value % 8, data[fieldStart + tag.n..]) == Some(|f.bytes| - tag.n)
            && fieldStart + |f.bytes| <= |data| && f.bytes == data[fieldStart..fieldStart + |f.bytes|]
  {
    var tag := Uvarint(data[fieldStart..]);
    assert data[fieldStart..][tag.n..] == data[fieldStart + tag.n..];
  }

  lemma Start(data: Bytes, config: seq<Config>)
    requires Readable(data, config)
    ensures Progress(data, config, 0, [])
  {
    assert data[0..] == data;
    var kept := Kept(data, config);
    if kept.Some? {
      assert multiset{} + kept.value == kept.value;
    }
  }

  /** What the loop has when it stops before the end or at it. */
  lemma Stopped(data: Bytes, config: seq<Config>, i: nat, pieces: seq<Piece>)
    requires Readable(data, config) && Progress(data, config, i, pieces) && Uvarint(data[i..]).n <= 0
    ensures View(data, config) == Sum(pieces, Items(config))
  {
  }

  lemma Voided(data: Bytes, config: seq<Config>, i: nat, pieces: seq<Piece>)
    requires Readable(data, config) && Progress(data, config, i, pieces)
    requires Uvarint(data[i..]).n > 0 && !KnownWire(Uvarint(data[i..]).value)
    ensures Projects(data, config, [])
  {
  }

  lemma SortedProjects(data: Bytes, config: seq<Config>, pieces: seq<Piece>, sorted: seq<Piece>)
    requires Readable(data, config) && View(data, config) == Sum(pieces, Items(config))
    requires AllGood(pieces, config) && |Joined(pieces)| <= |data|
    requires Sorted(sorted) && multiset(sorted) == multiset(pieces)
    ensures Projects(data, config, Joined(sorted))
  {
    StillGood(pieces, sorted, config);
    Permuted(pieces, sorted, Items(config));
    JoinedIsNormal(sorted, config, 0);
  }

  /** The last loop of the extractor. */
  method Concatenate(pieces: seq<Piece>) returns (out: Bytes)
    ensures out == Joined(pieces)
  {
    out := [];
    for i := 0 to |pieces|
      invariant out + Joined(pieces[i..]) == Joined(pieces)
    {
      out := out + pieces[i].bytes;
    }
  }

  // ----- Projections

  lemma {:induction false} ViewNumbers(out: Bytes, config: seq<Config>, least: nat)
    requires Normal(out, config, least) && Readable(out, config)
    ensures forall x | x in View(out, config) :: x.num >= least
    decreases |out|
  {
    if out != [] {
      var f := FirstField(out).value;
      NormalReads(out, config, least);
      NormalReads(out[|f.bytes|..], config, f.Num());
      ViewNumbers(out[|f.bytes|..], config, f.Num());
    }
  }

  /** No field number repeats, in the message or in a message taken apart. */
  predicate Strict(out: Bytes, config: seq<Config>, over: int)
    decreases |out|, 1
  {
    out == [] ||
    var f := FirstField(out);
    && f.Some? && f.value.Num() > over && StrictInside(f.value, Find(config, f.value.Num()))
    && Strict(out[|f.value.bytes|..], config, f.value.Num())
  }

  predicate StrictInside(f: Field, cfg: Option<Config>)
    decreases |f.payload|, 3
  {
    cfg.Some? && Descends(cfg.value, f.tag) ==> Strict(f.payload, cfg.value.subfields, -1)
  }

  lemma {:induction false} StrictNumbers(out: Bytes, config: seq<Config>, least: nat, over: int)
    requires Normal(out, config, least) && Readable(out, config) && Strict(out, config, over)
    ensures forall x | x in View(out, config) :: x.num > over
  {
    if out != [] {
      ViewNumbers(out, config, FirstField(out).value.Num());
    }
  }

  /** Normal bytes start with one item, followed by the items of the rest. */
  lemma Uncons(out: Bytes, config: seq<Config>, least: nat)
    requires Normal(out, config, least) && out != []
    ensures var f := FirstField(out).value;
            && Find(config, f.Num()).Some? && ReadableInside(f, Find(config, f.Num())) && Readable(out, config)
            && Readable(out[|f.bytes|..], config)
            && View(out, config) == multiset{TheItem(f, Find(config, f.Num()).value)} + View(out[|f.bytes|..], config)
  {
    var f := FirstField(out).value;
    NormalReads(out, config, least);
    NormalReads(out[|f.bytes|..], config, f.Num());
    NormalFieldReads(f, Find(config, f.Num()));
  }

  /** Two views that start with an item each: the items agree when they are the least of both. */
  lemma SameLeast(x: Item, xs: multiset<Item>, y: Item, ys: multiset<Item>)
    requires multiset{x} + xs == multiset{y} + ys
    requires forall i | i in xs :: i.num > x.num
    requires forall i | i in ys :: i.num >= y.num
    ensures x == y && xs == ys
  {
    assert x in multiset{y} + ys && y in multiset{x} + xs;
    assert xs == multiset{x} + xs - multiset{x};
    assert ys == multiset{y} + ys - multiset{y};
  }

  lemma {:induction false} SameField(f: Field, g: Field, cfg: Option<Config>)
    requires NormalField(f, cfg) && NormalField(g, cfg) && StrictInside(f, cfg)
    requires ReadableInside(f, cfg) && ReadableInside(g, cfg) && TheItem(f, cfg.value) == TheItem(g, cfg.value)
    ensures f.bytes == g.bytes
    decreases |f.payload|, 3
  {
    if Descends(cfg.value, f.tag) {
      NormalUnique(f.payload, g.payload, cfg.value.subfields, 0, 0, -1);
    }
  }

  /** What is kept determines the normal bytes when no field number repeats. */
  lemma {:induction false} NormalUnique(y: Bytes, z: Bytes, config: seq<Config>, least: nat, least': nat, over: int)
    requires Normal(y, config, least) && Normal(z, config, least') && Strict(y, config, over)
    requires Readable(y, config) && Readable(z, config) && View(y, config) == View(z, config)
    ensures y == z
    decreases |y|, 1
  {
    NormalReads(y, config, least);
    NormalReads(z, config, least');
    if y != [] && z != [] {
      var f, g := FirstField(y).value, FirstField(z).value;
      var y', z' := y[|f.bytes|..], z[|g.bytes|..];
      SameFirst(y, z, config, least, least', over);
      NormalUnique(y', z', config, f.Num(), g.Num(), f.Num());
      assert y == f.bytes + y' && z == g.bytes + z';
    }
  }

  /** The first fields are the same, and the rest keeps the same. */
  lemma {:induction false} SameFirst(y: Bytes, z: Bytes, config: seq<Config>, least: nat, least': nat, over: int)
    requires Normal(y, config, least) && Normal(z, config, least') && Strict(y, config, over) && y != [] && z != []
    requires Readable(y, config) && Readable(z, config) && View(y, config) == View(z, config)
    ensures var f, g := FirstField(y).value, FirstField(z).value;
            var y', z' := y[|f.bytes|..], z[|g.bytes|..];
            && f.bytes == g.bytes
            && Readable(y', config) && Readable(z', config) && View(y', config) == View(z', config)
    decreases |y|, 0
  {
    var f, g := FirstField(y).value, FirstField(z).value;
    var y', z' := y[|f.bytes|..], z[|g.bytes|..];
    Uncons(y, config, least);
    Uncons(z, config, least');
    StrictNumbers(y', config, f.Num(), f.Num());
    ViewNumbers(z', config, g.Num());
    SameLeast(TheItem(f, Find(config, f.Num()).value), View(y', config),
              TheItem(g, Find(config, g.Num()).value), View(z', config));
    SameField(f, g, Find(config, f.Num()));
  }

  /** Every projection of the same bytes is the same when one of them repeats no field number; and to extract
      from a projection again gives a projection of the first bytes, in that case the projection itself. */
  lemma ExtractionIsIdempotent(data: Bytes, config: seq<Config>, out: Bytes, other: Bytes, again: Bytes)
    requires Readable(data, config) && Projects(data, config, out) && Projects(data, config, other)
    requires Projects(out, config, again)
    ensures Projects(data, config, again)
    ensures Strict(out, config, -1) ==> out == other == again
  {
    if Strict(out, config, -1) {
      NormalUnique(out, other, config, 0, 0, -1);
      NormalUnique(out, again, config, 0, 0, -1);
    }
  }

  lemma PairReads(p: Piece, q: Piece, config: seq<Config>)
    requires Good(p, config) && Good(q, config) && p.num == q.num
    ensures var data := p.bytes + q.bytes;
            && Normal(data, config, 0) && Readable(data, config)
            && View(data, config) == ItemOf(p, config) + ItemOf(q, config)
  {
    var end: Bytes := [];
    PieceFirst(q, end, config, q.num);
    assert q.bytes + end == q.bytes;
    PieceFirst(p, q.bytes, config, 0);
  }

  /** Two fields with one number may come out in either order: the token content of such a message is open. */
  lemma EqualNumbersMaySwap(p: Piece, q: Piece, config: seq<Config>)
    requires Good(p, config) && Good(q, config) && p.num == q.num
    ensures var data, swapped := p.bytes + q.bytes, q.bytes + p.bytes;
            Readable(data, config) && Projects(data, config, data) && Projects(data, config, swapped)
  {
    PairReads(p, q, config);
    PairReads(q, p, config);
  }
}
