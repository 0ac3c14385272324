/** Reading what the encoder wrote: the normal form of the element, and nothing beyond its bytes. */
module BinaryRoundTrip {
  import opened Bytes
  import opened Jid
  import opened BinaryNode
  import opened BinaryParse

  // ----- Normal forms

  function NormString(t: Tokens, s: Bytes, asString: bool): Value
    requires ValidTokens(t)
  {
    if WrittenRaw(t, s) && !asString then Raw(s) else Str(s)
  }

  /** What the four JID forms carry. */
  function NormJID(j: JID): JID {
    if WrittenAsAD(j) then JID(j.user, 0, j.device % 256, 0, j.server)
    else if j.server == MessengerServer then JID(j.user, 0, j.device, 0, j.server)
    else if j.server == InteropServer then JID(j.user, 0, j.device, j.integrator, j.server)
    else JID(j.user, 0, 0, 0, j.server)
  }

  function NormValue(t: Tokens, v: Value, asString: bool): Value
    requires ValidTokens(t)
    decreases v, 0
  {
    match v
    case Nil => Nil
    case Str(s) => NormString(t, s, asString)
    case Raw(b) => if asString then Str(b) else Raw(b)
    case Jid(j) => Jid(NormJID(j))
    case Int(n) => NormString(t, Decimal(n), asString)
    case Bool(b) => NormString(t, BoolText(b), asString)
    case List(nodes) => if nodes == [] then Nil else List(NormNodes(t, nodes))
    case Other => Nil
  }

  function NormNodes(t: Tokens, nodes: seq<Node>): (r: seq<Node>)
    requires ValidTokens(t)
    ensures |r| == |nodes|
    decreases nodes, 0
  {
    if nodes == [] then [] else [NormNode(t, nodes[0])] + NormNodes(t, nodes[1..])
  }

  function NormAttrs(t: Tokens, attrs: seq<Attr>): seq<Attr>
    requires ValidTokens(t)
    decreases attrs, 0
  {
    if attrs == [] then []
    else if Dropped(attrs[0].value) then NormAttrs(t, attrs[1..])
    else [Attr(attrs[0].key, NormValue(t, attrs[0].value, true))] + NormAttrs(t, attrs[1..])
  }

  function NormNode(t: Tokens, n: Node): Node
    requires ValidTokens(t)
    decreases n, 0
  {
    Node(n.tag, NormAttrs(t, n.attrs), NormValue(t, n.content, false))
  }

  // ----- Bytes and numbers

  lemma ReadsByte(b: byte, rest: Bytes)
    ensures ReadByte([b] + rest) == Ok((b, rest))
  {
    assert ([b] + rest)[1..] == rest;
  }

  lemma ReadsRaw(b: Bytes, rest: Bytes)
    ensures ReadRaw(b + rest, |b|) == Ok((b, rest))
  {
    assert (b + rest)[..|b|] == b && (b + rest)[|b|..] == rest;
  }

  lemma ReadsInt(v: nat, n: nat, rest: Bytes)
    requires v < Pow256(n)
    ensures ReadInt(BigEndian(v, n) + rest, n) == Ok((v, rest))
  {
    ReadsRaw(BigEndian(v, n), rest);
    BigEndianRoundTrip(v, n);
  }

  /** A list size survives exactly when it fits 16 bits. */
  lemma ListSizeRoundTrip(n: nat, rest: Bytes)
    ensures var b := EncListStart(n);
            ReadListSize(b[0], b[1..] + rest) == Ok((n, rest)) <==> n < 0x1_0000
  {
    Powers();
    var b := EncListStart(n);
    if n == 0 {
      assert b[1..] + rest == rest;
    } else if n < 256 {
      assert b[1..] == BigEndian(n, 1);
      ReadsInt(n, 1, rest);
    } else {
      assert b[1..] == BigEndian(n, 2);
      ReadsRaw(BigEndian(n, 2), rest);
      BigEndianRoundTrip(n, 2);
    }
  }

  // ----- Packed strings

  lemma UnpackPair(tag: byte, a: byte, b: byte)
    requires tag == NIBBLE8 || tag == HEX8
    requires Packable(tag, a) && Packable(tag, b) && a != 0
    ensures Unpack(tag, PackPair(tag, a, b) / 16) == Ok(a)
    ensures b != 0 ==> Unpack(tag, PackPair(tag, a, b) % 16) == Ok(b)
    ensures b == 0 ==> Unpack(tag, PackPair(tag, a, b) % 16).Ok?
  {
    assert PackPair(tag, a, b) / 16 == Pack(tag, a) && PackPair(tag, a, b) % 16 == Pack(tag, b);
  }

  predicate PackableAll(tag: byte, s: Bytes) {
    (tag == NIBBLE8 || tag == HEX8) && forall i | 0 <= i < |s| :: Packable(tag, s[i]) && s[i] != 0
  }

  lemma ReadsPair(tag: byte, n: nat, a: byte, b: byte, others: Bytes)
    requires tag == NIBBLE8 || tag == HEX8
    requires Packable(tag, a) && Packable(tag, b) && a != 0
    requires ReadPairs(tag, n, others).Ok?
    ensures var p, q := ReadPairs(tag, n + 1, [PackPair(tag, a, b)] + others), ReadPairs(tag, n, others);
            && p.Ok? && p.value.1 == q.value.1
            && |p.value.0| == |q.value.0| + 2 && p.value.0[0] == a && (b != 0 ==> p.value.0[1] == b)
            && p.value.0[2..] == q.value.0
  {
    ReadsByte(PackPair(tag, a, b), others);
    UnpackPair(tag, a, b);
  }

  /** What unpacking yields: the characters, and one character of padding after an odd number of them. */
  predicate Unpacks(tag: byte, s: Bytes, bs: Bytes, rest: Bytes) {
    var p := ReadPairs(tag, (|s| + 1) / 2, bs);
    p.Ok? && p.value.1 == rest && |p.value.0| == |s| + |s| % 2 && p.value.0[..|s|] == s
  }

  lemma {:induction false} ReadsPairs(tag: byte, s: Bytes, rest: Bytes)
    requires PackableAll(tag, s)
    ensures Unpacks(tag, s, PackAll(tag, s) + rest, rest)
    decreases |s|
  {
    if s == [] {
      assert PackAll(tag, s) + rest == rest;
    } else if |s| == 1 {
      ReadsLast(tag, s, rest);
    } else {
      ReadsPairs(tag, s[2..], rest);
      ReadsFirstPair(tag, s, PackAll(tag, s[2..]) + rest, rest);
      assert PackAll(tag, s) + rest == [PackPair(tag, s[0], s[1])] + (PackAll(tag, s[2..]) + rest);
    }
  }

  lemma ReadsLast(tag: byte, s: Bytes, rest: Bytes)
    requires PackableAll(tag, s) && |s| == 1
    ensures Unpacks(tag, s, PackAll(tag, s) + rest, rest)
  {
    ReadsPair(tag, 0, s[0], 0, rest);
    assert PackAll(tag, s) + rest == [PackPair(tag, s[0], 0)] + rest;
    var got := ReadPairs(tag, 1, PackAll(tag, s) + rest).value.0;
    assert got[..1] == s;
  }

  lemma ReadsFirstPair(tag: byte, s: Bytes, others: Bytes, rest: Bytes)
    requires PackableAll(tag, s) && |s| >= 2 && Unpacks(tag, s[2..], others, rest)
    ensures Unpacks(tag, s, [PackPair(tag, s[0], s[1])] + others, rest)
  {
    var n := (|s[2..]| + 1) / 2;
    assert (|s| + 1) / 2 == n + 1 && |s| % 2 == |s[2..]| % 2;
    ReadsPair(tag, n, s[0], s[1], others);
    SplitTwo(ReadPairs(tag, n + 1, [PackPair(tag, s[0], s[1])] + others).value.0, s);
  }

  lemma SplitTwo(got: Bytes, s: Bytes)
    requires 2 <= |s| <= |got| && got[0] == s[0] && got[1] == s[1] && got[2..][..|s| - 2] == s[2..]
    ensures got[..|s|] == s
  {
    assert got == got[..2] + got[2..] && s == s[..2] + s[2..];
  }

  lemma ReadsPacked(tag: byte, s: Bytes, rest: Bytes)
    requires PackableAll(tag, s) && |s| <= PACKED_MAX
    ensures ReadPacked(tag, [RoundedLength(|s|)] + PackAll(tag, s) + rest) == Ok((s, rest))
  {
    var start := RoundedLength(|s|);
    assert [start] + PackAll(tag, s) + rest == [start] + (PackAll(tag, s) + rest);
    ReadsByte(start, PackAll(tag, s) + rest);
    RoundedHalves(|s|);
    ReadsPairs(tag, s, rest);
    var got := ReadPairs(tag, (|s| + 1) / 2, PackAll(tag, s) + rest).value.0;
    if |s| % 2 == 0 {
      assert got == got[..|s|];
    } else {
      assert got[..|got| - 1] == s;
    }
  }

  lemma RoundedHalves(n: nat)
    requires n <= PACKED_MAX
    ensures RoundedLength(n) % 128 == (n + 1) / 2 && (RoundedLength(n) >= 128 <==> n % 2 == 1)
  {
  }

  // ----- Strings and byte arrays

  lemma ReadsBytes(t: Tokens, b: Bytes, asString: bool, rest: Bytes)
    requires EncRaw(b).Ok?
    ensures ReadValue(t, EncRaw(b).value + rest, asString) == Ok((if asString then Str(b) else Raw(b), rest))
  {
    var n := |b|;
    Powers();
    ReadsRaw(b, rest);
    if n < 256 {
      assert EncRaw(b).value + rest == [BINARY8] + (BigEndian(n, 1) + (b + rest));
      ReadsByte(BINARY8, BigEndian(n, 1) + (b + rest));
      ReadsInt(n, 1, b + rest);
    } else if n < 0x10_0000 {
      assert EncRaw(b).value + rest == [BINARY20] + (BigEndian(n, 3) + (b + rest));
      ReadsByte(BINARY20, BigEndian(n, 3) + (b + rest));
      ReadsInt20(n, b + rest);
    } else {
      assert EncRaw(b).value + rest == [BINARY32] + (BigEndian(n, 4) + (b + rest));
      ReadsByte(BINARY32, BigEndian(n, 4) + (b + rest));
      ReadsInt(n, 4, b + rest);
    }
  }

  /** Twenty bits: the ignored top bits of the first byte are zero. */
  lemma ReadsInt20(n: nat, rest: Bytes)
    requires n < 0x10_0000
    ensures ReadInt20(BigEndian(n, 3) + rest) == Ok((n, rest))
  {
    Powers();
    var b := BigEndian(n, 3);
    assert b[..2] == BigEndian(n / 256, 2) && b[..2][..1] == BigEndian(n / 256 / 256, 1);
    assert BigEndian(n / 256 / 256, 1) == BigEndian(n / 256 / 256 / 256, 0) + [n / 256 / 256 % 256];
    assert b[0] == n / 256 / 256 % 256 < 16;
    assert [b[0] % 16, b[1], b[2]] == b;
    BigEndianRoundTrip(n, 3);
    assert (b + rest)[3..] == rest;
  }

  lemma ReadsString(t: Tokens, s: Bytes, asString: bool, rest: Bytes)
    requires ValidTokens(t) && EncString(t, s).Ok?
    ensures ReadValue(t, EncString(t, s).value + rest, asString) == Ok((NormString(t, s, asString), rest))
  {
    var single, double := IndexOfSingleToken(t, s), IndexOfDoubleByteToken(t, s, |t.double|);
    if single.Some? {
      ReadsByte(single.value, rest);
    } else if double.Some? {
      var (d, i) := double.value;
      Powers();
      assert BigEndian(i, 1) == BigEndian(i / 256, 0) + [i % 256] == [i];
      assert [DICTIONARY0 + d, i] + rest == [DICTIONARY0 + d] + (BigEndian(i, 1) + rest);
      ReadsByte(DICTIONARY0 + d, BigEndian(i, 1) + rest);
      ReadsInt(i, 1, rest);
    } else if ValidNibble(s) {
      ReadsPackedValue(t, NIBBLE8, s, asString, rest);
    } else if ValidHex(s) {
      ReadsPackedValue(t, HEX8, s, asString, rest);
    } else {
      ReadsBytes(t, s, asString, rest);
    }
  }

  lemma ReadsPackedValue(t: Tokens, tag: byte, s: Bytes, asString: bool, rest: Bytes)
    requires PackableAll(tag, s) && |s| <= PACKED_MAX
    ensures ReadValue(t, EncPacked(tag, s) + rest, asString) == Ok((Str(s), rest))
  {
    var body := [RoundedLength(|s|)] + PackAll(tag, s) + rest;
    assert EncPacked(tag, s) + rest == [tag] + body;
    ReadsByte(tag, body);
    ReadsPacked(tag, s, rest);
  }

  // ----- JIDs

  lemma ReadsADJID(t: Tokens, j: JID, rest: Bytes)
    requires ValidTokens(t) && EncJID(t, j).Ok? && WrittenAsAD(j)
    ensures ReadADJID(t, EncJID(t, j).value[1..] + rest) == Ok((Jid(NormJID(j)), rest))
  {
    EncAD(t, j);
    var agent, device, user := j.ActualAgent(), j.device % 256, EncString(t, j.user).value;
    Tail4(AD_JID, [agent], [device], user, rest);
    ReadsByte(agent, [device] + (user + rest));
    ReadsByte(device, user + rest);
    ReadsString(t, j.user, true, rest);
    ADJIDOf(t, [agent] + ([device] + (user + rest)), agent, device, user + rest, j.user, rest);
    DomainRoundTrip(j, device);
  }

  lemma ADJIDOf(t: Tokens, bs: Bytes, agent: byte, device: byte, bs': Bytes, user: Bytes, rest: Bytes)
    requires ReadByte(bs) == Ok((agent, [device] + bs'))
    requires ReadByte([device] + bs') == Ok((device, bs')) && ReadValue(t, bs', true) == Ok((Str(user), rest))
    ensures ReadADJID(t, bs) == Ok((Jid(NewADJID(user, agent, device)), rest))
  {
  }

  function NumberBytes(j: JID): Bytes {
    BigEndian(j.device, 2) + if j.server == InteropServer then BigEndian(j.integrator, 2) else []
  }

  lemma EncAD(t: Tokens, j: JID)
    requires ValidTokens(t) && WrittenAsAD(j)
    ensures EncJID(t, j).Ok? == EncString(t, j.user).Ok?
    ensures EncJID(t, j).Ok? ==>
              EncJID(t, j).value == [AD_JID] + [j.ActualAgent()] + [j.device % 256] + EncString(t, j.user).value
  {
  }

  lemma EncNumbered(t: Tokens, j: JID)
    requires ValidTokens(t) && (j.server == MessengerServer || j.server == InteropServer)
    ensures !WrittenAsAD(j)
    ensures EncJID(t, j).Ok? == (EncString(t, j.user).Ok? && EncString(t, j.server).Ok?)
    ensures EncJID(t, j).Ok? ==>
              EncJID(t, j).value == [if j.server == MessengerServer then FB_JID else INTEROP_JID]
                                    + EncString(t, j.user).value + NumberBytes(j) + EncString(t, j.server).value
  {
    ServersDiffer();
    if EncJID(t, j).Ok? {
      var user, device, server := EncString(t, j.user).value, BigEndian(j.device, 2), EncString(t, j.server).value;
      if j.server == InteropServer {
        var integrator := BigEndian(j.integrator, 2);
        assert [INTEROP_JID] + user + device + integrator + server ==
               [INTEROP_JID] + user + (device + integrator) + server;
      } else {
        assert NumberBytes(j) == device;
      }
    }
  }

  lemma EncPair(t: Tokens, j: JID)
    requires ValidTokens(t) && !WrittenAsAD(j) && j.server != MessengerServer && j.server != InteropServer
    ensures EncJID(t, j).Ok? == ((j.user == [] || EncString(t, j.user).Ok?) && EncString(t, j.server).Ok?)
    ensures EncJID(t, j).Ok? ==>
              EncJID(t, j).value == [JID_PAIR] + (if j.user == [] then [LIST_EMPTY] else EncString(t, j.user).value)
                                    + EncString(t, j.server).value
  {
  }

  lemma Tail3(tag: byte, a: Bytes, b: Bytes, c: Bytes)
    ensures ([tag] + a + b)[1..] + c == a + (b + c)
  {
  }

  lemma Tail4(tag: byte, a: Bytes, b: Bytes, c: Bytes, d: Bytes)
    ensures ([tag] + a + b + c)[1..] + d == a + (b + (c + d))
  {
  }

  lemma ReadsFBJID(t: Tokens, j: JID, rest: Bytes)
    requires ValidTokens(t) && EncJID(t, j).Ok? && j.server == MessengerServer
    ensures ReadFBJID(t, EncJID(t, j).value[1..] + rest) == Ok((Jid(NormJID(j)), rest))
  {
    EncNumbered(t, j);
    var user, device, server := EncString(t, j.user).value, BigEndian(j.device, 2), EncString(t, j.server).value;
    ServersDiffer();
    assert NumberBytes(j) == device;
    Tail4(FB_JID, user, device, server, rest);
    ReadsString(t, j.user, true, device + (server + rest));
    Powers();
    ReadsInt(j.device, 2, server + rest);
    ReadsString(t, j.server, true, rest);
    FBJIDOf(t, user + (device + (server + rest)), j.user, device + (server + rest), j.device, server + rest, rest);
  }

  lemma FBJIDOf(t: Tokens, bs: Bytes, user: Bytes, bs': Bytes, device: uint16, bs'': Bytes, rest: Bytes)
    requires ReadValue(t, bs, true) == Ok((Str(user), bs')) && ReadInt(bs', 2) == Ok((device, bs''))
    requires ReadValue(t, bs'', true) == Ok((Str(MessengerServer), rest))
    ensures ReadFBJID(t, bs) == Ok((Jid(JID(user, 0, device, 0, MessengerServer)), rest))
  {
  }

  lemma ReadsInteropJID(t: Tokens, j: JID, rest: Bytes)
    requires ValidTokens(t) && EncJID(t, j).Ok? && j.server == InteropServer
    ensures ReadInteropJID(t, EncJID(t, j).value[1..] + rest) == Ok((Jid(NormJID(j)), rest))
  {
    EncNumbered(t, j);
    var user, server := EncString(t, j.user).value, EncString(t, j.server).value;
    var device, integrator := BigEndian(j.device, 2), BigEndian(j.integrator, 2);
    var afterDevice := integrator + (server + rest);
    ServersDiffer();
    Tail4(INTEROP_JID, user, device + integrator, server, rest);
    assert device + integrator + (server + rest) == device + afterDevice;
    ReadsString(t, j.user, true, device + afterDevice);
    Powers();
    ReadsInt(j.device, 2, afterDevice);
    ReadsInt(j.integrator, 2, server + rest);
    ReadsString(t, j.server, true, rest);
    InteropJIDOf(t, user + (device + afterDevice), j.user, device + afterDevice, j.device, afterDevice,
                 j.integrator, server + rest, rest);
  }

  lemma InteropJIDOf(t: Tokens, bs: Bytes, user: Bytes, bs': Bytes, device: uint16, bs'': Bytes,
                     integrator: uint16, bs3: Bytes, rest: Bytes)
    requires ReadValue(t, bs, true) == Ok((Str(user), bs')) && ReadInt(bs', 2) == Ok((device, bs''))
    requires ReadInt(bs'', 2) == Ok((integrator, bs3))
    requires ReadValue(t, bs3, true) == Ok((Str(InteropServer), rest))
    ensures ReadInteropJID(t, bs) == Ok((Jid(JID(user, 0, device, integrator, InteropServer)), rest))
  {
  }

  lemma ReadsJIDPair(t: Tokens, j: JID, rest: Bytes)
    requires ValidTokens(t) && EncJID(t, j).Ok?
    requires !WrittenAsAD(j) && j.server != MessengerServer && j.server != InteropServer
    ensures ReadJIDPair(t, EncJID(t, j).value[1..] + rest) == Ok((Jid(NormJID(j)), rest))
  {
    EncPair(t, j);
    var user := if j.user == [] then [LIST_EMPTY] else EncString(t, j.user).value;
    var server := EncString(t, j.server).value;
    Tail3(JID_PAIR, user, server, rest);
    if j.user == [] {
      ReadsByte(LIST_EMPTY, server + rest);
    } else {
      ReadsString(t, j.user, true, server + rest);
    }
    ReadsString(t, j.server, true, rest);
    JIDPairOf(t, user + (server + rest), if j.user == [] then Nil else Str(j.user), server + rest, j.server, rest);
  }

  lemma JIDPairOf(t: Tokens, bs: Bytes, user: Value, bs': Bytes, server: Bytes, rest: Bytes)
    requires ReadValue(t, bs, true) == Ok((user, bs')) && (user == Nil || user.Str?)
    requires ReadValue(t, bs', true) == Ok((Str(server), rest))
    ensures ReadJIDPair(t, bs) == Ok((Jid(NewJID(if user == Nil then [] else user.str, server)), rest))
  {
  }

  lemma ReadsJIDTag(t: Tokens, tag: byte, asString: bool, rest: Bytes)
    ensures tag == AD_JID ==> ReadValue(t, [tag] + rest, asString) == ReadADJID(t, rest)
    ensures tag == FB_JID ==> ReadValue(t, [tag] + rest, asString) == ReadFBJID(t, rest)
    ensures tag == INTEROP_JID ==> ReadValue(t, [tag] + rest, asString) == ReadInteropJID(t, rest)
    ensures tag == JID_PAIR ==> ReadValue(t, [tag] + rest, asString) == ReadJIDPair(t, rest)
  {
    ReadsByte(tag, rest);
  }

  /** The tag byte of a JID selects the reader of its form. */
  lemma JIDTag(t: Tokens, j: JID)
    requires ValidTokens(t) && EncJID(t, j).Ok?
    ensures EncJID(t, j).value != []
    ensures EncJID(t, j).value[0] ==
            if WrittenAsAD(j) then AD_JID else if j.server == MessengerServer then FB_JID
            else if j.server == InteropServer then INTEROP_JID else JID_PAIR
  {
  }

  /** Every JID reads back as its normal form. */
  lemma ReadsJID(t: Tokens, j: JID, asString: bool, rest: Bytes)
    requires ValidTokens(t) && EncJID(t, j).Ok?
    ensures ReadValue(t, EncJID(t, j).value + rest, asString) == Ok((Jid(NormJID(j)), rest))
  {
    var b := EncJID(t, j).value;
    JIDTag(t, j);
    assert b + rest == [b[0]] + (b[1..] + rest);
    ReadsJIDTag(t, b[0], asString, b[1..] + rest);
    ServersDiffer();
    if WrittenAsAD(j) {
      ReadsADJID(t, j, rest);
    } else if j.server == MessengerServer {
      ReadsFBJID(t, j, rest);
    } else if j.server == InteropServer {
      ReadsInteropJID(t, j, rest);
    } else {
      ReadsJIDPair(t, j, rest);
    }
  }

  /** The JIDs the wire carries unchanged. */
  lemma CarriedJIDs(j: JID)
    ensures NormJID(j) == j <==>
            && j.rawAgent == 0
            && (WrittenAsAD(j) ==> j.device < 256)
            && (!WrittenAsAD(j) && j.server != MessengerServer && j.server != InteropServer ==> j.device == 0)
            && (j.integrator != 0 ==> !WrittenAsAD(j) && j.server == InteropServer)
  {
    ServersDiffer();
  }

  // ----- Elements

  /** A Go map has one entry per key. */
  predicate DistinctKeys(attrs: seq<Attr>) {
    forall i, j | 0 <= i < j < |attrs| :: attrs[i].key != attrs[j].key
  }

  /** Attributes are maps, in every element. */
  predicate Maps(v: Value)
    decreases v, 0
  {
    v.List? ==> NodesMaps(v.nodes)
  }

  predicate NodesMaps(nodes: seq<Node>)
    decreases nodes, 0
  {
    nodes != [] ==> NodeMaps(nodes[0]) && NodesMaps(nodes[1..])
  }

  predicate AttrsMaps(attrs: seq<Attr>)
    decreases attrs, 0
  {
    attrs != [] ==> Maps(attrs[0].value) && AttrsMaps(attrs[1..])
  }

  predicate NodeMaps(n: Node)
    decreases n, 0
  {
    DistinctKeys(n.attrs) && AttrsMaps(n.attrs) && Maps(n.content)
  }

  /** Attributes are maps, and sizes are small enough for the reader to stay in step with the writer: an element of
      size 65536 still is, since it reads as one of size 0 and fails at once. */
  predicate Fits(v: Value)
    decreases v, 0
  {
    v.List? ==> |v.nodes| < 0x1_0000 && NodesFit(v.nodes)
  }

  predicate NodesFit(nodes: seq<Node>)
    decreases nodes, 0
  {
    nodes != [] ==> NodeFits(nodes[0]) && NodesFit(nodes[1..])
  }

  predicate AttrsFit(attrs: seq<Attr>)
    decreases attrs, 0
  {
    attrs != [] ==> Fits(attrs[0].value) && AttrsFit(attrs[1..])
  }

  predicate NodeFits(n: Node)
    decreases n, 0
  {
    ListSize(n) <= 0x1_0000 && DistinctKeys(n.attrs) && AttrsFit(n.attrs) && Fits(n.content)
  }

  /** No element has the tag "" or "0", and every size fits 16 bits. */
  predicate Carried(v: Value)
    decreases v, 0
  {
    v.List? ==> |v.nodes| < 0x1_0000 && NodesCarried(v.nodes)
  }

  predicate NodesCarried(nodes: seq<Node>)
    decreases nodes, 0
  {
    nodes != [] ==> NodeCarried(nodes[0]) && NodesCarried(nodes[1..])
  }

  predicate AttrsCarried(attrs: seq<Attr>)
    decreases attrs, 0
  {
    attrs != [] ==> Carried(attrs[0].value) && AttrsCarried(attrs[1..])
  }

  predicate NodeCarried(n: Node)
    decreases n, 0
  {
    n.tag != [] && n.tag != Ascii("0") && ListSize(n) < 0x1_0000 && AttrsCarried(n.attrs) && Carried(n.content)
  }

  lemma {:induction false} PutNewAttr(attrs: seq<Attr>, key: Bytes, value: Value)
    requires forall i | 0 <= i < |attrs| :: attrs[i].key != key
    ensures PutAttr(attrs, key, value) == attrs + [Attr(key, value)]
  {
    if attrs != [] {
      PutNewAttr(attrs[1..], key, value);
    }
  }

  lemma {:induction false} ReadsValue(t: Tokens, v: Value, asString: bool, rest: Bytes)
    requires ValidTokens(t) && EncValue(t, v).Ok? && Fits(v)
    ensures var p := ReadValue(t, EncValue(t, v).value + rest, asString);
            if Carried(v) then p == Ok((NormValue(t, v, asString), rest)) else p.Err?
    decreases v, 0
  {
    match v
    case Nil =>
      ReadsByte(LIST_EMPTY, rest);
    case Str(s) =>
      ReadsString(t, s, asString, rest);
    case Raw(b) =>
      ReadsBytes(t, b, asString, rest);
    case Jid(j) =>
      ReadsJID(t, j, asString, rest);
    case Int(n) =>
      ReadsString(t, Decimal(n), asString, rest);
    case Bool(b) =>
      ReadsString(t, BoolText(b), asString, rest);
    case List(nodes) =>
      ReadsNodes(t, nodes, rest);
      ReadsListValue(t, nodes, asString, rest);
  }

  lemma ReadsListValue(t: Tokens, nodes: seq<Node>, asString: bool, rest: Bytes)
    requires ValidTokens(t) && EncNodes(t, nodes).Ok? && |nodes| < 0x1_0000
    ensures var p := ReadValue(t, EncListStart(|nodes|) + EncNodes(t, nodes).value + rest, asString);
            var q := ReadNodes(t, |nodes|, EncNodes(t, nodes).value + rest);
            if nodes == [] then p == Ok((Nil, rest))
            else if q.Err? then p.Err? else p == Ok((List(q.value.0), q.value.1))
  {
    var start, children := EncListStart(|nodes|), EncNodes(t, nodes).value;
    assert start + children + rest == [start[0]] + (start[1..] + (children + rest));
    ReadsByte(start[0], start[1..] + (children + rest));
    ListSizeRoundTrip(|nodes|, children + rest);
  }

  lemma {:induction false} ReadsNodes(t: Tokens, nodes: seq<Node>, rest: Bytes)
    requires ValidTokens(t) && EncNodes(t, nodes).Ok? && NodesFit(nodes)
    ensures var p := ReadNodes(t, |nodes|, EncNodes(t, nodes).value + rest);
            if NodesCarried(nodes) then p == Ok((NormNodes(t, nodes), rest)) else p.Err?
    decreases nodes, 0
  {
    if nodes == [] {
      assert EncNodes(t, nodes).value + rest == rest;
    } else {
      var first, others := EncNode(t, nodes[0]).value, EncNodes(t, nodes[1..]).value;
      assert EncNodes(t, nodes).value + rest == first + (others + rest);
      ReadsNode(t, nodes[0], others + rest);
      if NodeCarried(nodes[0]) {
        ReadsNodes(t, nodes[1..], rest);
      }
    }
  }

  lemma {:induction false} ReadsAttributes(t: Tokens, attrs: seq<Attr>, read: seq<Attr>, rest: Bytes)
    requires ValidTokens(t) && EncAttributes(t, attrs).Ok? && AttrsFit(attrs)
    requires DistinctKeys(read + attrs)
    ensures var p := ReadAttributes(t, CountAttributes(attrs), EncAttributes(t, attrs).value + rest, read);
            if AttrsCarried(attrs) then p == Ok((read + NormAttrs(t, attrs), rest)) else p.Err?
    decreases attrs, 1
  {
    if attrs == [] {
      assert EncAttributes(t, attrs).value + rest == rest && read + NormAttrs(t, attrs) == read;
    } else {
      KeysOfTail(read, attrs);
      if Dropped(attrs[0].value) {
        assert Carried(attrs[0].value);
        ReadsAttributes(t, attrs[1..], read, rest);
      } else {
        ReadsWrittenAttribute(t, attrs, read, rest);
        var norm := Attr(attrs[0].key, NormValue(t, attrs[0].value, true));
        if Carried(attrs[0].value) {
          KeysOfNext(read, attrs, norm.value);
          ReadsAttributes(t, attrs[1..], read + [norm], rest);
          assert read + ([norm] + NormAttrs(t, attrs[1..])) == read + [norm] + NormAttrs(t, attrs[1..]);
        }
      }
    }
  }

  /** One attribute that is not dropped: key and value are read back, then the others. */
  lemma {:induction false} ReadsWrittenAttribute(t: Tokens, attrs: seq<Attr>, read: seq<Attr>, rest: Bytes)
    requires attrs != [] && !Dropped(attrs[0].value)
    requires ValidTokens(t) && EncAttributes(t, attrs).Ok? && AttrsFit(attrs)
    requires forall i | 0 <= i < |read| :: read[i].key != attrs[0].key
    ensures EncAttributes(t, attrs[1..]).Ok?
    ensures var v, tail := attrs[0].value, attrs[1..];
            var p := ReadAttributes(t, CountAttributes(attrs), EncAttributes(t, attrs).value + rest, read);
            if Carried(v)
            then p == ReadAttributes(t, CountAttributes(tail), EncAttributes(t, tail).value + rest,
                                     read + [Attr(attrs[0].key, NormValue(t, v, true))])
            else p.Err?
    decreases attrs, 0
  {
    var key, v, tail := attrs[0].key, attrs[0].value, attrs[1..];
    var k, b, others := EncString(t, key).value, EncValue(t, v).value, EncAttributes(t, tail).value;
    var after := b + (others + rest);
    assert EncAttributes(t, attrs).value + rest == k + after;
    ReadsString(t, key, true, after);
    ReadsValue(t, v, true, others + rest);
    ReadsAttribute(t, CountAttributes(tail), k + after, read, key, after);
    PutNewAttr(read, key, NormValue(t, v, true));
  }

  lemma ReadsAttribute(t: Tokens, n: nat, bs: Bytes, read: seq<Attr>, key: Bytes, after: Bytes)
    requires ReadValue(t, bs, true) == Ok((Str(key), after))
    ensures var value := ReadValue(t, after, true);
            ReadAttributes(t, n + 1, bs, read) ==
            if value.Err? then Err(value.error)
            else ReadAttributes(t, n, value.value.1, PutAttr(read, key, value.value.0))
  {
  }

  lemma KeysOfTail(read: seq<Attr>, attrs: seq<Attr>)
    requires attrs != [] && DistinctKeys(read + attrs)
    ensures DistinctKeys(read + attrs[1..])
    ensures forall i | 0 <= i < |read| :: read[i].key != attrs[0].key
  {
    var all := read + attrs;
    forall i, j | 0 <= i < j < |read + attrs[1..]| ensures (read + attrs[1..])[i].key != (read + attrs[1..])[j].key {
      var i' := if i < |read| then i else i + 1;
      var j' := if j < |read| then j else j + 1;
      assert all[i'].key != all[j'].key;
    }
    forall i | 0 <= i < |read| ensures read[i].key != attrs[0].key {
      assert all[i] == read[i] && all[|read|] == attrs[0];
    }
  }

  lemma KeysOfNext(read: seq<Attr>, attrs: seq<Attr>, v: Value)
    requires attrs != [] && DistinctKeys(read + attrs)
    ensures DistinctKeys(read + [Attr(attrs[0].key, v)] + attrs[1..])
  {
    var all, other := read + attrs, read + [Attr(attrs[0].key, v)] + attrs[1..];
    assert forall i | 0 <= i < |other| :: other[i].key == all[i].key;
  }

  /** Reading an encoded element gives its normal form and consumes exactly its bytes, if and only if no
      element in it has the tag "" or "0" or the size 65536. */
  lemma {:induction false} ReadsNode(t: Tokens, n: Node, rest: Bytes)
    requires ValidTokens(t) && EncNode(t, n).Ok? && NodeFits(n)
    ensures var p := ReadNode(t, EncNode(t, n).value + rest);
            if NodeCarried(n) then p == Ok((NormNode(t, n), rest)) else p.Err?
    decreases n, 1
  {
    if n.tag == Ascii("0") {
      EndMarkerFails(t, rest);
    } else if ListSize(n) == 0x1_0000 {
      NodeBytes(t, n, rest);
      SizeZeroFails(t, EncString(t, n.tag).value + AfterTag(t, n, rest));
    } else {
      NodeBytes(t, n, rest);
      ReadsString(t, n.tag, true, AfterTag(t, n, rest));
      ReadsElement(t, n, EncString(t, n.tag).value + AfterTag(t, n, rest), AfterTag(t, n, rest));
      if n.tag != [] {
        ReadsParts(t, n, rest);
      }
    }
  }

  function ContentBytes(t: Tokens, n: Node): Bytes
    requires ValidTokens(t) && (n.content != Nil ==> EncValue(t, n.content).Ok?)
  {
    if n.content == Nil then [] else EncValue(t, n.content).value
  }

  /** The bytes of the attributes and the content, and what follows the element. */
  function AfterTag(t: Tokens, n: Node, rest: Bytes): Bytes
    requires ValidTokens(t) && EncAttributes(t, n.attrs).Ok? && (n.content != Nil ==> EncValue(t, n.content).Ok?)
  {
    EncAttributes(t, n.attrs).value + (ContentBytes(t, n) + rest)
  }

  lemma NodeBytes(t: Tokens, n: Node, rest: Bytes)
    requires ValidTokens(t) && n.tag != Ascii("0") && EncNode(t, n).Ok?
    ensures EncString(t, n.tag).Ok? && EncAttributes(t, n.attrs).Ok?
    ensures n.content != Nil ==> EncValue(t, n.content).Ok?
    ensures EncNode(t, n).value + rest ==
            EncListStart(ListSize(n)) + (EncString(t, n.tag).value + AfterTag(t, n, rest))
  {
    FiveParts(EncListStart(ListSize(n)), EncString(t, n.tag).value, EncAttributes(t, n.attrs).value,
              ContentBytes(t, n), rest);
  }

  lemma FiveParts(a: Bytes, b: Bytes, c: Bytes, d: Bytes, e: Bytes)
    ensures a + b + c + d + e == a + (b + (c + (d + e)))
  {
  }

  /** The attributes and the content of an element are read back as their normal forms. */
  lemma {:induction false} ReadsParts(t: Tokens, n: Node, rest: Bytes)
    requires ValidTokens(t) && NodeFits(n)
    requires EncAttributes(t, n.attrs).Ok? && (n.content != Nil ==> EncValue(t, n.content).Ok?)
    ensures var attrs := ReadAttributes(t, CountAttributes(n.attrs), AfterTag(t, n, rest), []);
            if !AttrsCarried(n.attrs) then attrs.Err?
            else attrs == Ok((NormAttrs(t, n.attrs), ContentBytes(t, n) + rest))
    ensures n.content == Nil ==> ContentBytes(t, n) + rest == rest && Carried(n.content)
    ensures n.content != Nil ==>
              var content := ReadValue(t, ContentBytes(t, n) + rest, false);
              if Carried(n.content) then content == Ok((NormValue(t, n.content, false), rest)) else content.Err?
    decreases n, 0
  {
    var after := ContentBytes(t, n) + rest;
    var none: seq<Attr> := [];
    assert none + n.attrs == n.attrs;
    ReadsAttributes(t, n.attrs, none, after);
    assert none + NormAttrs(t, n.attrs) == NormAttrs(t, n.attrs);
    if n.content == Nil {
      assert after == rest;
    } else {
      ReadsValue(t, n.content, false, rest);
    }
  }

  /** Reading an element comes down to reading its attributes and its content. */
  predicate ElementParts(t: Tokens, n: Node, p: Parsed<Node>, afterTag: Bytes) {
    if n.tag == [] then p.Err?
    else
      var attrs := ReadAttributes(t, CountAttributes(n.attrs), afterTag, []);
      if attrs.Err? then p.Err?
      else if n.content == Nil then p == Ok((Node(n.tag, attrs.value.0, Nil), attrs.value.1))
      else
        var content := ReadValue(t, attrs.value.1, false);
        if content.Err? then p.Err?
        else p == Ok((Node(n.tag, attrs.value.0, content.value.0), content.value.1))
  }

  /** The order in which readNode reads the parts of an element. */
  lemma ReadsElement(t: Tokens, n: Node, afterStart: Bytes, afterTag: Bytes)
    requires ListSize(n) < 0x1_0000 && ReadValue(t, afterStart, true) == Ok((Str(n.tag), afterTag))
    ensures ElementParts(t, n, ReadNode(t, EncListStart(ListSize(n)) + afterStart), afterTag)
  {
    ReadsHead(t, n, afterStart);
    Halves(n);
  }

  lemma Halves(n: Node)
    ensures (ListSize(n) - 1) / 2 == CountAttributes(n.attrs)
    ensures ListSize(n) % 2 == 1 <==> n.content == Nil
  {
    var c := CountAttributes(n.attrs);
    assert n.content == Nil ==> ListSize(n) == 2 * c + 1;
    assert n.content != Nil ==> ListSize(n) == 2 * c + 2;
  }

  lemma ReadsHead(t: Tokens, n: Node, after: Bytes)
    requires ListSize(n) < 0x1_0000
    ensures var b := EncListStart(ListSize(n)) + after;
            && ReadInt(b, 1) == Ok((EncListStart(ListSize(n))[0] as nat, b[1..]))
            && ReadListSize(EncListStart(ListSize(n))[0], b[1..]) == Ok((ListSize(n), after))
  {
    var start := EncListStart(ListSize(n));
    var b := start + after;
    ListSizeRoundTrip(ListSize(n), after);
    assert b[1..] == start[1..] + after;
    OneByte(b);
  }

  lemma OneByte(b: Bytes)
    requires b != []
    ensures ReadInt(b, 1) == Ok((b[0] as nat, b[1..]))
  {
    assert b[..1][..0] == [] && FromBigEndian(b[..1]) == b[0];
  }

  /** What writeNode emits for the tag "0" is never read as an element, whatever follows. */
  lemma EndMarkerFails(t: Tokens, rest: Bytes)
    ensures ReadNode(t, [LIST8, LIST_EMPTY] + rest).Err?
  {
    var b := [LIST8, LIST_EMPTY] + rest;
    OneByte(b);
    OneByte(b[1..]);
  }

  /** The size 65536 is written as 0, and no element has that size. */
  lemma SizeZeroFails(t: Tokens, after: Bytes)
    ensures ReadNode(t, EncListStart(0x1_0000) + after).Err?
  {
    assert BigEndian(256, 1) == BigEndian(0, 1);
    assert EncListStart(0x1_0000) + after == [LIST16] + (BigEndian(0, 2) + after);
    NoSizeFails(t, BigEndian(0, 2) + after, after);
  }

  lemma NoSizeFails(t: Tokens, sized: Bytes, after: Bytes)
    requires sized == BigEndian(0, 2) + after
    ensures ReadNode(t, [LIST16] + sized).Err?
  {
    OneByte([LIST16] + sized);
    assert ([LIST16] + sized)[1..] == sized;
    Powers();
    ReadsInt(0, 2, after);
    assert ReadListSize(LIST16, sized) == Ok((0, after));
  }

  // ----- What can be read at all

  /** Sizes of 16 bits. */
  predicate Bounded(v: Value)
    decreases v, 0
  {
    v.List? ==> |v.nodes| < 0x1_0000 && NodesBounded(v.nodes)
  }

  predicate NodesBounded(nodes: seq<Node>)
    decreases nodes, 0
  {
    nodes != [] ==> NodeBounded(nodes[0]) && NodesBounded(nodes[1..])
  }

  predicate AttrsBounded(attrs: seq<Attr>)
    decreases attrs, 0
  {
    attrs != [] ==> Bounded(attrs[0].value) && AttrsBounded(attrs[1..])
  }

  predicate NodeBounded(n: Node)
    decreases n, 0
  {
    2 * |n.attrs| + 1 + (if n.content == Nil then 0 else 1) < 0x1_0000 && AttrsBounded(n.attrs) && Bounded(n.content)
  }

  lemma SizeBounded(tag: nat, bs: Bytes)
    requires ReadListSize(tag, bs).Ok?
    ensures ReadListSize(tag, bs).value.0 < 0x1_0000
  {
    Powers();
    if tag == LIST8 {
      FromBigEndianBound(bs[..1]);
    } else if tag == LIST16 {
      FromBigEndianBound(bs[..2]);
    }
  }

  lemma {:induction false} FromBigEndianBound(b: Bytes)
    ensures FromBigEndian(b) < Pow256(|b|)
  {
    if b != [] {
      FromBigEndianBound(b[..|b| - 1]);
    }
  }

  /** Whatever the bytes are, a value that is read holds no list and no element of 65536 parts and more. */
  lemma {:induction false} ReadIsBounded(t: Tokens, bs: Bytes, asString: bool)
    requires ReadValue(t, bs, asString).Ok?
    ensures Bounded(ReadValue(t, bs, asString).value.0)
    decreases |bs|, 0
  {
    var tag, rest := bs[0], bs[1..];
    if tag == LIST8 || tag == LIST16 {
      var size := ReadListSize(tag, rest).value;
      SizeBounded(tag, rest);
      NodesAreBounded(t, size.0, size.1);
    }
  }

  lemma {:induction false} NodesAreBounded(t: Tokens, n: nat, bs: Bytes)
    requires ReadNodes(t, n, bs).Ok?
    ensures NodesBounded(ReadNodes(t, n, bs).value.0) && |ReadNodes(t, n, bs).value.0| == n
    decreases |bs|, 2
  {
    if n != 0 {
      NodeIsBounded(t, bs);
      NodesAreBounded(t, n - 1, ReadNode(t, bs).value.1);
    }
  }

  lemma {:induction false} AttributesAreBounded(t: Tokens, n: nat, bs: Bytes, attrs: seq<Attr>)
    requires ReadAttributes(t, n, bs, attrs).Ok? && AttrsBounded(attrs)
    ensures AttrsBounded(ReadAttributes(t, n, bs, attrs).value.0)
    ensures |ReadAttributes(t, n, bs, attrs).value.0| <= |attrs| + n
    decreases |bs|, 1
  {
    if n != 0 {
      var key := ReadValue(t, bs, true).value;
      var value := ReadValue(t, key.1, true).value;
      ReadIsBounded(t, key.1, true);
      PutBounded(attrs, key.0.str, value.0);
      AttributesAreBounded(t, n - 1, value.1, PutAttr(attrs, key.0.str, value.0));
    }
  }

  lemma {:induction false} PutBounded(attrs: seq<Attr>, key: Bytes, value: Value)
    requires AttrsBounded(attrs) && Bounded(value)
    ensures AttrsBounded(PutAttr(attrs, key, value)) && |PutAttr(attrs, key, value)| <= |attrs| + 1
  {
    if attrs != [] && attrs[0].key != key {
      PutBounded(attrs[1..], key, value);
    }
  }

  lemma {:induction false} NodeIsBounded(t: Tokens, bs: Bytes)
    requires ReadNode(t, bs).Ok?
    ensures NodeBounded(ReadNode(t, bs).value.0)
    decreases |bs|, 1
  {
    var tagByte := ReadInt(bs, 1).value;
    var size := ReadListSize(tagByte.0, tagByte.1).value;
    SizeBounded(tagByte.0, tagByte.1);
    var desc := ReadValue(t, size.1, true).value;
    var attrs := ReadAttributes(t, (size.0 - 1) / 2, desc.1, []).value;
    AttributesAreBounded(t, (size.0 - 1) / 2, desc.1, []);
    if size.0 % 2 == 1 {
      PartsBounded(size.0, desc.0.str, attrs.0, Nil);
    } else {
      ReadIsBounded(t, attrs.1, false);
      PartsBounded(size.0, desc.0.str, attrs.0, ReadValue(t, attrs.1, false).value.0);
    }
  }

  lemma PartsBounded(size: nat, tag: Bytes, attrs: seq<Attr>, content: Value)
    requires 0 < size < 0x1_0000 && |attrs| <= (size - 1) / 2 && (size % 2 == 1 ==> content == Nil)
    requires AttrsBounded(attrs) && Bounded(content)
    ensures NodeBounded(Node(tag, attrs, content))
  {
  }

  /** An element whose normal form has sizes of 16 bits fits. */
  lemma {:induction false} BoundedFits(t: Tokens, n: Node)
    requires ValidTokens(t) && NodeMaps(n) && NodeBounded(NormNode(t, n))
    ensures NodeFits(n)
    decreases n, 0
  {
    BoundedAttrsFit(t, n.attrs);
    BoundedValueFits(t, n.content, false);
  }

  lemma {:induction false} BoundedValueFits(t: Tokens, v: Value, asString: bool)
    requires ValidTokens(t) && Maps(v) && Bounded(NormValue(t, v, asString))
    ensures Fits(v)
    decreases v, 0
  {
    if v.List? && v.nodes != [] {
      BoundedNodesFit(t, v.nodes);
    }
  }

  lemma {:induction false} BoundedNodesFit(t: Tokens, nodes: seq<Node>)
    requires ValidTokens(t) && NodesMaps(nodes) && NodesBounded(NormNodes(t, nodes))
    ensures NodesFit(nodes)
    decreases nodes, 0
  {
    if nodes != [] {
      assert NormNodes(t, nodes)[1..] == NormNodes(t, nodes[1..]);
      BoundedFits(t, nodes[0]);
      BoundedNodesFit(t, nodes[1..]);
    }
  }

  lemma {:induction false} BoundedAttrsFit(t: Tokens, attrs: seq<Attr>)
    requires ValidTokens(t) && AttrsMaps(attrs) && AttrsBounded(NormAttrs(t, attrs))
    ensures AttrsFit(attrs) && |NormAttrs(t, attrs)| == CountAttributes(attrs)
    decreases attrs, 0
  {
    if attrs != [] {
      if !Dropped(attrs[0].value) {
        assert NormAttrs(t, attrs)[1..] == NormAttrs(t, attrs[1..]);
        BoundedValueFits(t, attrs[0].value, true);
      }
      BoundedAttrsFit(t, attrs[1..]);
    }
  }

  // ----- Sizes that fit

  lemma {:induction false} CarriedFits(n: Node)
    requires NodeMaps(n) && NodeCarried(n)
    ensures NodeFits(n)
    decreases n, 0
  {
    CarriedAttrsFit(n.attrs);
    CarriedValueFits(n.content);
  }

  lemma {:induction false} CarriedValueFits(v: Value)
    requires Maps(v) && Carried(v)
    ensures Fits(v)
    decreases v, 0
  {
    if v.List? {
      CarriedNodesFit(v.nodes);
    }
  }

  lemma {:induction false} CarriedNodesFit(nodes: seq<Node>)
    requires NodesMaps(nodes) && NodesCarried(nodes)
    ensures NodesFit(nodes)
    decreases nodes, 0
  {
    if nodes != [] {
      CarriedFits(nodes[0]);
      CarriedNodesFit(nodes[1..]);
    }
  }

  lemma {:induction false} CarriedAttrsFit(attrs: seq<Attr>)
    requires AttrsMaps(attrs) && AttrsCarried(attrs)
    ensures AttrsFit(attrs)
    decreases attrs, 0
  {
    if attrs != [] {
      CarriedValueFits(attrs[0].value);
      CarriedAttrsFit(attrs[1..]);
    }
  }

  // ----- Marshal and Unmarshal

  /** Marshal: a zero byte, for "not compressed", and the element. */
  function Marshalled(t: Tokens, n: Node): Result<Bytes, EncodeError>
    requires ValidTokens(t)
  {
    var b :- EncNode(t, n);
    Ok([0] + b)
  }

  datatype UnmarshalError = NotDecoded(error: DecodeError) | Leftover(node: Node, bytes: nat)

  function Unmarshalled(t: Tokens, data: Bytes): Result<Node, UnmarshalError> {
    match ReadNode(t, data)
    case Err(e) => Err(NotDecoded(e))
    case Ok((n, rest)) => if rest != [] then Err(Leftover(n, |rest|)) else Ok(n)
  }

  /** Every element that Marshal accepts: Unmarshal gives its normal form if and only if no element in it has the
      tag "" or "0" and no list and no element in it has 65536 parts or more. Where sizes stay in step the other
      elements are refused. */
  lemma MarshalRoundTrip(t: Tokens, n: Node)
    requires ValidTokens(t) && Marshalled(t, n).Ok? && NodeMaps(n)
    ensures Unmarshalled(t, Marshalled(t, n).value[1..]) == Ok(NormNode(t, n)) <==> NodeCarried(n)
    ensures NodeFits(n) && !NodeCarried(n) ==> Unmarshalled(t, Marshalled(t, n).value[1..]).Err?
  {
    var b := EncNode(t, n).value;
    assert Marshalled(t, n).value[1..] == b == b + [];
    if NodeCarried(n) {
      CarriedFits(n);
    }
    if NodeFits(n) {
      ReadsNode(t, n, []);
    } else if Unmarshalled(t, b) == Ok(NormNode(t, n)) {
      NodeIsBounded(t, b);
      BoundedFits(t, n);
    }
  }
}
