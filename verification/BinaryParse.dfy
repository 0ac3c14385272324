/** What binary/decoder.go reads from a byte string: each function returns a value and the bytes that
    follow it. A failed type assertion, a panic in Go, is an error here. */
module BinaryParse {
  import opened Bytes
  import opened Jid
  import opened BinaryNode

  datatype DecodeError =
    | EOF | InvalidNibble | InvalidToken | InvalidListTag | InvalidJIDType | NonStringKey | InvalidNode | BadAssertion

  type Parsed<T> = Result<(T, Bytes), DecodeError>

  function ReadByte(bs: Bytes): (p: Parsed<byte>)
    ensures p.Ok? ==> |p.value.1| < |bs|
  {
    if bs == [] then Err(EOF) else Ok((bs[0], bs[1..]))
  }

  function ReadRaw(bs: Bytes, n: nat): (p: Parsed<Bytes>)
    ensures p.Ok? ==> |p.value.1| + n == |bs| && |p.value.0| == n
  {
    if |bs| < n then Err(EOF) else Ok((bs[..n], bs[n..]))
  }

  /** readIntN, big-endian */
  function ReadInt(bs: Bytes, n: nat): (p: Parsed<nat>)
    ensures p.Ok? ==> |p.value.1| + n == |bs|
  {
    var raw :- ReadRaw(bs, n);
    Ok((FromBigEndian(raw.0), raw.1))
  }

  /** readInt20: the top four bits of the first byte are ignored. */
  function ReadInt20(bs: Bytes): (p: Parsed<nat>)
    ensures p.Ok? ==> |p.value.1| + 3 == |bs|
  {
    if |bs| < 3 then Err(EOF) else Ok((FromBigEndian([bs[0] % 16, bs[1], bs[2]]), bs[3..]))
  }

  function Unpack(tag: byte, v: nibble): Result<byte, DecodeError> {
    if v < 10 then Ok(48 + v)
    else if tag == HEX8 then Ok(55 + v)
    else if v == 10 then Ok(45)
    else if v == 11 then Ok(46)
    else if v == 15 then Ok(0)
    else Err(InvalidNibble)
  }

  function ReadPairs(tag: byte, n: nat, bs: Bytes): (p: Parsed<Bytes>)
    ensures p.Ok? ==> |p.value.1| <= |bs|
  {
    if n == 0 then Ok(([], bs))
    else
      var b :- ReadByte(bs);
      var lower :- Unpack(tag, b.0 / 16);
      var upper :- Unpack(tag, b.0 % 16);
      var others :- ReadPairs(tag, n - 1, b.1);
      Ok(([lower, upper] + others.0, others.1))
  }

  /** readPacked8 */
  function ReadPacked(tag: byte, bs: Bytes): (p: Parsed<Bytes>)
    ensures p.Ok? ==> |p.value.1| < |bs|
  {
    var start :- ReadByte(bs);
    var pairs :- ReadPairs(tag, start.0 % 128, start.1);
    if start.0 < 128 then Ok(pairs)
    else if pairs.0 == [] then Err(BadAssertion)
    else Ok((pairs.0[..|pairs.0| - 1], pairs.1))
  }

  function ReadListSize(tag: nat, bs: Bytes): (p: Parsed<nat>)
    ensures p.Ok? ==> |p.value.1| <= |bs|
  {
    if tag == LIST_EMPTY then Ok((0, bs))
    else if tag == LIST8 then ReadInt(bs, 1)
    else if tag == LIST16 then ReadInt(bs, 2)
    else Err(InvalidListTag)
  }

  function GetDoubleToken(t: Tokens, d: nat, i: nat): Result<Bytes, DecodeError> {
    if d < |t.double| && i < |t.double[d]| then Ok(t.double[d][i]) else Err(InvalidToken)
  }

  function Assert(good: bool, e: DecodeError): Result<(), DecodeError> {
    if good then Ok(()) else Err(e)
  }

  /** readBytesOrString */
  function ReadBytes(bs: Bytes, n: nat, asString: bool): (p: Parsed<Value>)
    ensures p.Ok? ==> |p.value.1| <= |bs|
  {
    var raw :- ReadRaw(bs, n);
    Ok((if asString then Str(raw.0) else Raw(raw.0), raw.1))
  }

  /** ret[key] = value */
  function PutAttr(attrs: seq<Attr>, key: Bytes, value: Value): seq<Attr> {
    if attrs == [] then [Attr(key, value)]
    else if attrs[0].key == key then [Attr(key, value)] + attrs[1..]
    else [attrs[0]] + PutAttr(attrs[1..], key, value)
  }

  /** read */
  function ReadValue(t: Tokens, bs: Bytes, asString: bool): (p: Parsed<Value>)
    ensures p.Ok? ==> |p.value.1| < |bs|
    decreases |bs|, 0
  {
    var first :- ReadByte(bs);
    var (tag, rest) := first;
    if tag == LIST_EMPTY then Ok((Nil, rest))
    else if tag == LIST8 || tag == LIST16 then
      var list :- ReadList(t, tag, rest);
      Ok((List(list.0), list.1))
    else if tag == BINARY8 then
      var size :- ReadInt(rest, 1);
      ReadBytes(size.1, size.0, asString)
    else if tag == BINARY20 then
      var size :- ReadInt20(rest);
      ReadBytes(size.1, size.0, asString)
    else if tag == BINARY32 then
      var size :- ReadInt(rest, 4);
      ReadBytes(size.1, size.0, asString)
    else if DICTIONARY0 <= tag <= DICTIONARY3 then
      var index :- ReadInt(rest, 1);
      var token :- GetDoubleToken(t, tag - DICTIONARY0, index.0);
      Ok((Str(token), index.1))
    else if tag == FB_JID then ReadFBJID(t, rest)
    else if tag == INTEROP_JID then ReadInteropJID(t, rest)
    else if tag == JID_PAIR then ReadJIDPair(t, rest)
    else if tag == AD_JID then ReadADJID(t, rest)
    else if tag == NIBBLE8 || tag == HEX8 then
      var packed :- ReadPacked(tag, rest);
      Ok((Str(packed.0), packed.1))
    else if 1 <= tag < |t.single| then Ok((Str(t.single[tag]), rest))
    else Err(InvalidToken)
  }

  function ReadJIDPair(t: Tokens, bs: Bytes): (p: Parsed<Value>)
    ensures p.Ok? ==> |p.value.1| < |bs|
    decreases |bs|, 1
  {
    var user :- ReadValue(t, bs, true);
    var server :- ReadValue(t, user.1, true);
    var _ :- Assert(server.0 != Nil, InvalidJIDType);
    var _ :- Assert((user.0 == Nil || user.0.Str?) && server.0.Str?, BadAssertion);
    Ok((Jid(NewJID(if user.0 == Nil then [] else user.0.str, server.0.str)), server.1))
  }

  function ReadInteropJID(t: Tokens, bs: Bytes): (p: Parsed<Value>)
    ensures p.Ok? ==> |p.value.1| < |bs|
    decreases |bs|, 1
  {
    var user :- ReadValue(t, bs, true);
    var device :- ReadInt(user.1, 2);
    var integrator :- ReadInt(device.1, 2);
    var server :- ReadValue(t, integrator.1, true);
    var _ :- Assert(server.0 == Str(InteropServer), InvalidJIDType);
    var _ :- Assert(user.0.Str?, BadAssertion);
    Ok((Jid(JID(user.0.str, 0, device.0 % 0x1_0000, integrator.0 % 0x1_0000, InteropServer)), server.1))
  }

  function ReadFBJID(t: Tokens, bs: Bytes): (p: Parsed<Value>)
    ensures p.Ok? ==> |p.value.1| < |bs|
    decreases |bs|, 1
  {
    var user :- ReadValue(t, bs, true);
    var device :- ReadInt(user.1, 2);
    var server :- ReadValue(t, device.1, true);
    var _ :- Assert(server.0 == Str(MessengerServer), InvalidJIDType);
    var _ :- Assert(user.0.Str?, BadAssertion);
    Ok((Jid(JID(user.0.str, 0, device.0 % 0x1_0000, 0, MessengerServer)), server.1))
  }

  function ReadADJID(t: Tokens, bs: Bytes): (p: Parsed<Value>)
    ensures p.Ok? ==> |p.value.1| < |bs|
    decreases |bs|, 1
  {
    var agent :- ReadByte(bs);
    var device :- ReadByte(agent.1);
    var user :- ReadValue(t, device.1, true);
    var _ :- Assert(user.0.Str?, BadAssertion);
    Ok((Jid(NewADJID(user.0.str, agent.0, device.0)), user.1))
  }

  function ReadList(t: Tokens, tag: nat, bs: Bytes): (p: Parsed<seq<Node>>)
    ensures p.Ok? ==> |p.value.1| <= |bs|
    decreases |bs|, 3
  {
    var size :- ReadListSize(tag, bs);
    ReadNodes(t, size.0, size.1)
  }

  function ReadNodes(t: Tokens, n: nat, bs: Bytes): (p: Parsed<seq<Node>>)
    ensures p.Ok? ==> |p.value.1| <= |bs|
    decreases |bs|, 2
  {
    if n == 0 then Ok(([], bs))
    else
      var first :- ReadNode(t, bs);
      var others :- ReadNodes(t, n - 1, first.1);
      Ok(([first.0] + others.0, others.1))
  }

  /** readAttributes, into the attributes read so far */
  function ReadAttributes(t: Tokens, n: nat, bs: Bytes, attrs: seq<Attr>): (p: Parsed<seq<Attr>>)
    ensures p.Ok? ==> |p.value.1| <= |bs|
    decreases |bs|, 1
  {
    if n == 0 then Ok((attrs, bs))
    else
      var key :- ReadValue(t, bs, true);
      var _ :- Assert(key.0.Str?, NonStringKey);
      var value :- ReadValue(t, key.1, true);
      ReadAttributes(t, n - 1, value.1, PutAttr(attrs, key.0.str, value.0))
  }

  /** readNode */
  function ReadNode(t: Tokens, bs: Bytes): (p: Parsed<Node>)
    ensures p.Ok? ==> |p.value.1| < |bs|
    decreases |bs|, 1
  {
    var tagByte :- ReadInt(bs, 1);
    var size :- ReadListSize(tagByte.0, tagByte.1);
    var desc :- ReadValue(t, size.1, true);
    var _ :- Assert(desc.0.Str?, BadAssertion);
    var _ :- Assert(size.0 != 0 && desc.0.str != [], InvalidNode);
    var attrs :- ReadAttributes(t, (size.0 - 1) / 2, desc.1, []);
    if size.0 % 2 == 1 then Ok((Node(desc.0.str, attrs.0, Nil), attrs.1))
    else
      var content :- ReadValue(t, attrs.1, false);
      Ok((Node(desc.0.str, attrs.0, content.0), content.1))
  }
}
