/** The element type of the binary XML codec (binary/node.go), its token dictionaries
    (binary/token/token.go) and the bytes binary/encoder.go writes for it. */
module BinaryNode {
  import opened Bytes
  import opened Jid

  /** The kinds of value an attribute or a content may hold; Other is any unsupported Go type. */
  datatype Value =
    | Nil
    | Str(str: Bytes)
    | Raw(raw: Bytes)
    | Jid(jid: JID)
    | Int(number: int)
    | Bool(flag: bool)
    | List(nodes: seq<Node>)
    | Other

  datatype Attr = Attr(key: Bytes, value: Value)

  /** Attributes are a Go map, here the list of its entries in the order a range statement visits them;
      every order is a list of its own. */
  datatype Node = Node(tag: Bytes, attrs: seq<Attr>, content: Value)

  // ----- Tokens

  const LIST_EMPTY := 0
  const DICTIONARY0 := 236
  const DICTIONARY3 := 239
  const INTEROP_JID := 245
  const FB_JID := 246
  const AD_JID := 247
  const LIST8 := 248
  const LIST16 := 249
  const JID_PAIR := 250
  const HEX8 := 251
  const BINARY8 := 252
  const BINARY20 := 253
  const BINARY32 := 254
  const NIBBLE8 := 255

  const PACKED_MAX := 127
  const MAX_INT32 := 0x7FFF_FFFF

  datatype Tokens = Tokens(single: seq<Bytes>, double: seq<seq<Bytes>>)

  /** The shape of the dictionaries: single-byte indexes stay below the structural tags, index 0 is the
      empty string, and two bytes address every double-byte token. */
  predicate ValidTokens(t: Tokens) {
    && |t.single| <= DICTIONARY0
    && (t.single != [] ==> t.single[0] == [])
    && |t.double| <= 4
    && forall d | 0 <= d < |t.double| :: |t.double[d]| <= 256
  }

  /** The index the map built by init holds for s: that of its last occurrence. */
  function LastIndex(row: seq<Bytes>, s: Bytes): (i: Option<nat>)
    ensures i.Some? ==> i.value < |row| && row[i.value] == s
    ensures i.None? ==> s !in row
  {
    if row == [] then None
    else if row[|row| - 1] == s then Some(|row| - 1)
    else LastIndex(row[..|row| - 1], s)
  }

  function IndexOfSingleToken(t: Tokens, s: Bytes): (i: Option<nat>)
    ensures i.Some? ==> i.value < |t.single| && t.single[i.value] == s && s != []
  {
    if s == [] then None else LastIndex(t.single, s)
  }

  function IndexOfDoubleByteToken(t: Tokens, s: Bytes, n: nat): (i: Option<(nat, nat)>)
    requires n <= |t.double|
    ensures i.Some? ==> i.value.0 < n && i.value.1 < |t.double[i.value.0]| && t.double[i.value.0][i.value.1] == s
  {
    if n == 0 then None
    else
      var index := LastIndex(t.double[n - 1], s);
      if index.Some? then Some((n - 1, index.value)) else IndexOfDoubleByteToken(t, s, n - 1)
  }

  // ----- Packed strings

  predicate NibbleChar(c: byte) {
    IsDigit(c) || c == 45 || c == 46
  }

  predicate HexChar(c: byte) {
    IsDigit(c) || 65 <= c <= 70
  }

  predicate ValidNibble(s: Bytes) {
    |s| <= PACKED_MAX && forall i | 0 <= i < |s| :: NibbleChar(s[i])
  }

  predicate ValidHex(s: Bytes) {
    |s| <= PACKED_MAX && forall i | 0 <= i < |s| :: HexChar(s[i])
  }

  type nibble = x: int | 0 <= x < 16

  predicate Packable(tag: byte, c: byte) {
    c == 0 || if tag == NIBBLE8 then NibbleChar(c) else HexChar(c)
  }

  /** packNibble and packHex. The zero byte fills the second half of a last odd character. */
  function Pack(tag: byte, c: byte): nibble
    requires Packable(tag, c)
  {
    if c == 0 then 15
    else if IsDigit(c) then c - 48
    else if tag == NIBBLE8 then (if c == 45 then 10 else 11)
    else c - 55
  }

  function PackPair(tag: byte, a: byte, b: byte): byte
    requires Packable(tag, a) && Packable(tag, b)
  {
    16 * (Pack(tag, a) as int) + Pack(tag, b) as int
  }

  /** The packed characters of s, two to a byte. */
  function PackAll(tag: byte, s: Bytes): (b: Bytes)
    requires forall i | 0 <= i < |s| :: Packable(tag, s[i])
    ensures |b| == (|s| + 1) / 2
  {
    if s == [] then []
    else if |s| == 1 then [PackPair(tag, s[0], 0)]
    else [PackPair(tag, s[0], s[1])] + PackAll(tag, s[2..])
  }

  function RoundedLength(n: nat): byte
    requires n <= PACKED_MAX
  {
    (n + 1) / 2 + if n % 2 == 1 then 128 else 0
  }

  function EncPacked(tag: byte, s: Bytes): Bytes
    requires |s| <= PACKED_MAX && forall i | 0 <= i < |s| :: Packable(tag, s[i])
  {
    [tag, RoundedLength(|s|)] + PackAll(tag, s)
  }

  // ----- Encoded bytes

  datatype EncodeError = LengthTooLarge | InvalidType

  function EncByteLength(n: nat): Result<Bytes, EncodeError> {
    if n < 256 then Ok([BINARY8] + BigEndian(n, 1))
    else if n < 0x10_0000 then Ok([BINARY20] + BigEndian(n, 3))
    else if n < MAX_INT32 then Ok([BINARY32] + BigEndian(n, 4))
    else Err(LengthTooLarge)
  }

  function EncRaw(b: Bytes): Result<Bytes, EncodeError> {
    var length :- EncByteLength(|b|);
    Ok(length + b)
  }

  /** A string that no token and no packing covers goes out as raw bytes. */
  predicate WrittenRaw(t: Tokens, s: Bytes) {
    IndexOfSingleToken(t, s).None? && IndexOfDoubleByteToken(t, s, |t.double|).None? && !ValidNibble(s) && !ValidHex(s)
  }

  function EncString(t: Tokens, s: Bytes): Result<Bytes, EncodeError>
    requires ValidTokens(t)
  {
    var single, double := IndexOfSingleToken(t, s), IndexOfDoubleByteToken(t, s, |t.double|);
    if single.Some? then Ok([single.value])
    else if double.Some? then Ok([DICTIONARY0 + double.value.0, double.value.1])
    else if ValidNibble(s) then Ok(EncPacked(NIBBLE8, s))
    else if ValidHex(s) then Ok(EncPacked(HEX8, s))
    else EncRaw(s)
  }

  /** writeListStart; the 16-bit size keeps the low bits only. */
  function EncListStart(n: nat): Bytes {
    if n == 0 then [LIST_EMPTY]
    else if n < 256 then [LIST8] + BigEndian(n, 1)
    else [LIST16] + BigEndian(n, 2)
  }

  predicate WrittenAsAD(j: JID) {
    ((j.server == DefaultUserServer || j.server == HiddenUserServer) && j.device > 0)
    || j.server == HostedServer || j.server == HostedLIDServer
  }

  function EncJID(t: Tokens, j: JID): Result<Bytes, EncodeError>
    requires ValidTokens(t)
  {
    if WrittenAsAD(j) then
      var user :- EncString(t, j.user);
      Ok([AD_JID, j.ActualAgent(), j.device % 256] + user)
    else
      var server :- EncString(t, j.server);
      if j.server == MessengerServer then
        var user :- EncString(t, j.user);
        Ok([FB_JID] + user + BigEndian(j.device, 2) + server)
      else if j.server == InteropServer then
        var user :- EncString(t, j.user);
        Ok([INTEROP_JID] + user + BigEndian(j.device, 2) + BigEndian(j.integrator, 2) + server)
      else
        var user :- if j.user == [] then Ok([LIST_EMPTY]) else EncString(t, j.user);
        Ok([JID_PAIR] + user + server)
  }

  function BoolText(b: bool): Bytes {
    if b then Ascii("true") else Ascii("false")
  }

  predicate Dropped(v: Value) {
    v == Str([]) || v == Nil
  }

  function CountAttributes(attrs: seq<Attr>): (n: nat)
    ensures n <= |attrs|
  {
    if attrs == [] then 0 else (if Dropped(attrs[0].value) then 0 else 1) + CountAttributes(attrs[1..])
  }

  function ListSize(n: Node): nat {
    2 * CountAttributes(n.attrs) + 1 + if n.content == Nil then 0 else 1
  }

  function EncValue(t: Tokens, v: Value): Result<Bytes, EncodeError>
    requires ValidTokens(t)
    decreases v, 0
  {
    match v
    case Nil => Ok([LIST_EMPTY])
    case Str(s) => EncString(t, s)
    case Raw(b) => EncRaw(b)
    case Jid(j) => EncJID(t, j)
    case Int(n) => EncString(t, Decimal(n))
    case Bool(b) => EncString(t, BoolText(b))
    case List(nodes) =>
      var children :- EncNodes(t, nodes);
      Ok(EncListStart(|nodes|) + children)
    case Other => Err(InvalidType)
  }

  function EncNodes(t: Tokens, nodes: seq<Node>): Result<Bytes, EncodeError>
    requires ValidTokens(t)
    decreases nodes, 0
  {
    if nodes == [] then Ok([])
    else
      var first :- EncNode(t, nodes[0]);
      var others :- EncNodes(t, nodes[1..]);
      Ok(first + others)
  }

  function EncAttributes(t: Tokens, attrs: seq<Attr>): Result<Bytes, EncodeError>
    requires ValidTokens(t)
    decreases attrs, 0
  {
    if attrs == [] then Ok([])
    else if Dropped(attrs[0].value) then EncAttributes(t, attrs[1..])
    else
      var key :- EncString(t, attrs[0].key);
      var value :- EncValue(t, attrs[0].value);
      var others :- EncAttributes(t, attrs[1..]);
      Ok(key + value + others)
  }

  /** writeNode. The tag "0" is the stream end marker. */
  function EncNode(t: Tokens, n: Node): Result<Bytes, EncodeError>
    requires ValidTokens(t)
    decreases n, 0
  {
    if n.tag == Ascii("0") then Ok([LIST8, LIST_EMPTY])
    else
      var tag :- EncString(t, n.tag);
      var attrs :- EncAttributes(t, n.attrs);
      var content :- if n.content == Nil then Ok([]) else EncValue(t, n.content);
      Ok(EncListStart(ListSize(n)) + tag + attrs + content)
  }
}
