/** The wire form of the binary XML codec in the numbers of binary/token/token.go, encoder.go and decoder.go: what is
    written for every kind of value, and what is read for every first byte. */
module BinaryWire {
  import opened Bytes
  import opened Jid
  import opened BinaryNode
  import opened BinaryParse
  import opened BinaryRoundTrip

  // ----- Packed characters

  /** '0' to '9', '-' and '.' */
  predicate IsNibbleChar(c: byte) {
    48 <= c <= 57 || c == 45 || c == 46
  }

  /** '0' to '9' and 'A' to 'F' */
  predicate IsHexChar(c: byte) {
    48 <= c <= 57 || 65 <= c <= 70
  }

  function NibbleCode(c: byte): int {
    if c == 45 then 10 else if c == 46 then 11 else c - 48
  }

  function HexCode(c: byte): int {
    if c >= 65 then c - 55 else c - 48
  }

  predicate AllNibbles(s: Bytes) {
    |s| <= 127 && forall i | 0 <= i < |s| :: IsNibbleChar(s[i])
  }

  predicate AllHex(s: Bytes) {
    |s| <= 127 && forall i | 0 <= i < |s| :: IsHexChar(s[i])
  }

  lemma PackTable(c: byte)
    ensures IsNibbleChar(c) ==> Packable(255, c) && Pack(255, c) == NibbleCode(c)
    ensures IsHexChar(c) ==> Packable(251, c) && Pack(251, c) == HexCode(c)
    ensures Packable(255, 0) && Packable(251, 0) && Pack(255, 0) == 15 && Pack(251, 0) == 15
  {
  }

  /** What a half byte is read as: 10 is '-', 11 is '.', 15 is the padding, 12 to 14 are errors in the first kind;
      10 to 15 are 'A' to 'F' in the second. */
  lemma UnpackTable(v: nibble)
    ensures v <= 9 ==> Unpack(255, v) == Ok(48 + v) && Unpack(251, v) == Ok(48 + v)
    ensures v == 10 ==> Unpack(255, v) == Ok(45)
    ensures v == 11 ==> Unpack(255, v) == Ok(46)
    ensures 12 <= v <= 14 ==> Unpack(255, v) == Err(InvalidNibble)
    ensures v == 15 ==> Unpack(255, v) == Ok(0)
    ensures v >= 10 ==> Unpack(251, v) == Ok(55 + v)
  {
  }

  /** Byte k of the packed characters: the codes of characters 2k and 2k + 1, or 15 for a missing last one. */
  lemma {:induction false} PackedByte(s: Bytes, hex: bool, k: nat)
    requires (if hex then AllHex(s) else AllNibbles(s)) && 2 * k < |s|
    requires forall i | 0 <= i < |s| :: Packable(if hex then 251 else 255, s[i])
    ensures k < |PackAll(if hex then 251 else 255, s)|
    ensures PackAll(if hex then 251 else 255, s)[k] ==
            16 * Code(hex, s[2 * k]) + if 2 * k + 1 < |s| then Code(hex, s[2 * k + 1]) else 15
    decreases k
  {
    PackTable(s[0]);
    if |s| > 1 {
      PackTable(s[1]);
    }
    if k > 0 {
      PackedByte(s[2..], hex, k - 1);
    }
  }

  function Code(hex: bool, c: byte): int {
    if hex then HexCode(c) else NibbleCode(c)
  }

  // ----- What is written

  predicate IsToken(t: Tokens, s: Bytes)
    requires ValidTokens(t)
  {
    IndexOfSingleToken(t, s).Some? || IndexOfDoubleByteToken(t, s, |t.double|).Some?
  }

  /** A string goes out as the byte of its token; as two bytes from 236 on; packed under 255, then under 251; or with
      its length under 252, 253 or 254. */
  lemma WritesToken(t: Tokens, s: Bytes)
    requires ValidTokens(t)
    ensures IndexOfSingleToken(t, s).Some? ==> EncString(t, s) == Ok([IndexOfSingleToken(t, s).value])
    ensures IndexOfSingleToken(t, s).None? && IndexOfDoubleByteToken(t, s, |t.double|).Some? ==>
              var token := IndexOfDoubleByteToken(t, s, |t.double|).value;
              EncString(t, s) == Ok([236 + token.0, token.1])
  {
  }

  /** The packed form: the kind, the number of bytes with the top bit set for an odd length, the packed bytes. */
  lemma WritesPacked(t: Tokens, s: Bytes, k: nat)
    requires ValidTokens(t) && !IsToken(t, s) && (AllNibbles(s) || AllHex(s))
    ensures EncString(t, s).Ok?
    ensures var b, hex := EncString(t, s).value, !AllNibbles(s);
            && |b| == 2 + (|s| + 1) / 2 && b[0] == (if hex then 251 else 255)
            && b[1] == (|s| + 1) / 2 + (if |s| % 2 == 1 then 128 else 0)
            && (2 * k < |s| ==>
                  b[2 + k] == 16 * Code(hex, s[2 * k]) + if 2 * k + 1 < |s| then Code(hex, s[2 * k + 1]) else 15)
  {
    assert ValidNibble(s) <==> AllNibbles(s);
    assert ValidHex(s) <==> AllHex(s);
    if 2 * k < |s| {
      PackedByte(s, !AllNibbles(s), k);
    }
  }

  lemma ShortLength(n: nat)
    requires n < 0x100
    ensures EncByteLength(n) == Ok([252, n])
  {
    OneByteIs(n);
    assert [252] + [n] == [252, n];
  }

  lemma MiddleLength(n: nat)
    requires 0x100 <= n < 0x10_0000
    ensures EncByteLength(n) == Ok([253, n / 0x1_0000 % 256, n / 0x100 % 256, n % 256])
  {
    ThreeBytesAre(n);
    assert [253] + BigEndian(n, 3) == [253, n / 0x1_0000 % 256, n / 0x100 % 256, n % 256];
  }

  lemma LongLength(n: nat)
    requires 0x10_0000 <= n
    ensures EncByteLength(n) ==
            if n < 0x7FFF_FFFF
            then Ok([254, n / 0x100_0000 % 256, n / 0x1_0000 % 256, n / 0x100 % 256, n % 256])
            else Err(LengthTooLarge)
  {
    FourBytesAre(n);
    assert [254] + BigEndian(n, 4) == [254, n / 0x100_0000 % 256, n / 0x1_0000 % 256, n / 0x100 % 256, n % 256];
  }

  /** A length takes one byte after 252, three after 253, of which 20 bits are used, or four after 254. */
  lemma WritesLength(n: nat)
    ensures EncByteLength(n) ==
            if n < 0x100 then Ok([252, n])
            else if n < 0x10_0000 then Ok([253, n / 0x1_0000 % 256, n / 0x100 % 256, n % 256])
            else if n < 0x7FFF_FFFF
            then Ok([254, n / 0x100_0000 % 256, n / 0x1_0000 % 256, n / 0x100 % 256, n % 256])
            else Err(LengthTooLarge)
  {
    if n < 0x100 {
      ShortLength(n);
    } else if n < 0x10_0000 {
      MiddleLength(n);
    } else {
      LongLength(n);
    }
  }

  /** Raw bytes go out as they are, after their length. */
  lemma WritesRaw(b: Bytes)
    ensures EncRaw(b).Ok? <==> |b| < 0x7FFF_FFFF
    ensures |b| < 0x7FFF_FFFF ==> EncByteLength(|b|).Ok? && EncRaw(b) == Ok(EncByteLength(|b|).value + b)
  {
  }

  lemma OneByteIs(v: nat)
    ensures BigEndian(v, 1) == [v % 256]
  {
    assert BigEndian(v, 1) == BigEndian(v / 256, 0) + [v % 256];
  }

  lemma WritesListSize(n: nat)
    ensures n == 0 ==> EncListStart(n) == [0]
    ensures 0 < n < 256 ==> EncListStart(n) == [248, n]
    ensures n >= 256 ==> EncListStart(n) == [249, n / 0x100 % 256, n % 256]
  {
    OneByteIs(n);
    TwoBytesAre(n);
  }

  /** The servers with a form of their own, and their domain numbers. */
  lemma ServerNames()
    ensures Ascii("s.whatsapp.net") == DefaultUserServer && Ascii("lid") == HiddenUserServer
    ensures Ascii("msgr") == MessengerServer && Ascii("interop") == InteropServer
    ensures Ascii("hosted") == HostedServer && Ascii("hosted.lid") == HostedLIDServer
  {
  }

  /** A JID with a device of the first two servers, or of the hosted ones, goes out under 247 with its domain number
      and device; messenger under 246, interop under 245, and all others under 250. */
  lemma WritesJID(t: Tokens, j: JID)
    requires ValidTokens(t) && EncString(t, j.user).Ok? && EncString(t, j.server).Ok?
    ensures var user, server := EncString(t, j.user).value, EncString(t, j.server).value;
            EncJID(t, j) == Ok(
              if j.server == Ascii("s.whatsapp.net") && j.device > 0 then [247, 0, j.device % 256] + user
              else if j.server == Ascii("lid") && j.device > 0 then [247, 1, j.device % 256] + user
              else if j.server == Ascii("hosted") then [247, 128, j.device % 256] + user
              else if j.server == Ascii("hosted.lid") then [247, 129, j.device % 256] + user
              else if j.server == Ascii("msgr") then [246] + user + [j.device / 256, j.device % 256] + server
              else if j.server == Ascii("interop") then
                [245] + user + [j.device / 256, j.device % 256] + [j.integrator / 256, j.integrator % 256] + server
              else if j.user == [] then [250, 0] + server
              else [250] + user + server)
  {
    ServersDiffer();
    ServerNames();
    TwoBytesAre(j.device);
    TwoBytesAre(j.integrator);
    assert [250] + [0] + EncString(t, j.server).value == [250, 0] + EncString(t, j.server).value;
  }

  /** The other values, and an element: its size, its tag, its attributes and its content; a message starts with 0. */
  lemma WritesValue(t: Tokens, v: Value)
    requires ValidTokens(t)
    ensures v == Nil ==> EncValue(t, v) == Ok([0])
    ensures v.Str? ==> EncValue(t, v) == EncString(t, v.str)
    ensures v.Raw? ==> EncValue(t, v) == EncRaw(v.raw)
    ensures v.Jid? ==> EncValue(t, v) == EncJID(t, v.jid)
    ensures v == Bool(true) ==> EncValue(t, v) == EncString(t, [116, 114, 117, 101])
    ensures v == Bool(false) ==> EncValue(t, v) == EncString(t, [102, 97, 108, 115, 101])
    ensures v.Int? && v.number >= 0 ==> EncValue(t, v) == EncString(t, Digits(v.number))
    ensures v.Int? && v.number < 0 ==> EncValue(t, v) == EncString(t, [45] + Digits(-v.number))
    ensures v == Other ==> EncValue(t, v).Err?
  {
    assert Ascii("true") == [116, 114, 117, 101] && Ascii("false") == [102, 97, 108, 115, 101];
  }

  /** An attribute is its key and its value; an empty string and nil are not written. */
  lemma WritesAttribute(t: Tokens, key: Bytes, v: Value, others: seq<Attr>)
    requires ValidTokens(t) && EncAttributes(t, others).Ok?
    ensures var all := EncAttributes(t, [Attr(key, v)] + others);
            if v == Nil || v == Str([]) then all == EncAttributes(t, others)
            else if EncString(t, key).Err? || EncValue(t, v).Err? then all.Err?
            else all == Ok(EncString(t, key).value + EncValue(t, v).value + EncAttributes(t, others).value)
  {
    assert ([Attr(key, v)] + others)[1..] == others;
  }

  /** An element is its size, its tag, its attributes and its content; the size counts the tag, two for every
      attribute that is written, and the content. */
  lemma WritesElement(t: Tokens, n: Node, tag: Bytes, attrs: Bytes, content: Bytes)
    requires ValidTokens(t) && n.tag != [48]
    requires EncString(t, n.tag) == Ok(tag) && EncAttributes(t, n.attrs) == Ok(attrs)
    requires n.content != Nil && EncValue(t, n.content) == Ok(content)
    ensures EncNode(t, n) == Ok(EncListStart(2 * CountAttributes(n.attrs) + 2) + tag + attrs + content)
  {
    assert Ascii("0") == [48];
  }

  lemma WritesEmptyElement(t: Tokens, n: Node, tag: Bytes, attrs: Bytes)
    requires ValidTokens(t) && n.tag != [48] && n.content == Nil
    requires EncString(t, n.tag) == Ok(tag) && EncAttributes(t, n.attrs) == Ok(attrs)
    ensures EncNode(t, n) == Ok(EncListStart(2 * CountAttributes(n.attrs) + 1) + tag + attrs)
  {
    assert Ascii("0") == [48];
    var b := EncListStart(ListSize(n)) + tag + attrs;
    assert b + [] == b;
  }

  /** The tag "0" alone is 248, 0. */
  lemma WritesEndMarker(t: Tokens, n: Node)
    requires ValidTokens(t) && n.tag == [48]
    ensures EncNode(t, n) == Ok([248, 0])
  {
    assert Ascii("0") == [48];
  }

  /** A list of elements is its size and the elements one after the other. */
  lemma WritesNodes(t: Tokens, first: Node, others: seq<Node>)
    requires ValidTokens(t) && EncNode(t, first).Ok? && EncNodes(t, others).Ok?
    ensures EncNodes(t, [first] + others) == Ok(EncNode(t, first).value + EncNodes(t, others).value)
  {
    assert ([first] + others)[1..] == others;
  }

  lemma WritesList(t: Tokens, nodes: seq<Node>)
    requires ValidTokens(t) && EncNodes(t, nodes).Ok?
    ensures EncValue(t, List(nodes)) == Ok(EncListStart(|nodes|) + EncNodes(t, nodes).value)
  {
  }

  /** A message is a zero byte and its element. */
  lemma WritesMessage(t: Tokens, n: Node)
    requires ValidTokens(t) && EncNode(t, n).Ok?
    ensures Marshalled(t, n) == Ok([0] + EncNode(t, n).value)
  {
  }

  // ----- What is read

  lemma ReadsOne(a: byte, rest: Bytes)
    ensures ReadInt([a] + rest, 1) == Ok((a, rest))
  {
    ReadsRaw([a], rest);
    assert FromBigEndian([a]) == a;
  }

  lemma ReadsTwo(a: byte, b: byte, rest: Bytes)
    ensures ReadInt([a, b] + rest, 2) == Ok((256 * a + b, rest))
  {
    ReadsRaw([a, b], rest);
    assert [a, b][..1] == [a] && FromBigEndian([a]) == a;
  }

  lemma ReadsFour(a: byte, b: byte, c: byte, d: byte, rest: Bytes)
    ensures ReadInt([a, b, c, d] + rest, 4) ==
            Ok((0x100_0000 * (a as int) + 0x1_0000 * (b as int) + 0x100 * (c as int) + d, rest))
  {
    ReadsRaw([a, b, c, d], rest);
    ThreeAre(a, b, c);
    assert [a, b, c, d][..3] == [a, b, c];
  }

  lemma ThreeAre(a: byte, b: byte, c: byte)
    ensures FromBigEndian([a, b, c]) == 0x1_0000 * (a as int) + 0x100 * (b as int) + c
  {
    assert [a, b, c][..2] == [a, b] && [a, b][..1] == [a] && FromBigEndian([a]) == a;
  }

  lemma ReadsTwenty(a: byte, b: byte, c: byte, rest: Bytes)
    ensures ReadInt20([a, b, c] + rest) ==
            Ok((0x1_0000 * (a as int % 16) + 0x100 * (b as int) + c, rest))
  {
    ThreeAre(a % 16, b, c);
    assert ([a, b, c] + rest)[3..] == rest;
  }

  /** The first byte decides: 0 is nothing; below 236 it is the token of that number; 236 to 239 take a second byte;
      240 to 244 are no tokens. */
  lemma ReadsTokens(t: Tokens, first: byte, rest: Bytes, asString: bool)
    requires ValidTokens(t)
    ensures var p := ReadValue(t, [first] + rest, asString);
            && (first == 0 ==> p == Ok((Nil, rest)))
            && (1 <= first < 236 ==>
                  p == if first < |t.single| then Ok((Str(t.single[first]), rest)) else Err(InvalidToken))
            && (236 <= first <= 239 && rest != [] ==>
                  p == if first - 236 < |t.double| && rest[0] < |t.double[first - 236]|
                       then Ok((Str(t.double[first - 236][rest[0]]), rest[1..])) else Err(InvalidToken))
            && (236 <= first <= 239 && rest == [] ==> p == Err(EOF))
            && (240 <= first <= 244 ==> p == Err(InvalidToken))
  {
    ReadsByte(first, rest);
    if 236 <= first <= 239 && rest != [] {
      ReadsOne(rest[0], rest[1..]);
      assert [rest[0]] + rest[1..] == rest;
    }
  }

  /** 252, 253 and 254 are followed by a length of one, three and four bytes, of which the second keeps 20 bits. */
  lemma ReadsLengths(t: Tokens, a: byte, b: byte, c: byte, d: byte, rest: Bytes, asString: bool)
    ensures ReadValue(t, [252, a] + rest, asString) == ReadBytes(rest, a, asString)
    ensures ReadValue(t, [253, a, b, c] + rest, asString) ==
            ReadBytes(rest, 0x1_0000 * (a as int % 16) + 0x100 * (b as int) + c, asString)
    ensures ReadValue(t, [254, a, b, c, d] + rest, asString) ==
            ReadBytes(rest, 0x100_0000 * (a as int) + 0x1_0000 * (b as int) + 0x100 * (c as int) + d, asString)
  {
    ReadsOne(a, rest);
    ReadsTwenty(a, b, c, rest);
    ReadsFour(a, b, c, d, rest);
    assert [252, a] + rest == [252] + ([a] + rest);
    assert [253, a, b, c] + rest == [253] + ([a, b, c] + rest);
    assert [254, a, b, c, d] + rest == [254] + ([a, b, c, d] + rest);
    ReadsByte(252, [a] + rest);
    ReadsByte(253, [a, b, c] + rest);
    ReadsByte(254, [a, b, c, d] + rest);
  }

  /** The bytes themselves: a string or raw, or the end of the data. */
  lemma ReadsThatMany(b: Bytes, rest: Bytes, n: nat, asString: bool)
    ensures ReadBytes(b + rest, |b|, asString) == Ok((if asString then Str(b) else Raw(b), rest))
    ensures n > |rest| ==> ReadBytes(rest, n, asString) == Err(EOF)
  {
    ReadsRaw(b, rest);
  }

  /** 248 and 249 are followed by the number of elements in one and two bytes. */
  lemma ReadsLists(t: Tokens, a: byte, b: byte, rest: Bytes, asString: bool)
    ensures var one, two := ReadNodes(t, a, rest), ReadNodes(t, 256 * a + b, rest);
            && ReadValue(t, [248, a] + rest, asString) ==
               (if one.Err? then Err(one.error) else Ok((List(one.value.0), one.value.1)))
            && ReadValue(t, [249, a, b] + rest, asString) ==
               (if two.Err? then Err(two.error) else Ok((List(two.value.0), two.value.1)))
  {
    ReadsOne(a, rest);
    ReadsTwo(a, b, rest);
    assert [248, a] + rest == [248] + ([a] + rest);
    assert [249, a, b] + rest == [249] + ([a, b] + rest);
    ReadsByte(248, [a] + rest);
    ReadsByte(249, [a, b] + rest);
  }

  function AsString(p: Parsed<Bytes>): Parsed<Value> {
    if p.Err? then Err(p.error) else Ok((Str(p.value.0), p.value.1))
  }

  /** 255 and 251 are followed by packed characters. */
  lemma ReadsPackedForms(t: Tokens, rest: Bytes, asString: bool)
    ensures ReadValue(t, [255] + rest, asString) == AsString(ReadPacked(255, rest))
    ensures ReadValue(t, [251] + rest, asString) == AsString(ReadPacked(251, rest))
  {
    ReadsByte(255, rest);
    ReadsByte(251, rest);
  }

  /** 245, 246, 247 and 250 are followed by the parts of a JID. */
  lemma ReadsJIDForms(t: Tokens, rest: Bytes, asString: bool)
    ensures ReadValue(t, [245] + rest, asString) == ReadInteropJID(t, rest)
    ensures ReadValue(t, [246] + rest, asString) == ReadFBJID(t, rest)
    ensures ReadValue(t, [247] + rest, asString) == ReadADJID(t, rest)
    ensures ReadValue(t, [250] + rest, asString) == ReadJIDPair(t, rest)
  {
    ReadsByte(245, rest);
    ReadsByte(246, rest);
    ReadsByte(247, rest);
    ReadsByte(250, rest);
  }

  /** The parts of an AD JID: domain number, device, user. */
  lemma ReadsADParts(t: Tokens, agent: byte, device: byte, rest: Bytes)
    ensures var user := ReadValue(t, rest, true);
            ReadADJID(t, [agent, device] + rest) ==
            if user.Err? then Err(user.error)
            else if !user.value.0.Str? then Err(BadAssertion)
            else
              var u := user.value.0.str;
              Ok((Jid(if agent == 0 then JID(u, 0, device, 0, Ascii("s.whatsapp.net"))
                      else if agent == 1 then JID(u, 0, device, 0, Ascii("lid"))
                      else if agent == 128 then JID(u, 0, device, 0, Ascii("hosted"))
                      else if agent == 129 then JID(u, 0, device, 0, Ascii("hosted.lid"))
                      else JID(u, agent, device, 0, [])), user.value.1))
  {
    assert [agent, device] + rest == [agent] + ([device] + rest);
    ReadsByte(agent, [device] + rest);
    ReadsByte(device, rest);
  }

  /** One packed byte is read as its high and then its low half. */
  lemma ReadsPackedByte(tag: byte, odd: bool, v: byte, rest: Bytes)
    requires tag == 255 || tag == 251
    ensures var high, low := Unpack(tag, v / 16), Unpack(tag, v % 16);
            ReadPacked(tag, [if odd then 129 else 1, v] + rest) ==
            if high.Err? then Err(high.error)
            else if low.Err? then Err(low.error)
            else Ok((if odd then [high.value] else [high.value, low.value], rest))
  {
    var start := if odd then 129 else 1;
    assert [start, v] + rest == [start] + ([v] + rest);
    ReadsByte(start, [v] + rest);
    OnePair(tag, v, rest);
    if Unpack(tag, v / 16).Ok? && Unpack(tag, v % 16).Ok? {
      var high, low := Unpack(tag, v / 16).value, Unpack(tag, v % 16).value;
      assert [high, low][..1] == [high];
    }
  }

  lemma OnePair(tag: byte, v: byte, rest: Bytes)
    ensures var high, low := Unpack(tag, v / 16), Unpack(tag, v % 16);
            ReadPairs(tag, 1, [v] + rest) ==
            if high.Err? then Err(high.error)
            else if low.Err? then Err(low.error) else Ok(([high.value, low.value], rest))
  {
    ReadsByte(v, rest);
    assert ReadPairs(tag, 0, rest) == Ok(([], rest));
    if Unpack(tag, v / 16).Ok? && Unpack(tag, v % 16).Ok? {
      var pair: Bytes := [Unpack(tag, v / 16).value, Unpack(tag, v % 16).value];
      assert pair + [] == pair;
    }
  }

  /** An element: the size in the form of a list, the tag, half the attributes, and a content for an even size. */
  lemma ReadsElementOf(t: Tokens, size: nat, rest: Bytes)
    requires size < 0x1_0000
    ensures var p, desc := ReadNode(t, EncListStart(size) + rest), ReadValue(t, rest, true);
            if desc.Err? || !desc.value.0.Str? || size == 0 || desc.value.0.str == [] then p.Err?
            else
              var attrs := ReadAttributes(t, (size - 1) / 2, desc.value.1, []);
              if attrs.Err? then p.Err?
              else if size % 2 == 1 then p == Ok((Node(desc.value.0.str, attrs.value.0, Nil), attrs.value.1))
              else
                var content := ReadValue(t, attrs.value.1, false);
                if content.Err? then p.Err?
                else p == Ok((Node(desc.value.0.str, attrs.value.0, content.value.0), content.value.1))
  {
    HeadOf(size, rest);
    ReadsAfterHead(t, EncListStart(size) + rest, EncListStart(size)[0], size, rest);
  }

  lemma HeadOf(size: nat, rest: Bytes)
    requires size < 0x1_0000
    ensures var b := EncListStart(size) + rest;
            ReadInt(b, 1) == Ok((EncListStart(size)[0] as nat, b[1..])) &&
            ReadListSize(EncListStart(size)[0], b[1..]) == Ok((size, rest))
  {
    var b := EncListStart(size) + rest;
    OneByte(b);
    assert b[1..] == EncListStart(size)[1..] + rest;
    ListSizeRoundTrip(size, rest);
  }

  lemma ReadsAfterHead(t: Tokens, b: Bytes, first: byte, size: nat, rest: Bytes)
    requires b != [] && ReadInt(b, 1) == Ok((first as nat, b[1..])) && ReadListSize(first, b[1..]) == Ok((size, rest))
    ensures var p, desc := ReadNode(t, b), ReadValue(t, rest, true);
            if desc.Err? || !desc.value.0.Str? || size == 0 || desc.value.0.str == [] then p.Err?
            else
              var attrs := ReadAttributes(t, (size - 1) / 2, desc.value.1, []);
              if attrs.Err? then p.Err?
              else if size % 2 == 1 then p == Ok((Node(desc.value.0.str, attrs.value.0, Nil), attrs.value.1))
              else
                var content := ReadValue(t, attrs.value.1, false);
                if content.Err? then p.Err?
                else p == Ok((Node(desc.value.0.str, attrs.value.0, content.value.0), content.value.1))
  {
  }

  /** Bytes after the element are an error that counts them. */
  lemma LeftoverIsRefused(t: Tokens, n: Node, rest: Bytes)
    requires ValidTokens(t) && EncNode(t, n).Ok? && NodeFits(n) && NodeCarried(n)
    ensures Unmarshalled(t, EncNode(t, n).value + rest) ==
            if rest == [] then Ok(NormNode(t, n)) else Err(Leftover(NormNode(t, n), |rest|))
  {
    ReadsNode(t, n, rest);
  }

  lemma WritesRequestID(t: Tokens)
    requires ValidTokens(t) && !IsToken(t, [49, 45])
    ensures EncString(t, [49, 45]) == Ok([255, 1, 0x1A])
  {
    WritesPacked(t, [49, 45], 0);
    var b := EncString(t, [49, 45]).value;
    assert |b| == 3 && b[0] == 255 && b[1] == 1 && b[2] == 0x1A;
    assert b == [255, 1, 0x1A];
  }

  lemma ReadsRequestID(t: Tokens)
    ensures ReadValue(t, [255, 1, 0x1A], true) == Ok((Str([49, 45]), []))
  {
    var none: Bytes := [];
    UnpackTable(1);
    UnpackTable(10);
    ReadsPackedByte(255, false, 0x1A, none);
    ReadsByte(255, [1, 0x1A]);
    assert [255] + [1, 0x1A] == [255, 1, 0x1A] && [1, 0x1A] + none == [1, 0x1A];
  }
}
