/** binaryEncoder (binary/encoder.go): every method appends the bytes module BinaryNode describes. A
    method that panics in Go returns false, and its bytes are lost with the encoder. */
module BinaryEncoder {
  import opened Bytes
  import opened Jid
  import opened BinaryNode
  import opened BinaryRoundTrip

  /** Read-only scan of validateNibble. */
  method ValidateNibble(value: Bytes) returns (valid: bool)
    ensures valid == ValidNibble(value)
  {
    if |value| > PACKED_MAX {
      return false;
    }
    for i := 0 to |value|
      invariant forall k | 0 <= k < i :: NibbleChar(value[k])
    {
      if !(48 <= value[i] <= 57) && value[i] != 45 && value[i] != 46 {
        return false;
      }
    }
    return true;
  }

  method ValidateHex(value: Bytes) returns (valid: bool)
    ensures valid == ValidHex(value)
  {
    if |value| > PACKED_MAX {
      return false;
    }
    for i := 0 to |value|
      invariant forall k | 0 <= k < i :: HexChar(value[k])
    {
      if !(48 <= value[i] <= 57) && !(65 <= value[i] <= 70) {
        return false;
      }
    }
    return true;
  }

  /** countAttributes */
  method CountWritten(attributes: seq<Attr>) returns (count: nat)
    ensures count == CountAttributes(attributes)
  {
    count := 0;
    for i := 0 to |attributes|
      invariant count + CountAttributes(attributes[i..]) == CountAttributes(attributes)
    {
      assert attributes[i..][1..] == attributes[i + 1..];
      if !Dropped(attributes[i].value) {
        count := count + 1;
      }
    }
  }

  class Encoder {
    const t: Tokens
    var data: Bytes

    constructor (t: Tokens)
      ensures this.t == t && data == [0]
    {
      this.t, data := t, [0];
    }

    method PushByte(b: byte)
      modifies this
      ensures data == old(data) + [b]
    {
      data := data + [b];
    }

    method PushBytes(bytes: Bytes)
      modifies this
      ensures data == old(data) + bytes
    {
      data := data + bytes;
    }

    /** pushIntN, big-endian: byte i of the loop is value >> 8*(n-i-1), cut to 8 bits. */
    method PushIntN(value: nat, n: nat)
      modifies this
      ensures data == old(data) + BigEndian(value, n)
    {
      for i := 0 to n
        invariant data == old(data) + BigEndian(value, n)[..i]
      {
        ByteOfBigEndian(value, n, i);
        PushByte(ShiftRight(value, n - i - 1) % 256);
      }
      assert BigEndian(value, n)[..n] == BigEndian(value, n);
    }

    /** pushInt20 */
    method PushInt20(value: nat)
      modifies this
      ensures data == old(data) + BigEndian(value % 0x10_0000, 3)
    {
      ThreeBytesOf(value);
      PushBytes([value / 0x1_0000 % 16, value / 256 % 256, value % 256]);
    }

    method WriteByteLength(length: nat) returns (ok: bool)
      modifies this
      ensures ok == EncByteLength(length).Ok?
      ensures ok ==> data == old(data) + EncByteLength(length).value
    {
      if length < 256 {
        PushByte(BINARY8);
        PushIntN(length, 1);
      } else if length < 0x10_0000 {
        PushByte(BINARY20);
        PushInt20(length);
      } else if length < MAX_INT32 {
        PushByte(BINARY32);
        PushIntN(length, 4);
      } else {
        return false;
      }
      return true;
    }

    /** writeBytes and writeStringRaw */
    method WriteRaw(value: Bytes) returns (ok: bool)
      modifies this
      ensures ok == EncRaw(value).Ok?
      ensures ok ==> data == old(data) + EncRaw(value).value
    {
      ok := WriteByteLength(|value|);
      if ok {
        PushBytes(value);
      }
    }

    method WriteListStart(listSize: nat)
      modifies this
      ensures data == old(data) + EncListStart(listSize)
    {
      if listSize == 0 {
        PushByte(LIST_EMPTY);
      } else if listSize < 256 {
        PushByte(LIST8);
        PushIntN(listSize, 1);
      } else {
        PushByte(LIST16);
        PushIntN(listSize, 2);
      }
    }

    method WritePackedBytes(value: Bytes, dataType: byte)
      requires |value| <= PACKED_MAX && PackableAll(dataType, value)
      modifies this
      ensures data == old(data) + EncPacked(dataType, value)
    {
      PushByte(dataType);
      PushByte(RoundedLength(|value|));
      ghost var start := data;
      assert start == old(data) + [dataType, RoundedLength(|value|)];
      for i := 0 to |value| / 2
        invariant data + PackAll(dataType, value[2 * i..]) == start + PackAll(dataType, value)
      {
        PackStep(dataType, value, i);
        Append3(data, [PackPair(dataType, value[2 * i], value[2 * i + 1])], PackAll(dataType, value[2 * i + 2..]), []);
        PushByte(PackPair(dataType, value[2 * i], value[2 * i + 1]));
      }
      PackEnd(dataType, value);
      if |value| % 2 != 0 {
        PushByte(PackPair(dataType, value[|value| - 1], 0));
      }
      assert data == start + PackAll(dataType, value);
      Append3(old(data), [dataType, RoundedLength(|value|)], PackAll(dataType, value), []);
    }

    method WriteString(value: Bytes) returns (ok: bool)
      requires ValidTokens(t)
      modifies this
      ensures ok == EncString(t, value).Ok?
      ensures ok ==> data == old(data) + EncString(t, value).value
    {
      ok := true;
      var single := IndexOfSingleToken(t, value);
      if single.Some? {
        PushByte(single.value);
        return;
      }
      var double := IndexOfDoubleByteToken(t, value, |t.double|);
      if double.Some? {
        PushByte(DICTIONARY0 + double.value.0);
        PushByte(double.value.1);
        return;
      }
      var packable := ValidateNibble(value);
      if packable {
        WritePackedBytes(value, NIBBLE8);
        return;
      }
      packable := ValidateHex(value);
      if packable {
        WritePackedBytes(value, HEX8);
      } else {
        ok := WriteRaw(value);
      }
    }

    method WriteJID(jid: JID) returns (ok: bool)
      requires ValidTokens(t)
      modifies this
      ensures ok == EncJID(t, jid).Ok?
      ensures ok ==> data == old(data) + EncJID(t, jid).value
    {
      if ((jid.server == DefaultUserServer || jid.server == HiddenUserServer) && jid.device > 0)
         || jid.server == HostedServer || jid.server == HostedLIDServer {
        ok := WriteADJID(jid);
      } else if jid.server == MessengerServer {
        ok := WriteNumbered(FB_JID, jid, [jid.device]);
      } else if jid.server == InteropServer {
        ok := WriteNumbered(INTEROP_JID, jid, [jid.device, jid.integrator]);
      } else {
        ok := WriteJIDPair(jid);
      }
    }

    method WriteADJID(jid: JID) returns (ok: bool)
      requires ValidTokens(t) && WrittenAsAD(jid)
      modifies this
      ensures ok == EncJID(t, jid).Ok?
      ensures ok ==> data == old(data) + EncJID(t, jid).value
    {
      EncAD(t, jid);
      PushByte(AD_JID);
      PushByte(jid.ActualAgent());
      PushByte(jid.device % 256);
      ok := WriteString(jid.user);
      if ok {
        Append4(old(data), [AD_JID], [jid.ActualAgent()], [jid.device % 256], EncString(t, jid.user).value);
      }
    }

    /** The two forms with 16-bit numbers between the user and the server. */
    method WriteNumbered(tag: byte, jid: JID, numbers: seq<uint16>) returns (ok: bool)
      requires ValidTokens(t) && !WrittenAsAD(jid)
      requires (tag == FB_JID && jid.server == MessengerServer && numbers == [jid.device])
            || (tag == INTEROP_JID && jid.server == InteropServer && numbers == [jid.device, jid.integrator])
      modifies this
      ensures ok == EncJID(t, jid).Ok?
      ensures ok ==> data == old(data) + EncJID(t, jid).value
    {
      EncNumbered(t, jid);
      PushByte(tag);
      ok := WriteString(jid.user);
      if !ok { return; }
      ghost var user := EncString(t, jid.user).value;
      PushIntN(numbers[0], 2);
      if tag == INTEROP_JID {
        PushIntN(numbers[1], 2);
      }
      ghost var middle := NumberBytes(jid);
      assert data == old(data) + [tag] + user + middle;
      ok := WriteString(jid.server);
      if ok {
        Append4(old(data), [tag], user, middle, EncString(t, jid.server).value);
      }
    }

    method WriteJIDPair(jid: JID) returns (ok: bool)
      requires ValidTokens(t)
      requires !WrittenAsAD(jid) && jid.server != MessengerServer && jid.server != InteropServer
      modifies this
      ensures ok == EncJID(t, jid).Ok?
      ensures ok ==> data == old(data) + EncJID(t, jid).value
    {
      EncPair(t, jid);
      PushByte(JID_PAIR);
      if |jid.user| == 0 {
        PushByte(LIST_EMPTY);
      } else {
        ok := WriteString(jid.user);
        if !ok { return; }
      }
      ghost var user := data[|old(data)| + 1..];
      ok := WriteString(jid.server);
      if ok {
        Append3(old(data), [JID_PAIR], user, EncString(t, jid.server).value);
      }
    }

    /** write */
    method Write(value: Value) returns (ok: bool)
      requires ValidTokens(t)
      modifies this
      ensures ok == EncValue(t, value).Ok?
      ensures ok ==> data == old(data) + EncValue(t, value).value
      decreases value, 0
    {
      ok := true;
      match value {
        case Nil => PushByte(LIST_EMPTY);
        case Str(s) => ok := WriteString(s);
        case Raw(b) => ok := WriteRaw(b);
        case Jid(j) => ok := WriteJID(j);
        case Int(n) => ok := WriteString(Decimal(n));
        case Bool(b) => ok := WriteString(BoolText(b));
        case List(nodes) =>
          WriteListStart(|nodes|);
          ok := WriteNodes(nodes);
          if ok {
            Append2(old(data), EncListStart(|nodes|), EncNodes(t, nodes).value);
          }
        case Other => ok := false;
      }
    }

    /** The loop of write over a list of elements. */
    method WriteNodes(nodes: seq<Node>) returns (ok: bool)
      requires ValidTokens(t)
      modifies this
      ensures ok == EncNodes(t, nodes).Ok?
      ensures ok ==> data == old(data) + EncNodes(t, nodes).value
      decreases nodes, 0
    {
      for i := 0 to |nodes|
        invariant EncNodes(t, nodes).Ok? == EncNodes(t, nodes[i..]).Ok?
        invariant EncNodes(t, nodes).Ok? ==>
                    data + EncNodes(t, nodes[i..]).value == old(data) + EncNodes(t, nodes).value
      {
        NodesStep(t, nodes, i);
        ghost var was := data;
        ok := WriteNode(nodes[i]);
        if !ok {
          return false;
        }
        if EncNodes(t, nodes[i + 1..]).Ok? {
          Append2(was, EncNode(t, nodes[i]).value, EncNodes(t, nodes[i + 1..]).value);
        }
      }
      return true;
    }

    method WriteAttributes(attributes: seq<Attr>) returns (ok: bool)
      requires ValidTokens(t)
      modifies this
      ensures ok == EncAttributes(t, attributes).Ok?
      ensures ok ==> data == old(data) + EncAttributes(t, attributes).value
      decreases attributes, 0
    {
      for i := 0 to |attributes|
        invariant EncAttributes(t, attributes).Ok? == EncAttributes(t, attributes[i..]).Ok?
        invariant EncAttributes(t, attributes).Ok? ==>
                    data + EncAttributes(t, attributes[i..]).value == old(data) + EncAttributes(t, attributes).value
      {
        AttributesStep(t, attributes, i);
        ghost var was := data;
        if Dropped(attributes[i].value) {
          continue;
        }
        ok := WriteString(attributes[i].key);
        if !ok {
          return false;
        }
        ok := Write(attributes[i].value);
        if !ok {
          return false;
        }
        if EncAttributes(t, attributes[i + 1..]).Ok? {
          Append3(was, EncString(t, attributes[i].key).value, EncValue(t, attributes[i].value).value,
                  EncAttributes(t, attributes[i + 1..]).value);
        }
      }
      return true;
    }

    method WriteNode(n: Node) returns (ok: bool)
      requires ValidTokens(t)
      modifies this
      ensures ok == EncNode(t, n).Ok?
      ensures ok ==> data == old(data) + EncNode(t, n).value
      decreases n, 1
    {
      if n.tag == Ascii("0") {
        PushByte(LIST8);
        PushByte(LIST_EMPTY);
        return true;
      }
      ok := WriteElement(n);
    }

    /** writeNode for any other tag */
    method WriteElement(n: Node) returns (ok: bool)
      requires ValidTokens(t) && n.tag != Ascii("0")
      modifies this
      ensures ok == EncNode(t, n).Ok?
      ensures ok ==> data == old(data) + EncNode(t, n).value
      decreases n, 0
    {
      ElementBytes(t, n);
      var count := CountWritten(n.attrs);
      WriteListStart(2 * count + 1 + if n.content != Nil then 1 else 0);
      ok := WriteString(n.tag);
      if !ok { return; }
      ok := WriteAttributes(n.attrs);
      if !ok { return; }
      Append4(old(data), EncListStart(ListSize(n)), EncString(t, n.tag).value, EncAttributes(t, n.attrs).value,
                ContentOrNone(t, n));
      if n.content != Nil {
        ok := Write(n.content);
      }
    }
  }

  lemma NodesStep(t: Tokens, nodes: seq<Node>, i: nat)
    requires ValidTokens(t) && i < |nodes|
    ensures var first, others := EncNode(t, nodes[i]), EncNodes(t, nodes[i + 1..]);
            && (EncNodes(t, nodes[i..]).Ok? <==> first.Ok? && others.Ok?)
            && (first.Ok? && others.Ok? ==> EncNodes(t, nodes[i..]).value == first.value + others.value)
  {
    assert nodes[i..][0] == nodes[i] && nodes[i..][1..] == nodes[i + 1..];
  }

  lemma AttributesStep(t: Tokens, attrs: seq<Attr>, i: nat)
    requires ValidTokens(t) && i < |attrs|
    ensures var key, value := EncString(t, attrs[i].key), EncValue(t, attrs[i].value);
            var others := EncAttributes(t, attrs[i + 1..]);
            if Dropped(attrs[i].value) then EncAttributes(t, attrs[i..]) == others
            else
              && (EncAttributes(t, attrs[i..]).Ok? <==> key.Ok? && value.Ok? && others.Ok?)
              && (key.Ok? && value.Ok? && others.Ok? ==>
                    EncAttributes(t, attrs[i..]).value == key.value + value.value + others.value)
  {
    assert attrs[i..][0] == attrs[i] && attrs[i..][1..] == attrs[i + 1..];
  }

  lemma ElementBytes(t: Tokens, n: Node)
    requires ValidTokens(t) && n.tag != Ascii("0")
    ensures EncNode(t, n).Ok? <==>
            EncString(t, n.tag).Ok? && EncAttributes(t, n.attrs).Ok? && (n.content == Nil || EncValue(t, n.content).Ok?)
    ensures EncNode(t, n).Ok? ==>
              EncNode(t, n).value == EncListStart(ListSize(n)) + EncString(t, n.tag).value
                                     + EncAttributes(t, n.attrs).value + ContentOrNone(t, n)
  {
  }

  function ContentOrNone(t: Tokens, n: Node): Bytes
    requires ValidTokens(t)
  {
    if n.content == Nil || EncValue(t, n.content).Err? then [] else EncValue(t, n.content).value
  }

  /** Marshal */
  method Marshal(t: Tokens, n: Node) returns (r: Result<Bytes, ()>)
    requires ValidTokens(t)
    ensures r == if Marshalled(t, n).Ok? then Ok(Marshalled(t, n).value) else Err(())
  {
    var w := new Encoder(t);
    var ok := w.WriteNode(n);
    return if ok then Ok(w.data) else Err(());
  }

  lemma Append2(z: Bytes, a: Bytes, b: Bytes)
    ensures z + a + b == z + (a + b)
  {
  }

  lemma Append3(z: Bytes, a: Bytes, b: Bytes, c: Bytes)
    ensures z + a + b + c == z + (a + b + c) && z + a + b == z + (a + b)
  {
  }

  lemma Append4(z: Bytes, a: Bytes, b: Bytes, c: Bytes, d: Bytes)
    ensures z + a + b + c + d == z + (a + b + c + d)
  {
  }

  lemma PackStep(tag: byte, s: Bytes, i: nat)
    requires PackableAll(tag, s) && 2 * i + 1 < |s|
    ensures PackAll(tag, s[2 * i..]) == [PackPair(tag, s[2 * i], s[2 * i + 1])] + PackAll(tag, s[2 * i + 2..])
  {
    assert s[2 * i..][2..] == s[2 * i + 2..];
  }

  lemma PackEnd(tag: byte, s: Bytes)
    requires PackableAll(tag, s)
    ensures PackAll(tag, s[2 * (|s| / 2)..]) ==
            if |s| % 2 != 0 then [PackPair(tag, s[|s| - 1], 0)] else []
  {
    if |s| % 2 != 0 {
      assert s[2 * (|s| / 2)..] == [s[|s| - 1]];
    } else {
      assert s[2 * (|s| / 2)..] == [];
    }
  }

  /** value >> 8*k */
  lemma ThreeBytesOf(value: nat)
    ensures BigEndian(value % 0x10_0000, 3) == [value / 0x1_0000 % 16, value / 256 % 256, value % 256]
  {
    var low := value % 0x10_0000;
    ByteOfBigEndian(low, 3, 0);
    ByteOfBigEndian(low, 3, 1);
    ByteOfBigEndian(low, 3, 2);
    ShiftTwice(low);
    TwentyBits(value);
  }

  lemma TwentyBits(value: nat)
    ensures var low := value % 0x10_0000;
            && low / 0x1_0000 % 256 == value / 0x1_0000 % 16
            && low / 256 % 256 == value / 256 % 256 && low % 256 == value % 256
  {
    var high, low := value / 0x10_0000, value % 0x10_0000;
    assert value == 0x10_0000 * high + low;
    assert value / 0x1_0000 == 16 * high + low / 0x1_0000;
    assert value / 256 == 0x1000 * high + low / 256;
    assert 0x1000 * high + low / 256 == 256 * (16 * high) + low / 256;
    assert value == 256 * (0x1000 * high) + low;
  }

  lemma ShiftTwice(value: nat)
    ensures ShiftRight(value, 2) == value / 0x1_0000 && ShiftRight(value, 1) == value / 256
  {
    assert ShiftRight(value, 2) == ShiftRight(value / 256, 1) == ShiftRight(value / 256 / 256, 0);
  }
}
