/** binaryDecoder (binary/decoder.go): a cursor over the data. Every method reads what module
    BinaryParse describes, never moves the cursor past the end, and advances it when it succeeds. */
module BinaryDecoder {
  import opened Bytes
  import opened Jid
  import opened BinaryNode
  import opened BinaryParse
  import opened BinaryRoundTrip

  class Decoder {
    const t: Tokens
    const data: Bytes
    var index: nat

    constructor (t: Tokens, data: Bytes)
      ensures this.t == t && this.data == data && index == 0
    {
      this.t, this.data, index := t, data, 0;
    }

    predicate InRange()
      reads this
    {
      index <= |data|
    }

    function Remaining(): Bytes
      reads this
      requires InRange()
    {
      data[index..]
    }

    /** The outcome of a read that started at `from`: the parse of what remained there. */
    predicate Did<T(==)>(from: nat, r: Result<T, DecodeError>, p: Parsed<T>)
      reads this
      requires from <= |data|
    {
      && from <= index <= |data|
      && (p.Ok? ==> r == Ok(p.value.0) && Remaining() == p.value.1)
      && (p.Err? ==> r == Err(p.error))
    }

    method ReadOneByte() returns (r: Result<byte, DecodeError>)
      requires InRange()
      modifies this
      ensures Did(old(index), r, ReadByte(old(Remaining())))
    {
      if index + 1 > |data| {
        return Err(EOF);
      }
      var b := data[index];
      index := index + 1;
      return Ok(b);
    }

    method ReadRawBytes(length: nat) returns (r: Result<Bytes, DecodeError>)
      requires InRange()
      modifies this
      ensures Did(old(index), r, ReadRaw(old(Remaining()), length))
    {
      if index + length > |data| {
        return Err(EOF);
      }
      var ret := data[index..index + length];
      assert ret == Remaining()[..length];
      index := index + length;
      return Ok(ret);
    }

    /** readIntN, big-endian: the bytes are shifted in one after the other. */
    method ReadIntN(n: nat) returns (r: Result<nat, DecodeError>)
      requires InRange()
      modifies this
      ensures Did(old(index), r, ReadInt(old(Remaining()), n))
    {
      if index + n > |data| {
        return Err(EOF);
      }
      var ret := 0;
      for i := 0 to n
        invariant ret == FromBigEndian(data[index..index + i])
      {
        assert data[index..index + i + 1][..i] == data[index..index + i];
        ret := ret * 256 + data[index + i] as int;
      }
      assert data[index..index + n] == old(Remaining())[..n];
      index := index + n;
      return Ok(ret);
    }

    method ReadInt20At() returns (r: Result<nat, DecodeError>)
      requires InRange()
      modifies this
      ensures Did(old(index), r, ReadInt20(old(Remaining())))
    {
      if index + 3 > |data| {
        return Err(EOF);
      }
      var ret: nat := data[index] % 16 * 0x1_0000 + data[index + 1] as int * 256 + data[index + 2] as int;
      ThreeBytes(data[index] % 16, data[index + 1], data[index + 2]);
      index := index + 3;
      return Ok(ret);
    }

    method ReadPacked8(tag: byte) returns (r: Result<Bytes, DecodeError>)
      requires InRange()
      modifies this
      ensures Did(old(index), r, ReadPacked(tag, old(Remaining())))
    {
      var startByte :- ReadOneByte();
      var build: Bytes := [];
      ghost var all := ReadPairs(tag, startByte % 128, Remaining());
      ContinuesStart(all);
      var i := 0;
      while i < startByte % 128
        invariant 0 <= i <= startByte % 128
        invariant old(index) <= index <= |data|
        invariant Continues(all, build, ReadPairs(tag, startByte % 128 - i, Remaining()))
      {
        var pair :- ReadPair8(tag, startByte % 128 - i - 1);
        ContinuesWith(all, build, pair, ReadPairs(tag, startByte % 128 - i - 1, Remaining()));
        build := build + pair;
        i := i + 1;
      }
      ContinuesEnd(all, build, Remaining());
      if startByte < 128 {
        return Ok(build);
      } else if |build| == 0 {
        return Err(BadAssertion);
      }
      return Ok(build[..|build| - 1]);
    }

    /** The body of the loop of readPacked8, with n more bytes to unpack afterwards. */
    method ReadPair8(tag: byte, ghost n: nat) returns (r: Result<Bytes, DecodeError>)
      requires InRange()
      modifies this
      ensures old(index) <= index <= |data|
      ensures Prefixes(ReadPairs(tag, n + 1, old(Remaining())), r, ReadPairs(tag, n, Remaining()))
    {
      var currByte :- ReadOneByte();
      var lower :- Unpack(tag, currByte / 16);
      var upper :- Unpack(tag, currByte % 16);
      return Ok([lower, upper]);
    }

    method ReadListSizeOf(tag: nat) returns (r: Result<nat, DecodeError>)
      requires InRange()
      modifies this
      ensures Did(old(index), r, ReadListSize(tag, old(Remaining())))
    {
      if tag == LIST_EMPTY {
        return Ok(0);
      } else if tag == LIST8 {
        r := ReadIntN(1);
      } else if tag == LIST16 {
        r := ReadIntN(2);
      } else {
        return Err(InvalidListTag);
      }
    }

    method ReadBytesOrString(length: nat, asString: bool) returns (r: Result<Value, DecodeError>)
      requires InRange()
      modifies this
      ensures Did(old(index), r, ReadBytes(old(Remaining()), length, asString))
    {
      var raw :- ReadRawBytes(length);
      return Ok(if asString then Str(raw) else Raw(raw));
    }

    method ReadSized(tag: byte, asString: bool) returns (r: Result<Value, DecodeError>)
      requires InRange() && (tag == BINARY8 || tag == BINARY20 || tag == BINARY32)
      modifies this
      ensures Did(old(index), r, SizedBytes(tag, old(Remaining()), asString))
    {
      var size: nat;
      if tag == BINARY8 {
        size :- ReadIntN(1);
      } else if tag == BINARY20 {
        size :- ReadInt20At();
      } else {
        size :- ReadIntN(4);
      }
      r := ReadBytesOrString(size, asString);
    }

    /** read. It always terminates: each nested read starts further on. */
    method Read(asString: bool) returns (r: Result<Value, DecodeError>)
      requires InRange()
      modifies this
      ensures Did(old(index), r, ReadValue(t, old(Remaining()), asString))
      ensures r.Ok? ==> old(index) < index
      decreases |data| - index, 0
    {
      var tag :- ReadOneByte();
      if tag == LIST_EMPTY {
        return Ok(Nil);
      } else if tag == LIST8 || tag == LIST16 {
        var nodes :- ReadNodeList(tag);
        return Ok(List(nodes));
      } else if tag == BINARY8 || tag == BINARY20 || tag == BINARY32 {
        r := ReadSized(tag, asString);
      } else if DICTIONARY0 <= tag <= DICTIONARY3 {
        var i :- ReadIntN(1);
        var token :- GetDoubleToken(t, tag - DICTIONARY0, i);
        return Ok(Str(token));
      } else if tag == FB_JID {
        r := ReadFB();
      } else if tag == INTEROP_JID {
        r := ReadInterop();
      } else if tag == JID_PAIR {
        r := ReadPair();
      } else if tag == AD_JID {
        r := ReadAD();
      } else if tag == NIBBLE8 || tag == HEX8 {
        var packed :- ReadPacked8(tag);
        return Ok(Str(packed));
      } else if 1 <= tag < |t.single| {
        return Ok(Str(t.single[tag]));
      } else {
        return Err(InvalidToken);
      }
    }

    method ReadPair() returns (r: Result<Value, DecodeError>)
      requires InRange()
      modifies this
      ensures Did(old(index), r, ReadJIDPair(t, old(Remaining())))
      decreases |data| - index, 1
    {
      var user :- Read(true);
      var server :- Read(true);
      if server == Nil {
        return Err(InvalidJIDType);
      } else if (user != Nil && !user.Str?) || !server.Str? {
        return Err(BadAssertion);
      } else if user == Nil {
        return Ok(Jid(NewJID([], server.str)));
      }
      return Ok(Jid(NewJID(user.str, server.str)));
    }

    method ReadInterop() returns (r: Result<Value, DecodeError>)
      requires InRange()
      modifies this
      ensures Did(old(index), r, ReadInteropJID(t, old(Remaining())))
      decreases |data| - index, 1
    {
      var user :- Read(true);
      var device :- ReadIntN(2);
      var integrator :- ReadIntN(2);
      var server :- Read(true);
      if server != Str(InteropServer) {
        return Err(InvalidJIDType);
      } else if !user.Str? {
        return Err(BadAssertion);
      }
      return Ok(Jid(JID(user.str, 0, device % 0x1_0000, integrator % 0x1_0000, InteropServer)));
    }

    method ReadFB() returns (r: Result<Value, DecodeError>)
      requires InRange()
      modifies this
      ensures Did(old(index), r, ReadFBJID(t, old(Remaining())))
      decreases |data| - index, 1
    {
      var user :- Read(true);
      var device :- ReadIntN(2);
      var server :- Read(true);
      if server != Str(MessengerServer) {
        return Err(InvalidJIDType);
      } else if !user.Str? {
        return Err(BadAssertion);
      }
      return Ok(Jid(JID(user.str, 0, device % 0x1_0000, 0, server.str)));
    }

    method ReadAD() returns (r: Result<Value, DecodeError>)
      requires InRange()
      modifies this
      ensures Did(old(index), r, ReadADJID(t, old(Remaining())))
      decreases |data| - index, 1
    {
      var agent :- ReadOneByte();
      var device :- ReadOneByte();
      var user :- Read(true);
      if !user.Str? {
        return Err(BadAssertion);
      }
      return Ok(Jid(NewADJID(user.str, agent, device)));
    }

    method ReadAttrs(n: nat) returns (r: Result<seq<Attr>, DecodeError>)
      requires InRange()
      modifies this
      ensures Did(old(index), r, ReadAttributes(t, n, old(Remaining()), []))
      decreases |data| - index, 2
    {
      var ret: seq<Attr> := [];
      for i := 0 to n
        invariant old(index) <= index <= |data|
        invariant i > 0 ==> old(index) < index
        invariant ReadAttributes(t, n, old(Remaining()), []) == ReadAttributes(t, n - i, Remaining(), ret)
      {
        ret :- ReadAttr(ret, n - i - 1);
      }
      return Ok(ret);
    }

    /** The body of the loop of readAttributes, with n more attributes to read afterwards. */
    method ReadAttr(attrs: seq<Attr>, ghost n: nat) returns (r: Result<seq<Attr>, DecodeError>)
      requires InRange()
      modifies this
      ensures old(index) <= index <= |data| && (r.Ok? ==> old(index) < index)
      ensures ReadAttributes(t, n + 1, old(Remaining()), attrs) ==
              if r.Err? then Err(r.error) else ReadAttributes(t, n, Remaining(), r.value)
      decreases |data| - index, 1
    {
      var key :- Read(true);
      if !key.Str? {
        return Err(NonStringKey);
      }
      var value :- Read(true);
      return Ok(PutAttr(attrs, key.str, value));
    }

    /** readList */
    method ReadNodeList(tag: nat) returns (r: Result<seq<Node>, DecodeError>)
      requires InRange()
      modifies this
      ensures Did(old(index), r, ReadList(t, tag, old(Remaining())))
      decreases |data| - index, 3
    {
      var size :- ReadListSizeOf(tag);
      r := ReadNodeLoop(size);
    }

    method ReadNodeLoop(size: nat) returns (r: Result<seq<Node>, DecodeError>)
      requires InRange()
      modifies this
      ensures Did(old(index), r, ReadNodes(t, size, old(Remaining())))
      decreases |data| - index, 2
    {
      var ret: seq<Node> := [];
      ghost var all := ReadNodes(t, size, Remaining());
      ContinuesStart(all);
      for i := 0 to size
        invariant old(index) <= index <= |data|
        invariant i > 0 ==> old(index) < index
        invariant Continues(all, ret, ReadNodes(t, size - i, Remaining()))
      {
        var n :- ReadElement();
        ContinuesWith(all, ret, [n], ReadNodes(t, size - i - 1, Remaining()));
        ret := ret + [n];
      }
      ContinuesEnd(all, ret, Remaining());
      return Ok(ret);
    }

    /** readNode */
    method ReadElement() returns (r: Result<Node, DecodeError>)
      requires InRange()
      modifies this
      ensures Did(old(index), r, ReadNode(t, old(Remaining())))
      ensures r.Ok? ==> old(index) < index
      decreases |data| - index, 1
    {
      var size :- ReadIntN(1);
      var listSize :- ReadListSizeOf(size);
      var rawDesc :- Read(true);
      if !rawDesc.Str? {
        return Err(BadAssertion);
      } else if listSize == 0 || rawDesc.str == [] {
        return Err(InvalidNode);
      }
      var attrs :- ReadAttrs((listSize - 1) / 2);
      if listSize % 2 == 1 {
        return Ok(Node(rawDesc.str, attrs, Nil));
      }
      var content :- Read(false);
      return Ok(Node(rawDesc.str, attrs, content));
    }
  }

  /** A loop that has read `done` and goes on with the outcome `left` comes to the outcome `all`. */
  predicate Continues<T(==)>(all: Parsed<seq<T>>, done: seq<T>, left: Parsed<seq<T>>) {
    if left.Err? then all == left else all == Ok((done + left.value.0, left.value.1))
  }

  /** Reading `first` and then going on with `next` comes to `left`. */
  predicate Prefixes<T(==)>(left: Parsed<seq<T>>, first: Result<seq<T>, DecodeError>, next: Parsed<seq<T>>) {
    if first.Err? then left == Err(first.error) else Continues(left, first.value, next)
  }

  lemma ContinuesStart<T>(all: Parsed<seq<T>>)
    ensures Continues(all, [], all)
  {
    if all.Ok? {
      assert [] + all.value.0 == all.value.0;
    }
  }

  lemma ContinuesEnd<T>(all: Parsed<seq<T>>, done: seq<T>, rest: Bytes)
    ensures Continues(all, done, Ok(([], rest))) ==> all == Ok((done, rest))
  {
    assert done + [] == done;
  }

  lemma ContinuesWith<T>(all: Parsed<seq<T>>, done: seq<T>, first: seq<T>, next: Parsed<seq<T>>)
    ensures forall left ::
              Continues(all, done, left) && Continues(left, first, next) ==> Continues(all, done + first, next)
  {
    forall left: Parsed<seq<T>> | Continues(all, done, left) && Continues(left, first, next)
      ensures Continues(all, done + first, next)
    {
      if next.Ok? {
        assert done + (first + next.value.0) == done + first + next.value.0;
      }
    }
  }

  function SizedBytes(tag: byte, bs: Bytes, asString: bool): Parsed<Value> {
    var size :- if tag == BINARY8 then ReadInt(bs, 1) else if tag == BINARY20 then ReadInt20(bs) else ReadInt(bs, 4);
    ReadBytes(size.1, size.0, asString)
  }

  lemma ThreeBytes(a: byte, b: byte, c: byte)
    ensures FromBigEndian([a, b, c]) == a as int * 0x1_0000 + b as int * 256 + c as int
  {
    var h: Bytes := [a, b, c];
    assert h[..2] == [a, b] && h[..2][..1] == [a] && h[..1] == [a];
    assert FromBigEndian([a]) == a;
    assert FromBigEndian([a, b]) == FromBigEndian([a]) * 256 + b;
  }

  /** Unmarshal */
  method Unmarshal(t: Tokens, data: Bytes) returns (r: Result<Node, UnmarshalError>)
    ensures r == Unmarshalled(t, data)
  {
    var d := new Decoder(t, data);
    assert d.Remaining() == data;
    var n := d.ReadElement();
    if n.Err? {
      return Err(NotDecoded(n.error));
    } else if d.index != |data| {
      return Err(Leftover(n.value, |data| - d.index));
    }
    return Ok(n.value);
  }
}
