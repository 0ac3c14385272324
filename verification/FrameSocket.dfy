/** The frame and noise sockets (socket/framesocket.go, socket/noisesocket.go). */
module FrameSocket {
  import opened Bytes
  import opened Framing
  import opened FramingExact

  datatype SendError = SocketClosed | FrameTooLarge | WriteFailed | Cancelled

  function DueHeader(header: Option<Bytes>): Bytes {
    if header.Some? then header.value else []
  }

  class Socket {
    var connected: bool
    var header: Option<Bytes>
    var written: seq<Bytes>
    var incoming: Option<Bytes>
    var incomingLength: nat
    var receivedLength: nat
    var partialHeader: Option<Bytes>
    var frames: seq<Bytes>

    constructor (header: Bytes)
      ensures Received() == EmptyReceiver && connected && this.header == Some(header) && written == []
    {
      connected, this.header, written := true, Some(header), [];
      incoming, incomingLength, receivedLength, partialHeader, frames := None, 0, 0, None, [];
    }

    function Received(): Receiver
      reads this
    {
      Receiver(incoming, incomingLength, receivedLength, partialHeader, frames, false)
    }

    /** SendFrame: the connection header goes out in front of the first frame only, and is gone even when that
        write fails. */
    method SendFrame(data: Bytes, writeFails: bool) returns (r: Result<(), SendError>)
      modifies this`header, this`written
      ensures r == if !connected then Err(SocketClosed)
                   else if |data| >= 0x100_0000 then Err(FrameTooLarge)
                   else if writeFails then Err(WriteFailed) else Ok(())
      ensures header == if connected && |data| < 0x100_0000 then None else old(header)
      ensures written == old(written) + if r.Ok? then [DueHeader(old(header)) + FrameOf(data)] else []
    {
      if !connected {
        return Err(SocketClosed);
      }
      var dataLength := |data|;
      if dataLength >= FRAME_MAX_SIZE {
        return Err(FrameTooLarge);
      }
      var wholeFrame: Bytes := [];
      if header.Some? {
        wholeFrame := header.value;
        header := None;
      }
      LengthBytes(dataLength);
      Associates(wholeFrame, BigEndian(dataLength, FRAME_LENGTH_SIZE), data);
      wholeFrame := wholeFrame + [dataLength / 0x1_0000 % 256, dataLength / 256 % 256, dataLength % 256] + data;
      if writeFails {
        return Err(WriteFailed);
      }
      written := written + [wholeFrame];
      return Ok(());
    }

    method FrameComplete(data: Bytes)
      modifies this`incoming, this`partialHeader, this`incomingLength, this`receivedLength, this`frames
      ensures Received() == Complete(old(Received()), data)
    {
      incoming, partialHeader, incomingLength, receivedLength := None, None, 0, 0;
      frames := frames + [data];
    }

    /** processData. A slice expression out of range panics and ends the loop. */
    method ProcessData(data: Bytes) returns (panicked: bool)
      requires Shaped(Received())
      modifies this`incoming, this`partialHeader, this`incomingLength, this`receivedLength, this`frames
      ensures Received().(panicked := panicked) == Process(false, old(Received()), data)
    {
      var msg := data;
      panicked := false;
      while |msg| > 0
        invariant Shaped(Received()) && !panicked
        invariant Process(false, Received(), msg) == Process(false, old(Received()), data)
        decreases if msg == [] then 0 else 1 + Measure(Received(), msg)
      {
        ghost var round := Round(false, Received(), msg);
        panicked, msg := ProcessRound(msg);
        assert msg != [] ==> Process(false, round.0, msg) == Process(false, old(Received()), data);
        if panicked {
          return;
        }
      }
    }

    /** The body of the loop. */
    method ProcessRound(data: Bytes) returns (panicked: bool, msg: Bytes)
      requires Shaped(Received()) && data != []
      modifies this`incoming, this`partialHeader, this`incomingLength, this`receivedLength, this`frames
      ensures (Received().(panicked := panicked), msg) == Round(false, old(Received()), data)
    {
      msg, panicked := data, false;
      if partialHeader.Some? {
        msg := partialHeader.value + msg;
        partialHeader := None;
      }
      if incoming.None? {
        if |msg| >= FRAME_LENGTH_SIZE {
          LengthOf(msg);
          var length := 0x1_0000 * msg[0] as int + 256 * msg[1] as int + msg[2] as int;
          incomingLength := length;
          receivedLength := |msg|;
          msg := msg[FRAME_LENGTH_SIZE..];
          if |msg| >= length {
            var frame := msg[..length];
            msg := msg[length..];
            FrameComplete(frame);
          } else {
            incoming := Some(CopyAt(Zeros(length), 0, msg));
            msg := [];
          }
        } else {
          partialHeader := Some(msg);
          msg := [];
        }
      } else if receivedLength + |msg| >= incomingLength {
        if receivedLength > incomingLength {
          return true, [];
        }
        var missing := incomingLength - receivedLength;
        var frame := CopyAt(incoming.value, receivedLength, msg[..missing]);
        msg := msg[missing..];
        FrameComplete(frame);
      } else {
        incoming := Some(CopyAt(incoming.value, receivedLength, msg));
        receivedLength := receivedLength + |msg|;
        msg := [];
      }
    }
  }

  /** The three shifted bytes are the big-endian length. */
  lemma LengthBytes(n: nat)
    requires n < FRAME_MAX_SIZE
    ensures [n / 0x1_0000 % 256, n / 256 % 256, n % 256] == BigEndian(n, FRAME_LENGTH_SIZE)
  {
    assert n / 256 / 256 == n / 0x1_0000;
    assert BigEndian(n, 3) == BigEndian(n / 256, 2) + [n % 256];
    assert BigEndian(n / 256, 2) == BigEndian(n / 256 / 256, 1) + [n / 256 % 256];
    assert BigEndian(n / 256 / 256, 1) == BigEndian(n / 256 / 256 / 256, 0) + [n / 256 / 256 % 256];
  }

  lemma LengthOf(s: Bytes)
    requires |s| >= FRAME_LENGTH_SIZE
    ensures FrameLength(s) == 0x1_0000 * s[0] as int + 256 * s[1] as int + s[2] as int
  {
    var h := s[..3];
    assert h[..2][..1] == h[..1] && h[..1][..0] == [];
    assert FromBigEndian(h[..1]) == s[0];
    assert FromBigEndian(h[..2]) == FromBigEndian(h[..1]) * 256 + s[1];
    assert FromBigEndian(h) == FromBigEndian(h[..2]) * 256 + s[2];
  }

  // ----- Noise

  const IV_SIZE := 12

  /** generateIV: eight zero bytes and the counter. */
  function GenerateIV(count: uint32): (iv: Bytes)
    ensures |iv| == IV_SIZE
  {
    Zeros(8) + BigEndian(count, 4)
  }

  /** Bytes 0 to 7 are 0, bytes 8 to 11 are the counter, the high byte first. */
  lemma IVBytes(count: uint32)
    ensures GenerateIV(count) ==
            [0, 0, 0, 0, 0, 0, 0, 0,
             count / 0x100_0000, count / 0x1_0000 % 256, count / 0x100 % 256, count % 256]
  {
    FourBytesAre(count);
  }

  /** A frame is its length in three bytes, the high byte first, and the data. */
  lemma FrameBytes(data: Bytes)
    ensures FrameOf(data) == [|data| / 0x1_0000 % 256, |data| / 0x100 % 256, |data| % 256] + data
  {
    ThreeBytesAre(|data|);
  }

  /** A uint32 counter after n increments. */
  function Counter(start: uint32, n: nat): uint32 {
    (start as int + n) % 0x1_0000_0000
  }

  /** Two sends under one key use the same initialisation vector exactly when their numbers differ by a
      multiple of 2^32: never within 2^32 frames. */
  lemma IVsRepeat(i: nat, j: nat)
    ensures GenerateIV(Counter(0, i)) == GenerateIV(Counter(0, j)) <==> i % 0x1_0000_0000 == j % 0x1_0000_0000
  {
    var a, b := Counter(0, i), Counter(0, j);
    if GenerateIV(a) == GenerateIV(b) {
      assert GenerateIV(a)[8..] == BigEndian(a, 4) && GenerateIV(b)[8..] == BigEndian(b, 4);
      Powers();
      BigEndianRoundTrip(a, 4);
      BigEndianRoundTrip(b, 4);
    }
  }

  /** The two AEAD operations under one key. */
  datatype Aead = Aead(seal: (Bytes, Bytes) -> Bytes, open: (Bytes, Bytes) -> Option<Bytes>)

  ghost predicate Mirrored(aead: Aead) {
    forall iv, plaintext :: aead.open(iv, aead.seal(iv, plaintext)) == Some(plaintext)
  }

  function SealAll(aead: Aead, counter: uint32, plaintexts: seq<Bytes>): (sealed: seq<Bytes>)
    ensures |sealed| == |plaintexts|
    decreases |plaintexts|
  {
    if plaintexts == [] then []
    else [aead.seal(GenerateIV(counter), plaintexts[0])] + SealAll(aead, Counter(counter, 1), plaintexts[1..])
  }

  function OpenAll(aead: Aead, counter: uint32, frames: seq<Bytes>): seq<Bytes>
    decreases |frames|
  {
    if frames == [] then []
    else
      var plaintext := aead.open(GenerateIV(counter), frames[0]);
      (if plaintext.Some? then [plaintext.value] else []) + OpenAll(aead, Counter(counter, 1), frames[1..])
  }

  lemma OpenFirst(aead: Aead, counter: uint32, frames: seq<Bytes>, i: nat)
    requires i < |frames|
    ensures OpenAll(aead, counter, frames[i..]) ==
            OpenAll(aead, counter, [frames[i]]) + OpenAll(aead, Counter(counter, 1), frames[i + 1..])
  {
    var one := [frames[i]];
    assert one[1..] == [] && OpenAll(aead, Counter(counter, 1), one[1..]) == [];
    assert frames[i..][0] == frames[i] && frames[i..][1..] == frames[i + 1..];
  }

  lemma CounterStep(start: uint32, n: nat)
    ensures Counter(Counter(start, n), 1) == Counter(start, n + 1) && Counter(start, 0) == start
  {
  }

  // ----- Sending

  /** The sending side: the counter of the noise socket, the header still to go out, and what was written. */
  datatype Sender = Sender(counter: uint32, header: Option<Bytes>, written: seq<Bytes>)

  /** A call of SendFrame: whether its context is cancelled before the frame is sealed, and whether the write of
      the websocket fails. */
  datatype Attempt = Attempt(plaintext: Bytes, cancelled: bool, writeFails: bool)

  predicate GoesOut(aead: Aead, connected: bool, counter: uint32, a: Attempt) {
    !a.cancelled && connected && |aead.seal(GenerateIV(counter), a.plaintext)| < FRAME_MAX_SIZE && !a.writeFails
  }

  function SendOne(aead: Aead, connected: bool, s: Sender, a: Attempt): Sender {
    if a.cancelled then s
    else
      var ciphertext := aead.seal(GenerateIV(s.counter), a.plaintext);
      if !connected || |ciphertext| >= FRAME_MAX_SIZE then s.(counter := Counter(s.counter, 1))
      else
        Sender(Counter(s.counter, 1), None,
               s.written + if a.writeFails then [] else [DueHeader(s.header) + FrameOf(ciphertext)])
  }

  function SendAll(aead: Aead, connected: bool, s: Sender, attempts: seq<Attempt>): Sender
    decreases |attempts|
  {
    if attempts == [] then s else SendAll(aead, connected, SendOne(aead, connected, s, attempts[0]), attempts[1..])
  }

  /** The payloads handed to a run of attempts. */
  function Plaintexts(attempts: seq<Attempt>): (plaintexts: seq<Bytes>)
    ensures |plaintexts| == |attempts|
    decreases |attempts|
  {
    if attempts == [] then [] else [attempts[0].plaintext] + Plaintexts(attempts[1..])
  }

  /** Every attempt of the run goes out. */
  predicate AllGoOut(aead: Aead, connected: bool, counter: uint32, attempts: seq<Attempt>)
    decreases |attempts|
  {
    attempts != [] ==>
      GoesOut(aead, connected, counter, attempts[0]) && AllGoOut(aead, connected, Counter(counter, 1), attempts[1..])
  }

  lemma {:induction false} WrittenGrows(aead: Aead, connected: bool, s: Sender, attempts: seq<Attempt>)
    ensures SendAll(aead, connected, s, attempts) ==
            var from := SendAll(aead, connected, s.(written := []), attempts);
            from.(written := s.written + from.written)
    decreases |attempts|
  {
    if attempts == [] {
      assert s.written + [] == s.written;
    } else {
      var next := SendOne(aead, connected, s, attempts[0]);
      var plain := SendOne(aead, connected, s.(written := []), attempts[0]);
      WrittenGrows(aead, connected, next, attempts[1..]);
      WrittenGrows(aead, connected, plain, attempts[1..]);
      var from := SendAll(aead, connected, plain.(written := []), attempts[1..]);
      assert next.(written := []) == plain.(written := []);
      assert s.written + plain.written + from.written == s.written + (plain.written + from.written);
      assert next.written == s.written + plain.written;
    }
  }

  /** A run of sends that all go out writes the header that is due, and then exactly the stream of the sealed
      payloads. */
  lemma {:induction false} RunWritesStream(aead: Aead, connected: bool, counter: uint32, header: Option<Bytes>,
                                           attempts: seq<Attempt>)
    requires AllGoOut(aead, connected, counter, attempts) && attempts != []
    ensures var s := SendAll(aead, connected, Sender(counter, header, []), attempts);
            && Flatten(s.written) == DueHeader(header) + Stream(SealAll(aead, counter, Plaintexts(attempts)))
            && Sendable(SealAll(aead, counter, Plaintexts(attempts)))
            && s.counter == Counter(counter, |attempts|)
    decreases |attempts|
  {
    var ciphertext := aead.seal(GenerateIV(counter), attempts[0].plaintext);
    var first := DueHeader(header) + FrameOf(ciphertext);
    var next := Sender(Counter(counter, 1), None, []);
    var plaintexts, rest := Plaintexts(attempts), Plaintexts(attempts[1..]);
    var later := SealAll(aead, Counter(counter, 1), rest);
    assert plaintexts[1..] == rest;
    assert SealAll(aead, counter, plaintexts) == [ciphertext] + later;
    assert SendOne(aead, connected, Sender(counter, header, []), attempts[0]) == next.(written := [first]);
    WrittenGrows(aead, connected, next.(written := [first]), attempts[1..]);
    if attempts[1..] == [] {
      assert SendAll(aead, connected, next, attempts[1..]) == next;
      assert Stream(later) == [] && [first] + [] == [first];
      FirstWritten(first, []);
    } else {
      RunWritesStream(aead, connected, Counter(counter, 1), None, attempts[1..]);
      CounterMore(counter, |attempts[1..]|);
      FirstWritten(first, SendAll(aead, connected, next, attempts[1..]).written);
      assert [] + Stream(later) == Stream(later);
    }
    StreamFirst(ciphertext, later);
    Associates(DueHeader(header), FrameOf(ciphertext), Stream(later));
  }

  lemma FirstWritten(first: Bytes, others: seq<Bytes>)
    ensures Flatten([first] + others) == first + Flatten(others)
  {
    assert ([first] + others)[1..] == others;
  }

  lemma StreamFirst(frame: Bytes, others: seq<Bytes>)
    ensures Stream([frame] + others) == FrameOf(frame) + Stream(others)
  {
    assert ([frame] + others)[1..] == others;
  }

  lemma CounterMore(start: uint32, n: nat)
    ensures Counter(Counter(start, 1), n) == Counter(start, n + 1)
  {
  }

  // ----- Frames that are lost

  /** The attempts that were sealed. */
  function Sealed(attempts: seq<Attempt>): nat
    decreases |attempts|
  {
    if attempts == [] then 0 else (if attempts[0].cancelled then 0 else 1) + Sealed(attempts[1..])
  }

  lemma {:induction false} SealedCounts(aead: Aead, connected: bool, s: Sender, attempts: seq<Attempt>)
    ensures SendAll(aead, connected, s, attempts).counter == Counter(s.counter, Sealed(attempts))
    decreases |attempts|
  {
    if attempts != [] {
      SealedCounts(aead, connected, SendOne(aead, connected, s, attempts[0]), attempts[1..]);
      CounterMore(s.counter, Sealed(attempts[1..]));
    }
  }

  /** After any run of sends, with refused and failed ones among them, the counters of the sender and of a
      receiver that got every frame written agree if and only if the number of frames sealed but not written is a
      multiple of 2^32. */
  lemma CountersAgree(aead: Aead, connected: bool, counter: uint32, header: Option<Bytes>, attempts: seq<Attempt>)
    ensures var s := SendAll(aead, connected, Sender(counter, header, []), attempts);
            s.counter == Counter(counter, |s.written|) <==> (Sealed(attempts) - |s.written|) % 0x1_0000_0000 == 0
  {
    SealedCounts(aead, connected, Sender(counter, header, []), attempts);
    SameCounter(counter, Sealed(attempts), |SendAll(aead, connected, Sender(counter, header, []), attempts).written|);
  }

  lemma SameCounter(counter: uint32, m: nat, n: nat)
    ensures Counter(counter, m) == Counter(counter, n) <==> (m - n) % 0x1_0000_0000 == 0
  {
  }

  /** A frame opens under no other vector than its own. */
  ghost predicate Authentic(aead: Aead) {
    forall iv, iv', plaintext :: iv != iv' ==> aead.open(iv, aead.seal(iv', plaintext)) == None
  }

  lemma OpenCons(aead: Aead, counter: uint32, frame: Bytes, rest: seq<Bytes>)
    ensures OpenAll(aead, counter, [frame] + rest) ==
            (var plaintext := aead.open(GenerateIV(counter), frame); if plaintext.Some? then [plaintext.value] else [])
            + OpenAll(aead, Counter(counter, 1), rest)
  {
    assert ([frame] + rest)[1..] == rest;
  }

  /** Once the counters differ nothing that is sent later is delivered. */
  lemma {:induction false} DriftedDeliversNothing(aead: Aead, sender: uint32, receiver: uint32,
                                                  plaintexts: seq<Bytes>)
    requires Authentic(aead) && sender != receiver
    ensures OpenAll(aead, receiver, SealAll(aead, sender, plaintexts)) == []
    decreases |plaintexts|
  {
    if plaintexts != [] {
      VectorsDiffer(sender, receiver);
      StayApart(sender, receiver);
      OpenCons(aead, receiver, aead.seal(GenerateIV(sender), plaintexts[0]),
               SealAll(aead, Counter(sender, 1), plaintexts[1..]));
      DriftedDeliversNothing(aead, Counter(sender, 1), Counter(receiver, 1), plaintexts[1..]);
    }
  }

  lemma VectorsDiffer(a: uint32, b: uint32)
    requires a != b
    ensures GenerateIV(a) != GenerateIV(b)
  {
    FromZero(a);
    FromZero(b);
    IVsRepeat(a, b);
  }

  lemma FromZero(a: uint32)
    ensures Counter(0, a) == a && a % 0x1_0000_0000 == a
  {
  }

  lemma StayApart(a: uint32, b: uint32)
    requires a != b
    ensures Counter(a, 1) != Counter(b, 1)
  {
  }

  class NoiseSocket {
    const aead: Aead
    const fs: Socket
    var writeCounter: uint32
    var readCounter: uint32
    var delivered: seq<Bytes>

    constructor (aead: Aead, fs: Socket)
      ensures this.aead == aead && this.fs == fs
      ensures writeCounter == 0 && readCounter == 0 && delivered == []
    {
      this.aead, this.fs, writeCounter, readCounter, delivered := aead, fs, 0, 0, [];
    }

    function Sending(): Sender
      reads this, fs
    {
      Sender(writeCounter, fs.header, fs.written)
    }

    /** SendFrame: a context that is already cancelled stops it before the frame is sealed; after that the counter
        advances even when the socket refuses the frame or its write fails. */
    method SendFrame(a: Attempt) returns (r: Result<(), SendError>)
      modifies this`writeCounter, fs`header, fs`written
      ensures Sending() == SendOne(aead, fs.connected, old(Sending()), a)
      ensures r.Ok? <==> GoesOut(aead, fs.connected, old(writeCounter), a)
      ensures writeCounter as int ==
              if a.cancelled then old(writeCounter) as int else (old(writeCounter) as int + 1) % 0x1_0000_0000
    {
      if a.cancelled {
        return Err(Cancelled);
      }
      var ciphertext := aead.seal(GenerateIV(writeCounter), a.plaintext);
      writeCounter := Counter(writeCounter, 1);
      r := fs.SendFrame(ciphertext, a.writeFails);
    }

    /** consumeFrames: what it hands on is what the frames open to, under consecutive counters. */
    method ConsumeFrames(frames: seq<Bytes>)
      modifies this`readCounter, this`delivered
      ensures readCounter == Counter(old(readCounter), |frames|)
      ensures delivered == old(delivered) + OpenAll(aead, old(readCounter), frames)
    {
      for i := 0 to |frames|
        invariant readCounter == Counter(old(readCounter), i)
        invariant delivered + OpenAll(aead, readCounter, frames[i..]) ==
                  old(delivered) + OpenAll(aead, old(readCounter), frames)
      {
        OpenFirst(aead, readCounter, frames, i);
        CounterStep(old(readCounter), i);
        Associates(delivered, OpenAll(aead, readCounter, [frames[i]]),
                   OpenAll(aead, Counter(readCounter, 1), frames[i + 1..]));
        ReceiveEncryptedFrame(frames[i]);
      }
    }

    /** receiveEncryptedFrame */
    method ReceiveEncryptedFrame(ciphertext: Bytes)
      modifies this`readCounter, this`delivered
      ensures readCounter == Counter(old(readCounter), 1)
      ensures readCounter as int == (old(readCounter) as int + 1) % 0x1_0000_0000
      ensures delivered == old(delivered) + OpenAll(aead, old(readCounter), [ciphertext])
    {
      ghost var one := [ciphertext];
      assert one[1..] == [];
      var plaintext := aead.open(GenerateIV(readCounter), ciphertext);
      readCounter := Counter(readCounter, 1);
      if plaintext.Some? {
        delivered := delivered + [plaintext.value];
      }
    }
  }

  lemma {:induction false} OpensWhatWasSealed(aead: Aead, counter: uint32, plaintexts: seq<Bytes>)
    requires Mirrored(aead)
    ensures OpenAll(aead, counter, SealAll(aead, counter, plaintexts)) == plaintexts
    decreases |plaintexts|
  {
    if plaintexts != [] {
      var rest := SealAll(aead, Counter(counter, 1), plaintexts[1..]);
      assert SealAll(aead, counter, plaintexts)[1..] == rest;
      OpensWhatWasSealed(aead, Counter(counter, 1), plaintexts[1..]);
    }
  }

  /** The transport is the identity on payloads: with mirrored keys and equal counters, every chunking
      of the sealed frames that splits no body delivers exactly the plaintexts sent, in order. */
  lemma TransportIsIdentity(aead: Aead, plaintexts: seq<Bytes>, chunks: seq<Bytes>)
    requires Mirrored(aead)
    requires Sendable(SealAll(aead, 0, plaintexts))
    requires Flatten(chunks) == Stream(SealAll(aead, 0, plaintexts))
    requires SplitsNoBody(SealAll(aead, 0, plaintexts), chunks)
    ensures var r := ProcessAll(false, EmptyReceiver, chunks);
            Idle(r) && OpenAll(aead, 0, r.frames) == plaintexts
  {
    EarlyDeliversExactly(SealAll(aead, 0, plaintexts), chunks);
    OpensWhatWasSealed(aead, 0, plaintexts);
  }

  /** From sends to deliveries: what a run of sends writes, once the header is out, reaches the other side's
      handler unchanged and in order, for every chunking of the written bytes that splits no body. */
  lemma SentIsDelivered(aead: Aead, connected: bool, attempts: seq<Attempt>, chunks: seq<Bytes>)
    requires Mirrored(aead) && attempts != [] && AllGoOut(aead, connected, 0, attempts)
    requires Flatten(chunks) == Flatten(SendAll(aead, connected, Sender(0, None, []), attempts).written)
    requires SplitsNoBody(SealAll(aead, 0, Plaintexts(attempts)), chunks)
    ensures var r := ProcessAll(false, EmptyReceiver, chunks);
            Idle(r) && OpenAll(aead, 0, r.frames) == Plaintexts(attempts)
  {
    RunWritesStream(aead, connected, 0, None, attempts);
    var stream := Stream(SealAll(aead, 0, Plaintexts(attempts)));
    assert [] + stream == stream;
    TransportIsIdentity(aead, Plaintexts(attempts), chunks);
  }

  /** With the count taken after the header is dropped the same holds for every chunking. */
  lemma LateTransportIsIdentity(aead: Aead, plaintexts: seq<Bytes>, chunks: seq<Bytes>)
    requires Mirrored(aead)
    requires Sendable(SealAll(aead, 0, plaintexts))
    requires Flatten(chunks) == Stream(SealAll(aead, 0, plaintexts))
    ensures var r := ProcessAll(true, EmptyReceiver, chunks);
            Idle(r) && OpenAll(aead, 0, r.frames) == plaintexts
  {
    LateDeliversAll(SealAll(aead, 0, plaintexts), chunks);
    OpensWhatWasSealed(aead, 0, plaintexts);
  }
}
