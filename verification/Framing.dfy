/** The frame layer of socket/framesocket.go: 3-byte big-endian lengths, and reassembly of frames from
    whatever pieces the websocket delivers. */
module Framing {
  import opened Bytes

  const FRAME_MAX_SIZE := 0x100_0000
  const FRAME_LENGTH_SIZE := 3

  function FrameOf(data: Bytes): Bytes {
    BigEndian(|data|, FRAME_LENGTH_SIZE) + data
  }

  function Stream(payloads: seq<Bytes>): Bytes {
    if payloads == [] then [] else FrameOf(payloads[0]) + Stream(payloads[1..])
  }

  function Flatten(chunks: seq<Bytes>): Bytes {
    if chunks == [] then [] else chunks[0] + Flatten(chunks[1..])
  }

  // ----- What a byte stream means

  function FrameLength(s: Bytes): nat
    requires |s| >= FRAME_LENGTH_SIZE
  {
    FromBigEndian(s[..FRAME_LENGTH_SIZE])
  }

  predicate HasFrame(s: Bytes) {
    |s| >= FRAME_LENGTH_SIZE && |s| >= FRAME_LENGTH_SIZE + FrameLength(s)
  }

  function AfterFrame(s: Bytes): Bytes
    requires HasFrame(s)
  {
    s[FRAME_LENGTH_SIZE + FrameLength(s)..]
  }

  /** The complete frames at the start of s. */
  function FramesIn(s: Bytes): seq<Bytes>
    decreases |s|
  {
    if !HasFrame(s) then []
    else [s[FRAME_LENGTH_SIZE..FRAME_LENGTH_SIZE + FrameLength(s)]] + FramesIn(AfterFrame(s))
  }

  /** The bytes after them. */
  function RestOf(s: Bytes): (rest: Bytes)
    ensures !HasFrame(rest)
    decreases |s|
  {
    if !HasFrame(s) then s else RestOf(AfterFrame(s))
  }

  lemma {:induction false} FramesAppend(a: Bytes, b: Bytes)
    ensures FramesIn(a + b) == FramesIn(a) + FramesIn(RestOf(a) + b)
    ensures RestOf(a + b) == RestOf(RestOf(a) + b)
    decreases |a|
  {
    if HasFrame(a) {
      assert (a + b)[..FRAME_LENGTH_SIZE] == a[..FRAME_LENGTH_SIZE];
      var end := FRAME_LENGTH_SIZE + FrameLength(a);
      assert (a + b)[FRAME_LENGTH_SIZE..end] == a[FRAME_LENGTH_SIZE..end];
      assert AfterFrame(a + b) == AfterFrame(a) + b;
      FramesAppend(AfterFrame(a), b);
    }
  }

  /** Parsing a stream of frames gives the payloads back and leaves nothing. */
  lemma {:induction false} StreamParses(payloads: seq<Bytes>)
    requires forall i | 0 <= i < |payloads| :: |payloads[i]| < FRAME_MAX_SIZE
    ensures FramesIn(Stream(payloads)) == payloads && RestOf(Stream(payloads)) == []
  {
    if payloads != [] {
      var p, s := payloads[0], Stream(payloads);
      BigEndianRoundTrip(|p|, FRAME_LENGTH_SIZE);
      assert s[..FRAME_LENGTH_SIZE] == BigEndian(|p|, FRAME_LENGTH_SIZE);
      Powers();
      assert s[FRAME_LENGTH_SIZE..FRAME_LENGTH_SIZE + |p|] == p;
      assert AfterFrame(s) == Stream(payloads[1..]);
      StreamParses(payloads[1..]);
    }
  }

  lemma {:induction false} HeaderBytes(b: Bytes)
    ensures BigEndian(FromBigEndian(b), |b|) == b
  {
    if b != [] {
      HeaderBytes(b[..|b| - 1]);
    }
  }

  // ----- The receiver

  /** The reassembly fields of FrameSocket, the frames it has handed out, and whether it panicked. */
  datatype Receiver = Receiver(
    incoming: Option<Bytes>, incomingLength: nat, receivedLength: nat, partialHeader: Option<Bytes>,
    frames: seq<Bytes>, panicked: bool)

  const EmptyReceiver := Receiver(None, 0, 0, None, [], false)

  function Complete(r: Receiver, data: Bytes): Receiver {
    Receiver(None, 0, 0, None, r.frames + [data], r.panicked)
  }

  /** copy(dst[at:], src) */
  function CopyAt(dst: Bytes, at: nat, src: Bytes): Bytes
    requires at + |src| <= |dst|
  {
    dst[..at] + src + dst[at + |src|..]
  }

  function Zeros(n: nat): Bytes {
    seq(n, _ => 0)
  }

  /** The pieces a receiver can be in: a buffer being filled has the announced length, and a header
      being collected excludes one. */
  predicate Shaped(r: Receiver) {
    && (r.incoming.Some? ==> |r.incoming.value| == r.incomingLength && r.partialHeader.None?)
    && (r.partialHeader.Some? ==> 0 < |r.partialHeader.value| < FRAME_LENGTH_SIZE)
  }

  /** One round of the loop of processData. `late` is false for the code as it is, which counts the
      received bytes before it drops the header (lines 172-173), and true for the variant that counts
      them afterwards. */
  function Round(late: bool, r: Receiver, msg: Bytes): (next: (Receiver, Bytes))
    requires Shaped(r) && msg != []
    ensures Shaped(next.0)
    ensures next.1 != [] ==> Measure(next.0, next.1) < Measure(r, msg)
  {
    if r.incoming.Some? then BodyRound(r, msg)
    else if r.partialHeader.Some? then HeaderRound(late, r.(partialHeader := None), r.partialHeader.value + msg)
    else HeaderRound(late, r, msg)
  }

  /** A round that starts at a frame boundary, with the collected header bytes put in front. */
  function HeaderRound(late: bool, r: Receiver, msg: Bytes): (Receiver, Bytes)
    requires r.incoming.None? && r.partialHeader.None?
  {
    if |msg| >= FRAME_LENGTH_SIZE then
      var length, body := FrameLength(msg), msg[FRAME_LENGTH_SIZE..];
      var started := r.(incomingLength := length, receivedLength := if late then |body| else |msg|);
      if |body| >= length then (Complete(started, body[..length]), body[length..])
      else (started.(incoming := Some(CopyAt(Zeros(length), 0, body))), [])
    else (r.(partialHeader := Some(msg)), [])
  }

  /** A round that continues a frame. Slicing the buffer beyond its length panics. */
  function BodyRound(r: Receiver, msg: Bytes): (Receiver, Bytes)
    requires Shaped(r) && r.incoming.Some?
  {
    if r.receivedLength + |msg| >= r.incomingLength then
      if r.receivedLength > r.incomingLength then (r.(panicked := true), [])
      else
        var missing := r.incomingLength - r.receivedLength;
        (Complete(r, CopyAt(r.incoming.value, r.receivedLength, msg[..missing])), msg[missing..])
    else
      (r.(incoming := Some(CopyAt(r.incoming.value, r.receivedLength, msg)),
          receivedLength := r.receivedLength + |msg|), [])
  }

  /** What the loop uses up: bytes, and the step from a filled buffer to none. */
  function Measure(r: Receiver, msg: Bytes): nat {
    2 * (|msg| + PartialLength(r)) + if r.incoming.Some? then 1 else 0
  }

  function PartialLength(r: Receiver): nat {
    if r.partialHeader.Some? then |r.partialHeader.value| else 0
  }

  /** processData */
  function Process(late: bool, r: Receiver, msg: Bytes): (r': Receiver)
    requires Shaped(r)
    ensures Shaped(r')
    decreases Measure(r, msg)
  {
    if msg == [] || r.panicked then r
    else
      var (next, rest) := Round(late, r, msg);
      if rest == [] then next else Process(late, next, rest)
  }

  function ProcessAll(late: bool, r: Receiver, chunks: seq<Bytes>): (r': Receiver)
    requires Shaped(r)
    ensures Shaped(r')
    decreases |chunks|
  {
    if chunks == [] then r else ProcessAll(late, Process(late, r, chunks[0]), chunks[1..])
  }

  predicate Idle(r: Receiver) {
    r.incoming.None? && r.partialHeader.None? && !r.panicked
  }

  // ----- The variant that counts late is right for every chunking

  /** The bytes of a frame that is not complete yet. */
  function Pending(r: Receiver): Bytes
    requires Shaped(r) && (r.incoming.Some? ==> r.receivedLength <= r.incomingLength)
  {
    if r.incoming.Some? then BigEndian(r.incomingLength, FRAME_LENGTH_SIZE) + r.incoming.value[..r.receivedLength]
    else if r.partialHeader.Some? then r.partialHeader.value else []
  }

  predicate Good(r: Receiver) {
    && Shaped(r) && !r.panicked
    && (r.incoming.Some? ==> r.receivedLength < r.incomingLength < FRAME_MAX_SIZE)
  }

  lemma LengthBound(s: Bytes)
    requires |s| >= FRAME_LENGTH_SIZE
    ensures FrameLength(s) < FRAME_MAX_SIZE
    ensures BigEndian(FrameLength(s), FRAME_LENGTH_SIZE) == s[..FRAME_LENGTH_SIZE]
  {
    var h := s[..FRAME_LENGTH_SIZE];
    HeaderBytes(h);
    BigEndianRoundTrip(FrameLength(s), FRAME_LENGTH_SIZE);
    Powers();
  }

  /** A round hands out the frames of what was held and what came in, and holds the rest. */
  ghost predicate Accounts(r: Receiver, msg: Bytes, next: Receiver, rest: Bytes)
    requires Good(r)
  {
    && Good(next)
    && next.frames + FramesIn(Pending(next) + rest) == r.frames + FramesIn(Pending(r) + msg)
    && RestOf(Pending(next) + rest) == RestOf(Pending(r) + msg)
    && (rest == [] ==> !HasFrame(Pending(next)))
  }

  lemma LateHeaderRound(r: Receiver, msg: Bytes)
    requires Good(r) && r.incoming.None? && r.partialHeader.None? && msg != []
    ensures var (next, rest) := HeaderRound(true, r, msg); Accounts(r, msg, next, rest)
  {
    var (next, rest) := HeaderRound(true, r, msg);
    assert Pending(r) + msg == msg;
    if |msg| < FRAME_LENGTH_SIZE {
      assert Pending(next) + rest == msg;
    } else {
      LengthBound(msg);
      assert msg == msg[..FRAME_LENGTH_SIZE] + msg[FRAME_LENGTH_SIZE..];
      LateHeaderAndBody(r, msg[..FRAME_LENGTH_SIZE], FrameLength(msg), msg[FRAME_LENGTH_SIZE..]);
    }
  }

  lemma LateHeaderAndBody(r: Receiver, header: Bytes, length: nat, body: Bytes)
    requires Good(r) && r.incoming.None? && r.partialHeader.None?
    requires length < FRAME_MAX_SIZE && header == BigEndian(length, FRAME_LENGTH_SIZE)
    ensures var (next, rest) := HeaderRound(true, r, header + body); Accounts(r, header + body, next, rest)
  {
    BodyOf(header, length, body);
    assert (header + body)[FRAME_LENGTH_SIZE..] == body;
    if |body| >= length {
      LateWholeFrame(r, header + body);
    } else {
      LateFrameStart(r, header + body, length);
    }
  }

  lemma LateWholeFrame(r: Receiver, msg: Bytes)
    requires Good(r) && r.incoming.None? && r.partialHeader.None? && HasFrame(msg)
    ensures var (next, rest) := HeaderRound(true, r, msg); Accounts(r, msg, next, rest)
  {
    var (next, rest) := HeaderRound(true, r, msg);
    var end := FRAME_LENGTH_SIZE + FrameLength(msg);
    assert Pending(r) + msg == msg && Pending(next) + rest == rest;
    assert rest == AfterFrame(msg);
    assert msg[FRAME_LENGTH_SIZE..end] == msg[FRAME_LENGTH_SIZE..][..FrameLength(msg)];
  }

  lemma LateFrameStart(r: Receiver, msg: Bytes, length: nat)
    requires Good(r) && r.incoming.None? && r.partialHeader.None?
    requires |msg| >= FRAME_LENGTH_SIZE && !HasFrame(msg) && length == FrameLength(msg) < FRAME_MAX_SIZE
    requires msg[..FRAME_LENGTH_SIZE] == BigEndian(length, FRAME_LENGTH_SIZE)
    ensures var (next, rest) := HeaderRound(true, r, msg); Accounts(r, msg, next, rest)
  {
    var (next, rest) := HeaderRound(true, r, msg);
    var body := msg[FRAME_LENGTH_SIZE..];
    assert CopyAt(Zeros(length), 0, body)[..|body|] == body;
    assert Pending(next) == msg[..FRAME_LENGTH_SIZE] + body == msg;
    assert Pending(r) + msg == msg && Pending(next) + rest == msg;
  }

  lemma LateBodyRound(r: Receiver, msg: Bytes)
    requires Good(r) && msg != [] && r.incoming.Some?
    ensures var (next, rest) := BodyRound(r, msg); Accounts(r, msg, next, rest)
  {
    var length, body := r.incomingLength, r.incoming.value[..r.receivedLength] + msg;
    var header := BigEndian(length, FRAME_LENGTH_SIZE);
    assert Pending(r) + msg == header + body;
    BodyOf(header, length, body);
    if length <= |body| {
      BodyCompleted(r, msg);
      FrameTaken(r, msg, BodyRound(r, msg).0, header + body);
    } else {
      BodyContinues(r, msg);
      LateBodyStaysOpen(r, msg, header + body);
    }
  }

  /** Handing out the first frame of what is held accounts for it. */
  lemma FrameTaken(r: Receiver, msg: Bytes, next: Receiver, held: Bytes)
    requires Good(r) && Pending(r) + msg == held && HasFrame(held)
    requires next == Complete(r, held[FRAME_LENGTH_SIZE..FRAME_LENGTH_SIZE + FrameLength(held)])
    ensures Accounts(r, msg, next, AfterFrame(held))
  {
    var rest := AfterFrame(held);
    assert Pending(next) + rest == rest;
    Associates(r.frames, [held[FRAME_LENGTH_SIZE..FRAME_LENGTH_SIZE + FrameLength(held)]], FramesIn(rest));
  }

  lemma LateBodyStaysOpen(r: Receiver, msg: Bytes, held: Bytes)
    requires Good(r) && r.incoming.Some? && Pending(r) + msg == held && !HasFrame(held)
    requires r.receivedLength + |msg| < r.incomingLength
    requires BodyRound(r, msg).0.incoming.Some?
    requires Pending(BodyRound(r, msg).0) == held
    ensures var (next, rest) := BodyRound(r, msg); Accounts(r, msg, next, rest)
  {
    var (next, rest) := BodyRound(r, msg);
    assert Pending(next) + rest == held;
  }

  lemma BodyContinues(r: Receiver, msg: Bytes)
    requires Good(r) && r.incoming.Some? && r.receivedLength + |msg| < r.incomingLength
    ensures var (next, rest) := BodyRound(r, msg);
            && rest == [] && next.incoming.Some? && next.incomingLength == r.incomingLength
            && next.incoming.value[..next.receivedLength] == r.incoming.value[..r.receivedLength] + msg
            && Pending(next) == Pending(r) + msg
  {
    var (next, rest) := BodyRound(r, msg);
    assert Pending(next) ==
           BigEndian(r.incomingLength, FRAME_LENGTH_SIZE) + (r.incoming.value[..r.receivedLength] + msg);
  }

  lemma BodyCompleted(r: Receiver, msg: Bytes)
    requires Good(r) && r.incoming.Some? && r.receivedLength + |msg| >= r.incomingLength
    ensures var body, length := r.incoming.value[..r.receivedLength] + msg, r.incomingLength;
            BodyRound(r, msg) == (Complete(r, body[..length]), body[length..])
  {
    var at, length := r.receivedLength, r.incomingLength;
    var body := r.incoming.value[..at] + msg;
    assert body[..length] == CopyAt(r.incoming.value, at, msg[..length - at]);
    assert body[length..] == msg[length - at..];
  }

  lemma BodyOf(header: Bytes, length: nat, body: Bytes)
    requires length < FRAME_MAX_SIZE && header == BigEndian(length, FRAME_LENGTH_SIZE)
    ensures FrameLength(header + body) == length && (HasFrame(header + body) <==> length <= |body|)
    ensures length <= |body| ==>
              && AfterFrame(header + body) == body[length..]
              && (header + body)[FRAME_LENGTH_SIZE..FRAME_LENGTH_SIZE + length] == body[..length]
  {
    BigEndianRoundTrip(length, FRAME_LENGTH_SIZE);
    Powers();
    assert (header + body)[..FRAME_LENGTH_SIZE] == header;
  }

  lemma LateRound(r: Receiver, msg: Bytes)
    requires Good(r) && msg != []
    ensures var (next, rest) := Round(true, r, msg); Accounts(r, msg, next, rest)
  {
    if r.incoming.Some? {
      LateBodyRound(r, msg);
    } else if r.partialHeader.Some? {
      var plain, all := r.(partialHeader := None), r.partialHeader.value + msg;
      LateHeaderRound(plain, all);
      assert Pending(plain) + all == all;
    } else {
      LateHeaderRound(r, msg);
    }
  }

  /** From r, reading these bytes hands out their frames and ends in r', which holds the rest. */
  ghost predicate Reads(r: Receiver, bytes: Bytes, r': Receiver)
    requires Good(r)
  {
    && Good(r') && !HasFrame(Pending(r'))
    && r'.frames == r.frames + FramesIn(Pending(r) + bytes)
    && Pending(r') == RestOf(Pending(r) + bytes)
  }

  lemma ReadsAppend(r: Receiver, a: Bytes, mid: Receiver, b: Bytes, r': Receiver)
    requires Good(r) && Reads(r, a, mid) && Reads(mid, b, r')
    ensures Reads(r, a + b, r')
  {
    var held := Pending(r) + a;
    FramesAppend(held, b);
    Associates(Pending(r), a, b);
    Associates(r.frames, FramesIn(held), FramesIn(RestOf(held) + b));
  }

  lemma {:induction false} LateProcess(r: Receiver, msg: Bytes)
    requires Good(r) && !HasFrame(Pending(r))
    ensures Reads(r, msg, Process(true, r, msg))
    decreases Measure(r, msg)
  {
    if msg == [] {
      assert Pending(r) + msg == Pending(r);
    } else {
      LateRound(r, msg);
      var (next, rest) := Round(true, r, msg);
      if rest == [] {
        assert Pending(next) + rest == Pending(next);
      } else {
        assert !HasFrame(Pending(next));
        LateProcess(next, rest);
      }
    }
  }

  /** Whatever the pieces are, the late count hands out exactly the frames of the stream. */
  lemma {:induction false} LateProcessAll(r: Receiver, chunks: seq<Bytes>)
    requires Good(r) && !HasFrame(Pending(r))
    ensures Reads(r, Flatten(chunks), ProcessAll(true, r, chunks))
    decreases |chunks|
  {
    if chunks == [] {
      assert Pending(r) + Flatten(chunks) == Pending(r);
    } else {
      var mid := Process(true, r, chunks[0]);
      LateProcess(r, chunks[0]);
      LateProcessAll(mid, chunks[1..]);
      ReadsAppend(r, chunks[0], mid, Flatten(chunks[1..]), ProcessAll(true, mid, chunks[1..]));
    }
  }

  lemma LateDeliversAll(payloads: seq<Bytes>, chunks: seq<Bytes>)
    requires forall i | 0 <= i < |payloads| :: |payloads[i]| < FRAME_MAX_SIZE
    requires Flatten(chunks) == Stream(payloads)
    ensures var r := ProcessAll(true, EmptyReceiver, chunks); r.frames == payloads && Idle(r)
  {
    LateProcessAll(EmptyReceiver, chunks);
    StreamParses(payloads);
    assert Pending(EmptyReceiver) + Flatten(chunks) == Stream(payloads);
  }
}
