/** When processData as it is, with the received count taken before the header is dropped, delivers
    what was sent: exactly when no piece ends inside the body of a frame. */
module FramingExact {
  import opened Bytes
  import opened Framing

  /** Position `at` of the stream lies after the length of a frame and before the frame's end. */
  predicate InsideBody(payloads: seq<Bytes>, at: nat) {
    if payloads == [] then false
    else
      var end := FRAME_LENGTH_SIZE + |payloads[0]|;
      if at < FRAME_LENGTH_SIZE then false
      else if at < end then true
      else InsideBody(payloads[1..], at - end)
  }

  function BytesBefore(chunks: seq<Bytes>, k: nat): nat
    requires k <= |chunks|
  {
    |Flatten(chunks[..k])|
  }

  /** Pieces may end anywhere in or next to a length, but not between a length and the end of its body. */
  predicate SplitsNoBody(payloads: seq<Bytes>, chunks: seq<Bytes>) {
    forall k | 0 <= k <= |chunks| :: !InsideBody(payloads, BytesBefore(chunks, k))
  }

  predicate Sendable(payloads: seq<Bytes>) {
    forall i | 0 <= i < |payloads| :: |payloads[i]| < FRAME_MAX_SIZE
  }

  // ----- Prefixes

  lemma {:induction false} FlattenSnoc(chunks: seq<Bytes>, k: nat)
    requires k < |chunks|
    ensures Flatten(chunks[..k + 1]) == Flatten(chunks[..k]) + chunks[k]
    decreases k
  {
    if k == 0 {
      assert chunks[..1] == [chunks[0]] && chunks[..0] == [];
      var one := [chunks[0]];
      assert one[1..] == [] && Flatten(one) == chunks[0];
    } else {
      FlattenSnoc(chunks[1..], k - 1);
      assert chunks[..k + 1][1..] == chunks[1..][..k] && chunks[..k][1..] == chunks[1..][..k - 1];
    }
  }

  lemma {:induction false} FlattenSplit(chunks: seq<Bytes>, k: nat)
    requires k <= |chunks|
    ensures Flatten(chunks) == Flatten(chunks[..k]) + Flatten(chunks[k..])
    decreases k
  {
    if k == 0 {
      assert chunks[..0] == [] && chunks[0..] == chunks;
    } else {
      FlattenSplit(chunks, k - 1);
      FlattenSnoc(chunks, k - 1);
      assert chunks[k - 1..][0] == chunks[k - 1] && chunks[k - 1..][1..] == chunks[k..];
      Associates(Flatten(chunks[..k - 1]), chunks[k - 1], Flatten(chunks[k..]));
    }
  }

  lemma {:induction false} ProcessSplit(late: bool, r: Receiver, chunks: seq<Bytes>, k: nat)
    requires Shaped(r) && k <= |chunks|
    ensures ProcessAll(late, r, chunks) == ProcessAll(late, ProcessAll(late, r, chunks[..k]), chunks[k..])
    decreases k
  {
    if k == 0 {
      assert chunks[..0] == [] && chunks[0..] == chunks;
    } else {
      assert chunks[..k][0] == chunks[0] && chunks[..k][1..] == chunks[1..][..k - 1];
      assert chunks[1..][k - 1..] == chunks[k..];
      ProcessSplit(late, Process(late, r, chunks[0]), chunks[1..], k - 1);
    }
  }

  lemma ProcessSnoc(late: bool, r: Receiver, chunks: seq<Bytes>, k: nat)
    requires Shaped(r) && k < |chunks|
    ensures ProcessAll(late, r, chunks[..k + 1]) == Process(late, ProcessAll(late, r, chunks[..k]), chunks[k])
  {
    ProcessSplit(late, r, chunks[..k + 1], k);
    assert chunks[..k + 1][..k] == chunks[..k] && chunks[..k + 1][k..] == [chunks[k]];
    var one := [chunks[k]];
    assert one[1..] == [];
  }

  lemma CutAfterHeader(header: Bytes, p: Bytes, later: Bytes, s: Bytes, at: nat)
    requires s == header + p + later && |header| <= at <= |s|
    ensures s[..at] == header + s[|header|..at]
    ensures at >= |header| + |p| ==> s[|header|..at][|p|..] == later[..at - |header| - |p|]
  {
  }

  /** A prefix of the stream leaves a started body exactly when it ends inside one. */
  lemma {:induction false} RestInsideBody(payloads: seq<Bytes>, at: nat)
    requires Sendable(payloads) && at <= |Stream(payloads)|
    ensures |RestOf(Stream(payloads)[..at])| >= FRAME_LENGTH_SIZE <==> InsideBody(payloads, at)
  {
    if payloads != [] && at >= FRAME_LENGTH_SIZE {
      var p, s := payloads[0], Stream(payloads);
      var header, cut := BigEndian(|p|, FRAME_LENGTH_SIZE), s[FRAME_LENGTH_SIZE..at];
      var end := FRAME_LENGTH_SIZE + |p|;
      BodyOf(header, |p|, cut);
      CutAfterHeader(header, p, Stream(payloads[1..]), s, at);
      if at >= end {
        RestInsideBody(payloads[1..], at - end);
      }
    }
  }

  // ----- The early count against the late count

  /** From a frame boundary both counts agree, but for the 3 header bytes when a body is left open. */
  lemma {:induction false} EarlyFromBoundary(r: Receiver, msg: Bytes)
    requires Good(r) && r.incoming.None? && !HasFrame(Pending(r))
    ensures var late := Process(true, r, msg);
            Process(false, r, msg) ==
            if late.incoming.None? then late
            else late.(receivedLength := late.receivedLength + FRAME_LENGTH_SIZE)
    decreases Measure(r, msg)
  {
    if msg != [] {
      LateRound(r, msg);
      var (next, rest) := Round(true, r, msg);
      if rest != [] {
        assert Round(false, r, msg) == (next, rest);
        EarlyFromBoundary(next, rest);
      }
    }
  }

  lemma LateBoundary(payloads: seq<Bytes>, chunks: seq<Bytes>, k: nat)
    requires Sendable(payloads) && Flatten(chunks) == Stream(payloads) && k <= |chunks|
    ensures var r := ProcessAll(true, EmptyReceiver, chunks[..k]);
            && Good(r) && !HasFrame(Pending(r))
            && (r.incoming.Some? <==> InsideBody(payloads, BytesBefore(chunks, k)))
  {
    var r, before := ProcessAll(true, EmptyReceiver, chunks[..k]), Flatten(chunks[..k]);
    LateProcessAll(EmptyReceiver, chunks[..k]);
    FlattenSplit(chunks, k);
    assert Stream(payloads)[..|before|] == before;
    assert Pending(EmptyReceiver) + before == before;
    RestInsideBody(payloads, |before|);
  }

  /** As long as no piece has ended inside a body, the two counts cannot be told apart. */
  lemma {:induction false} EarlyAgrees(payloads: seq<Bytes>, chunks: seq<Bytes>, k: nat)
    requires Sendable(payloads) && Flatten(chunks) == Stream(payloads) && k <= |chunks|
    requires forall j | 0 <= j < k :: !InsideBody(payloads, BytesBefore(chunks, j))
    ensures var late := ProcessAll(true, EmptyReceiver, chunks[..k]);
            ProcessAll(false, EmptyReceiver, chunks[..k]) ==
            if late.incoming.None? then late
            else late.(receivedLength := late.receivedLength + FRAME_LENGTH_SIZE)
    decreases k
  {
    if k == 0 {
      assert chunks[..0] == [];
    } else {
      EarlyAgrees(payloads, chunks, k - 1);
      LateBoundary(payloads, chunks, k - 1);
      EarlyStep(chunks, k - 1);
    }
  }

  lemma EarlyStep(chunks: seq<Bytes>, k: nat)
    requires k < |chunks|
    requires var r := ProcessAll(true, EmptyReceiver, chunks[..k]);
             && Good(r) && r.incoming.None? && !HasFrame(Pending(r))
             && ProcessAll(false, EmptyReceiver, chunks[..k]) == r
    ensures var late := ProcessAll(true, EmptyReceiver, chunks[..k + 1]);
            ProcessAll(false, EmptyReceiver, chunks[..k + 1]) ==
            if late.incoming.None? then late
            else late.(receivedLength := late.receivedLength + FRAME_LENGTH_SIZE)
  {
    ProcessSnoc(true, EmptyReceiver, chunks, k);
    ProcessSnoc(false, EmptyReceiver, chunks, k);
    EarlyFromBoundary(ProcessAll(true, EmptyReceiver, chunks[..k]), chunks[k]);
  }

  // ----- Counting bytes

  function FrameBytes(frames: seq<Bytes>): nat {
    if frames == [] then 0
    else FrameBytes(frames[..|frames| - 1]) + FRAME_LENGTH_SIZE + |frames[|frames| - 1]|
  }

  /** The bytes the early count believes it has consumed. */
  function Weight(r: Receiver): nat {
    FrameBytes(r.frames) + if r.incoming.Some? then r.receivedLength else PartialLength(r)
  }

  lemma FrameBytesSnoc(frames: seq<Bytes>, data: Bytes)
    ensures FrameBytes(frames + [data]) == FrameBytes(frames) + FRAME_LENGTH_SIZE + |data|
  {
    assert (frames + [data])[..|frames|] == frames;
  }

  lemma HeaderRoundWeight(r: Receiver, msg: Bytes)
    requires Shaped(r) && r.incoming.None? && r.partialHeader.None?
    ensures var (next, rest) := HeaderRound(false, r, msg); Weight(next) + |rest| == Weight(r) + |msg|
  {
    if |msg| >= FRAME_LENGTH_SIZE && HasFrame(msg) {
      FrameBytesSnoc(r.frames, msg[FRAME_LENGTH_SIZE..][..FrameLength(msg)]);
    }
  }

  lemma BodyRoundWeight(r: Receiver, msg: Bytes)
    requires Shaped(r) && r.incoming.Some? && !BodyRound(r, msg).0.panicked
    ensures var (next, rest) := BodyRound(r, msg);
            Weight(next) + |rest| == Weight(r) + |msg| + if next.incoming.None? then FRAME_LENGTH_SIZE else 0
  {
    if r.receivedLength + |msg| >= r.incomingLength {
      var missing := r.incomingLength - r.receivedLength;
      FrameBytesSnoc(r.frames, CopyAt(r.incoming.value, r.receivedLength, msg[..missing]));
    }
  }

  /** Every byte is counted once, except that completing an open body counts its header again. */
  lemma RoundWeight(r: Receiver, msg: Bytes)
    requires Shaped(r) && msg != [] && !Round(false, r, msg).0.panicked
    ensures var (next, rest) := Round(false, r, msg);
            Weight(next) + |rest| ==
            Weight(r) + |msg| + if r.incoming.Some? && next.incoming.None? then FRAME_LENGTH_SIZE else 0
  {
    if r.incoming.Some? {
      BodyRoundWeight(r, msg);
    } else if r.partialHeader.Some? {
      HeaderRoundWeight(r.(partialHeader := None), r.partialHeader.value + msg);
    } else {
      HeaderRoundWeight(r, msg);
    }
  }

  lemma {:induction false} ProcessWeight(r: Receiver, msg: Bytes)
    requires Shaped(r) && !Process(false, r, msg).panicked
    ensures !r.panicked
    ensures var r' := Process(false, r, msg);
            Weight(r') >= Weight(r) + |msg| + if r.incoming.Some? && r'.incoming.None? then FRAME_LENGTH_SIZE else 0
    decreases Measure(r, msg)
  {
    if msg != [] && !r.panicked {
      var (next, rest) := Round(false, r, msg);
      if rest != [] {
        ProcessWeight(next, rest);
      }
      RoundWeight(r, msg);
    }
  }

  lemma {:induction false} ProcessAllWeight(r: Receiver, chunks: seq<Bytes>)
    requires Shaped(r) && !ProcessAll(false, r, chunks).panicked
    ensures !r.panicked
    ensures var r' := ProcessAll(false, r, chunks);
            Weight(r') >= Weight(r) + |Flatten(chunks)|
                          + if r.incoming.Some? && r'.incoming.None? then FRAME_LENGTH_SIZE else 0
    decreases |chunks|
  {
    if chunks != [] {
      ProcessAllWeight(Process(false, r, chunks[0]), chunks[1..]);
      ProcessWeight(r, chunks[0]);
    }
  }

  lemma {:induction false} StreamLength(payloads: seq<Bytes>, n: nat)
    requires n <= |payloads|
    ensures |Stream(payloads)| == FrameBytes(payloads[..n]) + |Stream(payloads[n..])|
    decreases n
  {
    if n == 0 {
      assert payloads[..0] == [] && payloads[0..] == payloads;
    } else {
      StreamLength(payloads, n - 1);
      assert payloads[..n][..n - 1] == payloads[..n - 1];
      assert payloads[n - 1..][0] == payloads[n - 1] && payloads[n - 1..][1..] == payloads[n..];
    }
  }

  /** processData hands out exactly the frames sent, with nothing left over and no panic, if and only if
      no piece ends inside a frame's body. */
  lemma EarlyDeliversExactly(payloads: seq<Bytes>, chunks: seq<Bytes>)
    requires Sendable(payloads) && Flatten(chunks) == Stream(payloads)
    ensures var r := ProcessAll(false, EmptyReceiver, chunks);
            r.frames == payloads && Idle(r) <==> SplitsNoBody(payloads, chunks)
  {
    assert chunks[..|chunks|] == chunks;
    if SplitsNoBody(payloads, chunks) {
      EarlyAgrees(payloads, chunks, |chunks|);
      LateBoundary(payloads, chunks, |chunks|);
      LateDeliversAll(payloads, chunks);
    } else {
      var k :| 0 <= k <= |chunks| && InsideBody(payloads, BytesBefore(chunks, k));
      SplitBodyIsLost(payloads, chunks, k);
    }
  }

  lemma {:induction false} SplitBodyIsLost(payloads: seq<Bytes>, chunks: seq<Bytes>, k: nat)
    requires Sendable(payloads) && Flatten(chunks) == Stream(payloads)
    requires k <= |chunks| && InsideBody(payloads, BytesBefore(chunks, k))
    ensures var r := ProcessAll(false, EmptyReceiver, chunks); !(r.frames == payloads && Idle(r))
    decreases k
  {
    if j :| 0 <= j < k && InsideBody(payloads, BytesBefore(chunks, j)) {
      SplitBodyIsLost(payloads, chunks, j);
    } else {
      var r := ProcessAll(false, EmptyReceiver, chunks);
      StreamLength(payloads, |payloads|);
      assert payloads[..|payloads|] == payloads && payloads[|payloads|..] == [];
      if !r.panicked && r.incoming.None? {
        EarlyAgrees(payloads, chunks, k);
        LateBoundary(payloads, chunks, k);
        OpenBodyCosts(chunks, k);
      }
    }
  }

  /** A body left open and completed later makes the count exceed the bytes that came in. */
  lemma OpenBodyCosts(chunks: seq<Bytes>, k: nat)
    requires k <= |chunks| && ProcessAll(false, EmptyReceiver, chunks[..k]).incoming.Some?
    requires var r := ProcessAll(false, EmptyReceiver, chunks); !r.panicked && r.incoming.None?
    ensures Weight(ProcessAll(false, EmptyReceiver, chunks)) >= |Flatten(chunks)| + FRAME_LENGTH_SIZE
  {
    ProcessSplit(false, EmptyReceiver, chunks, k);
    FlattenSplit(chunks, k);
    ProcessAllWeight(ProcessAll(false, EmptyReceiver, chunks[..k]), chunks[k..]);
    ProcessAllWeight(EmptyReceiver, chunks[..k]);
  }
}
