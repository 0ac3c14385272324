/** Decryption under redelivery (message.go:298-537): the buffer of decrypted events, the loop that calls
    the handler and clears the buffer, and what survives a crash at any point. */
module EventBuffer {
  import opened Bytes

  /** The ratchet is whatever session state decryption reads and advances; `absorb` is what a decoded message does
      to it, storing the sender keys it distributes. `unmarshal` says whether a version 2 message parses,
      `decodeArmadillo` whether a version 3 message decodes and then whether it holds anything to dispatch. */
  datatype Cipher<!Ratchet> = Cipher(
    hash: Bytes -> Bytes,
    decrypt: (Ratchet, Bytes) -> Result<(Ratchet, Bytes), DecryptError>,
    unpad: (Bytes, int) -> Option<Bytes>,
    unmarshal: Bytes -> bool,
    decodeArmadillo: Bytes -> Option<bool>,
    absorb: (Ratchet, Bytes) -> Ratchet)

  datatype DecryptError = OldCounter | Undecryptable | AlreadyProcessed | StoreFailed | BadPadding

  /** A buffered event; None is a plaintext that was cleared. */
  type Buffer = map<Bytes, Option<Bytes>>

  /** What the database holds. */
  datatype Persisted<Ratchet> = Persisted(ratchet: Ratchet, buffer: Buffer)

  /** What an observer sees: a committed ratchet advance with the ciphertext and the plaintext it gave, a message
      whose sender keys are stored, a call of the handler with the unpadded message it gets and whether it reports
      failure, a successful clear after a delivery of this version, a ratchet that something else put in place. */
  datatype Event<Ratchet> =
    | Advanced(hash: Bytes, ciphertext: Bytes, plaintext: Bytes)
    | Absorbed(message: Bytes)
    | Handled(hash: Bytes, version: int, message: Bytes, failed: bool)
    | Cleared(hash: Bytes, version: int)
    | Replaced(ratchet: Ratchet)

  datatype State<Ratchet> = State(db: Persisted<Ratchet>, log: seq<Event<Ratchet>>)

  /** Where the process may die while it handles one encrypted child. The transaction of DoDecryptionTxn is
      atomic: dying before its commit leaves nothing of it. */
  datatype Crash = Survives | BeforeCommit | BeforeHandler | BeforeClear

  /** What goes wrong besides: a store call that fails, a transaction that does not commit, protocol parts of a
      version 2 message that cannot be processed, a handler that reports failure. */
  datatype Faults = Faults(
    getFails: bool, txnFails: bool, partsFail: bool, handlerFails: bool, clearFails: bool, crash: Crash)

  /** An `enc` child of a delivered message; version is its `v` attribute. Types the client does not know
      are skipped. */
  datatype Child = Encrypted(ciphertext: Bytes, version: int, faults: Faults) | Unhandled

  // ----- bufferedDecrypt

  /** bufferedDecrypt with the buffer enabled: the state it leaves, and the plaintext or the error. */
  function BufferedDecrypt<R>(c: Cipher<R>, s: State<R>, ciphertext: Bytes, f: Faults)
    : (State<R>, Result<Bytes, DecryptError>)
  {
    var h := c.hash(ciphertext);
    if f.getFails then (s, Err(StoreFailed))
    else if h in s.db.buffer then
      (s, if s.db.buffer[h].None? then Err(AlreadyProcessed) else Ok(s.db.buffer[h].value))
    else
      var step := c.decrypt(s.db.ratchet, ciphertext);
      if step.Err? then (s, Err(step.error))
      else if f.txnFails || f.crash.BeforeCommit? then (s, Err(StoreFailed))
      else
        var (ratchet, plaintext) := step.value;
        (State(Persisted(ratchet, s.db.buffer[h := Some(plaintext)]), s.log + [Advanced(h, ciphertext, plaintext)]),
         Ok(plaintext))
  }

  /** How the loop of decryptMessages goes on after a child. */
  datatype Flow = Continue | Stop

  /** Whether the message gets as far as changing the ratchet: it parses or decodes. */
  predicate Decodes<R>(c: Cipher<R>, unpadded: Bytes, version: int) {
    (version == 2 && c.unmarshal(unpadded)) || (version == 3 && c.decodeArmadillo(unpadded).Some?)
  }

  /** The handler is called for version 2 when the protobuf parses and its protocol parts can be processed, and
      for version 3 when it decodes and holds something to dispatch; an unknown version calls none. */
  predicate CallsHandler<R>(c: Cipher<R>, unpadded: Bytes, version: int, partsFail: bool) {
    || (version == 2 && c.unmarshal(unpadded) && !partsFail)
    || (version == 3 && c.decodeArmadillo(unpadded) == Some(true))
  }

  /** What a message does before the clear. */
  function HandleDecoded<R>(c: Cipher<R>, s: State<R>, h: Bytes, version: int, unpadded: Bytes, f: Faults)
    : State<R>
  {
    if !Decodes(c, unpadded, version) then s
    else
      var log := s.log + [Absorbed(unpadded)];
      State(s.db.(ratchet := c.absorb(s.db.ratchet, unpadded)),
            if CallsHandler(c, unpadded, version, f.partsFail)
            then log + [Handled(h, version, unpadded, f.handlerFails)] else log)
  }

  /** One round of the loop of decryptMessages. */
  function HandleChild<R>(c: Cipher<R>, s: State<R>, child: Child): (State<R>, Flow) {
    match child
    case Unhandled => (s, Continue)
    case Encrypted(ciphertext, version, f) =>
      var h := c.hash(ciphertext);
      var (s1, decrypted) := BufferedDecrypt(c, s, ciphertext, f);
      if !f.crash.Survives? && (f.crash.BeforeCommit? || f.crash.BeforeHandler?) then (s1, Stop)
      else if decrypted.Err? then
        (s1, if decrypted.error == AlreadyProcessed || decrypted.error == OldCounter then Continue else Stop)
      else
        var unpadded := c.unpad(decrypted.value, version);
        if unpadded.None? then (s1, Stop)
        else if version == 2 && !c.unmarshal(unpadded.value) then (s1, Continue)
        else
          var s2 := HandleDecoded(c, s1, h, version, unpadded.value, f);
          if CallsHandler(c, unpadded.value, version, f.partsFail) && f.handlerFails then (s2, Stop)
          else if f.crash.BeforeClear? then (s2, Stop)
          else if f.clearFails then (s2, Continue)
          else (State(s2.db.(buffer := ClearPlaintext(s2.db.buffer, h)), s2.log + [Cleared(h, version)]), Continue)
  }

  /** ClearBufferedEventPlaintext updates a row that exists. */
  function ClearPlaintext(buffer: Buffer, h: Bytes): Buffer {
    if h in buffer then buffer[h := None] else buffer
  }

  /** decryptMessages on one delivery. */
  function HandleMessage<R>(c: Cipher<R>, s: State<R>, children: seq<Child>): State<R>
    decreases |children|
  {
    if children == [] then s
    else
      var (next, flow) := HandleChild(c, s, children[0]);
      if flow.Stop? then next else HandleMessage(c, next, children[1..])
  }

  /** A step of a run: a delivery, or a change of the ratchet by something else, like a message that is sent. */
  datatype Step<Ratchet> = Deliver(children: seq<Child>) | Ratchets(ratchet: Ratchet)

  function TakeStep<R>(c: Cipher<R>, s: State<R>, step: Step<R>): State<R> {
    match step
    case Deliver(children) => HandleMessage(c, s, children)
    case Ratchets(ratchet) => State(s.db.(ratchet := ratchet), s.log + [Replaced(ratchet)])
  }

  /** A run: one step after the other, with the same ciphertext as often as the server likes. */
  function Run<R>(c: Cipher<R>, s: State<R>, steps: seq<Step<R>>): State<R>
    decreases |steps|
  {
    if steps == [] then s
    else TakeStep(c, Run(c, s, steps[..|steps| - 1]), steps[|steps| - 1])
  }

  // ----- The client

  class Client<R> {
    const cipher: Cipher<R>
    var db: Persisted<R>
    var log: seq<Event<R>>

    function Now(): State<R>
      reads this
    {
      State(db, log)
    }

    constructor (cipher: Cipher<R>, db: Persisted<R>)
      ensures this.cipher == cipher && Now() == State(db, [])
    {
      this.cipher, this.db, log := cipher, db, [];
    }

    method DecryptBuffered(ciphertext: Bytes, f: Faults) returns (r: Result<Bytes, DecryptError>)
      modifies this
      ensures (Now(), r) == BufferedDecrypt(cipher, old(Now()), ciphertext, f)
    {
      var ciphertextHash := cipher.hash(ciphertext);
      if f.getFails {
        return Err(StoreFailed);
      }
      if ciphertextHash in db.buffer {
        var buf := db.buffer[ciphertextHash];
        if buf == None {
          return Err(AlreadyProcessed);
        }
        return Ok(buf.value);
      }
      var step :- cipher.decrypt(db.ratchet, ciphertext);
      if f.txnFails || f.crash == BeforeCommit {
        return Err(StoreFailed);
      }
      db := Persisted(step.0, db.buffer[ciphertextHash := Some(step.1)]);
      log := log + [Advanced(ciphertextHash, ciphertext, step.1)];
      return Ok(step.1);
    }

    method DecryptMessages(children: seq<Child>)
      modifies this
      ensures Now() == HandleMessage(cipher, old(Now()), children)
    {
      for i := 0 to |children|
        invariant HandleMessage(cipher, old(Now()), children) == HandleMessage(cipher, Now(), children[i..])
      {
        assert children[i..][0] == children[i] && children[i..][1..] == children[i + 1..];
        var flow := DecryptChild(children[i]);
        if flow == Stop {
          return;
        }
      }
    }

    /** handleDecryptedArmadillo, as far as this state sees it: whether the handler failed. */
    method HandleArmadillo(h: Bytes, unpadded: Bytes, f: Faults) returns (failed: bool)
      modifies this
      ensures Now() == HandleDecoded(cipher, old(Now()), h, 3, unpadded, f)
      ensures failed == (CallsHandler(cipher, unpadded, 3, f.partsFail) && f.handlerFails)
    {
      var dec := cipher.decodeArmadillo(unpadded);
      if dec == None {
        return false;
      }
      db := db.(ratchet := cipher.absorb(db.ratchet, unpadded));
      log := log + [Absorbed(unpadded)];
      if !dec.value {
        return false;
      }
      log := log + [Handled(h, 3, unpadded, f.handlerFails)];
      return f.handlerFails;
    }

    /** The body of the loop. */
    method DecryptChild(child: Child) returns (flow: Flow)
      modifies this
      ensures (Now(), flow) == HandleChild(cipher, old(Now()), child)
    {
      if child == Unhandled {
        return Continue;
      }
      var f, h := child.faults, cipher.hash(child.ciphertext);
      var decrypted := DecryptBuffered(child.ciphertext, f);
      if f.crash == BeforeCommit || f.crash == BeforeHandler {
        return Stop;
      }
      if decrypted.Err? {
        return if decrypted.error == AlreadyProcessed || decrypted.error == OldCounter then Continue else Stop;
      }
      var unpadded := cipher.unpad(decrypted.value, child.version);
      if unpadded == None {
        return Stop;
      }
      var handlerFailed := false;
      if child.version == 2 {
        if !cipher.unmarshal(unpadded.value) {
          return Continue;
        }
        db := db.(ratchet := cipher.absorb(db.ratchet, unpadded.value));
        log := log + [Absorbed(unpadded.value)];
        if !f.partsFail {
          log := log + [Handled(h, 2, unpadded.value, f.handlerFails)];
          handlerFailed := f.handlerFails;
        }
      } else if child.version == 3 {
        handlerFailed := HandleArmadillo(h, unpadded.value, f);
      }
      if handlerFailed || f.crash == BeforeClear {
        return Stop;
      }
      if !f.clearFails {
        db := db.(buffer := ClearPlaintext(db.buffer, h));
        log := log + [Cleared(h, child.version)];
      }
      return Continue;
    }
  }

  // ----- What every run keeps

  /** Each hash advances the ratchet at most once. */
  predicate AdvancesOnce<R>(log: seq<Event<R>>) {
    forall i, j | 0 <= i < j < |log| :: !(log[i].Advanced? && log[j].Advanced? && log[i].hash == log[j].hash)
  }

  /** Every handler call sees the plaintext of the advance of its hash, unpadded for its version. */
  predicate SamePlaintext<R>(c: Cipher<R>, log: seq<Event<R>>) {
    forall i | 0 <= i < |log| && log[i].Handled? ::
      exists j | 0 <= j < |log| ::
        && log[j].Advanced? && log[j].hash == log[i].hash
        && c.unpad(log[j].plaintext, log[i].version) == Some(log[i].message)
  }

  /** No handler call follows a clear of its hash. */
  predicate NoneAfterClear<R>(log: seq<Event<R>>) {
    forall i, j | 0 <= i < j < |log| :: !(log[i].Cleared? && log[j].Handled? && log[i].hash == log[j].hash)
  }

  predicate HasAdvanced<R>(log: seq<Event<R>>, h: Bytes, plaintext: Bytes) {
    exists i | 0 <= i < |log| :: log[i].Advanced? && log[i].hash == h && log[i].plaintext == plaintext
  }

  lemma HasAdvancedSnoc<R>(log: seq<Event<R>>, e: Event<R>, h: Bytes, plaintext: Bytes)
    requires HasAdvanced(log, h, plaintext)
    ensures HasAdvanced(log + [e], h, plaintext)
  {
    var i :| 0 <= i < |log| && log[i].Advanced? && log[i].hash == h && log[i].plaintext == plaintext;
    assert (log + [e])[i] == log[i];
  }

  /** The buffer knows what the log says: a row for each advance, with its plaintext until it is cleared. */
  predicate InStep<R>(s: State<R>) {
    && (forall i | 0 <= i < |s.log| && s.log[i].Advanced? :: s.log[i].hash in s.db.buffer)
    && (forall h | h in s.db.buffer && s.db.buffer[h].Some? :: HasAdvanced(s.log, h, s.db.buffer[h].value))
    && (forall i | 0 <= i < |s.log| && s.log[i].Cleared? ::
          s.log[i].hash in s.db.buffer && s.db.buffer[s.log[i].hash].None?)
  }

  predicate Safe<R>(c: Cipher<R>, s: State<R>) {
    AdvancesOnce(s.log) && SamePlaintext(c, s.log) && NoneAfterClear(s.log) && InStep(s)
  }

  lemma DecryptKeepsSafe<R>(c: Cipher<R>, s: State<R>, ciphertext: Bytes, f: Faults)
    requires Safe(c, s)
    ensures var (s', r) := BufferedDecrypt(c, s, ciphertext, f);
            && Safe(c, s')
            && (r.Ok? ==> Lookup(s'.db.buffer, c.hash(ciphertext)) == Some(Some(r.value)))
  {
    var (s', r) := BufferedDecrypt(c, s, ciphertext, f);
    if s' != s {
      AdvanceKeepsSafe(c, s, s'.db.ratchet, c.hash(ciphertext), ciphertext, r.value);
    }
  }

  lemma AdvanceKeepsSafe<R>(c: Cipher<R>, s: State<R>, ratchet: R, h: Bytes, ciphertext: Bytes, plaintext: Bytes)
    requires Safe(c, s) && h !in s.db.buffer
    ensures Safe(c, State(Persisted(ratchet, s.db.buffer[h := Some(plaintext)]),
                          s.log + [Advanced(h, ciphertext, plaintext)]))
  {
    var e := Advanced(h, ciphertext, plaintext);
    var log := s.log + [e];
    assert log[|s.log|] == e;
    SamePlaintextSnoc(c, s.log, e);
    AdvanceKeepsRows(s, e, s.db.buffer[h := Some(plaintext)]);
  }

  /** Another row, or none: each plaintext still has its advance. */
  lemma AdvanceKeepsRows<R>(s: State<R>, e: Event<R>, buffer: Buffer)
    requires InStep(s)
    requires forall h | h in buffer && buffer[h].Some? ::
               Lookup(s.db.buffer, h) == Some(buffer[h]) ||
               (e.Advanced? && e.hash == h && e.plaintext == buffer[h].value)
    ensures forall h | h in buffer && buffer[h].Some? :: HasAdvanced(s.log + [e], h, buffer[h].value)
  {
    forall h | h in buffer && buffer[h].Some? ensures HasAdvanced(s.log + [e], h, buffer[h].value) {
      if Lookup(s.db.buffer, h) == Some(buffer[h]) {
        HasAdvancedSnoc(s.log, e, h, buffer[h].value);
      } else {
        assert (s.log + [e])[|s.log|] == e;
      }
    }
  }

  /** Another event does not disturb the handler calls before it. */
  lemma SamePlaintextSnoc<R>(c: Cipher<R>, log: seq<Event<R>>, e: Event<R>)
    requires SamePlaintext(c, log)
    requires e.Handled? ==>
               exists j | 0 <= j < |log| ::
                 log[j].Advanced? && log[j].hash == e.hash && c.unpad(log[j].plaintext, e.version) == Some(e.message)
    ensures SamePlaintext(c, log + [e])
  {
    var more := log + [e];
    forall i | 0 <= i < |more| && more[i].Handled?
      ensures exists j | 0 <= j < |more| ::
                && more[j].Advanced? && more[j].hash == more[i].hash
                && c.unpad(more[j].plaintext, more[i].version) == Some(more[i].message)
    {
      var j :| 0 <= j < |log| && log[j].Advanced? && log[j].hash == more[i].hash
               && c.unpad(log[j].plaintext, more[i].version) == Some(more[i].message);
      assert more[j] == log[j];
    }
  }

  /** Events that only tell of the ratchet. */
  lemma RatchetKeepsSafe<R>(c: Cipher<R>, s: State<R>, ratchet: R, e: Event<R>)
    requires Safe(c, s) && (e.Absorbed? || e.Replaced?)
    ensures Safe(c, State(s.db.(ratchet := ratchet), s.log + [e]))
  {
    SamePlaintextSnoc(c, s.log, e);
    AdvanceKeepsRows(s, e, s.db.buffer);
  }

  lemma HandledKeepsSafe<R>(c: Cipher<R>, s: State<R>, h: Bytes, version: int, plaintext: Bytes, message: Bytes,
                            failed: bool)
    requires Safe(c, s) && Lookup(s.db.buffer, h) == Some(Some(plaintext))
    requires c.unpad(plaintext, version) == Some(message)
    ensures Safe(c, State(s.db, s.log + [Handled(h, version, message, failed)]))
  {
    var e := Handled(h, version, message, failed);
    assert HasAdvanced(s.log, h, plaintext);
    SamePlaintextSnoc(c, s.log, e);
    AdvanceKeepsRows(s, e, s.db.buffer);
  }

  lemma HandleKeepsSafe<R>(c: Cipher<R>, s: State<R>, h: Bytes, version: int, plaintext: Bytes, unpadded: Bytes,
                           f: Faults)
    requires Safe(c, s) && Lookup(s.db.buffer, h) == Some(Some(plaintext))
    requires c.unpad(plaintext, version) == Some(unpadded)
    ensures Safe(c, HandleDecoded(c, s, h, version, unpadded, f))
    ensures HandleDecoded(c, s, h, version, unpadded, f).db.buffer == s.db.buffer
  {
    if Decodes(c, unpadded, version) {
      var absorbed := c.absorb(s.db.ratchet, unpadded);
      RatchetKeepsSafe(c, s, absorbed, Absorbed(unpadded));
      HandledKeepsSafe(c, State(s.db.(ratchet := absorbed), s.log + [Absorbed(unpadded)]), h, version, plaintext,
                       unpadded, f.handlerFails);
    }
  }

  lemma ClearKeepsSafe<R>(c: Cipher<R>, s: State<R>, h: Bytes, version: int)
    requires Safe(c, s) && h in s.db.buffer
    ensures Safe(c, State(s.db.(buffer := ClearPlaintext(s.db.buffer, h)), s.log + [Cleared(h, version)]))
  {
    SamePlaintextSnoc(c, s.log, Cleared(h, version));
    AdvanceKeepsRows(s, Cleared(h, version), ClearPlaintext(s.db.buffer, h));
  }

  lemma ChildKeepsSafe<R>(c: Cipher<R>, s: State<R>, child: Child)
    requires Safe(c, s)
    ensures Safe(c, HandleChild(c, s, child).0)
  {
    if child.Encrypted? {
      var f, h := child.faults, c.hash(child.ciphertext);
      var (s1, decrypted) := BufferedDecrypt(c, s, child.ciphertext, f);
      DecryptKeepsSafe(c, s, child.ciphertext, f);
      if decrypted.Ok? {
        var unpadded := c.unpad(decrypted.value, child.version);
        if unpadded.Some? {
          HandleKeepsSafe(c, s1, h, child.version, decrypted.value, unpadded.value, f);
          ClearKeepsSafe(c, HandleDecoded(c, s1, h, child.version, unpadded.value, f), h, child.version);
        }
      }
    }
  }

  lemma {:induction false} MessageKeepsSafe<R>(c: Cipher<R>, s: State<R>, children: seq<Child>)
    requires Safe(c, s)
    ensures Safe(c, HandleMessage(c, s, children))
    decreases |children|
  {
    if children != [] {
      ChildKeepsSafe(c, s, children[0]);
      var (next, flow) := HandleChild(c, s, children[0]);
      MessageKeepsSafe(c, next, children[1..]);
    }
  }

  lemma {:induction false} RunKeepsSafe<R>(c: Cipher<R>, s: State<R>, steps: seq<Step<R>>)
    requires Safe(c, s)
    ensures Safe(c, Run(c, s, steps))
    decreases |steps|
  {
    if steps != [] {
      RunKeepsSafe(c, s, steps[..|steps| - 1]);
      var last := steps[|steps| - 1];
      if last.Deliver? {
        MessageKeepsSafe(c, Run(c, s, steps[..|steps| - 1]), last.children);
      } else {
        RatchetKeepsSafe(c, Run(c, s, steps[..|steps| - 1]), last.ratchet, Replaced(last.ratchet));
      }
    }
  }

  /** Two handler calls for one hash and one version get the same message. */
  predicate OneMessage<R>(log: seq<Event<R>>) {
    forall i, j | 0 <= i < |log| && 0 <= j < |log| && log[i].Handled? && log[j].Handled? ::
      log[i].hash == log[j].hash && log[i].version == log[j].version ==> log[i].message == log[j].message
  }

  lemma SafeIsOneMessage<R>(c: Cipher<R>, log: seq<Event<R>>)
    requires AdvancesOnce(log) && SamePlaintext(c, log)
    ensures OneMessage(log)
  {
    forall i, j | 0 <= i < |log| && 0 <= j < |log| && log[i].Handled? && log[j].Handled?
                  && log[i].hash == log[j].hash && log[i].version == log[j].version
      ensures log[i].message == log[j].message
    {
      var a :| 0 <= a < |log| && log[a].Advanced? && log[a].hash == log[i].hash
               && c.unpad(log[a].plaintext, log[i].version) == Some(log[i].message);
      var b :| 0 <= b < |log| && log[b].Advanced? && log[b].hash == log[j].hash
               && c.unpad(log[b].plaintext, log[j].version) == Some(log[j].message);
      assert a == b;
    }
  }

  /** From an empty buffer, over any deliveries with any crashes and failures: a hash commits at most one
      ratchet advance, all handler calls for it and a version get one message, the unpadded plaintext of that
      advance, and none follows a successful clear. */
  lemma DeliveriesAreSafe<R>(c: Cipher<R>, ratchet: R, steps: seq<Step<R>>)
    ensures var log := Run(c, State(Persisted(ratchet, map[]), []), steps).log;
            AdvancesOnce(log) && NoneAfterClear(log) && SamePlaintext(c, log) && OneMessage(log)
  {
    RunKeepsSafe(c, State(Persisted(ratchet, map[]), []), steps);
    SafeIsOneMessage(c, Run(c, State(Persisted(ratchet, map[]), []), steps).log);
  }

  // ----- What becomes of every plaintext

  /** A hash is cleared at most once. */
  predicate ClearsOnce<R>(log: seq<Event<R>>) {
    forall i, j | 0 <= i < j < |log| :: !(log[i].Cleared? && log[j].Cleared? && log[i].hash == log[j].hash)
  }

  /** A message that can be cleared although the handler never saw it: of an unknown version, of version 3 when it
      does not decode or holds nothing to dispatch, of version 2 when it parses and its protocol parts fail. */
  predicate CanBeSkipped<R>(c: Cipher<R>, unpadded: Bytes, version: int) {
    if version == 2 then c.unmarshal(unpadded)
    else version == 3 ==> c.decodeArmadillo(unpadded) != Some(true)
  }

  /** The handler was called, with the same version, just before, and reported no failure. */
  predicate FollowsHandler<R>(log: seq<Event<R>>, i: int)
    requires 0 <= i < |log|
  {
    && log[i].Cleared? && i > 0 && log[i - 1].Handled? && !log[i - 1].failed
    && log[i - 1].hash == log[i].hash && log[i - 1].version == log[i].version
  }

  /** The plaintext unpads for the version and can be skipped. */
  predicate Skippable<R>(c: Cipher<R>, plaintext: Bytes, version: int) {
    var u := c.unpad(plaintext, version);
    u.Some? && CanBeSkipped(c, u.value, version)
  }

  predicate SkipsHandler<R>(c: Cipher<R>, log: seq<Event<R>>, i: int)
    requires 0 <= i < |log|
  {
    && log[i].Cleared?
    && exists j | 0 <= j < i ::
         log[j].Advanced? && log[j].hash == log[i].hash && Skippable(c, log[j].plaintext, log[i].version)
  }

  predicate ClearsExplained<R>(c: Cipher<R>, log: seq<Event<R>>) {
    forall i | 0 <= i < |log| && log[i].Cleared? :: FollowsHandler(log, i) || SkipsHandler(c, log, i)
  }

  /** A row without a plaintext was cleared. */
  ghost predicate RowsCleared<R>(s: State<R>) {
    forall h | h in s.db.buffer && s.db.buffer[h].None? :: exists version :: Cleared(h, version) in s.log
  }

  ghost predicate Accounted<R>(c: Cipher<R>, s: State<R>) {
    ClearsOnce(s.log) && ClearsExplained(c, s.log) && RowsCleared(s)
  }

  /** Another event does not disturb the clears before it. */
  lemma ExplainedSnoc<R>(c: Cipher<R>, log: seq<Event<R>>, e: Event<R>)
    requires ClearsExplained(c, log)
    requires e.Cleared? ==> FollowsHandler(log + [e], |log|) || SkipsHandler(c, log + [e], |log|)
    ensures ClearsExplained(c, log + [e])
  {
    var more := log + [e];
    forall i | 0 <= i < |more| && more[i].Cleared? ensures FollowsHandler(more, i) || SkipsHandler(c, more, i) {
      if i < |log| {
        assert more[i] == log[i] && (i > 0 ==> more[i - 1] == log[i - 1]);
        if SkipsHandler(c, log, i) {
          var j :| 0 <= j < i && log[j].Advanced? && log[j].hash == log[i].hash
                   && Skippable(c, log[j].plaintext, log[i].version);
          assert more[j] == log[j];
        }
      }
    }
  }

  lemma RowsClearedSnoc<R>(s: State<R>, s': State<R>, e: Event<R>)
    requires RowsCleared(s) && s'.log == s.log + [e]
    requires forall h | h in s'.db.buffer && s'.db.buffer[h].None? ::
               (h in s.db.buffer && s.db.buffer[h].None?) || (e.Cleared? && e.hash == h)
    ensures RowsCleared(s')
  {
    forall h | h in s'.db.buffer && s'.db.buffer[h].None? ensures exists version :: Cleared(h, version) in s'.log {
      if e.Cleared? && e.hash == h {
        assert s'.log[|s.log|] == Cleared(h, e.version);
      } else {
        var version :| Cleared(h, version) in s.log;
        assert Cleared(h, version) in s'.log;
      }
    }
  }

  /** An event that is no clear. */
  lemma EventKeepsAccounted<R>(c: Cipher<R>, s: State<R>, s': State<R>, e: Event<R>)
    requires Accounted(c, s) && s'.log == s.log + [e] && !e.Cleared?
    requires forall h | h in s'.db.buffer && s'.db.buffer[h].None? :: h in s.db.buffer && s.db.buffer[h].None?
    ensures Accounted(c, s')
  {
    ExplainedSnoc(c, s.log, e);
    RowsClearedSnoc(s, s', e);
  }

  lemma ClearKeepsAccounted<R>(c: Cipher<R>, s: State<R>, h: Bytes, version: int)
    requires InStep(s) && Accounted(c, s) && h in s.db.buffer && s.db.buffer[h].Some?
    requires var log := s.log + [Cleared(h, version)];
             FollowsHandler(log, |s.log|) || SkipsHandler(c, log, |s.log|)
    ensures Accounted(c, State(s.db.(buffer := ClearPlaintext(s.db.buffer, h)), s.log + [Cleared(h, version)]))
  {
    var s' := State(s.db.(buffer := ClearPlaintext(s.db.buffer, h)), s.log + [Cleared(h, version)]);
    ExplainedSnoc(c, s.log, Cleared(h, version));
    RowsClearedSnoc(s, s', Cleared(h, version));
  }

  /** Why the clear at the end of a round is explained. */
  lemma ClearIsExplained<R>(c: Cipher<R>, s: State<R>, h: Bytes, version: int, plaintext: Bytes, unpadded: Bytes,
                            f: Faults)
    requires InStep(s) && Lookup(s.db.buffer, h) == Some(Some(plaintext))
    requires c.unpad(plaintext, version) == Some(unpadded) && (version == 2 ==> c.unmarshal(unpadded))
    requires !(CallsHandler(c, unpadded, version, f.partsFail) && f.handlerFails)
    ensures var before := HandleDecoded(c, s, h, version, unpadded, f).log;
            var log := before + [Cleared(h, version)];
            FollowsHandler(log, |before|) || SkipsHandler(c, log, |before|)
  {
    var before := HandleDecoded(c, s, h, version, unpadded, f).log;
    var log := before + [Cleared(h, version)];
    if CallsHandler(c, unpadded, version, f.partsFail) {
      assert log[|before| - 1] == Handled(h, version, unpadded, false);
    } else {
      assert s.log <= before && Skippable(c, plaintext, version);
      assert HasAdvanced(s.log, h, plaintext);
      var j :| 0 <= j < |s.log| && s.log[j].Advanced? && s.log[j].hash == h && s.log[j].plaintext == plaintext;
      assert log[j] == s.log[j];
    }
  }

  lemma HandleKeepsAccounted<R>(c: Cipher<R>, s: State<R>, h: Bytes, version: int, unpadded: Bytes, f: Faults)
    requires Accounted(c, s)
    ensures Accounted(c, HandleDecoded(c, s, h, version, unpadded, f))
  {
    if Decodes(c, unpadded, version) {
      var absorbed := State(s.db.(ratchet := c.absorb(s.db.ratchet, unpadded)), s.log + [Absorbed(unpadded)]);
      EventKeepsAccounted(c, s, absorbed, Absorbed(unpadded));
      if CallsHandler(c, unpadded, version, f.partsFail) {
        EventKeepsAccounted(c, absorbed, HandleDecoded(c, s, h, version, unpadded, f),
                            Handled(h, version, unpadded, f.handlerFails));
      }
    }
  }

  /** The part of a round after the plaintext was found. */
  lemma PlaintextKeepsAccounted<R>(c: Cipher<R>, s: State<R>, h: Bytes, version: int, plaintext: Bytes,
                                   unpadded: Bytes, f: Faults)
    requires Safe(c, s) && Accounted(c, s) && Lookup(s.db.buffer, h) == Some(Some(plaintext))
    requires c.unpad(plaintext, version) == Some(unpadded)
    ensures var s' := HandleDecoded(c, s, h, version, unpadded, f);
            && Accounted(c, s')
            && ((version == 2 ==> c.unmarshal(unpadded)) &&
                !(CallsHandler(c, unpadded, version, f.partsFail) && f.handlerFails) ==>
                Accounted(c, State(s'.db.(buffer := ClearPlaintext(s'.db.buffer, h)), s'.log + [Cleared(h, version)])))
  {
    HandleKeepsAccounted(c, s, h, version, unpadded, f);
    HandleKeepsSafe(c, s, h, version, plaintext, unpadded, f);
    var failed := CallsHandler(c, unpadded, version, f.partsFail) && f.handlerFails;
    if (version == 2 ==> c.unmarshal(unpadded)) && !failed {
      ClearIsExplained(c, s, h, version, plaintext, unpadded, f);
      ClearKeepsAccounted(c, HandleDecoded(c, s, h, version, unpadded, f), h, version);
    }
  }

  lemma ChildKeepsAccounted<R>(c: Cipher<R>, s: State<R>, child: Child)
    requires Safe(c, s) && Accounted(c, s)
    ensures Accounted(c, HandleChild(c, s, child).0)
  {
    if child.Encrypted? {
      var f, h := child.faults, c.hash(child.ciphertext);
      var (s1, decrypted) := BufferedDecrypt(c, s, child.ciphertext, f);
      DecryptKeepsSafe(c, s, child.ciphertext, f);
      DecryptKeepsAccounted(c, s, child.ciphertext, f);
      if decrypted.Ok? {
        var unpadded := c.unpad(decrypted.value, child.version);
        if unpadded.Some? {
          PlaintextKeepsAccounted(c, s1, h, child.version, decrypted.value, unpadded.value, f);
        }
      }
    }
  }

  lemma DecryptKeepsAccounted<R>(c: Cipher<R>, s: State<R>, ciphertext: Bytes, f: Faults)
    requires Accounted(c, s)
    ensures Accounted(c, BufferedDecrypt(c, s, ciphertext, f).0)
  {
    var (s', r) := BufferedDecrypt(c, s, ciphertext, f);
    if s' != s {
      EventKeepsAccounted(c, s, s', Advanced(c.hash(ciphertext), ciphertext, r.value));
    }
  }

  lemma {:induction false} MessageKeepsAccounted<R>(c: Cipher<R>, s: State<R>, children: seq<Child>)
    requires Safe(c, s) && Accounted(c, s)
    ensures Accounted(c, HandleMessage(c, s, children))
    decreases |children|
  {
    if children != [] {
      ChildKeepsSafe(c, s, children[0]);
      ChildKeepsAccounted(c, s, children[0]);
      var (next, flow) := HandleChild(c, s, children[0]);
      MessageKeepsAccounted(c, next, children[1..]);
    }
  }

  lemma {:induction false} RunKeepsAccounted<R>(c: Cipher<R>, s: State<R>, steps: seq<Step<R>>)
    requires Safe(c, s) && Accounted(c, s)
    ensures Accounted(c, Run(c, s, steps))
    decreases |steps|
  {
    if steps != [] {
      var before, last := steps[..|steps| - 1], steps[|steps| - 1];
      RunKeepsAccounted(c, s, before);
      RunKeepsSafe(c, s, before);
      if last.Deliver? {
        MessageKeepsAccounted(c, Run(c, s, before), last.children);
      } else {
        EventKeepsAccounted(c, Run(c, s, before), Run(c, s, steps), Replaced(last.ratchet));
      }
    }
  }

  lemma BufferedUntilCleared<R>(s: State<R>, h: Bytes, p: Bytes)
    requires AdvancesOnce(s.log) && InStep(s) && RowsCleared(s) && HasAdvanced(s.log, h, p)
    ensures Lookup(s.db.buffer, h) == Some(Some(p)) <==> forall version :: Cleared(h, version) !in s.log
  {
    var i :| 0 <= i < |s.log| && s.log[i].Advanced? && s.log[i].hash == h && s.log[i].plaintext == p;
    assert s.log[i].hash in s.db.buffer;
    if s.db.buffer[h].Some? {
      assert HasAdvanced(s.log, h, s.db.buffer[h].value);
      var j :| 0 <= j < |s.log| && s.log[j].Advanced? && s.log[j].hash == h
               && s.log[j].plaintext == s.db.buffer[h].value;
      assert i == j;
      forall version ensures Cleared(h, version) !in s.log {
        assert forall k | 0 <= k < |s.log| :: s.log[k].Cleared? ==> s.log[k].hash != h;
      }
    }
  }

  /** From an empty buffer, over any run: each committed plaintext is either still in the buffer, for the next
      delivery, or was cleared, and then once; and every clear directly follows a handler call for that hash and
      version that reported no failure, or is of a plaintext that unpads for that version and can be skipped. */
  lemma PlaintextsAccounted<R>(c: Cipher<R>, ratchet: R, steps: seq<Step<R>>)
    ensures var s := Run(c, State(Persisted(ratchet, map[]), []), steps);
            && (forall h, p | HasAdvanced(s.log, h, p) ::
                  Lookup(s.db.buffer, h) == Some(Some(p)) <==> forall version :: Cleared(h, version) !in s.log)
            && ClearsOnce(s.log) && ClearsExplained(c, s.log)
  {
    var start := State(Persisted(ratchet, map[]), []);
    RunKeepsSafe(c, start, steps);
    RunKeepsAccounted(c, start, steps);
    var s := Run(c, start, steps);
    forall h, p | HasAdvanced(s.log, h, p)
      ensures Lookup(s.db.buffer, h) == Some(Some(p)) <==> forall version :: Cleared(h, version) !in s.log
    {
      BufferedUntilCleared(s, h, p);
    }
  }

  // ----- What a redelivery does to a committed plaintext

  /** Nothing goes wrong but perhaps the protocol parts. */
  function NoFaults(partsFail: bool): Faults {
    Faults(false, false, partsFail, false, false, Survives)
  }

  /** A redelivery of a ciphertext whose plaintext was committed and not cleared: it is handled and then cleared
      if and only if it unpads and the handler is called for it; nothing advances. */
  lemma RedeliveryFinishes<R>(c: Cipher<R>, s: State<R>, ciphertext: Bytes, version: int, plaintext: Bytes,
                              partsFail: bool)
    requires Lookup(s.db.buffer, c.hash(ciphertext)) == Some(Some(plaintext))
    ensures var h, u := c.hash(ciphertext), c.unpad(plaintext, version);
            var (s', _) := HandleChild(c, s, Encrypted(ciphertext, version, NoFaults(partsFail)));
            if u.Some? && CallsHandler(c, u.value, version, partsFail)
            then
              && s'.log == s.log + [Absorbed(u.value), Handled(h, version, u.value, false), Cleared(h, version)]
              && s'.db.buffer == s.db.buffer[h := None]
            else forall e | e in s'.log[|s.log|..] :: e.Absorbed? || e == Cleared(h, version)
  {
    var h := c.hash(ciphertext);
    var u := c.unpad(plaintext, version);
    if u.Some? {
      assert s.log + [Absorbed(u.value)] + [Handled(h, version, u.value, false)] + [Cleared(h, version)] ==
             s.log + [Absorbed(u.value), Handled(h, version, u.value, false), Cleared(h, version)];
      assert (s.log + [Absorbed(u.value)])[|s.log|..] == [Absorbed(u.value)];
      assert (s.log + [Absorbed(u.value)] + [Cleared(h, version)])[|s.log|..] ==
             [Absorbed(u.value), Cleared(h, version)];
      assert (s.log + [Cleared(h, version)])[|s.log|..] == [Cleared(h, version)];
    }
    assert s.log[|s.log|..] == [];
  }

  /** Such a plaintext is cleared without a handler call if and only if it unpads, the handler is not called for
      it, and it is not a version 2 message that does not parse: an unknown version, version 3 that does not
      decode or holds nothing to dispatch, or version 2 with protocol parts that fail. */
  lemma ClearedUnhandled<R>(c: Cipher<R>, s: State<R>, ciphertext: Bytes, version: int, plaintext: Bytes,
                            partsFail: bool)
    requires Lookup(s.db.buffer, c.hash(ciphertext)) == Some(Some(plaintext))
    ensures var h, u := c.hash(ciphertext), c.unpad(plaintext, version);
            var (s', flow) := HandleChild(c, s, Encrypted(ciphertext, version, NoFaults(partsFail)));
            var unhandled :=
              u.Some? && !CallsHandler(c, u.value, version, partsFail) && (version == 2 ==> c.unmarshal(u.value));
            && (unhandled ==>
                  && flow == Continue && s'.db.buffer == s.db.buffer[h := None]
                  && s'.log == s.log + (if Decodes(c, u.value, version) then [Absorbed(u.value)] else [])
                               + [Cleared(h, version)])
            && (s'.db.buffer == s.db.buffer[h := None]
                <==> unhandled || (u.Some? && CallsHandler(c, u.value, version, partsFail)))
  {
    var h, u := c.hash(ciphertext), c.unpad(plaintext, version);
    if u.Some? && !Decodes(c, u.value, version) {
      assert s.log + [] == s.log;
    }
    assert s.db.buffer[h] != s.db.buffer[h := None][h];
  }

  /** A hash whose row was cleared is lost to the handler for good: every later delivery leaves the state alone. */
  lemma ClearedStaysCleared<R>(c: Cipher<R>, s: State<R>, ciphertext: Bytes, version: int, f: Faults)
    requires Lookup(s.db.buffer, c.hash(ciphertext)) == Some(None)
    ensures HandleChild(c, s, Encrypted(ciphertext, version, f)).0 == s
  {
  }
}
