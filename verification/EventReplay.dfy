/** The ratchet in the database against the log, and what a delivery without faults does (message.go:298-537). */
module EventReplay {
  import opened Bytes
  import opened EventBuffer

  // ----- The stored ratchet

  /** The ratchet that comes of decrypting the ciphertexts of the advances, storing the sender keys of the messages
      and the changes from outside, in the order of the log. */
  function Replayed<R>(c: Cipher<R>, ratchet: R, log: seq<Event<R>>): R {
    if log == [] then ratchet
    else
      var before, last := Replayed(c, ratchet, log[..|log| - 1]), log[|log| - 1];
      match last
      case Advanced(_, ciphertext, _) =>
        var step := c.decrypt(before, ciphertext);
        if step.Ok? then step.value.0 else before
      case Absorbed(message) => c.absorb(before, message)
      case Replaced(other) => other
      case _ => before
  }

  /** Each advance is the decryption of its ciphertext with the ratchet of that moment. */
  predicate Decrypted<R>(c: Cipher<R>, ratchet: R, log: seq<Event<R>>, i: int)
    requires 0 <= i < |log|
  {
    log[i].Advanced? ==>
      var step := c.decrypt(Replayed(c, ratchet, log[..i]), log[i].ciphertext);
      && log[i].hash == c.hash(log[i].ciphertext)
      && step.Ok? && step.value.1 == log[i].plaintext
  }

  predicate AllDecrypted<R>(c: Cipher<R>, ratchet: R, log: seq<Event<R>>) {
    forall i | 0 <= i < |log| :: Decrypted(c, ratchet, log, i)
  }

  ghost predicate Tracks<R(!new)>(c: Cipher<R>, ratchet: R, s: State<R>) {
    s.db.ratchet == Replayed(c, ratchet, s.log) && AllDecrypted(c, ratchet, s.log)
  }

  /** One more event, with the ratchet it leads to. */
  lemma EventTracks<R(!new)>(c: Cipher<R>, ratchet: R, s: State<R>, s': State<R>, e: Event<R>)
    requires Tracks(c, ratchet, s) && s'.log == s.log + [e]
    requires match e
             case Advanced(h, ciphertext, plaintext) =>
               h == c.hash(ciphertext) && c.decrypt(s.db.ratchet, ciphertext) == Ok((s'.db.ratchet, plaintext))
             case Absorbed(message) => s'.db.ratchet == c.absorb(s.db.ratchet, message)
             case Replaced(other) => s'.db.ratchet == other
             case _ => s'.db.ratchet == s.db.ratchet
    ensures Tracks(c, ratchet, s')
  {
    assert s'.log[..|s.log|] == s.log;
    forall i | 0 <= i < |s'.log| ensures Decrypted(c, ratchet, s'.log, i) {
      if i < |s.log| {
        assert s'.log[..i] == s.log[..i] && s'.log[i] == s.log[i];
        assert Decrypted(c, ratchet, s.log, i);
      }
    }
  }

  lemma DecryptTracks<R(!new)>(c: Cipher<R>, ratchet: R, s: State<R>, ciphertext: Bytes, f: Faults)
    requires Tracks(c, ratchet, s)
    ensures Tracks(c, ratchet, BufferedDecrypt(c, s, ciphertext, f).0)
  {
    var (s1, decrypted) := BufferedDecrypt(c, s, ciphertext, f);
    var step := c.decrypt(s.db.ratchet, ciphertext);
    if s1 != s {
      assert step == Ok((step.value.0, step.value.1));
      assert s1.db.ratchet == step.value.0 && decrypted == Ok(step.value.1);
      EventTracks(c, ratchet, s, s1, Advanced(c.hash(ciphertext), ciphertext, step.value.1));
    }
  }

  lemma ChildTracks<R(!new)>(c: Cipher<R>, ratchet: R, s: State<R>, child: Child)
    requires Tracks(c, ratchet, s)
    ensures Tracks(c, ratchet, HandleChild(c, s, child).0)
  {
    if child.Encrypted? {
      var f, h := child.faults, c.hash(child.ciphertext);
      var (s1, decrypted) := BufferedDecrypt(c, s, child.ciphertext, f);
      DecryptTracks(c, ratchet, s, child.ciphertext, f);
      if decrypted.Ok? {
        var u := c.unpad(decrypted.value, child.version);
        if u.Some? {
          HandleTracks(c, ratchet, s1, h, child.version, u.value, f);
          var s2 := HandleDecoded(c, s1, h, child.version, u.value, f);
          EventTracks(c, ratchet, s2, State(s2.db.(buffer := ClearPlaintext(s2.db.buffer, h)),
                                            s2.log + [Cleared(h, child.version)]), Cleared(h, child.version));
        }
      }
    }
  }

  lemma HandleTracks<R(!new)>(c: Cipher<R>, ratchet: R, s: State<R>, h: Bytes, version: int, unpadded: Bytes,
                              f: Faults)
    requires Tracks(c, ratchet, s)
    ensures Tracks(c, ratchet, HandleDecoded(c, s, h, version, unpadded, f))
  {
    if Decodes(c, unpadded, version) {
      var absorbed := State(s.db.(ratchet := c.absorb(s.db.ratchet, unpadded)), s.log + [Absorbed(unpadded)]);
      EventTracks(c, ratchet, s, absorbed, Absorbed(unpadded));
      if CallsHandler(c, unpadded, version, f.partsFail) {
        EventTracks(c, ratchet, absorbed, HandleDecoded(c, s, h, version, unpadded, f),
                    Handled(h, version, unpadded, f.handlerFails));
      }
    }
  }

  lemma {:induction false} MessageTracks<R(!new)>(c: Cipher<R>, ratchet: R, s: State<R>, children: seq<Child>)
    requires Tracks(c, ratchet, s)
    ensures Tracks(c, ratchet, HandleMessage(c, s, children))
    decreases |children|
  {
    if children != [] {
      ChildTracks(c, ratchet, s, children[0]);
      var (next, flow) := HandleChild(c, s, children[0]);
      MessageTracks(c, ratchet, next, children[1..]);
    }
  }

  /** Over any run, with failures and crashes anywhere, the ratchet in the database is the replay of the log: every
      advance in the log is stored, and was the decryption of its ciphertext at that moment. */
  lemma {:induction false} RatchetIsReplay<R(!new)>(c: Cipher<R>, ratchet: R, steps: seq<Step<R>>)
    ensures var s := Run(c, State(Persisted(ratchet, map[]), []), steps);
            s.db.ratchet == Replayed(c, ratchet, s.log) && AllDecrypted(c, ratchet, s.log)
  {
    if steps != [] {
      var before, last := steps[..|steps| - 1], steps[|steps| - 1];
      var s := Run(c, State(Persisted(ratchet, map[]), []), before);
      RatchetIsReplay(c, ratchet, before);
      if last.Deliver? {
        MessageTracks(c, ratchet, s, last.children);
      } else {
        EventTracks(c, ratchet, s, TakeStep(c, s, last), Replaced(last.ratchet));
      }
    }
  }

  // ----- Deliveries without faults

  /** A message that the handler is called for. */
  predicate Dispatched<R>(c: Cipher<R>, message: Bytes, version: int) {
    (version == 2 && c.unmarshal(message)) || (version == 3 && c.decodeArmadillo(message) == Some(true))
  }

  /** A ciphertext that is not buffered, decrypts, unpads and is dispatched: the advance and the row are committed,
      the sender keys stored, the handler called and the row cleared, in this order. */
  lemma FreshIsHandled<R>(c: Cipher<R>, s: State<R>, ciphertext: Bytes, version: int, ratchet: R, plaintext: Bytes,
                          message: Bytes)
    requires c.hash(ciphertext) !in s.db.buffer && c.decrypt(s.db.ratchet, ciphertext) == Ok((ratchet, plaintext))
    requires c.unpad(plaintext, version) == Some(message) && Dispatched(c, message, version)
    ensures var h := c.hash(ciphertext);
            HandleChild(c, s, Encrypted(ciphertext, version, NoFaults(false))) ==
            (State(Persisted(c.absorb(ratchet, message), s.db.buffer[h := None]),
                   s.log + [Advanced(h, ciphertext, plaintext), Absorbed(message), Handled(h, version, message, false),
                            Cleared(h, version)]),
             Continue)
  {
    var h := c.hash(ciphertext);
    var a, b: Event<R> := Advanced(h, ciphertext, plaintext), Absorbed(message);
    var d, e: Event<R> := Handled(h, version, message, false), Cleared(h, version);
    assert s.log + [a] + [b] + [d] + [e] == s.log + [a, b, d, e];
    assert s.db.buffer[h := Some(plaintext)][h := None] == s.db.buffer[h := None];
  }

  /** The same when the handler reports failure, or the process dies before the handler or before the clear: the
      plaintext stays in the buffer, for the next delivery, and this delivery ends. */
  lemma FailureKeepsPlaintext<R>(c: Cipher<R>, s: State<R>, ciphertext: Bytes, version: int, ratchet: R,
                                 plaintext: Bytes, message: Bytes, f: Faults)
    requires c.hash(ciphertext) !in s.db.buffer && c.decrypt(s.db.ratchet, ciphertext) == Ok((ratchet, plaintext))
    requires c.unpad(plaintext, version) == Some(message) && Dispatched(c, message, version)
    requires !f.getFails && !f.txnFails && !f.partsFail && f.crash != BeforeCommit
    requires f.handlerFails || f.crash == BeforeHandler || f.crash == BeforeClear
    ensures var h := c.hash(ciphertext);
            var (s', flow) := HandleChild(c, s, Encrypted(ciphertext, version, f));
            && flow == Stop && s'.db.buffer == s.db.buffer[h := Some(plaintext)]
            && s'.db.ratchet == (if f.crash == BeforeHandler then ratchet else c.absorb(ratchet, message))
            && s'.log == s.log + [Advanced(h, ciphertext, plaintext)]
                         + (if f.crash == BeforeHandler then []
                            else [Absorbed(message)] + [Handled(h, version, message, f.handlerFails)])
  {
    var h := c.hash(ciphertext);
    var a, b: Event<R>, d := Advanced(h, ciphertext, plaintext), Absorbed(message),
                             Handled(h, version, message, f.handlerFails);
    Associates(s.log + [a], [b], [d]);
    assert s.log + [a] + [] == s.log + [a];
  }

  /** A clear that fails keeps the plaintext too, and the delivery goes on. */
  lemma FailedClearKeepsPlaintext<R>(c: Cipher<R>, s: State<R>, ciphertext: Bytes, version: int, ratchet: R,
                                     plaintext: Bytes, message: Bytes)
    requires c.hash(ciphertext) !in s.db.buffer && c.decrypt(s.db.ratchet, ciphertext) == Ok((ratchet, plaintext))
    requires c.unpad(plaintext, version) == Some(message) && Dispatched(c, message, version)
    ensures var f := Faults(false, false, false, false, true, Survives);
            var (s', flow) := HandleChild(c, s, Encrypted(ciphertext, version, f));
            flow == Continue && s'.db.buffer == s.db.buffer[c.hash(ciphertext) := Some(plaintext)]
  {
  }

  /** A lookup or a transaction that fails, and a process that dies before the commit, leave everything as it was. */
  lemma NothingCommitted<R>(c: Cipher<R>, s: State<R>, ciphertext: Bytes, version: int, f: Faults)
    requires c.hash(ciphertext) !in s.db.buffer && (f.getFails || f.txnFails || f.crash == BeforeCommit)
    ensures HandleChild(c, s, Encrypted(ciphertext, version, f)).0 == s
  {
  }

  /** A ciphertext that cannot be decrypted: an old counter is skipped, anything else ends the delivery; nothing
      changes. */
  lemma UndecryptableChangesNothing<R>(c: Cipher<R>, s: State<R>, ciphertext: Bytes, version: int, error: DecryptError)
    requires c.hash(ciphertext) !in s.db.buffer && c.decrypt(s.db.ratchet, ciphertext) == Err(error)
    ensures HandleChild(c, s, Encrypted(ciphertext, version, NoFaults(false))) ==
            (s, if error == OldCounter || error == AlreadyProcessed then Continue else Stop)
  {
  }

  /** A ciphertext that was handled and cleared before is skipped, and the delivery goes on. */
  lemma ProcessedIsSkipped<R>(c: Cipher<R>, s: State<R>, ciphertext: Bytes, version: int)
    requires Lookup(s.db.buffer, c.hash(ciphertext)) == Some(None)
    ensures HandleChild(c, s, Encrypted(ciphertext, version, NoFaults(false))) == (s, Continue)
  {
  }

  /** What a delivery is expected to do, child by child: with this ratchet and these processed hashes, every child
      was processed before, or decrypts to a message that is dispatched. */
  predicate Deliverable<R>(c: Cipher<R>, ratchet: R, processed: set<Bytes>, children: seq<Child>)
    decreases |children|
  {
    children != [] ==>
      && children[0].Encrypted? && children[0].faults == NoFaults(false)
      && var h, version := c.hash(children[0].ciphertext), children[0].version;
         if h in processed then Deliverable(c, ratchet, processed, children[1..])
         else
           var step := c.decrypt(ratchet, children[0].ciphertext);
           step.Ok? && c.unpad(step.value.1, version).Some? &&
           var message := c.unpad(step.value.1, version).value;
           Dispatched(c, message, version)
           && Deliverable(c, c.absorb(step.value.0, message), processed + {h}, children[1..])
  }

  /** The messages the handler should get, in order. */
  function Expected<R>(c: Cipher<R>, ratchet: R, processed: set<Bytes>, children: seq<Child>): seq<Bytes>
    requires Deliverable(c, ratchet, processed, children)
    decreases |children|
  {
    if children == [] then []
    else
      var h := c.hash(children[0].ciphertext);
      if h in processed then Expected(c, ratchet, processed, children[1..])
      else
        var step := c.decrypt(ratchet, children[0].ciphertext).value;
        var message := c.unpad(step.1, children[0].version).value;
        [message] + Expected(c, c.absorb(step.0, message), processed + {h}, children[1..])
  }

  /** The messages the handler got. */
  function Messages<R>(log: seq<Event<R>>): seq<Bytes> {
    if log == [] then []
    else
      var last := log[|log| - 1];
      Messages(log[..|log| - 1]) + if last.Handled? then [last.message] else []
  }

  lemma MessagesOfOne<R>(log: seq<Event<R>>, a: Event<R>, b: Event<R>, d: Event<R>, e: Event<R>)
    requires !a.Handled? && !b.Handled? && d.Handled? && !e.Handled?
    ensures Messages(log + [a, b, d, e]) == Messages(log) + [d.message]
  {
    var all := log + [a, b, d, e];
    assert all[..|log| + 3] == log + [a, b, d] && all[..|log| + 3][..|log| + 2] == log + [a, b];
    assert (log + [a, b])[..|log| + 1] == log + [a] && (log + [a])[..|log|] == log;
    assert Messages(log + [a]) == Messages(log) && Messages(log + [a, b]) == Messages(log);
  }

  /** The rows of the buffer are exactly the processed hashes, all cleared. */
  ghost predicate OnlyProcessed(buffer: Buffer, processed: set<Bytes>) {
    forall h :: Lookup(buffer, h) == if h in processed then Some(None) else None
  }

  function Hashes<R>(c: Cipher<R>, children: seq<Child>): set<Bytes> {
    if children == [] then {}
    else Hashes(c, children[1..]) + if children[0].Encrypted? then {c.hash(children[0].ciphertext)} else {}
  }

  /** A delivery without faults, of fresh and of repeated ciphertexts in any order: the handler gets the message of
      each fresh one, once and in order, and every row is cleared. */
  lemma {:induction false} DeliveryIsHandled<R>(c: Cipher<R>, s: State<R>, processed: set<Bytes>, children: seq<Child>)
    requires OnlyProcessed(s.db.buffer, processed) && Deliverable(c, s.db.ratchet, processed, children)
    ensures var s' := HandleMessage(c, s, children);
            && Messages(s'.log) == Messages(s.log) + Expected(c, s.db.ratchet, processed, children)
            && OnlyProcessed(s'.db.buffer, processed + Hashes(c, children))
    decreases |children|, 1
  {
    if children == [] {
      assert processed + Hashes(c, children) == processed;
      assert Messages(s.log) + [] == Messages(s.log);
    } else {
      var child := children[0];
      var h := c.hash(child.ciphertext);
      assert Lookup(s.db.buffer, h) == if h in processed then Some(None) else None;
      if h in processed {
        ProcessedIsSkipped(c, s, child.ciphertext, child.version);
        DeliveryIsHandled(c, s, processed, children[1..]);
        assert processed + Hashes(c, children) == processed + Hashes(c, children[1..]);
      } else {
        FreshThenOthers(c, s, processed, children);
      }
    }
  }

  lemma {:induction false} FreshThenOthers<R>(c: Cipher<R>, s: State<R>, processed: set<Bytes>, children: seq<Child>)
    requires children != [] && OnlyProcessed(s.db.buffer, processed)
    requires Deliverable(c, s.db.ratchet, processed, children) && c.hash(children[0].ciphertext) !in processed
    requires c.hash(children[0].ciphertext) !in s.db.buffer
    ensures var s' := HandleMessage(c, s, children);
            && Messages(s'.log) == Messages(s.log) + Expected(c, s.db.ratchet, processed, children)
            && OnlyProcessed(s'.db.buffer, processed + Hashes(c, children))
    decreases |children|, 0
  {
    var ciphertext, version := children[0].ciphertext, children[0].version;
    var h, step := c.hash(ciphertext), c.decrypt(s.db.ratchet, ciphertext).value;
    var message := c.unpad(step.1, version).value;
    FreshIsHandled(c, s, ciphertext, version, step.0, step.1, message);
    MessagesOfOne(s.log, Advanced(h, ciphertext, step.1), Absorbed(message), Handled(h, version, message, false),
                  Cleared(h, version));
    var next := HandleChild(c, s, children[0]).0;
    ProcessedGrows(s.db.buffer, processed, h);
    DeliveryIsHandled(c, next, processed + {h}, children[1..]);
    assert processed + {h} + Hashes(c, children[1..]) == processed + Hashes(c, children);
    Associates(Messages(s.log), [message], Expected(c, next.db.ratchet, processed + {h}, children[1..]));
  }

  lemma ProcessedGrows(buffer: Buffer, processed: set<Bytes>, h: Bytes)
    requires OnlyProcessed(buffer, processed)
    ensures OnlyProcessed(buffer[h := None], processed + {h})
  {
    forall x ensures Lookup(buffer[h := None], x) == if x in processed + {h} then Some(None) else None {
      assert Lookup(buffer, x) == if x in processed then Some(None) else None;
    }
  }
}
