/** The text form of JIDs: String and ParseJID (types/jid.go:158-226). */
module JidText {
  import opened Bytes
  import opened Jid

  const AT: byte := 64
  const DOT: byte := 46
  const COLON: byte := 58

  // ----- strings.Split and strconv.Atoi

  function Split(s: Bytes, sep: byte): (parts: seq<Bytes>)
    ensures parts != [] && forall i | 0 <= i < |parts| :: sep !in parts[i]
    ensures |parts| == 1 <==> sep !in s
  {
    if s == [] then [[]]
    else
      var others := Split(s[1..], sep);
      if s[0] == sep then [[]] + others else [[s[0]] + others[0]] + others[1..]
  }

  lemma {:induction false} SplitNowhere(a: Bytes, sep: byte)
    requires sep !in a
    ensures Split(a, sep) == [a]
  {
    if a != [] {
      SplitNowhere(a[1..], sep);
      assert [a[0]] + a[1..] == a;
    }
  }

  lemma {:induction false} SplitAtFirst(a: Bytes, sep: byte, b: Bytes)
    requires sep !in a
    ensures Split(a + [sep] + b, sep) == [a] + Split(b, sep)
  {
    var s := a + [sep] + b;
    if a == [] {
      assert s[1..] == b;
    } else {
      SplitAtFirst(a[1..], sep, b);
      assert s[1..] == a[1..] + [sep] + b;
      assert s[0] == a[0] != sep && [a[0]] + a[1..] == a;
    }
  }

  /** One separator makes two parts. */
  lemma SplitInTwo(a: Bytes, sep: byte, b: Bytes)
    requires sep !in a && sep !in b
    ensures Split(a + [sep] + b, sep) == [a, b]
  {
    SplitAtFirst(a, sep, b);
    SplitNowhere(b, sep);
  }

  function Atoi(s: Bytes): Option<int> {
    var negative := s != [] && s[0] == 45;
    var digits := if s != [] && (s[0] == 45 || s[0] == 43) then s[1..] else s;
    var n := ParseDigits(digits);
    if n.None? then None
    else
      var v: int := if negative then -(n.value as int) else n.value;
      if -0x8000_0000_0000_0000 <= v < 0x8000_0000_0000_0000 then Some(v) else None
  }

  lemma AtoiOfDigits(n: nat)
    requires n < 0x8000_0000_0000_0000
    ensures Atoi(Digits(n)) == Some(n)
  {
    DigitsParse(n);
    assert IsDigit(Digits(n)[0]);
  }

  // ----- String and ParseJID

  function Text(j: JID): Bytes {
    if j.rawAgent > 0 then
      j.user + [DOT] + Digits(j.rawAgent) + [COLON] + Digits(j.device) + [AT] + j.server
    else if j.device > 0 then j.user + [COLON] + Digits(j.device) + [AT] + j.server
    else if |j.user| > 0 then j.user + [AT] + j.server
    else j.server
  }

  /** user.agent:device@server, user:device@server, user@server or server: '.' is 46, ':' is 58, '@' is 64. */
  lemma TextForms(j: JID)
    ensures Text(j) ==
            if j.rawAgent != 0 then
              j.user + [46] + Digits(j.rawAgent) + [58] + Digits(j.device) + [64] + j.server
            else if j.device != 0 then j.user + [58] + Digits(j.device) + [64] + j.server
            else if j.user != [] then j.user + [64] + j.server
            else j.server
  {
  }

  datatype ParseError = Dots | Colons | Number

  /** The part of ParseJID for a user with a dot: agent and device. */
  function ParseAgent(user: Bytes, server: Bytes): Result<JID, ParseError> {
    var parts := Split(user, DOT);
    if |parts| != 2 then Err(Dots) else ParseNumbers(parts[0], parts[1], server)
  }

  function ParseNumbers(user: Bytes, numbers: Bytes, server: Bytes): Result<JID, ParseError> {
    var ad := Split(numbers, COLON);
    if |ad| > 2 then Err(Colons)
    else
      var agent := Atoi(ad[0]);
      if agent.None? then Err(Number)
      else if |ad| == 1 then Ok(JID(user, agent.value % 256, 0, 0, server))
      else
        var device := Atoi(ad[1]);
        if device.None? then Err(Number) else Ok(JID(user, agent.value % 256, device.value % 0x1_0000, 0, server))
  }

  /** The part for a user with a colon and no dot: device only. */
  function ParseDevice(user: Bytes, server: Bytes): Result<JID, ParseError> {
    var parts := Split(user, COLON);
    if |parts| != 2 then Err(Colons)
    else
      var device := Atoi(parts[1]);
      if device.None? then Err(Number) else Ok(JID(parts[0], 0, device.value % 0x1_0000, 0, server))
  }

  function ParseJID(s: Bytes): Result<JID, ParseError> {
    var parts := Split(s, AT);
    if |parts| == 1 then Ok(NewJID([], parts[0]))
    else if DOT in parts[0] then ParseAgent(parts[0], parts[1])
    else if COLON in parts[0] then ParseDevice(parts[0], parts[1])
    else Ok(NewJID(parts[0], parts[1]))
  }

  /** The JIDs the text form keeps. A colon in the user is harmless when an agent is written after it. */
  predicate TextSafe(j: JID) {
    && j.integrator == 0 && AT !in j.user && DOT !in j.user && AT !in j.server
    && (j.rawAgent > 0 || COLON !in j.user)
  }

  lemma NumbersParse(user: Bytes, agent: byte, device: uint16, server: Bytes)
    ensures ParseNumbers(user, Digits(agent) + [COLON] + Digits(device), server) ==
            Ok(JID(user, agent, device, 0, server))
  {
    var a, d := Digits(agent), Digits(device);
    SplitInTwo(a, COLON, d);
    AtoiOfDigits(agent);
    AtoiOfDigits(device);
    PartsParse(user, a + [COLON] + d, server, a, d, agent, device);
  }

  lemma PartsParse(user: Bytes, numbers: Bytes, server: Bytes, a: Bytes, d: Bytes, agent: byte, device: uint16)
    requires Split(numbers, COLON) == [a, d] && Atoi(a) == Some(agent) && Atoi(d) == Some(device)
    ensures ParseNumbers(user, numbers, server) == Ok(JID(user, agent, device, 0, server))
  {
    assert agent % 256 == agent && device % 0x1_0000 == device;
  }

  /** Numbers that are too wide for their fields keep their low bits. */
  lemma WideNumbersAreCut(user: Bytes, agent: nat, device: nat, server: Bytes)
    requires AT !in user && DOT !in user && AT !in server
    requires agent < 0x8000_0000_0000_0000 && device < 0x8000_0000_0000_0000
    ensures ParseJID(user + [46] + (Digits(agent) + [58] + Digits(device)) + [64] + server) ==
            Ok(JID(user, agent % 0x100, device % 0x1_0000, 0, server))
  {
    var numbers := Digits(agent) + [COLON] + Digits(device);
    var before := user + [DOT] + numbers;
    assert before[|user|] == DOT && AT !in before;
    SplitInTwo(before, AT, server);
    NumbersHaveNoDot(agent, device);
    SplitInTwo(user, DOT, numbers);
    SplitInTwo(Digits(agent), COLON, Digits(device));
    AtoiOfDigits(agent);
    AtoiOfDigits(device);
  }

  /** A second dot before the '@', or a second colon, is refused. */
  lemma TooManyParts(a: Bytes, b: Bytes, d: Bytes, server: Bytes)
    requires AT !in a && AT !in b && AT !in d && AT !in server && DOT !in a && DOT !in b
    ensures ParseJID(a + [46] + (b + [46] + d) + [64] + server) == Err(Dots)
    ensures COLON !in a && COLON !in b && DOT !in d ==>
              ParseJID(a + [58] + (b + [58] + d) + [64] + server) == Err(Colons)
  {
    var dots, colons := a + [DOT] + (b + [DOT] + d), a + [COLON] + (b + [COLON] + d);
    SplitInTwo(dots, AT, server);
    assert dots[|a|] == DOT;
    SplitAtFirst(a, DOT, b + [DOT] + d);
    SplitAtFirst(b, DOT, d);
    SplitInTwo(colons, AT, server);
    if COLON !in a && COLON !in b && DOT !in d {
      assert colons[|a|] == COLON && DOT !in colons;
      SplitAtFirst(a, COLON, b + [COLON] + d);
      SplitAtFirst(b, COLON, d);
    }
  }

  lemma NumbersHaveNoDot(agent: nat, device: nat)
    ensures DOT !in Digits(agent) + [COLON] + Digits(device)
  {
  }

  lemma DeviceParses(user: Bytes, device: uint16, server: Bytes)
    requires COLON !in user
    ensures ParseDevice(user + [COLON] + Digits(device), server) == Ok(JID(user, 0, device, 0, server))
  {
    SplitInTwo(user, COLON, Digits(device));
    AtoiOfDigits(device);
  }

  lemma AgentTextParses(j: JID)
    requires TextSafe(j) && j.rawAgent > 0
    ensures ParseJID(Text(j)) == Ok(j)
  {
    var user := j.user + [DOT] + (Digits(j.rawAgent) + [COLON] + Digits(j.device));
    assert Text(j) == user + [AT] + j.server;
    assert user[|j.user|] == DOT;
    SplitInTwo(user, AT, j.server);
    NumbersHaveNoDot(j.rawAgent, j.device);
    SplitInTwo(j.user, DOT, Digits(j.rawAgent) + [COLON] + Digits(j.device));
    NumbersParse(j.user, j.rawAgent, j.device, j.server);
  }

  lemma DeviceTextParses(j: JID)
    requires TextSafe(j) && j.rawAgent == 0 && j.device > 0
    ensures ParseJID(Text(j)) == Ok(j)
  {
    var user := j.user + [COLON] + Digits(j.device);
    assert user[|j.user|] == COLON;
    SplitInTwo(user, AT, j.server);
    DeviceParses(j.user, j.device, j.server);
  }

  lemma SafeTextParses(j: JID)
    requires TextSafe(j)
    ensures ParseJID(Text(j)) == Ok(j)
  {
    if j.rawAgent > 0 {
      AgentTextParses(j);
    } else if j.device > 0 {
      DeviceTextParses(j);
    } else if |j.user| > 0 {
      SplitInTwo(j.user, AT, j.server);
    } else {
      SplitNowhere(j.server, AT);
    }
  }

  /** Whatever is parsed, the user has no '@' and no '.', the server no '@', and the integrator is 0. */
  lemma ParsedShape(s: Bytes)
    requires ParseJID(s).Ok?
    ensures var j := ParseJID(s).value;
            j.integrator == 0 && AT !in j.user && DOT !in j.user && AT !in j.server
  {
    var parts := Split(s, AT);
    if |parts| > 1 && DOT in parts[0] {
      SplitKeeps(parts[0], DOT, AT);
    } else if |parts| > 1 && COLON in parts[0] {
      SplitKeeps(parts[0], COLON, AT);
      SplitKeeps(parts[0], COLON, DOT);
    }
  }

  /** Splitting brings in no new characters. */
  lemma {:induction false} SplitKeeps(s: Bytes, sep: byte, c: byte)
    requires c !in s
    ensures forall i | 0 <= i < |Split(s, sep)| :: c !in Split(s, sep)[i]
  {
    if s != [] {
      SplitKeeps(s[1..], sep, c);
    }
  }

  lemma ColonUserFails(j: JID)
    requires AT !in j.user && DOT !in j.user && AT !in j.server && j.rawAgent == 0 && COLON in j.user
    ensures ParseJID(Text(j)) != Ok(j)
  {
    var user := if j.device > 0 then j.user + [COLON] + Digits(j.device) else j.user;
    SplitInTwo(user, AT, j.server);
    assert Text(j) == user + [AT] + j.server;
    assert COLON in user && DOT !in user;
  }

  /** Parsing the text of a JID gives the JID back if and only if it is text safe, over all agents and
      devices and with an empty user included. */
  lemma TextRoundTrip(j: JID)
    ensures ParseJID(Text(j)) == Ok(j) <==> TextSafe(j)
  {
    if TextSafe(j) {
      SafeTextParses(j);
    } else if ParseJID(Text(j)) == Ok(j) {
      ParsedShape(Text(j));
      ColonUserFails(j);
    }
  }
}
