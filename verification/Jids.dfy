/** WhatsApp user identifiers and their text form (types/jid.go). */
module Jids {
  import opened ByteStrings
  import opened Decimal

  type uint16 = x: int | 0 <= x < 0x1_0000

  const DEFAULT_USER_SERVER := Ascii("s.whatsapp.net")
  const HIDDEN_USER_SERVER := Ascii("lid")
  const MESSENGER_SERVER := Ascii("msgr")
  const INTEROP_SERVER := Ascii("interop")
  const HOSTED_SERVER := Ascii("hosted")
  const HOSTED_LID_SERVER := Ascii("hosted.lid")

  const WHATSAPP_DOMAIN: byte := 0
  const LID_DOMAIN: byte := 1
  const HOSTED_DOMAIN: byte := 128
  const HOSTED_LID_DOMAIN: byte := 129

  const AT: byte := 64
  const DOT: byte := 46
  const COLON: byte := 58

  datatype JID = JID(user: Bytes, rawAgent: byte, device: uint16, integrator: uint16, server: Bytes) {

    function ActualAgent(): byte {
      if server == DEFAULT_USER_SERVER then WHATSAPP_DOMAIN
      else if server == HIDDEN_USER_SERVER then LID_DOMAIN
      else if server == HOSTED_SERVER then HOSTED_DOMAIN
      else if server == HOSTED_LID_SERVER then HOSTED_LID_DOMAIN
      else rawAgent
    }

    function String(): Bytes {
      if rawAgent > 0 then
        user + [DOT] + Itoa(rawAgent) + [COLON] + Itoa(device) + [AT] + server
      else if device > 0 then
        user + [COLON] + Itoa(device) + [AT] + server
      else if |user| > 0 then
        user + [AT] + server
      else
        server
    }
  }

  function NewJID(user: Bytes, server: Bytes): JID {
    JID(user, 0, 0, 0, server)
  }

  function NewADJID(user: Bytes, agent: byte, device: byte): JID {
    if agent == LID_DOMAIN then JID(user, 0, device, 0, HIDDEN_USER_SERVER)
    else if agent == HOSTED_DOMAIN then JID(user, 0, device, 0, HOSTED_SERVER)
    else if agent == HOSTED_LID_DOMAIN then JID(user, 0, device, 0, HOSTED_LID_SERVER)
    else if agent == WHATSAPP_DOMAIN then JID(user, agent, device, 0, DEFAULT_USER_SERVER)
    // The empty default case of the source's switch leaves the server empty.
    else JID(user, agent, device, 0, [])
  }

  datatype ParseError = TooManyDots | TooManyColons | BadNumber

  /** strings.Split with a one-byte separator. */
  function Split(s: Bytes, sep: byte): (parts: seq<Bytes>)
    ensures |parts| > 0
  {
    if s == [] then [[]]
    else
      var tail := Split(s[1..], sep);
      if s[0] == sep then [[]] + tail else [[s[0]] + tail[0]] + tail[1..]
  }

  /** The agent and device numbers are truncated to the width of their fields. */
  function ParseJID(s: Bytes): Result<JID, ParseError> {
    var parts := Split(s, AT);
    if |parts| == 1 then Ok(NewJID([], parts[0]))
    else ParseUser(parts[0], parts[1])
  }

  function ParseUser(user: Bytes, server: Bytes): Result<JID, ParseError> {
    if DOT in user then
      var parts := Split(user, DOT);
      if |parts| != 2 then Err(TooManyDots) else ParseAgentDevice(parts[0], Split(parts[1], COLON), server)
    else if COLON in user then
      var parts := Split(user, COLON);
      if |parts| != 2 then Err(TooManyColons)
      else
        match Atoi(parts[1])
        case None => Err(BadNumber)
        case Some(device) => Ok(JID(parts[0], 0, device % 0x1_0000, 0, server))
    else Ok(NewJID(user, server))
  }

  function ParseAgentDevice(user: Bytes, parts: seq<Bytes>, server: Bytes): Result<JID, ParseError>
    requires |parts| > 0
  {
    if |parts| > 2 then Err(TooManyColons)
    else
      match Atoi(parts[0])
      case None => Err(BadNumber)
      case Some(agent) =>
        if |parts| == 1 then Ok(JID(user, agent % 256, 0, 0, server))
        else
          match Atoi(parts[1])
          case None => Err(BadNumber)
          case Some(device) => Ok(JID(user, agent % 256, device % 0x1_0000, 0, server))
  }

  // ---- what Split does

  lemma {:induction false} SplitWhole(s: Bytes, sep: byte)
    requires sep !in s
    ensures Split(s, sep) == [s]
  {
    if s != [] {
      SplitWhole(s[1..], sep);
      assert s == [s[0]] + s[1..];
    }
  }

  lemma {:induction false} SplitFirst(a: Bytes, sep: byte, b: Bytes)
    requires sep !in a
    ensures Split(a + [sep] + b, sep) == [a] + Split(b, sep)
  {
    var s := a + [sep] + b;
    if a == [] {
      assert s[1..] == b;
    } else {
      SplitFirst(a[1..], sep, b);
      assert s[1..] == a[1..] + [sep] + b;
      assert [s[0]] + a[1..] == a;
    }
  }

  /** No part holds the separator, and every part is made of bytes of the whole. */
  lemma {:induction false} SplitParts(s: Bytes, sep: byte)
    ensures forall p <- Split(s, sep) :: sep !in p && forall b <- p :: b in s
  {
    if s != [] {
      SplitParts(s[1..], sep);
      var tail := Split(s[1..], sep);
      forall p | p in Split(s, sep)
        ensures sep !in p && forall b <- p :: b in s
      {
        assert p == [] || p == [s[0]] + tail[0] || p in tail;
        assert tail[0] in tail;
      }
    }
  }

  // ---- the round trip

  /** Exactly the identifiers whose printed form parses back to them. */
  predicate Printable(j: JID) {
    && j.integrator == 0
    && AT !in j.user && AT !in j.server
    && DOT !in j.user
    && (COLON in j.user ==> j.rawAgent > 0)
  }

  lemma NumberHasNoMarks(n: nat)
    ensures AT !in Itoa(n) && DOT !in Itoa(n) && COLON !in Itoa(n)
  {}

  lemma ParseDotted(user: Bytes, agent: Bytes, device: Bytes, server: Bytes)
    requires DOT !in user && DOT !in agent && DOT !in device && COLON !in agent && COLON !in device
    ensures ParseUser(user + [DOT] + (agent + [COLON] + device), server)
        == ParseAgentDevice(user, [agent, device], server)
  {
    var numbers := agent + [COLON] + device;
    var u := user + [DOT] + numbers;
    SplitFirst(agent, COLON, device);
    SplitWhole(device, COLON);
    SplitFirst(user, DOT, numbers);
    SplitWhole(numbers, DOT);
    assert u[|user|] == DOT;
  }

  lemma ParseAgentForm(j: JID)
    requires Printable(j) && j.rawAgent > 0
    ensures ParseUser(j.user + [DOT] + Itoa(j.rawAgent) + [COLON] + Itoa(j.device), j.server) == Ok(j)
  {
    var a, d := Itoa(j.rawAgent), Itoa(j.device);
    NumberHasNoMarks(j.rawAgent);
    NumberHasNoMarks(j.device);
    AtoiOfItoa(j.rawAgent);
    AtoiOfItoa(j.device);
    ParseDotted(j.user, a, d, j.server);
    assert j.user + [DOT] + (a + [COLON] + d) == j.user + [DOT] + a + [COLON] + d;
  }

  lemma ParseDeviceForm(j: JID)
    requires Printable(j) && j.rawAgent == 0
    ensures ParseUser(j.user + [COLON] + Itoa(j.device), j.server) == Ok(j)
  {
    NumberHasNoMarks(j.device);
    AtoiOfItoa(j.device);
    DeviceAlone(j.user, Itoa(j.device), j.server);
  }

  lemma DeviceAlone(user: Bytes, device: Bytes, server: Bytes)
    requires DOT !in user && DOT !in device && COLON !in user && COLON !in device && Atoi(device).Some?
    ensures ParseUser(user + [COLON] + device, server) == Ok(JID(user, 0, Atoi(device).value % 0x1_0000, 0, server))
  {
    hide Atoi;
    var u := user + [COLON] + device;
    assert DOT !in u && u[|user|] == COLON;
    SplitFirst(user, COLON, device);
    SplitWhole(device, COLON);
  }

  lemma ParsePrinted(j: JID)
    requires Printable(j)
    ensures ParseJID(j.String()) == Ok(j)
  {
    NumberHasNoMarks(j.rawAgent);
    NumberHasNoMarks(j.device);
    SplitWhole(j.server, AT);
    if j.rawAgent > 0 {
      SplitFirst(j.user + [DOT] + Itoa(j.rawAgent) + [COLON] + Itoa(j.device), AT, j.server);
      ParseAgentForm(j);
    } else if j.device > 0 {
      SplitFirst(j.user + [COLON] + Itoa(j.device), AT, j.server);
      ParseDeviceForm(j);
    } else if |j.user| > 0 {
      SplitFirst(j.user, AT, j.server);
    }
  }

  /** What a parse yields never holds the marks the parser splits at. */
  lemma ParsedUserHasNoMarks(user: Bytes, server: Bytes)
    ensures
      var r := ParseUser(user, server);
      r.Ok? ==> r.value.integrator == 0 && r.value.server == server && DOT !in r.value.user
                && (DOT !in user ==> COLON !in r.value.user) && forall b <- r.value.user :: b in user
  {
    SplitParts(user, DOT);
    SplitParts(user, COLON);
    assert Split(user, DOT)[0] in Split(user, DOT);
    assert Split(user, COLON)[0] in Split(user, COLON);
  }

  lemma PrintedFormSplits(j: JID) returns (user: Bytes)
    requires AT !in j.user && AT !in j.server
    ensures j.rawAgent > 0 || j.device > 0 || |j.user| > 0 ==> ParseJID(j.String()) == ParseUser(user, j.server)
    ensures j.rawAgent == 0 && DOT !in j.user ==> DOT !in user
  {
    NumberHasNoMarks(j.rawAgent);
    NumberHasNoMarks(j.device);
    SplitWhole(j.server, AT);
    user := if j.rawAgent > 0 then j.user + [DOT] + Itoa(j.rawAgent) + [COLON] + Itoa(j.device)
            else if j.device > 0 then j.user + [COLON] + Itoa(j.device)
            else j.user;
    SplitFirst(user, AT, j.server);
  }

  lemma ParsedHasNoAt(s: Bytes)
    ensures
      var r := ParseJID(s);
      r.Ok? ==> r.value.integrator == 0 && AT !in r.value.user && AT !in r.value.server
  {
    var parts := Split(s, AT);
    SplitParts(s, AT);
    assert parts[0] in parts;
    if |parts| > 1 {
      assert parts[1] in parts;
      ParsedUserHasNoMarks(parts[0], parts[1]);
    }
  }

  /** ParseJID undoes String on exactly the Printable identifiers. */
  lemma RoundTrip(j: JID)
    ensures ParseJID(j.String()) == Ok(j) <==> Printable(j)
  {
    if Printable(j) {
      ParsePrinted(j);
    }
    if ParseJID(j.String()) == Ok(j) {
      ParsedHasNoAt(j.String());
      var user := PrintedFormSplits(j);
      ParsedUserHasNoMarks(user, j.server);
    }
  }

  /** Hence no two printable identifiers print alike. */
  lemma StringInjective(j: JID, k: JID)
    requires Printable(j) && Printable(k) && j.String() == k.String()
    ensures j == k
  {
    ParsePrinted(j);
    ParsePrinted(k);
  }

  // ---- every form the parser knows

  predicate Plain(s: Bytes) {
    64 !in s && 46 !in s && 58 !in s
  }

  /** With or without agent and device; numbers are cut to eight and sixteen bits, and a second @ ends the server. */
  lemma ParsedForms(user: Bytes, agent: nat, device: nat, server: Bytes, more: Bytes)
    requires Plain(user) && 64 !in server && agent < INT64_LIMIT && device < INT64_LIMIT
    ensures
      var a, d, at := Itoa(agent), Itoa(device), [64] + server + [64] + more;
      && ParseJID(user + [46] + a + at) == Ok(JID(user, agent % 256, 0, 0, server))
      && ParseJID(user + [46] + a + [58] + d + at) == Ok(JID(user, agent % 256, device % 0x1_0000, 0, server))
      && ParseJID(user + [58] + d + at) == Ok(JID(user, 0, device % 0x1_0000, 0, server))
      && ParseJID(user + at) == Ok(JID(user, 0, 0, 0, server))
    ensures ParseJID(server) == Ok(JID([], 0, 0, 0, server))
  {
    hide Itoa, Atoi, ParseUser;
    var a, d := Itoa(agent), Itoa(device);
    NumbersPlain(agent);
    NumbersPlain(device);
    SplitWhole(server, AT);
    BehindAt(user + [46] + a, server, more);
    BehindAt(user + [46] + a + [58] + d, server, more);
    BehindAt(user + [58] + d, server, more);
    BehindAt(user, server, more);
    UserForms(user, agent, device, server);
  }

  lemma NumbersPlain(n: nat)
    ensures Plain(Itoa(n))
  {}

  lemma BehindAt(user: Bytes, server: Bytes, more: Bytes)
    requires 64 !in user && 64 !in server
    ensures ParseJID(user + ([64] + server + [64] + more)) == ParseUser(user, server)
  {
    hide ParseUser;
    assert user + ([64] + server + [64] + more) == user + [AT] + (server + [AT] + more);
    SplitFirst(user, AT, server + [AT] + more);
    SplitFirst(server, AT, more);
  }

  lemma UserForms(user: Bytes, agent: nat, device: nat, server: Bytes)
    requires Plain(user) && agent < INT64_LIMIT && device < INT64_LIMIT
    ensures ParseUser(user + [46] + Itoa(agent), server) == Ok(JID(user, agent % 256, 0, 0, server))
    ensures ParseUser(user + [46] + Itoa(agent) + [58] + Itoa(device), server)
         == Ok(JID(user, agent % 256, device % 0x1_0000, 0, server))
    ensures ParseUser(user + [58] + Itoa(device), server) == Ok(JID(user, 0, device % 0x1_0000, 0, server))
    ensures ParseUser(user, server) == Ok(JID(user, 0, 0, 0, server))
  {
    var a, d := Itoa(agent), Itoa(device);
    NumbersPlain(agent);
    NumbersPlain(device);
    AtoiOfItoa(agent);
    AtoiOfItoa(device);
    hide Itoa, Atoi;
    AgentAlone(user, a, server);
    DeviceAlone(user, d, server);
    ParseDotted(user, a, d, server);
    assert user + [46] + a + [58] + d == user + [DOT] + (a + [COLON] + d);
    hide Split;
  }

  lemma AgentAlone(user: Bytes, agent: Bytes, server: Bytes)
    requires DOT !in user && DOT !in agent && COLON !in agent
    ensures ParseUser(user + [DOT] + agent, server) == ParseAgentDevice(user, [agent], server)
  {
    SplitFirst(user, DOT, agent);
    SplitWhole(agent, DOT);
    SplitWhole(agent, COLON);
    assert (user + [DOT] + agent)[|user|] == DOT;
  }

  lemma {:induction false} SplitCounts(s: Bytes, sep: byte)
    ensures |Split(s, sep)| == multiset(s)[sep] + 1
  {
    if s != [] {
      SplitCounts(s[1..], sep);
      assert s == [s[0]] + s[1..];
    }
  }

  /** A second dot is refused, and so is a second colon behind the dot or where there is none. */
  lemma RefusedForms(user: Bytes, numbers: Bytes, server: Bytes)
    requires 46 !in user
    ensures 46 in numbers ==> ParseUser(user + [46] + numbers, server) == Err(TooManyDots)
    ensures 46 !in numbers && multiset(numbers)[58] > 1
        ==> ParseUser(user + [46] + numbers, server) == Err(TooManyColons)
    ensures multiset(user)[58] > 1 ==> ParseUser(user, server) == Err(TooManyColons)
  {
    SplitCounts(user, COLON);
    SplitCounts(numbers, DOT);
    SplitCounts(numbers, COLON);
    SplitFirst(user, DOT, numbers);
    if DOT !in numbers {
      SplitWhole(numbers, DOT);
    }
    assert (user + [DOT] + numbers)[|user|] == DOT;
    hide Split;
  }

  /** A number that does not read is refused, before and behind the colon. */
  lemma RefusedNumbers(user: Bytes, agent: Bytes, device: Bytes, server: Bytes)
    requires 46 !in user + agent + device && 58 !in agent + device
    ensures Atoi(agent).None? ==> ParseUser(user + [46] + agent, server) == Err(BadNumber)
    ensures Atoi(agent).None? || Atoi(device).None?
        ==> ParseUser(user + [46] + agent + [58] + device, server) == Err(BadNumber)
    ensures 58 !in user && Atoi(device).None? ==> ParseUser(user + [58] + device, server) == Err(BadNumber)
  {
    hide Atoi;
    assert DOT !in user && DOT !in agent && DOT !in device && COLON !in agent && COLON !in device;
    AgentAlone(user, agent, server);
    var numbers := agent + [COLON] + device;
    SplitFirst(user, DOT, numbers);
    SplitWhole(numbers, DOT);
    SplitFirst(agent, COLON, device);
    SplitWhole(device, COLON);
    assert user + [46] + agent + [58] + device == user + [DOT] + numbers;
    assert (user + [DOT] + numbers)[|user|] == DOT && (user + [COLON] + device)[|user|] == COLON;
    if COLON !in user {
      SplitFirst(user, COLON, device);
    }
    hide Split;
  }

  /** The printed forms, in plain marks. */
  lemma PrintedForms(user: Bytes, agent: byte, device: uint16, server: Bytes)
    ensures agent > 0 ==>
      JID(user, agent, device, 0, server).String() == user + [46] + Itoa(agent) + [58] + Itoa(device) + [64] + server
    ensures device > 0 ==> JID(user, 0, device, 0, server).String() == user + [58] + Itoa(device) + [64] + server
    ensures JID(user, 0, 0, 0, server).String() == if user == [] then server else user + [64] + server
  {}
}
