/** What reading makes of what was written: the normal form of a node, and exactly which nodes reach it. */
module RoundTrip {
  import opened ByteStrings
  import opened Decimal
  import opened Jids
  import opened Tokens
  import opened Encoder
  import opened Decoder

  // ---- the value read back

  /** The identifier that survives the form the encoder picks for `j`. */
  function WireJID(j: JID): JID {
    if UsesADForm(j) then JID(j.user, 0, j.device % 256, 0, j.server)
    else if j.server == MESSENGER_SERVER then JID(j.user, 0, j.device, 0, j.server)
    else if j.server == INTEROP_SERVER then JID(j.user, 0, j.device, j.integrator, j.server)
    else NewJID(j.user, j.server)
  }

  function ImageString(t: Tables, s: Bytes, asString: bool): DValue {
    if asString || Compact(t, s) then DStr(s) else DBytes(s)
  }

  /** The decoded counterpart of a value: numbers and booleans become text, an empty list becomes nil, and
      a string is told apart from bytes only where `asString` holds or it was written compactly.
      With `wire`, identifiers lose what their form cannot carry. */
  function ImageValue(t: Tables, v: Value, asString: bool, wire: bool): DValue {
    match v
    case Nil => DNil
    case Jid(j) => DJid(if wire then WireJID(j) else j)
    case Str(s) => ImageString(t, s, asString)
    case Int(i) => ImageString(t, Itoa(i), asString)
    case Bool(b) => ImageString(t, BoolText(b), asString)
    case ByteSlice(bytes) => if asString then DStr(bytes) else DBytes(bytes)
    case Nodes(nodes) => if nodes == [] then DNil else DNodes(ImageNodes(t, nodes, wire))
    case Unsupported => DNil
  }

  function ImageNode(t: Tables, n: Node, wire: bool): DNode {
    DNode(n.tag, ImageAttributes(t, n.attrs, wire, map[]), ImageValue(t, n.content, false, wire))
  }

  function ImageNodes(t: Tables, ns: seq<Node>, wire: bool): (ds: seq<DNode>)
    ensures |ds| == |ns|
  {
    if ns == [] then [] else [ImageNode(t, ns[0], wire)] + ImageNodes(t, ns[1..], wire)
  }

  function ImageAttributes(t: Tables, attrs: seq<Attr>, wire: bool, acc: map<Bytes, DValue>): map<Bytes, DValue> {
    if attrs == [] then acc
    else if Dropped(attrs[0].value) then ImageAttributes(t, attrs[1..], wire, acc)
    else
      ImageAttributes(t, attrs[1..], wire, acc[attrs[0].key := ImageValue(t, attrs[0].value, true, wire)])
  }

  function NormalForm(t: Tables, n: Node): DNode {
    ImageNode(t, n, false)
  }

  // ---- strings and bytes

  /** What the filler half-byte of an odd-length string unpacks to. */
  function Padding(tag: byte, length: nat): Bytes {
    if length % 2 == 0 then [] else if tag == NIBBLE_8 then [0] else [70]
  }

  /** Characters that can be packed under a tag; the filler is not one of them. */
  predicate AllPackable(tag: byte, s: Bytes) {
    (tag == NIBBLE_8 || tag == HEX_8) && forall c <- s :: c != 0 && Packable(tag, c)
  }

  lemma {:induction false} UnpackPack(tag: byte, s: Bytes, rest: Bytes)
    requires AllPackable(tag, s)
    ensures UnpackPairs(tag, (|s| + 1) / 2, Pack(tag, s) + rest) == Parsed(s + Padding(tag, |s|), rest)
  {
    if |s| <= 1 {
      UnpackShort(tag, s, rest);
    } else {
      hide PackBytePair, UnpackByte, Packable, AllPackable, Pack, UnpackPairs, Padding;
      var n, tail := (|s| + 1) / 2, Pack(tag, s[2..]) + rest;
      assert (|s[2..]| + 1) / 2 == n - 1;
      SamePadding(tag, |s|);
      PackFirst(tag, s);
      UnpackPack(tag, s[2..], rest);
      UnpackFirst(tag, n, s[0], s[1], tail);
      JoinFirst(s, Padding(tag, |s|));
      assert Pack(tag, s) + rest == [PackBytePair(tag, s[0], s[1])] + tail;
    }
  }

  lemma JoinFirst(s: Bytes, padding: Bytes)
    requires |s| >= 2
    ensures s + padding == [s[0], s[1]] + (s[2..] + padding)
  {}

  lemma SamePadding(tag: byte, n: nat)
    requires n >= 2
    ensures Padding(tag, n - 2) == Padding(tag, n)
  {}

  lemma UnpackShort(tag: byte, s: Bytes, rest: Bytes)
    requires AllPackable(tag, s) && |s| <= 1
    ensures UnpackPairs(tag, (|s| + 1) / 2, Pack(tag, s) + rest) == Parsed(s + Padding(tag, |s|), rest)
  {
    if s == [] {
      assert Pack(tag, s) + rest == rest;
      assert s + Padding(tag, 0) == [];
    } else {
      assert s[0] in s;
      UnpackPair(tag, s[0], 0);
      assert (Pack(tag, s) + rest)[1..] == rest;
      assert s + Padding(tag, 1) == [s[0], Padding(tag, 1)[0]] + [];
    }
  }

  lemma PackFirst(tag: byte, s: Bytes)
    requires AllPackable(tag, s) && |s| > 1
    ensures AllPackable(tag, s[2..]) && Packable(tag, s[0]) && Packable(tag, s[1])
    ensures Pack(tag, s) == [PackBytePair(tag, s[0], s[1])] + Pack(tag, s[2..])
    ensures UnpackByte(tag, PackBytePair(tag, s[0], s[1]) / 16) == Some(s[0])
    ensures UnpackByte(tag, PackBytePair(tag, s[0], s[1]) % 16) == Some(s[1])
  {
    assert s[0] in s && s[1] in s && forall c <- s[2..] :: c in s;
    UnpackPair(tag, s[0], s[1]);
  }

  lemma UnpackFirst(tag: byte, n: nat, c: byte, d: byte, tail: Bytes)
    requires n > 0 && Packable(tag, c) && Packable(tag, d)
    requires UnpackByte(tag, PackBytePair(tag, c, d) / 16) == Some(c)
        && UnpackByte(tag, PackBytePair(tag, c, d) % 16) == Some(d)
    requires UnpackPairs(tag, n - 1, tail).Parsed?
    ensures
      var p := UnpackPairs(tag, n - 1, tail);
      UnpackPairs(tag, n, [PackBytePair(tag, c, d)] + tail) == Parsed([c, d] + p.value, p.rest)
  {
    hide PackBytePair, UnpackByte;
    assert ([PackBytePair(tag, c, d)] + tail)[1..] == tail;
  }

  lemma UnpackPair(tag: byte, c: byte, d: byte)
    requires tag == NIBBLE_8 || tag == HEX_8
    requires c != 0 && Packable(tag, c) && Packable(tag, d)
    ensures
      var p := PackBytePair(tag, c, d);
      && UnpackByte(tag, p / 16) == Some(c)
      && UnpackByte(tag, p % 16) == Some(if d != 0 then d else if tag == NIBBLE_8 then 0 else 70)
  {}

  lemma ReadEncPacked(t: Tables, tag: byte, s: Bytes, rest: Bytes, asString: bool)
    requires |s| <= PACKED_MAX && AllPackable(tag, s)
    ensures ParseValue(t, EncPacked(tag, s) + rest, asString) == Parsed(DStr(s), rest)
  {
    var b := EncPacked(tag, s) + rest;
    assert b[1..][0] == PackedLength(|s|);
    assert b[1..][1..] == Pack(tag, s) + rest;
    ReadPackedPrefix(tag, s, rest, b[1..]);
    assert ParseValue(t, b, asString) == ParseLeaf(t, tag, b[1..], asString);
  }

  lemma ReadPackedPrefix(tag: byte, s: Bytes, rest: Bytes, b: Bytes)
    requires |s| <= PACKED_MAX && AllPackable(tag, s)
    requires |b| > 0 && b[0] == PackedLength(|s|) && b[1..] == Pack(tag, s) + rest
    ensures ParsePacked8(tag, b) == Parsed(s, rest)
  {
    hide Pack, UnpackPairs, AllPackable;
    UnpackPack(tag, s, rest);
    assert b[0] % 128 == (|s| + 1) / 2;
    assert (s + Padding(tag, |s|))[..|s|] == s;
    if |s| % 2 == 0 {
      assert s + Padding(tag, |s|) == s;
    }
  }

  lemma ReadRawPrefix(s: Bytes, rest: Bytes)
    ensures ParseRaw(|s|, s + rest) == Parsed(s, rest)
  {}

  lemma ReadIntNPrefix(v: nat, n: nat, rest: Bytes)
    requires v < Pow256(n)
    ensures ParseIntN(n, BigEndian(v, n) + rest) == Parsed(v, rest)
  {
    var e := BigEndian(v, n);
    BigEndianRoundTrip(v, n);
    assert (e + rest)[..n] == e && (e + rest)[n..] == rest;
  }

  lemma ReadInt20Prefix(n: nat, rest: Bytes)
    requires n < 0x10_0000
    ensures ParseInt20([n / 0x1_0000 % 16, n / 256 % 256, n % 256] + rest) == Parsed(n, rest)
  {
    var e: Bytes := [n / 0x1_0000 % 16, n / 256 % 256, n % 256];
    assert (e + rest)[3..] == rest;
  }

  lemma ReadEncRaw(t: Tables, s: Bytes, rest: Bytes, asString: bool)
    requires |s| < MAX_INT32
    ensures ParseValue(t, EncRaw(s) + rest, asString) == Parsed(if asString then DStr(s) else DBytes(s), rest)
  {
    hide BigEndian, ParseIntN, ParseInt20, ParseRaw, Pow256;
    var body := s + rest;
    var header := EncByteLength(|s|);
    var b := EncRaw(s) + rest;
    assert b[1..] == header[1..] + body;
    ReadRawPrefix(s, rest);
    WidthOf4();
    if |s| < 256 {
      OneByte(|s|);
      ReadIntNPrefix(|s|, 1, body);
    } else if |s| < 0x10_0000 {
      ReadInt20Prefix(|s|, body);
    } else {
      assert header[1..] == BigEndian(|s|, 4);
      ReadIntNPrefix(|s|, 4, body);
    }
  }

  lemma WidthOf4()
    ensures Pow256(1) == 256 && Pow256(2) == 0x1_0000 && Pow256(4) == 0x1_0000_0000
  {
    assert Pow256(3) == 0x100_0000;
  }

  lemma ReadSingleToken(t: Tables, s: Bytes, rest: Bytes, asString: bool)
    requires IndexOfSingleToken(t, s).Some?
    ensures ParseValue(t, EncString(t, s) + rest, asString) == Parsed(DStr(s), rest)
  {
    hide EncPacked, EncRaw, ParseList, ParseFBJID, ParseInteropJID, ParseJIDPair, ParseADJID, ParseSized, ParsePacked8;
    assert (EncString(t, s) + rest)[1..] == rest;
  }

  lemma ReadDoubleToken(t: Tables, s: Bytes, rest: Bytes, asString: bool)
    requires IndexOfSingleToken(t, s).None? && IndexOfDoubleByteToken(t, s).Some?
    ensures ParseValue(t, EncString(t, s) + rest, asString) == Parsed(DStr(s), rest)
  {
    hide EncPacked, EncRaw, ParseList, ParseFBJID, ParseInteropJID, ParseJIDPair, ParseADJID, ParseSized, ParsePacked8;
    assert (EncString(t, s) + rest)[1..][1..] == rest;
  }

  lemma ReadEncString(t: Tables, s: Bytes, rest: Bytes, asString: bool)
    requires EncodableString(t, s)
    ensures ParseValue(t, EncString(t, s) + rest, asString) == Parsed(ImageString(t, s, asString), rest)
  {
    hide ParseValue, EncPacked, EncRaw;
    if IndexOfSingleToken(t, s).Some? {
      ReadSingleToken(t, s, rest, asString);
    } else if IndexOfDoubleByteToken(t, s).Some? {
      ReadDoubleToken(t, s, rest, asString);
    } else if ValidNibble(s) {
      ReadEncPacked(t, NIBBLE_8, s, rest, asString);
    } else if ValidHex(s) {
      ReadEncPacked(t, HEX_8, s, rest, asString);
    } else {
      ReadEncRaw(t, s, rest, asString);
    }
  }

  // ---- identifiers

  lemma ADFormKeepsServer(j: JID)
    requires UsesADForm(j)
    ensures NewADJID(j.user, j.ActualAgent(), j.device % 256) == WireJID(j)
  {}

  lemma ReadADForm(t: Tables, j: JID, rest: Bytes)
    requires EncodableJID(t, j) && UsesADForm(j)
    ensures ParseADJID(t, EncJID(t, j)[1..] + rest) == Parsed(DJid(WireJID(j)), rest)
  {
    hide ParseValue, EncString, Ascii;
    var b := EncJID(t, j)[1..] + rest;
    assert b[2..] == EncString(t, j.user) + rest;
    ReadEncString(t, j.user, rest, true);
    ADFormKeepsServer(j);
  }

  lemma ReadFBForm(t: Tables, user: Bytes, device: uint16, rest: Bytes)
    requires EncodableString(t, user) && EncodableString(t, MESSENGER_SERVER)
    ensures
      ParseFBJID(t, EncString(t, user) + (BigEndian(device, 2) + (EncString(t, MESSENGER_SERVER) + rest)))
      == Parsed(DJid(JID(user, 0, device, 0, MESSENGER_SERVER)), rest)
  {
    hide ParseValue, EncString, ParseIntN, BigEndian, Ascii;
    var b2 := EncString(t, MESSENGER_SERVER) + rest;
    var b1 := BigEndian(device, 2) + b2;
    ReadEncString(t, user, b1, true);
    WidthOf4();
    ReadIntNPrefix(device, 2, b2);
    ReadEncString(t, MESSENGER_SERVER, rest, true);
  }

  lemma ReadInteropForm(t: Tables, user: Bytes, device: uint16, integrator: uint16, rest: Bytes)
    requires EncodableString(t, user) && EncodableString(t, INTEROP_SERVER)
    ensures
      ParseInteropJID(t, EncString(t, user)
        + (BigEndian(device, 2) + (BigEndian(integrator, 2) + (EncString(t, INTEROP_SERVER) + rest))))
      == Parsed(DJid(JID(user, 0, device, integrator, INTEROP_SERVER)), rest)
  {
    hide ParseValue, EncString, ParseIntN, BigEndian, Ascii;
    var b3 := EncString(t, INTEROP_SERVER) + rest;
    var b2 := BigEndian(integrator, 2) + b3;
    var b1 := BigEndian(device, 2) + b2;
    ReadEncString(t, user, b1, true);
    WidthOf4();
    ReadIntNPrefix(device, 2, b2);
    ReadIntNPrefix(integrator, 2, b3);
    ReadEncString(t, INTEROP_SERVER, rest, true);
  }

  lemma ReadPairForm(t: Tables, user: Bytes, server: Bytes, rest: Bytes)
    requires EncodableString(t, user) && EncodableString(t, server)
    ensures
      ParseJIDPair(t, (if |user| == 0 then [LIST_EMPTY] else EncString(t, user)) + (EncString(t, server) + rest))
      == Parsed(DJid(NewJID(user, server)), rest)
  {
    var b1 := EncString(t, server) + rest;
    if |user| == 0 {
      assert ([LIST_EMPTY] + b1)[1..] == b1;
      assert ParseValue(t, [LIST_EMPTY] + b1, true) == Parsed(DNil, b1);
    } else {
      ReadEncString(t, user, b1, true);
    }
    ReadEncString(t, server, rest, true);
  }

  lemma ReadEncJID(t: Tables, j: JID, rest: Bytes, asString: bool)
    requires EncodableJID(t, j)
    ensures ParseValue(t, EncJID(t, j) + rest, asString) == Parsed(DJid(WireJID(j)), rest)
  {
    hide EncString, EncodableString, BigEndian, ParseLeaf, ParseList, ParseADJID, ParseFBJID, ParseInteropJID;
    hide ParseJIDPair;
    var user, server := EncString(t, j.user), EncString(t, j.server);
    var device, integrator := BigEndian(j.device, 2), BigEndian(j.integrator, 2);
    var b := EncJID(t, j) + rest;
    if UsesADForm(j) {
      ReadADForm(t, j, rest);
      assert b[1..] == EncJID(t, j)[1..] + rest;
    } else if j.server == MESSENGER_SERVER {
      ReadFBForm(t, j.user, j.device, rest);
      assert b[1..] == user + (device + (server + rest));
    } else if j.server == INTEROP_SERVER {
      ReadInteropForm(t, j.user, j.device, j.integrator, rest);
      assert b[1..] == user + (device + (integrator + (server + rest)));
    } else {
      ReadPairForm(t, j.user, j.server, rest);
      assert b[1..] == (if |j.user| == 0 then [LIST_EMPTY] else user) + (server + rest);
    }
  }

  /** Exactly the identifiers whose form carries all their fields: a device below 256 where users and devices live,
      any device for msgr, device and integrator for interop, and neither for other servers. */
  predicate FitsForm(j: JID) {
    && j.rawAgent == 0
    && if j.server in [DEFAULT_USER_SERVER, HIDDEN_USER_SERVER, HOSTED_SERVER, HOSTED_LID_SERVER] then
         j.device < 256 && j.integrator == 0
       else if j.server == MESSENGER_SERVER then j.integrator == 0
       else j.server == INTEROP_SERVER || (j.device == 0 && j.integrator == 0)
  }

  lemma WireJIDExact(j: JID)
    ensures WireJID(j) == j <==> FitsForm(j)
  {
    hide Ascii;
    assert |DEFAULT_USER_SERVER| == 14 && |HIDDEN_USER_SERVER| == 3;
    assert |HOSTED_SERVER| == 6 && |HOSTED_LID_SERVER| == 10;
    assert |MESSENGER_SERVER| == 4 && |INTEROP_SERVER| == 7;
  }

  // ---- list headers

  /** The size a reader gets for a list written with `size` entries. */
  function WireSize(size: nat): nat {
    if size < 256 then size else size % 0x1_0000
  }

  lemma ReadEncListStart(size: nat, rest: Bytes)
    ensures
      var b := EncListStart(size) + rest;
      && |b| > 0 && b[0] in {LIST_EMPTY, LIST_8, LIST_16} && (b[0] == LIST_EMPTY <==> size == 0)
      && ParseListSize(b[0], b[1..]) == Parsed(WireSize(size), rest)
  {
    hide BigEndian, FromBigEndian;
    var b := EncListStart(size) + rest;
    if size == 0 {
      assert b[1..] == rest;
    } else if size < 256 {
      assert b[1..][1..] == rest && b[1..][..1] == [size];
      FromOneByte(size);
    } else {
      var e := BigEndian(size, 2);
      TwoBytes(size);
      assert b[1..] == e + rest;
      assert (e + rest)[2..] == rest && (e + rest)[..2] == e;
    }
  }

  lemma FromOneByte(v: byte)
    ensures FromBigEndian([v]) == v
  {
    assert FromBigEndian([]) == 0;
    assert [v][..0] == [];
  }

  lemma TwoBytes(v: nat)
    ensures FromBigEndian(BigEndian(v, 2)) == v % 0x1_0000
  {
    OneByte(v / 256);
    FromOneByte(v / 256 % 256);
    assert BigEndian(v, 2)[..1] == [v / 256 % 256];
  }

  // ---- nodes

  /** Tags the reader accepts, and list sizes that fit the 16-bit header, everywhere in a node. */
  predicate FramedNode(n: Node) {
    && n.tag != [] && n.tag != Ascii("0")
    && ListSize(n) < 0x1_0000
    && FramedAttributes(n.attrs)
    && FramedValue(n.content)
  }

  predicate FramedValue(v: Value) {
    v.Nodes? ==> |v.nodes| < 0x1_0000 && FramedNodes(v.nodes)
  }

  predicate FramedNodes(ns: seq<Node>) {
    ns == [] || (FramedNode(ns[0]) && FramedNodes(ns[1..]))
  }

  predicate FramedAttributes(attrs: seq<Attr>) {
    attrs == [] || (FramedValue(attrs[0].value) && FramedAttributes(attrs[1..]))
  }

  /** Reading a written value gives its wire image and leaves exactly what followed. */
  lemma {:induction false} ReadEncValue(t: Tables, v: Value, rest: Bytes, asString: bool)
    requires EncodableValue(t, v) && FramedValue(v)
    ensures ParseValue(t, EncValue(t, v) + rest, asString) == Parsed(ImageValue(t, v, asString, true), rest)
    decreases v
  {
    hide EncString, EncRaw, EncJID, EncListStart, EncodableString, EncodableJID, ParseLeaf, ParseListSize;
    hide ImageString, Itoa, BoolText;
    match v
    case Nil => ReadNil(t, rest, asString);
    case Jid(j) => ReadEncJID(t, j, rest, asString);
    case Str(s) => ReadEncString(t, s, rest, asString);
    case Int(i) => ReadEncString(t, Itoa(i), rest, asString);
    case Bool(b) => ReadEncString(t, BoolText(b), rest, asString);
    case ByteSlice(bytes) => ReadEncRaw(t, bytes, rest, asString);
    case Nodes(nodes) => ReadEncList(t, nodes, rest, asString);
    case Unsupported =>
  }

  lemma ReadEncList(t: Tables, nodes: seq<Node>, rest: Bytes, asString: bool)
    requires EncodableNodes(t, nodes) && |nodes| < 0x1_0000 && FramedNodes(nodes)
    ensures
      ParseValue(t, EncListStart(|nodes|) + EncNodes(t, nodes) + rest, asString)
      == Parsed(if nodes == [] then DNil else DNodes(ImageNodes(t, nodes, true)), rest)
    decreases nodes, 1
  {
    hide EncListStart, EncNodes, ParseListSize, ParseNodes, ParseLeaf, ImageNodes, FramedNodes, EncodableNodes;
    var body := EncNodes(t, nodes) + rest;
    var b := EncListStart(|nodes|) + body;
    assert EncListStart(|nodes|) + EncNodes(t, nodes) + rest == b;
    ReadEncListStart(|nodes|, body);
    ReadEncNodes(t, nodes, rest);
    if nodes == [] {
      NoNodes(t);
      EmptyListStart();
      assert b == [LIST_EMPTY] + rest;
      ReadNil(t, rest, asString);
    } else {
      assert b[0] == LIST_8 || b[0] == LIST_16;
    }
  }

  lemma NoNodes(t: Tables)
    ensures EncNodes(t, []) == []
  {}

  lemma ReadNil(t: Tables, rest: Bytes, asString: bool)
    ensures ParseValue(t, [LIST_EMPTY] + rest, asString) == Parsed(DNil, rest)
  {
    assert ([LIST_EMPTY] + rest)[1..] == rest;
  }

  lemma EmptyListStart()
    ensures EncListStart(0) == [LIST_EMPTY]
  {}

  lemma {:induction false} ReadEncNodes(t: Tables, ns: seq<Node>, rest: Bytes)
    requires EncodableNodes(t, ns) && FramedNodes(ns)
    ensures ParseNodes(t, |ns|, EncNodes(t, ns) + rest) == Parsed(ImageNodes(t, ns, true), rest)
    decreases ns, 0
  {
    if ns == [] {
      assert EncNodes(t, ns) + rest == rest;
    } else {
      hide EncNode, ParseNode, EncodableNode, FramedNode, ImageNode;
      var tail := EncNodes(t, ns[1..]) + rest;
      assert EncNodes(t, ns) + rest == EncNode(t, ns[0]) + tail;
      ReadEncNode(t, ns[0], tail);
      ReadEncNodes(t, ns[1..], rest);
    }
  }

  lemma {:induction false} ReadEncAttributes(t: Tables, attrs: seq<Attr>, acc: map<Bytes, DValue>, rest: Bytes)
    requires EncodableAttributes(t, attrs) && FramedAttributes(attrs)
    ensures
      ParseAttributes(t, CountAttributes(attrs), acc, EncAttributes(t, attrs) + rest)
      == Parsed(ImageAttributes(t, attrs, true, acc), rest)
    decreases attrs
  {
    hide EncString, EncodableString, ParseValue, EncValue, ImageValue, EncodableValue, FramedValue;
    if attrs == [] {
      assert EncAttributes(t, attrs) + rest == rest;
    } else if Dropped(attrs[0].value) {
      assert EncAttributes(t, attrs) == EncAttributes(t, attrs[1..]);
      ReadEncAttributes(t, attrs[1..], acc, rest);
    } else {
      var a := attrs[0];
      var image := ImageValue(t, a.value, true, true);
      var b2 := EncAttributes(t, attrs[1..]) + rest;
      var b1 := EncValue(t, a.value) + b2;
      assert EncAttributes(t, attrs) + rest == EncString(t, a.key) + b1;
      ReadEncString(t, a.key, b1, true);
      ReadEncValue(t, a.value, b2, true);
      ReadEncAttributes(t, attrs[1..], acc[a.key := image], rest);
    }
  }

  /** A node's header and tag, whatever follows. */
  lemma ReadEncHeader(t: Tables, n: Node, rest: Bytes)
    requires EncodableString(t, n.tag) && n.tag != []
    ensures
      var size := WireSize(ListSize(n));
      ParseNode(t, EncListStart(ListSize(n)) + EncString(t, n.tag) + rest)
      == if size == 0 then Fail(InvalidNode) else ParseNodeBody(t, n.tag, size, rest)
  {
    hide EncListStart, EncString, ParseListSize, ParseValue, ParseNodeBody;
    var b1 := EncString(t, n.tag) + rest;
    assert EncListStart(ListSize(n)) + EncString(t, n.tag) + rest == EncListStart(ListSize(n)) + b1;
    ReadEncListStart(ListSize(n), b1);
    ReadEncString(t, n.tag, rest, true);
  }

  lemma {:induction false} ReadEncNode(t: Tables, n: Node, rest: Bytes)
    requires EncodableNode(t, n) && FramedNode(n)
    ensures ParseNode(t, EncNode(t, n) + rest) == Parsed(ImageNode(t, n, true), rest)
    decreases n
  {
    hide EncListStart, EncString, EncValue, EncAttributes, ParseNode, ParseValue, ParseAttributes, Ascii;
    hide EncodableString, ImageAttributes,
      EncodableValue, EncodableAttributes, FramedValue, FramedAttributes, CountAttributes;
    var content := if n.content.Nil? then [] else EncValue(t, n.content);
    var b2 := content + rest;
    var b1 := EncAttributes(t, n.attrs) + b2;
    assert EncNode(t, n) + rest == EncListStart(ListSize(n)) + EncString(t, n.tag) + b1;
    ReadEncHeader(t, n, b1);
    ReadEncAttributes(t, n.attrs, map[], b2);
    assert WireSize(ListSize(n)) == ListSize(n) && (ListSize(n) - 1) / 2 == CountAttributes(n.attrs);
    if n.content.Nil? {
      assert b2 == rest;
    } else {
      ReadEncValue(t, n.content, rest, false);
    }
  }

  // ---- exactly which nodes round-trip

  predicate DistinctKeys(attrs: seq<Attr>) {
    forall i, j | 0 <= i < j < |attrs| :: attrs[i].key != attrs[j].key
  }

  /** The attribute lists are the entries of maps. */
  predicate GoNode(n: Node) {
    DistinctKeys(n.attrs) && GoAttributes(n.attrs) && GoValue(n.content)
  }

  predicate GoValue(v: Value) {
    v.Nodes? ==> GoNodes(v.nodes)
  }

  predicate GoNodes(ns: seq<Node>) {
    ns == [] || (GoNode(ns[0]) && GoNodes(ns[1..]))
  }

  predicate GoAttributes(attrs: seq<Attr>) {
    attrs == [] || (GoValue(attrs[0].value) && GoAttributes(attrs[1..]))
  }

  /** Every identifier in the node fits the form it is written in. */
  predicate FitsNode(n: Node) {
    FitsAttributes(n.attrs) && FitsValue(n.content)
  }

  predicate FitsValue(v: Value) {
    match v
    case Jid(j) => FitsForm(j)
    case Nodes(nodes) => FitsNodes(nodes)
    case _ => true
  }

  predicate FitsNodes(ns: seq<Node>) {
    ns == [] || (FitsNode(ns[0]) && FitsNodes(ns[1..]))
  }

  predicate FitsAttributes(attrs: seq<Attr>) {
    attrs == [] || (FitsValue(attrs[0].value) && FitsAttributes(attrs[1..]))
  }

  lemma {:induction false} ValueImageExact(t: Tables, v: Value, asString: bool)
    requires GoValue(v)
    ensures ImageValue(t, v, asString, true) == ImageValue(t, v, asString, false) <==> FitsValue(v)
    decreases v
  {
    match v
    case Jid(j) => WireJIDExact(j);
    case Nodes(nodes) => NodesImageExact(t, nodes);
    case _ =>
  }

  lemma {:induction false} NodeImageExact(t: Tables, n: Node)
    requires GoNode(n)
    ensures ImageNode(t, n, true) == ImageNode(t, n, false) <==> FitsNode(n)
    decreases n
  {
    hide ImageValue, ImageAttributes, GoAttributes, GoValue, FitsAttributes, FitsValue;
    ValueImageExact(t, n.content, false);
    AttributesImageExact(t, n.attrs, map[], map[]);
  }

  lemma {:induction false} NodesImageExact(t: Tables, ns: seq<Node>)
    requires GoNodes(ns)
    ensures ImageNodes(t, ns, true) == ImageNodes(t, ns, false) <==> FitsNodes(ns)
    decreases ns
  {
    if ns != [] {
      NodeImageExact(t, ns[0]);
      NodesImageExact(t, ns[1..]);
      var w, x := ImageNodes(t, ns, true), ImageNodes(t, ns, false);
      assert w[0] == ImageNode(t, ns[0], true) && w[1..] == ImageNodes(t, ns[1..], true);
      assert x[0] == ImageNode(t, ns[0], false) && x[1..] == ImageNodes(t, ns[1..], false);
    }
  }

  /** Entries read earlier under other keys stay. */
  lemma {:induction false} ImageAttributesKeeps(t: Tables, attrs: seq<Attr>, wire: bool, acc: map<Bytes, DValue>,
      k: Bytes)
    requires k in acc && forall a <- attrs :: a.key != k
    ensures var m := ImageAttributes(t, attrs, wire, acc); k in m && m[k] == acc[k]
  {
    hide ImageValue;
    if attrs != [] {
      var a := attrs[0];
      assert forall b <- attrs[1..] :: b in attrs;
      var acc' := if Dropped(a.value) then acc else acc[a.key := ImageValue(t, a.value, true, wire)];
      assert a in attrs;
      ImageAttributesKeeps(t, attrs[1..], wire, acc', k);
    }
  }

  /** Two images that agree force every attribute's images to agree, and conversely. */
  lemma {:induction false} AttributesImageExact(t: Tables, attrs: seq<Attr>, w: map<Bytes, DValue>,
      x: map<Bytes, DValue>)
    requires DistinctKeys(attrs) && GoAttributes(attrs)
    ensures ImageAttributes(t, attrs, true, w) == ImageAttributes(t, attrs, false, x) ==> FitsAttributes(attrs)
    ensures w == x && FitsAttributes(attrs) ==>
      ImageAttributes(t, attrs, true, w) == ImageAttributes(t, attrs, false, x)
    decreases attrs
  {
    hide ImageValue, FitsValue, GoValue;
    if attrs != [] {
      var a := attrs[0];
      if Dropped(a.value) {
        DroppedFits(a.value);
        AttributesImageExact(t, attrs[1..], w, x);
      } else {
        var w', x' := w[a.key := ImageValue(t, a.value, true, true)], x[a.key := ImageValue(t, a.value, true, false)];
        AttributesImageExact(t, attrs[1..], w', x');
        ValueImageExact(t, a.value, true);
        assert forall b <- attrs[1..] :: b.key != a.key;
        ImageAttributesKeeps(t, attrs[1..], true, w', a.key);
        ImageAttributesKeeps(t, attrs[1..], false, x', a.key);
      }
    }
  }

  lemma DroppedFits(v: Value)
    requires Dropped(v)
    ensures FitsValue(v)
  {}

  /** The image of a map has one entry per attribute written. */
  lemma {:induction false} ImageAttributesCount(t: Tables, attrs: seq<Attr>, wire: bool, acc: map<Bytes, DValue>)
    requires DistinctKeys(attrs) && forall a <- attrs :: a.key !in acc
    ensures |ImageAttributes(t, attrs, wire, acc)| == |acc| + CountAttributes(attrs)
  {
    hide ImageValue;
    if attrs != [] {
      var a := attrs[0];
      assert a in attrs;
      assert forall b <- attrs[1..] :: b in attrs && b.key != a.key;
      if Dropped(a.value) {
        ImageAttributesCount(t, attrs[1..], wire, acc);
      } else {
        var acc' := acc[a.key := ImageValue(t, a.value, true, wire)];
        assert acc'.Keys == acc.Keys + {a.key};
        ImageAttributesCount(t, attrs[1..], wire, acc');
      }
    }
  }

  // ---- nodes that do not fit the format

  /** What a reader can return: tags are not empty and sizes came out of 16-bit headers. */
  ghost predicate ReadableNode(d: DNode) {
    && d.tag != [] && |d.attrs| < 0x8000
    && (forall k <- d.attrs :: ReadableValue(d.attrs[k]))
    && ReadableValue(d.content)
  }

  ghost predicate ReadableValue(v: DValue) {
    v.DNodes? ==> |v.nodes| < 0x1_0000 && forall d <- v.nodes :: ReadableNode(d)
  }

  ghost predicate ReadableAttributes(attrs: map<Bytes, DValue>) {
    forall k <- attrs :: ReadableValue(attrs[k])
  }

  lemma HeaderBounds(tag: byte, b: Bytes)
    ensures ParseListSize(tag, b).Parsed? ==> ParseListSize(tag, b).value < 0x1_0000
  {
    if tag == LIST_8 && |b| >= 1 {
      FromOneByte(b[0]);
      assert b[..1] == [b[0]];
    } else if tag == LIST_16 && |b| >= 2 {
      assert b[..2] == [b[0], b[1]];
      FromOneByte(b[0]);
      assert [b[0], b[1]][..1] == [b[0]];
      var high: nat, low: nat := b[0], b[1];
      assert FromBigEndian(b[..2]) == 256 * high + low;
    }
  }

  lemma {:induction false} ParsedValueReadable(t: Tables, b: Bytes, asString: bool)
    ensures ParseValue(t, b, asString).Parsed? ==> ReadableValue(ParseValue(t, b, asString).value)
    decreases |b|, 0
  {
    hide ParseLeaf, ParseFBJID, ParseInteropJID, ParseJIDPair, ParseADJID, ParseList;
    if |b| > 0 {
      var tag, b1 := b[0], b[1..];
      if tag == LIST_8 || tag == LIST_16 {
        ParsedListReadable(t, tag, b1);
      } else {
        OthersAreNoLists(t, tag, b1, asString);
      }
    }
  }

  lemma OthersAreNoLists(t: Tables, tag: byte, b: Bytes, asString: bool)
    ensures ParseLeaf(t, tag, b, asString).Parsed? ==> !ParseLeaf(t, tag, b, asString).value.DNodes?
    ensures ParseFBJID(t, b).Parsed? ==> ParseFBJID(t, b).value.DJid?
    ensures ParseInteropJID(t, b).Parsed? ==> ParseInteropJID(t, b).value.DJid?
    ensures ParseJIDPair(t, b).Parsed? ==> ParseJIDPair(t, b).value.DJid?
    ensures ParseADJID(t, b).Parsed? ==> ParseADJID(t, b).value.DJid?
  {
    hide ParseValue, ParseIntN, ParseInt20, ParsePacked8;
  }

  lemma {:induction false} ParsedListReadable(t: Tables, tag: byte, b: Bytes)
    ensures ParseList(t, tag, b).Parsed? ==> ReadableValue(ParseList(t, tag, b).value)
    decreases |b|, 4
  {
    hide ParseListSize, ParseNodes;
    HeaderBounds(tag, b);
    match ParseListSize(tag, b)
    case Fail(_) =>
    case Parsed(size, b1) => ListSizeWithin(tag, b); ParsedNodesReadable(t, size, b1);
  }

  lemma ListSizeWithin(tag: int, b: Bytes)
    ensures Within(ParseListSize(tag, b), b)
  {}

  lemma {:induction false} ParsedNodesReadable(t: Tables, n: nat, b: Bytes)
    ensures var p := ParseNodes(t, n, b); p.Parsed? ==> forall d <- p.value :: ReadableNode(d)
    decreases |b|, 3, n
  {
    hide ParseNode, ReadableNode;
    if n > 0 && ParseNode(t, b).Parsed? {
      ParsedNodeReadable(t, b);
      ParsedNodesReadable(t, n - 1, ParseNode(t, b).rest);
    }
  }

  lemma {:induction false} ParsedNodeReadable(t: Tables, b: Bytes)
    ensures ParseNode(t, b).Parsed? ==> ReadableNode(ParseNode(t, b).value)
    decreases |b|, 2
  {
    hide ParseListSize, ParseValue, ParseNodeBody, ReadableNode;
    if ParseNode(t, b).Parsed? {
      HeaderBounds(b[0], b[1..]);
      ListSizeWithin(b[0], b[1..]);
      var size := ParseListSize(b[0], b[1..]);
      var desc := ParseValue(t, size.rest, true);
      ParsedBodyReadable(t, desc.value.s, size.value, desc.rest);
    }
  }

  lemma {:induction false} ParsedBodyReadable(t: Tables, tag: Bytes, listSize: nat, b: Bytes)
    requires 0 < listSize < 0x1_0000 && tag != []
    ensures var p := ParseNodeBody(t, tag, listSize, b); p.Parsed? ==> ReadableNode(p.value)
    decreases |b|, 2
  {
    hide ParseAttributes, ParseValue, ReadableValue;
    ParsedAttributesReadable(t, (listSize - 1) / 2, map[], b);
    match ParseAttributes(t, (listSize - 1) / 2, map[], b)
    case Fail(_) =>
    case Parsed(attrs, b1) =>
      ParsedValueReadable(t, b1, false);
      assert ReadableValue(DNil) by { NilIsReadable(); }
  }

  lemma NilIsReadable()
    ensures ReadableValue(DNil)
  {}

  lemma {:induction false} ParsedAttributesReadable(t: Tables, n: nat, attrs: map<Bytes, DValue>, b: Bytes)
    requires ReadableAttributes(attrs)
    ensures var p := ParseAttributes(t, n, attrs, b); p.Parsed? ==> ReadableAttributes(p.value)
    decreases |b|, 1, n
  {
    hide ParseValue, ReadableValue;
    var p := ParseAttributes(t, n, attrs, b);
    if n > 0 && p.Parsed? {
      var key := ParseValue(t, b, true);
      ParsedValueReadable(t, key.rest, true);
      var value := ParseValue(t, key.rest, true);
      assert p == ParseAttributes(t, n - 1, attrs[key.value.s := value.value], value.rest);
      ParsedAttributesReadable(t, n - 1, attrs[key.value.s := value.value], value.rest);
    }
  }

  /** Nodes whose normal form a reader could return. Their tag may still be "0", and their size 65536. */
  predicate NearNode(n: Node) {
    && n.tag != [] && ListSize(n) <= 0x1_0000
    && NearAttributes(n.attrs)
    && NearValue(n.content)
  }

  predicate NearValue(v: Value) {
    v.Nodes? ==> |v.nodes| < 0x1_0000 && NearNodes(v.nodes)
  }

  predicate NearNodes(ns: seq<Node>) {
    ns == [] || (NearNode(ns[0]) && NearNodes(ns[1..]))
  }

  predicate NearAttributes(attrs: seq<Attr>) {
    attrs == [] || (NearValue(attrs[0].value) && NearAttributes(attrs[1..]))
  }

  lemma {:induction false} ReadableIsNearValue(t: Tables, v: Value, asString: bool)
    requires GoValue(v) && ReadableValue(ImageValue(t, v, asString, false))
    ensures NearValue(v)
    decreases v
  {
    hide ImageNodes, NearNodes;
    if v.Nodes? && v.nodes != [] {
      assert forall d <- ImageNodes(t, v.nodes, false) :: ReadableNode(d);
      ReadableIsNearNodes(t, v.nodes);
    } else {
      NoNodesNear();
    }
  }

  lemma NoNodesNear()
    ensures NearNodes([])
  {}

  lemma {:induction false} ReadableIsNearNodes(t: Tables, ns: seq<Node>)
    requires GoNodes(ns) && forall d <- ImageNodes(t, ns, false) :: ReadableNode(d)
    ensures NearNodes(ns)
    decreases ns
  {
    hide ReadableNode, ImageNode, NearNode, GoNode;
    if ns != [] {
      var ds := ImageNodes(t, ns, false);
      assert ds[0] in ds && ds[0] == ImageNode(t, ns[0], false);
      assert ds[1..] == ImageNodes(t, ns[1..], false) && forall d <- ds[1..] :: d in ds;
      ReadableIsNear(t, ns[0]);
      ReadableIsNearNodes(t, ns[1..]);
    }
  }

  lemma {:induction false} ReadableIsNear(t: Tables, n: Node)
    requires GoNode(n) && ReadableNode(ImageNode(t, n, false))
    ensures NearNode(n)
    decreases n
  {
    hide ImageValue, ImageAttributes, ReadableValue, GoValue, GoAttributes, NearValue, NearAttributes;
    ImageAttributesCount(t, n.attrs, false, map[]);
    ReadableIsNearAttributes(t, n.attrs, map[]);
    ReadableIsNearValue(t, n.content, false);
  }

  lemma {:induction false} ReadableIsNearAttributes(t: Tables, attrs: seq<Attr>, acc: map<Bytes, DValue>)
    requires DistinctKeys(attrs) && GoAttributes(attrs)
    requires ReadableAttributes(ImageAttributes(t, attrs, false, acc))
    ensures NearAttributes(attrs)
    decreases attrs
  {
    hide ImageValue, ReadableValue, GoValue, NearValue;
    if attrs != [] {
      var a := attrs[0];
      if Dropped(a.value) {
        DroppedIsNear(a.value);
        assert ImageAttributes(t, attrs, false, acc) == ImageAttributes(t, attrs[1..], false, acc);
        ReadableIsNearAttributes(t, attrs[1..], acc);
      } else {
        NormalAttributes(t, attrs, 0, acc);
        ReadableIsNearValue(t, a.value, true);
        ReadableIsNearAttributes(t, attrs[1..], acc[a.key := ImageValue(t, a.value, true, false)]);
      }
    }
  }

  lemma DroppedIsNear(v: Value)
    requires Dropped(v)
    ensures NearValue(v) && FramedValue(v)
  {}

  /** Such a node, if it is not framed, makes the reader fail: both flaws read as a list of size zero. */
  lemma {:induction false} NearNodeFails(t: Tables, n: Node, rest: Bytes)
    requires EncodableNode(t, n) && NearNode(n) && !FramedNode(n)
    ensures ParseNode(t, EncNode(t, n) + rest).Fail?
    decreases n
  {
    hide EncListStart, EncString, EncValue, EncAttributes, ParseNode, ParseValue, ParseAttributes, Ascii;
    hide EncodableString;
    hide EncodableValue, EncodableAttributes, FramedValue, FramedAttributes, NearValue, NearAttributes, CountAttributes;
    if n.tag == Ascii("0") {
      ZeroTag(t, rest);
    } else {
      var content := if n.content.Nil? then [] else EncValue(t, n.content);
      var b2 := content + rest;
      var b1 := EncAttributes(t, n.attrs) + b2;
      assert EncNode(t, n) + rest == EncListStart(ListSize(n)) + EncString(t, n.tag) + b1;
      ReadEncHeader(t, n, b1);
      if ListSize(n) < 0x1_0000 {
        assert (ListSize(n) - 1) / 2 == CountAttributes(n.attrs);
        if !FramedAttributes(n.attrs) {
          NearAttributesFail(t, n.attrs, map[], b2);
        } else {
          ReadEncAttributes(t, n.attrs, map[], b2);
          NilIsFramed();
          NearValueFails(t, n.content, rest, false);
        }
      }
    }
  }

  lemma NilIsFramed()
    ensures FramedValue(Nil)
  {}

  lemma ZeroTag(t: Tables, rest: Bytes)
    ensures ParseNode(t, [LIST_8, LIST_EMPTY] + rest).Fail?
  {
    var b := [LIST_8, LIST_EMPTY] + rest;
    var b1 := b[1..];
    FromOneByte(0);
    assert b1[..1] == [0];
    assert ParseListSize(LIST_8, b1) == Parsed(0, b1[1..]);
  }

  lemma {:induction false} NearAttributesFail(t: Tables, attrs: seq<Attr>, acc: map<Bytes, DValue>, rest: Bytes)
    requires EncodableAttributes(t, attrs) && NearAttributes(attrs) && !FramedAttributes(attrs)
    ensures ParseAttributes(t, CountAttributes(attrs), acc, EncAttributes(t, attrs) + rest).Fail?
    decreases attrs
  {
    hide EncString, EncodableString, ParseValue, EncValue, ImageValue, EncodableValue, FramedValue, NearValue;
    var a := attrs[0];
    if Dropped(a.value) {
      DroppedIsNear(a.value);
      assert EncAttributes(t, attrs) == EncAttributes(t, attrs[1..]);
      NearAttributesFail(t, attrs[1..], acc, rest);
    } else {
      var b2 := EncAttributes(t, attrs[1..]) + rest;
      var b1 := EncValue(t, a.value) + b2;
      assert EncAttributes(t, attrs) + rest == EncString(t, a.key) + b1;
      ReadEncString(t, a.key, b1, true);
      if FramedValue(a.value) {
        ReadEncValue(t, a.value, b2, true);
        NearAttributesFail(t, attrs[1..], acc[a.key := ImageValue(t, a.value, true, true)], rest);
      } else {
        NearValueFails(t, a.value, b2, true);
      }
    }
  }

  lemma {:induction false} NearValueFails(t: Tables, v: Value, rest: Bytes, asString: bool)
    requires EncodableValue(t, v) && NearValue(v) && !FramedValue(v)
    ensures ParseValue(t, EncValue(t, v) + rest, asString).Fail?
    decreases v
  {
    hide EncListStart, EncNodes, ParseListSize, ParseLeaf, ParseNodes, FramedNodes, NearNodes, EncodableNodes;
    var body := EncNodes(t, v.nodes) + rest;
    var b := EncListStart(|v.nodes|) + body;
    assert EncValue(t, v) + rest == b;
    ReadEncListStart(|v.nodes|, body);
    NoNodesFramed();
    NearNodesFail(t, v.nodes, rest);
  }

  lemma NoNodesFramed()
    ensures FramedNodes([])
  {}

  lemma {:induction false} NearNodesFail(t: Tables, ns: seq<Node>, rest: Bytes)
    requires EncodableNodes(t, ns) && NearNodes(ns) && !FramedNodes(ns)
    ensures ParseNodes(t, |ns|, EncNodes(t, ns) + rest).Fail?
    decreases ns
  {
    hide EncNode, ParseNode, EncodableNode, FramedNode, NearNode;
    var b1 := EncNodes(t, ns[1..]) + rest;
    assert EncNodes(t, ns) + rest == EncNode(t, ns[0]) + b1;
    if FramedNode(ns[0]) {
      ReadEncNode(t, ns[0], b1);
      NearNodesFail(t, ns[1..], rest);
    } else {
      NearNodeFails(t, ns[0], b1);
    }
  }

  /** A node with a tag the reader refuses, or with an oversized list, is not read back. */
  lemma UnframedNode(t: Tables, n: Node, rest: Bytes)
    requires EncodableNode(t, n) && GoNode(n) && !FramedNode(n)
    ensures var p := ParseNode(t, EncNode(t, n) + rest); p.Parsed? ==> p.value != NormalForm(t, n)
  {
    hide ParseNode, EncNode, EncodableNode, GoNode, FramedNode, NearNode, ReadableNode, ImageNode;
    NormalFormIs(t, n);
    var p := ParseNode(t, EncNode(t, n) + rest);
    if p.Parsed? && p.value == NormalForm(t, n) {
      ParsedNodeReadable(t, EncNode(t, n) + rest);
      ReadableIsNear(t, n);
      NearNodeFails(t, n, rest);
    }
  }

  lemma NormalFormIs(t: Tables, n: Node)
    ensures NormalForm(t, n) == ImageNode(t, n, false)
  {}

  // ---- the theorems

  /** A written node, followed by anything, reads back as its normal form and leaves exactly what followed,
      if and only if every tag is acceptable, every list fits its header and every identifier fits its form. */
  lemma NodeRoundTrip(t: Tables, n: Node, rest: Bytes)
    requires EncodableNode(t, n) && GoNode(n)
    ensures ParseNode(t, EncNode(t, n) + rest) == Parsed(NormalForm(t, n), rest) <==> FramedNode(n) && FitsNode(n)
  {
    NormalFormIs(t, n);
    if FramedNode(n) {
      ReadEncNode(t, n, rest);
      NodeImageExact(t, n);
    } else {
      UnframedNode(t, n, rest);
    }
  }

  /** The sufficient half, for the corollaries below. */
  lemma NodeReadsBack(t: Tables, n: Node, rest: Bytes)
    requires EncodableNode(t, n) && GoNode(n) && FramedNode(n) && FitsNode(n)
    ensures ParseNode(t, EncNode(t, n) + rest) == Parsed(NormalForm(t, n), rest)
  {
    NormalFormIs(t, n);
    ReadEncNode(t, n, rest);
    NodeImageExact(t, n);
  }

  /** No written node is a proper prefix of another, and nodes written alike have one normal form. */
  lemma EncodingPrefixFree(t: Tables, m: Node, n: Node, r: Bytes, s: Bytes)
    requires EncodableNode(t, m) && GoNode(m) && FramedNode(m) && FitsNode(m)
    requires EncodableNode(t, n) && GoNode(n) && FramedNode(n) && FitsNode(n)
    requires EncNode(t, m) + r == EncNode(t, n) + s
    ensures NormalForm(t, m) == NormalForm(t, n) && r == s
  {
    NodeReadsBack(t, m, r);
    NodeReadsBack(t, n, s);
  }

  /** The normal form's attributes are the written ones, each under its own key, whatever the order. */
  lemma {:induction false} NormalAttributes(t: Tables, attrs: seq<Attr>, i: nat, acc: map<Bytes, DValue>)
    requires DistinctKeys(attrs) && i < |attrs| && !Dropped(attrs[i].value)
    ensures
      var m := ImageAttributes(t, attrs, false, acc);
      attrs[i].key in m && m[attrs[i].key] == ImageValue(t, attrs[i].value, true, false)
  {
    hide ImageValue;
    var a := attrs[0];
    var acc' := if Dropped(a.value) then acc else acc[a.key := ImageValue(t, a.value, true, false)];
    if i == 0 {
      ImageAttributesKeeps(t, attrs[1..], false, acc', a.key);
    } else {
      NormalAttributes(t, attrs[1..], i - 1, acc');
    }
  }

  lemma {:induction false} ImageAttributesFrom(t: Tables, attrs: seq<Attr>, acc: map<Bytes, DValue>, k: Bytes)
    requires k in ImageAttributes(t, attrs, false, acc) && k !in acc
    ensures exists i :: 0 <= i < |attrs| && attrs[i].key == k && !Dropped(attrs[i].value)
  {
    hide ImageValue;
    if attrs != [] {
      var a := attrs[0];
      if !Dropped(a.value) && a.key == k {
        assert attrs[0].key == k;
      } else {
        var acc' := if Dropped(a.value) then acc else acc[a.key := ImageValue(t, a.value, true, false)];
        ImageAttributesFrom(t, attrs[1..], acc', k);
        var j :| 0 <= j < |attrs[1..]| && attrs[1..][j].key == k && !Dropped(attrs[1..][j].value);
        assert attrs[j + 1].key == k;
      }
    }
  }

  /** The order in which the runtime ranges over the attributes does not show in what is read back. */
  lemma AttributeOrderIrrelevant(t: Tables, tag: Bytes, content: Value, some: seq<Attr>, other: seq<Attr>)
    requires DistinctKeys(some) && DistinctKeys(other) && multiset(some) == multiset(other)
    ensures NormalForm(t, Node(tag, some, content)) == NormalForm(t, Node(tag, other, content))
  {
    hide ImageValue;
    var m, n := ImageAttributes(t, some, false, map[]), ImageAttributes(t, other, false, map[]);
    forall k ensures k in m ==> k in n && n[k] == m[k] {
      if k in m { SameEntry(t, some, other, k); }
    }
    forall k ensures k in n ==> k in m && m[k] == n[k] {
      if k in n { SameEntry(t, other, some, k); }
    }
    assert m == n;
  }

  lemma SameEntry(t: Tables, some: seq<Attr>, other: seq<Attr>, k: Bytes)
    requires DistinctKeys(some) && DistinctKeys(other) && multiset(some) == multiset(other)
    requires k in ImageAttributes(t, some, false, map[])
    ensures k in ImageAttributes(t, other, false, map[])
    ensures ImageAttributes(t, other, false, map[])[k] == ImageAttributes(t, some, false, map[])[k]
  {
    hide ImageValue;
    ImageAttributesFrom(t, some, map[], k);
    var i :| 0 <= i < |some| && some[i].key == k && !Dropped(some[i].value);
    assert some[i] in multiset(other);
    var j :| 0 <= j < |other| && other[j] == some[i];
    NormalAttributes(t, some, i, map[]);
    NormalAttributes(t, other, j, map[]);
  }

  /** Writing a node, dropping the flag byte as unpacking does and reading the rest. */
  method WriteThenRead(t: Tables, n: Node) returns (r: Option<Result<DNode, Error>>)
    requires GoNode(n)
    ensures r.Some? <==> EncodableNode(t, n)
    ensures r.Some? ==> (r == Some(Ok(NormalForm(t, n))) <==> FramedNode(n) && FitsNode(n))
  {
    var packed := Marshal(t, n);
    if packed.None? { return None; }
    var unpacked := packed.value[1..];
    var node := Unmarshal(t, unpacked);
    r := Some(node);
    assert unpacked == EncNode(t, n) + [];
    NodeRoundTrip(t, n, []);
  }
}
