/** Writing nodes in the binary XML format (binary/node.go, binary/encoder.go). */
module Encoder {
  import opened ByteStrings
  import opened Decimal
  import opened Jids
  import opened Tokens

  /** What a Go interface value handed to the encoder can hold. `Int` stands for all six integer types
      and `Unsupported` for every type the encoder has no case for. */
  datatype Value =
    | Nil
    | Str(s: Bytes)
    | Int(i: int)
    | Bool(b: bool)
    | Jid(j: JID)
    | ByteSlice(bytes: Bytes)
    | Nodes(nodes: seq<Node>)
    | Unsupported

  datatype Attr = Attr(key: Bytes, value: Value)

  /** An element. `attrs` lists the entries of the attribute map in the order in which the runtime
      happens to range over it, so a statement about every Node covers every iteration order. */
  datatype Node = Node(tag: Bytes, attrs: seq<Attr>, content: Value)

  const MAX_INT32 := 0x7FFF_FFFF

  // ---- the bytes written

  function EncByteLength(length: nat): Bytes {
    if length < 256 then [BINARY_8, length]
    else if length < 0x10_0000 then
      [BINARY_20, length / 0x1_0000 % 16, length / 256 % 256, length % 256]
    else [BINARY_32] + BigEndian(length, 4)
  }

  predicate IsNibbleChar(c: byte) {
    IsDigit(c) || c == 45 || c == 46
  }

  predicate IsHexChar(c: byte) {
    IsDigit(c) || 65 <= c <= 70
  }

  predicate ValidNibble(s: Bytes) {
    |s| <= PACKED_MAX && forall c <- s :: IsNibbleChar(c)
  }

  predicate ValidHex(s: Bytes) {
    |s| <= PACKED_MAX && forall c <- s :: IsHexChar(c)
  }

  /** Whether a string is written as a token or packed, so that it reads back as a string anywhere. */
  predicate Compact(t: Tables, s: Bytes) {
    IndexOfSingleToken(t, s).Some? || IndexOfDoubleByteToken(t, s).Some? || ValidNibble(s) || ValidHex(s)
  }

  function PackNibble(c: byte): byte
    requires IsNibbleChar(c) || c == 0
  {
    if c == 45 then 10 else if c == 46 then 11 else if c == 0 then 15 else c - ZERO
  }

  function PackHex(c: byte): byte
    requires IsHexChar(c) || c == 0
  {
    if IsDigit(c) then c - ZERO else if 65 <= c <= 70 then 10 + c - 65 else 15
  }

  predicate Packable(tag: byte, c: byte) {
    c == 0 || if tag == NIBBLE_8 then IsNibbleChar(c) else IsHexChar(c)
  }

  function PackBytePair(tag: byte, c: byte, d: byte): byte
    requires Packable(tag, c) && Packable(tag, d)
  {
    if tag == NIBBLE_8 then 16 * PackNibble(c) + PackNibble(d) else 16 * PackHex(c) + PackHex(d)
  }

  function Pack(tag: byte, s: Bytes): Bytes
    requires forall c <- s :: Packable(tag, c)
  {
    if |s| == 0 then []
    else if |s| == 1 then [PackBytePair(tag, s[0], 0)]
    else [PackBytePair(tag, s[0], s[1])] + Pack(tag, s[2..])
  }

  function PackedLength(n: nat): byte
    requires n <= PACKED_MAX
  {
    (n + 1) / 2 + if n % 2 != 0 then 128 else 0
  }

  function EncPacked(tag: byte, s: Bytes): Bytes
    requires |s| <= PACKED_MAX && forall c <- s :: Packable(tag, c)
  {
    [tag, PackedLength(|s|)] + Pack(tag, s)
  }

  function EncRaw(s: Bytes): Bytes {
    EncByteLength(|s|) + s
  }

  function EncString(t: Tables, s: Bytes): Bytes {
    match IndexOfSingleToken(t, s)
    case Some(i) => [i]
    case None =>
      match IndexOfDoubleByteToken(t, s)
      case Some(d) => [(DICTIONARY_0 + d.dictionary) % 256, d.index]
      case None =>
        if ValidNibble(s) then EncPacked(NIBBLE_8, s)
        else if ValidHex(s) then EncPacked(HEX_8, s)
        else EncRaw(s)
  }

  function BoolText(b: bool): Bytes {
    if b then Ascii("true") else Ascii("false")
  }

  function EncListStart(size: nat): Bytes {
    if size == 0 then [LIST_EMPTY]
    else if size < 256 then [LIST_8, size]
    else [LIST_16] + BigEndian(size, 2)
  }

  predicate UsesADForm(j: JID) {
    || ((j.server == DEFAULT_USER_SERVER || j.server == HIDDEN_USER_SERVER) && j.device > 0)
    || j.server == HOSTED_SERVER || j.server == HOSTED_LID_SERVER
  }

  function EncJID(t: Tables, j: JID): Bytes {
    if UsesADForm(j) then
      [AD_JID, j.ActualAgent(), j.device % 256] + EncString(t, j.user)
    else if j.server == MESSENGER_SERVER then
      [FB_JID] + EncString(t, j.user) + BigEndian(j.device, 2) + EncString(t, j.server)
    else if j.server == INTEROP_SERVER then
      [INTEROP_JID] + EncString(t, j.user) + BigEndian(j.device, 2) + BigEndian(j.integrator, 2)
          + EncString(t, j.server)
    else
      [JID_PAIR] + (if |j.user| == 0 then [LIST_EMPTY] else EncString(t, j.user)) + EncString(t, j.server)
  }

  /** Attributes the encoder leaves out. */
  predicate Dropped(v: Value) {
    v.Nil? || v == Str([])
  }

  function CountAttributes(attrs: seq<Attr>): nat {
    if attrs == [] then 0
    else (if Dropped(attrs[0].value) then 0 else 1) + CountAttributes(attrs[1..])
  }

  function ListSize(n: Node): nat {
    2 * CountAttributes(n.attrs) + 1 + if n.content.Nil? then 0 else 1
  }

  function EncNode(t: Tables, n: Node): Bytes {
    if n.tag == Ascii("0") then [LIST_8, LIST_EMPTY]
    else
      EncListStart(ListSize(n)) + EncString(t, n.tag) + EncAttributes(t, n.attrs)
      + if n.content.Nil? then [] else EncValue(t, n.content)
  }

  function EncValue(t: Tables, v: Value): Bytes {
    match v
    case Nil => [LIST_EMPTY]
    case Jid(j) => EncJID(t, j)
    case Str(s) => EncString(t, s)
    case Int(i) => EncString(t, Itoa(i))
    case Bool(b) => EncString(t, BoolText(b))
    case ByteSlice(bytes) => EncRaw(bytes)
    case Nodes(nodes) => EncListStart(|nodes|) + EncNodes(t, nodes)
    case Unsupported => []
  }

  function EncNodes(t: Tables, ns: seq<Node>): Bytes {
    if ns == [] then [] else EncNode(t, ns[0]) + EncNodes(t, ns[1..])
  }

  function EncAttribute(t: Tables, a: Attr): Bytes {
    if Dropped(a.value) then [] else EncString(t, a.key) + EncValue(t, a.value)
  }

  function EncAttributes(t: Tables, attrs: seq<Attr>): Bytes {
    if attrs == [] then [] else EncAttribute(t, attrs[0]) + EncAttributes(t, attrs[1..])
  }

  // ---- when the encoder panics

  predicate EncodableString(t: Tables, s: Bytes) {
    Compact(t, s) || |s| < MAX_INT32
  }

  predicate EncodableJID(t: Tables, j: JID) {
    EncodableString(t, j.user) && (UsesADForm(j) || EncodableString(t, j.server))
  }

  predicate EncodableNode(t: Tables, n: Node) {
    n.tag == Ascii("0")
    || (EncodableString(t, n.tag) && EncodableAttributes(t, n.attrs) && EncodableValue(t, n.content))
  }

  predicate EncodableValue(t: Tables, v: Value) {
    match v
    case Nil => true
    case Jid(j) => EncodableJID(t, j)
    case Str(s) => EncodableString(t, s)
    case Int(i) => EncodableString(t, Itoa(i))
    case Bool(b) => EncodableString(t, BoolText(b))
    case ByteSlice(bytes) => |bytes| < MAX_INT32
    case Nodes(nodes) => EncodableNodes(t, nodes)
    case Unsupported => false
  }

  predicate EncodableNodes(t: Tables, ns: seq<Node>) {
    ns == [] || (EncodableNode(t, ns[0]) && EncodableNodes(t, ns[1..]))
  }

  predicate EncodableAttributes(t: Tables, attrs: seq<Attr>) {
    attrs == []
    || ((Dropped(attrs[0].value) || (EncodableString(t, attrs[0].key) && EncodableValue(t, attrs[0].value)))
        && EncodableAttributes(t, attrs[1..]))
  }

  // ---- the encoder

  /** A method that returns `ok == false` stands for one that panics; the data is then abandoned. */
  class BinaryEncoder {
    ghost const tables: Tables
    const single: map<Bytes, byte>
    const double: map<Bytes, DoubleIndex>
    var data: Bytes

    ghost predicate Valid() {
      Indexes(tables, single, double)
    }

    constructor (t: Tables)
      ensures Valid() && tables == t
      ensures data == [0]
    {
      var s, d := Init(t);
      tables, single, double, data := t, s, d, [0];
    }

    method PushByte(b: byte)
      modifies this
      ensures data == old(data) + [b]
    {
      data := data + [b];
    }

    method PushBytes(bytes: Bytes)
      modifies this
      ensures data == old(data) + bytes
    {
      data := data + bytes;
    }

    method PushIntN(value: nat, n: nat, littleEndian: bool)
      modifies this
      ensures data == old(data) + IntBytes(value, n, littleEndian)
    {
      for i := 0 to n
        invariant data == old(data) + IntBytes(value, n, littleEndian)[..i]
      {
        var curShift := if littleEndian then i else n - i - 1;
        PushByte(value / Pow256(curShift) % 256);
        IntBytesAt(value, n, littleEndian, i);
        hide Pow256, IntBytes;
        var all := IntBytes(value, n, littleEndian);
        assert all[..i + 1] == all[..i] + [all[i]];
      }
      assert IntBytes(value, n, littleEndian)[..n] == IntBytes(value, n, littleEndian);
    }

    method PushInt20(value: nat)
      modifies this
      ensures data == old(data) + [value / 0x1_0000 % 16, value / 256 % 256, value % 256]
    {
      PushBytes([value / 0x1_0000 % 16, value / 256 % 256, value % 256]);
    }

    method WriteByteLength(length: nat) returns (ok: bool)
      modifies this
      ensures ok <==> length < MAX_INT32
      ensures ok ==> data == old(data) + EncByteLength(length)
    {
      ok := true;
      if length < 256 {
        PushByte(BINARY_8);
        PushIntN(length, 1, false);
        OneByte(length);
      } else if length < 0x10_0000 {
        PushByte(BINARY_20);
        PushInt20(length);
      } else if length < MAX_INT32 {
        PushByte(BINARY_32);
        PushIntN(length, 4, false);
      } else {
        ok := false;
      }
    }

    method WriteListStart(listSize: nat)
      modifies this
      ensures data == old(data) + EncListStart(listSize)
    {
      if listSize == 0 {
        PushByte(LIST_EMPTY);
      } else if listSize < 256 {
        PushByte(LIST_8);
        PushIntN(listSize, 1, false);
        OneByte(listSize);
      } else {
        PushByte(LIST_16);
        PushIntN(listSize, 2, false);
      }
    }

    method WriteBytes(value: Bytes) returns (ok: bool)
      modifies this
      ensures ok <==> |value| < MAX_INT32
      ensures ok ==> data == old(data) + EncRaw(value)
    {
      ok := WriteByteLength(|value|);
      if ok {
        PushBytes(value);
      }
    }

    /** The panics of the source for an over-long value or an unpackable byte are ruled out by its callers. */
    method WritePackedBytes(value: Bytes, dataType: byte)
      requires |value| <= PACKED_MAX && forall c <- value :: Packable(dataType, c)
      modifies this
      ensures data == old(data) + EncPacked(dataType, value)
    {
      PushByte(dataType);
      PushByte(PackedLength(|value|));
      ghost var target := old(data) + EncPacked(dataType, value);
      var l := |value| / 2;
      for i := 0 to l
        invariant forall c <- value[2 * i..] :: Packable(dataType, c)
        invariant data + Pack(dataType, value[2 * i..]) == target
      {
        assert value[2 * i..][0] == value[2 * i] && value[2 * i..][1] == value[2 * i + 1];
        assert value[2 * i..][2..] == value[2 * (i + 1)..];
        PushByte(PackBytePair(dataType, value[2 * i], value[2 * i + 1]));
      }
      if |value| % 2 != 0 {
        assert value[2 * l..] == [value[|value| - 1]];
        PushByte(PackBytePair(dataType, value[|value| - 1], 0));
      }
    }

    method WriteString(s: Bytes) returns (ok: bool)
      requires Valid()
      modifies this
      ensures ok <==> EncodableString(tables, s)
      ensures ok ==> data == old(data) + EncString(tables, s)
    {
      ok := true;
      if s in single {
        PushByte(single[s]);
      } else if s in double {
        PushByte((DICTIONARY_0 + double[s].dictionary) % 256);
        PushByte(double[s].index);
      } else if ValidNibble(s) {
        WritePackedBytes(s, NIBBLE_8);
      } else if ValidHex(s) {
        WritePackedBytes(s, HEX_8);
      } else {
        ok := WriteBytes(s);
      }
    }

    method WriteJID(j: JID) returns (ok: bool)
      requires Valid()
      modifies this
      ensures ok <==> EncodableJID(tables, j)
      ensures ok ==> data == old(data) + EncJID(tables, j)
    {
      JIDBehind(data, tables, j);
      hide EncString, EncodableString, BigEndian, Ascii, EncJID;
      if UsesADForm(j) {
        PushByte(AD_JID);
        PushByte(j.ActualAgent());
        PushByte(j.device % 256);
        ok := WriteString(j.user);
      } else if j.server == MESSENGER_SERVER {
        PushByte(FB_JID);
        ok := WriteString(j.user);
        if !ok { return; }
        PushIntN(j.device, 2, false);
        ok := WriteString(j.server);
      } else if j.server == INTEROP_SERVER {
        PushByte(INTEROP_JID);
        ok := WriteString(j.user);
        if !ok { return; }
        PushIntN(j.device, 2, false);
        PushIntN(j.integrator, 2, false);
        ok := WriteString(j.server);
      } else {
        PushByte(JID_PAIR);
        if |j.user| == 0 {
          PushByte(LIST_EMPTY);
          EmptyIsEncodable(tables);
        } else {
          ok := WriteString(j.user);
          if !ok { return; }
        }
        ok := WriteString(j.server);
      }
    }

    method WriteNode(n: Node) returns (ok: bool)
      requires Valid()
      modifies this
      ensures ok <==> EncodableNode(tables, n)
      ensures ok ==> data == old(data) + EncNode(tables, n)
      decreases n
    {
      NodeBehind(data, tables, n);
      hide EncString, EncodableString, Ascii, EncListStart, EncNode, EncAttributes, EncValue, EncodableAttributes;
      hide EncodableValue;
      if n.tag == Ascii("0") {
        PushByte(LIST_8);
        PushByte(LIST_EMPTY);
        return true;
      }
      var hasContent := if n.content.Nil? then 0 else 1;
      var count := CountAttributesLoop(n.attrs);
      WriteListStart(2 * count + 1 + hasContent);
      ok := WriteString(n.tag);
      if !ok { return; }
      ok := WriteAttributes(n.attrs);
      if !ok { return; }
      if n.content.Nil? {
        NilIsEncodable(tables);
      } else {
        ok := Write(n.content);
      }
    }

    method Write(v: Value) returns (ok: bool)
      requires Valid()
      modifies this
      ensures ok <==> EncodableValue(tables, v)
      ensures ok ==> data == old(data) + EncValue(tables, v)
      decreases v
    {
      hide EncString, EncodableString, EncRaw, EncJID, EncodableJID, BigEndian, Ascii, Itoa, BoolText, EncListStart;
      hide Indexes;
      hide EncNodes, EncodableNodes, EncNode, EncodableNode;
      match v
      case Nil => PushByte(LIST_EMPTY); ok := true;
      case Jid(j) => ok := WriteJID(j);
      case Str(s) => ok := WriteString(s);
      case Int(i) => ok := WriteString(Itoa(i));
      case Bool(b) => ok := WriteString(BoolText(b));
      case ByteSlice(bytes) => ok := WriteBytes(bytes);
      case Nodes(nodes) =>
        ListBehind(data, tables, nodes);
        hide EncValue;
        WriteListStart(|nodes|);
        ok := WriteNodes(nodes);
      case Unsupported => ok := false;
    }

    method WriteNodes(nodes: seq<Node>) returns (ok: bool)
      requires Valid()
      modifies this
      ensures ok <==> EncodableNodes(tables, nodes)
      ensures ok ==> data == old(data) + EncNodes(tables, nodes)
      decreases nodes
    {
      hide EncString, EncodableString, EncRaw, EncJID, EncodableJID, BigEndian, Ascii, Itoa, BoolText, EncListStart;
      hide Indexes;
      for i := 0 to |nodes|
        invariant data + EncNodes(tables, nodes[i..]) == old(data) + EncNodes(tables, nodes)
        invariant EncodableNodes(tables, nodes[i..]) == EncodableNodes(tables, nodes)
      {
        NodesFrom(tables, nodes, i);
        hide EncNodes, EncodableNodes, EncNode, EncodableNode;
        ok := WriteNode(nodes[i]);
        if !ok { return; }
      }
      ok := true;
    }

    method WriteAttributes(attrs: seq<Attr>) returns (ok: bool)
      requires Valid()
      modifies this
      ensures ok <==> EncodableAttributes(tables, attrs)
      ensures ok ==> data == old(data) + EncAttributes(tables, attrs)
      decreases attrs
    {
      hide EncString, EncodableString, EncRaw, EncJID, EncodableJID, BigEndian, Ascii, Itoa, BoolText, EncListStart;
      hide Indexes;
      for i := 0 to |attrs|
        invariant data + EncAttributes(tables, attrs[i..]) == old(data) + EncAttributes(tables, attrs)
        invariant EncodableAttributes(tables, attrs[i..]) == EncodableAttributes(tables, attrs)
      {
        var a := attrs[i];
        AttributesFrom(tables, attrs, i);
        hide EncAttributes, EncodableAttributes, EncValue, EncodableValue;
        if Dropped(a.value) { continue; }
        ok := WriteString(a.key);
        if !ok { return; }
        ok := Write(a.value);
        if !ok { return; }
      }
      ok := true;
    }

    method CountAttributesLoop(attrs: seq<Attr>) returns (count: nat)
      ensures count == CountAttributes(attrs)
    {
      count := 0;
      for i := 0 to |attrs|
        invariant count + CountAttributes(attrs[i..]) == CountAttributes(attrs)
      {
        assert attrs[i..][0] == attrs[i] && attrs[i..][1..] == attrs[i + 1..];
        if Dropped(attrs[i].value) { continue; }
        count := count + 1;
      }
    }
  }

  /** An identifier behind some bytes, piece by piece. */
  lemma JIDBehind(b: Bytes, t: Tables, j: JID)
    ensures
      var user, server, device := EncString(t, j.user), EncString(t, j.server), BigEndian(j.device, 2);
      b + EncJID(t, j)
      == if UsesADForm(j) then b + [AD_JID] + [j.ActualAgent()] + [j.device % 256] + user
         else if j.server == MESSENGER_SERVER then b + [FB_JID] + user + device + server
         else if j.server == INTEROP_SERVER then b + [INTEROP_JID] + user + device + BigEndian(j.integrator, 2) + server
         else b + [JID_PAIR] + (if |j.user| == 0 then [LIST_EMPTY] else user) + server
  {
    hide EncString, BigEndian, Ascii;
  }

  lemma NodeBehind(b: Bytes, t: Tables, n: Node)
    ensures
      var header := b + EncListStart(ListSize(n)) + EncString(t, n.tag) + EncAttributes(t, n.attrs);
      b + EncNode(t, n)
      == if n.tag == Ascii("0") then b + [LIST_8] + [LIST_EMPTY]
         else if n.content.Nil? then header
         else header + EncValue(t, n.content)
  {
    hide EncString, EncListStart, EncAttributes, EncValue, Ascii, ListSize;
    var start, tag, attrs := EncListStart(ListSize(n)), EncString(t, n.tag), EncAttributes(t, n.attrs);
    assert b + (start + tag + attrs) == b + start + tag + attrs;
  }

  lemma ListBehind(b: Bytes, t: Tables, nodes: seq<Node>)
    ensures b + EncValue(t, Nodes(nodes)) == b + EncListStart(|nodes|) + EncNodes(t, nodes)
  {
    hide EncListStart, EncNodes;
  }

  lemma NilIsEncodable(t: Tables)
    ensures EncodableValue(t, Nil)
  {}

  lemma NodesFrom(t: Tables, nodes: seq<Node>, i: nat)
    requires i < |nodes|
    ensures EncNodes(t, nodes[i..]) == EncNode(t, nodes[i]) + EncNodes(t, nodes[i + 1..])
    ensures EncodableNodes(t, nodes[i..]) == (EncodableNode(t, nodes[i]) && EncodableNodes(t, nodes[i + 1..]))
  {
    hide EncNode, EncodableNode;
    assert nodes[i..][0] == nodes[i] && nodes[i..][1..] == nodes[i + 1..];
  }

  lemma AttributesFrom(t: Tables, attrs: seq<Attr>, i: nat)
    requires i < |attrs|
    ensures
      var a, kept := attrs[i], !Dropped(attrs[i].value);
      && EncAttributes(t, attrs[i..])
         == (if kept then EncString(t, a.key) + EncValue(t, a.value) else []) + EncAttributes(t, attrs[i + 1..])
      && EncodableAttributes(t, attrs[i..])
         == ((kept ==> EncodableString(t, a.key) && EncodableValue(t, a.value))
             && EncodableAttributes(t, attrs[i + 1..]))
  {
    hide EncString, EncValue, EncodableString, EncodableValue;
    assert attrs[i..][0] == attrs[i] && attrs[i..][1..] == attrs[i + 1..];
  }

  lemma OneByte(v: nat)
    ensures BigEndian(v, 1) == [v % 256]
  {
    assert BigEndian(v / 256, 0) == [];
  }

  lemma EmptyIsEncodable(t: Tables)
    ensures EncodableString(t, [])
  {}

  /** The flag byte, then the node; None for a panic. */
  method Marshal(t: Tables, n: Node) returns (r: Option<Bytes>)
    ensures r == if EncodableNode(t, n) then Some([0] + EncNode(t, n)) else None
  {
    var w := new BinaryEncoder(t);
    var ok := w.WriteNode(n);
    r := if ok then Some(w.data) else None;
  }
}
