/** What goes over the wire, in plain numbers: which form the encoder picks for a length, a list, a string or an
    identifier, and what only that form can bring back. */
module WireFormat {
  import opened ByteStrings
  import opened Decimal
  import opened Jids
  import opened Tokens
  import opened Encoder
  import opened Decoder
  import opened RoundTrip

  // ---- headers

  /** A length takes two bytes below 256, four below 2^20 and five above. */
  lemma LengthForm(n: nat)
    ensures |EncByteLength(n)| == if n < 256 then 2 else if n < 0x10_0000 then 4 else 5
    ensures EncByteLength(n)[0] == if n < 256 then 252 else if n < 0x10_0000 then 253 else 254
  {}

  /** A list header takes one byte for an empty list, two below 256 and three above. */
  lemma ListForm(size: nat)
    ensures |EncListStart(size)| == if size == 0 then 1 else if size < 256 then 2 else 3
    ensures EncListStart(size)[0] == if size == 0 then 0 else if size < 256 then 248 else 249
  {}

  /** The reader takes back twenty bits at most. */
  lemma TwentyBits(b: Bytes)
    requires |b| >= 3
    ensures
      var high: nat, middle: nat, low: nat := b[0], b[1], b[2];
      var v := ParseInt20(b);
      v == Parsed(v.value, b[3..]) && v.value < 0x10_0000
      && (high < 16 ==> v.value == 0x1_0000 * high + 256 * middle + low)
      && (high >= 16 ==> v == Parsed(0x1_0000 * (high % 16) + 256 * middle + low, b[3..]))
  {}

  /** No value starts with 240 to 244, nor with a byte behind the first table. */
  lemma TagRefused(t: Tables, tag: byte, b: Bytes, asString: bool)
    requires 240 <= tag <= 244 || |t.single| <= tag < 236
    ensures ParseValue(t, [tag] + b, asString) == Fail(InvalidToken)
  {
    assert tag > 0;
  }

  // ---- strings

  /** A token takes one byte from the first table, and two only if it is not there. */
  lemma TokenForm(t: Tables, s: Bytes)
    ensures
      var single, double, e := IndexOfSingleToken(t, s), IndexOfDoubleByteToken(t, s), EncString(t, s);
      && (single.Some? ==> e == [single.value])
      && (single.None? && double.Some? ==>
            |e| == 2 && 236 <= e[0] < 240 && e[0] - 236 == double.value.dictionary && e[1] == double.value.index)
  {
    hide IndexOfSingleToken, EncPacked, EncRaw;
  }

  /** The characters 0 to 9, - and . */
  const NIBBLE_CHARS: Bytes := [48, 49, 50, 51, 52, 53, 54, 55, 56, 57, 45, 46]

  /** The characters 0 to 9 and A to F. */
  const HEX_CHARS: Bytes := [48, 49, 50, 51, 52, 53, 54, 55, 56, 57, 65, 66, 67, 68, 69, 70]

  predicate MadeOf(s: Bytes, chars: Bytes) {
    |s| <= 127 && forall c <- s :: c in chars
  }

  lemma CharSets(c: byte)
    ensures IsNibbleChar(c) <==> c in NIBBLE_CHARS
    ensures IsHexChar(c) <==> c in HEX_CHARS
  {}

  lemma PackedSize(tag: byte, s: Bytes)
    requires forall c <- s :: Packable(tag, c)
    ensures |Pack(tag, s)| == (|s| + 1) / 2
  {
    if |s| >= 2 {
      PackedSize(tag, s[2..]);
    }
  }

  /** A string that is no token takes one byte for two characters if the nibble or else the hex alphabet has them all,
      and a length and its own bytes otherwise. */
  lemma StringForm(t: Tables, s: Bytes)
    requires IndexOfSingleToken(t, s).None? && IndexOfDoubleByteToken(t, s).None?
    ensures
      var e := EncString(t, s);
      if MadeOf(s, NIBBLE_CHARS) then |e| == 2 + (|s| + 1) / 2 && e[0] == 255
      else if MadeOf(s, HEX_CHARS) then |e| == 2 + (|s| + 1) / 2 && e[0] == 251
      else e == EncByteLength(|s|) + s
  {
    hide IndexOfSingleToken, IndexOfDoubleByteToken, IsNibbleChar, IsHexChar, Pack, EncByteLength;
    forall c: byte
      ensures (IsNibbleChar(c) <==> c in NIBBLE_CHARS) && (IsHexChar(c) <==> c in HEX_CHARS)
    {
      CharSets(c);
    }
    hide NIBBLE_CHARS, HEX_CHARS;
    if ValidNibble(s) {
      PackedSize(NIBBLE_8, s);
    } else if ValidHex(s) {
      PackedSize(HEX_8, s);
    }
  }

  /** A half-byte unpacks only if the packers make it: 12, 13 and 14 are no nibbles. */
  lemma UnpackedHalves(v: byte)
    requires v < 16
    ensures UnpackNibble(v).Some? <==> v !in {12, 13, 14}
    ensures v < 12 ==> UnpackNibble(v) == Some(NIBBLE_CHARS[v]) && PackNibble(NIBBLE_CHARS[v]) == v
    ensures UnpackHex(v) == Some(HEX_CHARS[v]) && PackHex(HEX_CHARS[v]) == v
  {}

  lemma {:induction false} PairsSize(tag: byte, n: nat, b: Bytes)
    ensures
      var p := UnpackPairs(tag, n, b);
      p != Fail(Crash) && (p.Parsed? ==> |p.value| == 2 * n && n <= |b| && p.rest == b[n..])
  {
    hide UnpackByte;
    if n > 0 && |b| > 0 {
      PairsSize(tag, n - 1, b[1..]);
    }
  }

  /** The low seven bits of the first byte say how many bytes follow, the high one takes the last character off; where
      there is none, the reader crashes. */
  lemma PackedHeader(tag: byte, b: Bytes)
    requires b != []
    ensures
      var p := ParsePacked8(tag, b);
      var n: nat := if b[0] < 128 then b[0] else b[0] - 128;
      && (p.Parsed? ==> |p.value| == 2 * n - (if b[0] < 128 then 0 else 1) && n < |b| && p.rest == b[n + 1..])
      && (p == Fail(Crash) <==> b[0] == 128)
  {
    assert UnpackPairs(tag, 0, b[1..]) == Parsed([], b[1..]);
    hide UnpackPairs;
    PairsSize(tag, b[0] % 128, b[1..]);
  }

  lemma BoolTextFits(t: Tables, b: bool)
    ensures EncodableString(t, BoolText(b))
  {
    hide Compact;
    assert |BoolText(b)| <= 5;
  }

  /** Booleans are written as the words for them. */
  lemma BoolsReadBack(t: Tables, b: bool, rest: Bytes)
    ensures ParseValue(t, EncValue(t, Bool(b)) + rest, true)
         == Parsed(DStr(if b then [116, 114, 117, 101] else [102, 97, 108, 115, 101]), rest)
  {
    BoolTextFits(t, b);
    hide EncString, ParseValue, EncodableString;
    ReadEncString(t, BoolText(b), rest, true);
    assert Ascii("true") == [116, 114, 117, 101] && Ascii("false") == [102, 97, 108, 115, 101];
  }

  // ---- identifiers

  /** The agent byte that stands for a server with device addresses. */
  function AgentOf(server: Bytes): Option<byte> {
    if server == Ascii("s.whatsapp.net") then Some(0)
    else if server == Ascii("lid") then Some(1)
    else if server == Ascii("hosted") then Some(128)
    else if server == Ascii("hosted.lid") then Some(129)
    else None
  }

  lemma ServersDiffer()
    ensures |Ascii("s.whatsapp.net")| == 14 && |Ascii("lid")| == 3
    ensures |Ascii("hosted")| == 6 && |Ascii("hosted.lid")| == 10
    ensures |Ascii("msgr")| == 4 && |Ascii("interop")| == 7
  {}

  /** Addresses with a device, and all hosted ones, are written as agent, device and user; the others as user and
      server, with device and integrator numbers for the servers msgr and interop alone. */
  lemma JIDForm(t: Tables, j: JID)
    ensures
      var e, agent := EncJID(t, j), AgentOf(j.server);
      if agent.Some? && (j.device > 0 || agent.value >= 128) then
        e == [247, agent.value, j.device % 256] + EncString(t, j.user)
      else
        e != [] && e[0] == if j.server == Ascii("msgr") then 246 else if j.server == Ascii("interop") then 245 else 250
  {
    hide EncString, BigEndian, Ascii;
    ServersDiffer();
  }

  /** A user's or device's address with a device below 256 comes back whole. */
  lemma AddressReadsBack(t: Tables, j: JID, rest: Bytes, asString: bool)
    requires EncodableJID(t, j) && AgentOf(j.server).Some?
    requires j.rawAgent == 0 && j.integrator == 0 && j.device < 256
    ensures ParseValue(t, EncJID(t, j) + rest, asString) == Parsed(DJid(j), rest)
  {
    hide ParseValue, EncJID, EncodableJID, WireJID, Ascii;
    ServersDiffer();
    ReadEncJID(t, j, rest, asString);
    WireJIDExact(j);
  }

  /** What the four readers of identifiers can return at all. */
  lemma ParsedJIDs(t: Tables, b: Bytes)
    ensures var p := ParseFBJID(t, b); p.Parsed? ==>
      p.value.DJid? && p.value.j == JID(p.value.j.user, 0, p.value.j.device, 0, Ascii("msgr"))
    ensures var p := ParseInteropJID(t, b); p.Parsed? ==>
      p.value.DJid? && p.value.j.rawAgent == 0 && p.value.j.server == Ascii("interop")
    ensures var p := ParseJIDPair(t, b); p.Parsed? ==>
      p.value.DJid? && p.value.j == JID(p.value.j.user, 0, 0, 0, p.value.j.server)
    ensures var p := ParseADJID(t, b); p.Parsed? ==>
      && p.value.DJid? && p.value.j.device == b[1] && p.value.j.integrator == 0
      && if b[0] in {0, 1, 128, 129} then AgentOf(p.value.j.server) == Some(b[0]) && p.value.j.rawAgent == 0
         else p.value.j.server == [] && p.value.j.rawAgent == b[0]
  {
    hide ParseValue, ParseIntN, Ascii;
    ServersDiffer();
  }

  // ---- what can be written at all

  /** A token, or shorter than 2^31 - 1. */
  predicate TextFits(t: Tables, s: Bytes) {
    |s| < 0x7FFF_FFFF || IndexOfSingleToken(t, s).Some? || IndexOfDoubleByteToken(t, s).Some?
  }

  lemma TextFitsExactly(t: Tables, s: Bytes)
    ensures EncodableString(t, s) <==> TextFits(t, s)
  {
    hide IndexOfSingleToken, IndexOfDoubleByteToken;
  }

  lemma {:induction false} AttributesFit(t: Tables, attrs: seq<Attr>)
    ensures EncodableAttributes(t, attrs)
       <==> forall a <- attrs ::
              a.value == Nil || a.value == Str([]) || (TextFits(t, a.key) && EncodableValue(t, a.value))
  {
    hide EncodableValue, EncodableString, TextFits;
    if attrs != [] {
      TextFitsExactly(t, attrs[0].key);
      AttributesFit(t, attrs[1..]);
      assert attrs == [attrs[0]] + attrs[1..];
    }
  }

  lemma {:induction false} NodesFit(t: Tables, ns: seq<Node>)
    ensures EncodableNodes(t, ns) <==> forall n <- ns :: EncodableNode(t, n)
  {
    hide EncodableString, Ascii;
    if ns != [] {
      NodesFit(t, ns[1..]);
      if !EncodableNode(t, ns[0]) {
        assert ns[0] in ns;
      } else {
        assert forall n :: n in ns <==> n == ns[0] || n in ns[1..];
      }
    }
  }

  /** A node can be written exactly if its tag is 0, or its tag, the keys and values of all attributes that are not left
      out, and its content can. */
  lemma NodeWritable(t: Tables, n: Node)
    ensures EncodableNode(t, n)
       <==> n.tag == [48]
            || (TextFits(t, n.tag) && EncodableValue(t, n.content)
                && forall a <- n.attrs ::
                     a.value == Nil || a.value == Str([]) || (TextFits(t, a.key) && EncodableValue(t, a.value)))
  {
    hide EncodableValue, EncodableString, TextFits, EncodableAttributes;
    TextFitsExactly(t, n.tag);
    AttributesFit(t, n.attrs);
  }

  /** No text or byte slice may be too long, and no value of an unsupported type, at any depth. */
  lemma ValueWritable(t: Tables, v: Value)
    ensures EncodableValue(t, v)
       <==> match v
            case Unsupported => false
            case ByteSlice(bytes) => |bytes| < 0x7FFF_FFFF
            case Str(s) => TextFits(t, s)
            case Jid(j) =>
              TextFits(t, j.user)
              && (TextFits(t, j.server)
                  || (AgentOf(j.server).Some? && (j.device > 0 || AgentOf(j.server).value >= 128)))
            case Nodes(nodes) => forall n <- nodes :: EncodableNode(t, n)
            case Int(i) => TextFits(t, Itoa(i))
            case _ => true
  {
    hide EncodableNode, EncodableString, TextFits, Ascii;
    match v {
      case Str(s) => TextFitsExactly(t, s);
      case Int(i) => TextFitsExactly(t, Itoa(i));
      case Bool(b) => BoolTextFits(t, b);
      case Nodes(nodes) => NodesFit(t, nodes);
      case Jid(j) =>
        ServersDiffer();
        TextFitsExactly(t, j.user);
        TextFitsExactly(t, j.server);
      case _ =>
    }
  }

  // ---- nodes

  /** An attribute reads back, under its own key, exactly if its value is neither nil nor the empty string. */
  lemma AttributeKeptExactly(t: Tables, n: Node, k: Bytes)
    requires DistinctKeys(n.attrs)
    ensures k in NormalForm(t, n).attrs
       <==> exists i :: 0 <= i < |n.attrs| && n.attrs[i].key == k
                        && n.attrs[i].value != Nil && n.attrs[i].value != Str([])
  {
    hide ImageValue;
    if k in NormalForm(t, n).attrs {
      ImageAttributesFrom(t, n.attrs, map[], k);
    }
    if i :| 0 <= i < |n.attrs| && n.attrs[i].key == k && n.attrs[i].value != Nil && n.attrs[i].value != Str([]) {
      NormalAttributes(t, n.attrs, i, map[]);
    }
  }

  /** A written node is accepted if nothing follows it, and refused otherwise. */
  lemma LeftoverRefused(t: Tables, n: Node, rest: Bytes)
    requires EncodableNode(t, n) && GoNode(n) && FramedNode(n) && FitsNode(n)
    ensures Unmarshalled(t, EncNode(t, n) + rest) == if rest == [] then Ok(NormalForm(t, n)) else Err(LeftoverBytes)
  {
    hide ParseNode, EncNode, EncodableNode, GoNode, FramedNode, FitsNode, ImageNode;
    NodeReadsBack(t, n, rest);
  }
}
