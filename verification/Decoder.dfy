/** Reading nodes in the binary XML format (binary/node.go, binary/decoder.go). */
module Decoder {
  import opened ByteStrings
  import opened Decimal
  import opened Jids
  import opened Tokens

  datatype DValue =
    | DNil
    | DStr(s: Bytes)
    | DBytes(bytes: Bytes)
    | DJid(j: JID)
    | DNodes(nodes: seq<DNode>)

  datatype DNode = DNode(tag: Bytes, attrs: map<Bytes, DValue>, content: DValue)

  /** `Crash` stands for the run-time panics: a failed type assertion and a slice out of range. */
  datatype Error =
    | Eof
    | BadPackedNibble
    | UnknownListTag
    | TokenOutOfBounds
    | InvalidToken
    | InvalidJIDType
    | NonStringKey
    | InvalidNode
    | LeftoverBytes
    | Crash

  /** The value read and what is left of the input. */
  datatype Parse<+T> = Parsed(value: T, rest: Bytes) | Fail(error: Error)

  /** Progress: what is left is strictly shorter than the input. */
  ghost predicate Consumes<T>(p: Parse<T>, b: Bytes) {
    p.Parsed? ==> |p.rest| < |b|
  }

  ghost predicate Within<T>(p: Parse<T>, b: Bytes) {
    p.Parsed? ==> |p.rest| <= |b|
  }

  // ---- what each reader makes of the bytes in front of it

  function ParseByte(b: Bytes): Parse<byte> {
    if |b| < 1 then Fail(Eof) else Parsed(b[0], b[1..])
  }

  function ParseIntN(n: nat, b: Bytes, littleEndian: bool := false): Parse<nat> {
    if |b| < n then Fail(Eof) else Parsed(FromIntBytes(b[..n], littleEndian), b[n..])
  }

  function Int20(high: nat, middle: nat, low: nat): nat {
    high % 16 * 0x1_0000 + middle * 256 + low
  }

  function ParseInt20(b: Bytes): Parse<nat> {
    if |b| < 3 then Fail(Eof) else Parsed(Int20(b[0], b[1], b[2]), b[3..])
  }

  function ParseRaw(length: nat, b: Bytes): Parse<Bytes> {
    if |b| < length then Fail(Eof) else Parsed(b[..length], b[length..])
  }

  function UnpackNibble(v: byte): Option<byte> {
    if v < 10 then Some(48 + v)
    else if v == 10 then Some(45)
    else if v == 11 then Some(46)
    else if v == 15 then Some(0)
    else None
  }

  function UnpackHex(v: byte): Option<byte> {
    if v < 10 then Some(48 + v)
    else if v < 16 then Some(65 + v - 10)
    else None
  }

  function UnpackByte(tag: byte, v: byte): Option<byte> {
    if tag == NIBBLE_8 then UnpackNibble(v) else if tag == HEX_8 then UnpackHex(v) else None
  }

  function UnpackPairs(tag: byte, n: nat, b: Bytes): (p: Parse<Bytes>)
    ensures Within(p, b)
  {
    if n == 0 then Parsed([], b)
    else if |b| < 1 then Fail(Eof)
    else
      var lower, upper := UnpackByte(tag, b[0] / 16), UnpackByte(tag, b[0] % 16);
      if lower.None? || upper.None? then Fail(BadPackedNibble)
      else
        match UnpackPairs(tag, n - 1, b[1..])
        case Fail(e) => Fail(e)
        case Parsed(s, rest) => Parsed([lower.value, upper.value] + s, rest)
  }

  function ParsePacked8(tag: byte, b: Bytes): Parse<Bytes> {
    if |b| < 1 then Fail(Eof)
    else
      match UnpackPairs(tag, b[0] % 128, b[1..])
      case Fail(e) => Fail(e)
      case Parsed(s, rest) =>
        if b[0] < 128 then Parsed(s, rest)
        else if s == [] then Fail(Crash)
        else Parsed(s[..|s| - 1], rest)
  }

  function ParseListSize(tag: int, b: Bytes): Parse<nat> {
    if tag == LIST_EMPTY then Parsed(0, b)
    else if tag == LIST_8 then ParseIntN(1, b)
    else if tag == LIST_16 then ParseIntN(2, b)
    else Fail(UnknownListTag)
  }

  function BytesOrString(p: Parse<Bytes>, asString: bool): Parse<DValue> {
    match p
    case Fail(e) => Fail(e)
    case Parsed(s, rest) => Parsed(if asString then DStr(s) else DBytes(s), rest)
  }

  function StringOf(p: Parse<Bytes>): Parse<DValue> {
    BytesOrString(p, true)
  }

  function ParseSized(size: Parse<nat>, asString: bool): Parse<DValue> {
    match size
    case Fail(e) => Fail(e)
    case Parsed(n, rest) => BytesOrString(ParseRaw(n, rest), asString)
  }

  function ParseDoubleToken(t: Tables, dictionary: nat, b: Bytes): Parse<DValue> {
    if |b| < 1 then Fail(Eof)
    else
      match GetDoubleToken(t, dictionary, b[0])
      case None => Fail(TokenOutOfBounds)
      case Some(s) => Parsed(DStr(s), b[1..])
  }

  /** The leaf values: everything but lists and identifiers. */
  function ParseLeaf(t: Tables, tag: byte, b: Bytes, asString: bool): (p: Parse<DValue>)
    ensures Within(p, b)
  {
    if tag == LIST_EMPTY then Parsed(DNil, b)
    else if tag == BINARY_8 then ParseSized(ParseIntN(1, b), asString)
    else if tag == BINARY_20 then ParseSized(ParseInt20(b), asString)
    else if tag == BINARY_32 then ParseSized(ParseIntN(4, b), asString)
    else if DICTIONARY_0 <= tag <= DICTIONARY_3 then ParseDoubleToken(t, tag - DICTIONARY_0, b)
    else if tag == NIBBLE_8 || tag == HEX_8 then StringOf(ParsePacked8(tag, b))
    else if 1 <= tag < |t.single| then Parsed(DStr(t.single[tag]), b)
    else Fail(InvalidToken)
  }

  function ParseValue(t: Tables, b: Bytes, asString: bool): (p: Parse<DValue>)
    ensures Consumes(p, b)
    decreases |b|, 0
  {
    if |b| < 1 then Fail(Eof)
    else
      var tag, b1 := b[0], b[1..];
      if tag == LIST_8 || tag == LIST_16 then ParseList(t, tag, b1)
      else if tag == FB_JID then ParseFBJID(t, b1)
      else if tag == INTEROP_JID then ParseInteropJID(t, b1)
      else if tag == JID_PAIR then ParseJIDPair(t, b1)
      else if tag == AD_JID then ParseADJID(t, b1)
      else ParseLeaf(t, tag, b1, asString)
  }

  function ParseJIDPair(t: Tables, b: Bytes): (p: Parse<DValue>)
    ensures Within(p, b)
    decreases |b|, 1
  {
    match ParseValue(t, b, true)
    case Fail(e) => Fail(e)
    case Parsed(user, b1) =>
      match ParseValue(t, b1, true)
      case Fail(e) => Fail(e)
      case Parsed(server, b2) =>
        if server.DNil? then Fail(InvalidJIDType)
        else if !server.DStr? then Fail(Crash)
        else if user.DNil? then Parsed(DJid(NewJID([], server.s)), b2)
        else if !user.DStr? then Fail(Crash)
        else Parsed(DJid(NewJID(user.s, server.s)), b2)
  }

  function ParseInteropJID(t: Tables, b: Bytes): (p: Parse<DValue>)
    ensures Within(p, b)
    decreases |b|, 1
  {
    match ParseValue(t, b, true)
    case Fail(e) => Fail(e)
    case Parsed(user, b1) =>
      match ParseIntN(2, b1)
      case Fail(e) => Fail(e)
      case Parsed(device, b2) =>
        match ParseIntN(2, b2)
        case Fail(e) => Fail(e)
        case Parsed(integrator, b3) =>
          match ParseValue(t, b3, true)
          case Fail(e) => Fail(e)
          case Parsed(server, b4) =>
            if server != DStr(INTEROP_SERVER) then Fail(InvalidJIDType)
            else if !user.DStr? then Fail(Crash)
            else Parsed(DJid(JID(user.s, 0, device % 0x1_0000, integrator % 0x1_0000, INTEROP_SERVER)), b4)
  }

  function ParseFBJID(t: Tables, b: Bytes): (p: Parse<DValue>)
    ensures Within(p, b)
    decreases |b|, 1
  {
    match ParseValue(t, b, true)
    case Fail(e) => Fail(e)
    case Parsed(user, b1) =>
      match ParseIntN(2, b1)
      case Fail(e) => Fail(e)
      case Parsed(device, b2) =>
        match ParseValue(t, b2, true)
        case Fail(e) => Fail(e)
        case Parsed(server, b3) =>
          if server != DStr(MESSENGER_SERVER) then Fail(InvalidJIDType)
          else if !user.DStr? then Fail(Crash)
          else Parsed(DJid(JID(user.s, 0, device % 0x1_0000, 0, MESSENGER_SERVER)), b3)
  }

  function ParseADJID(t: Tables, b: Bytes): (p: Parse<DValue>)
    ensures Within(p, b)
    decreases |b|, 1
  {
    if |b| < 2 then Fail(Eof)
    else
      match ParseValue(t, b[2..], true)
      case Fail(e) => Fail(e)
      case Parsed(user, rest) =>
        if !user.DStr? then Fail(Crash) else Parsed(DJid(NewADJID(user.s, b[0], b[1])), rest)
  }

  /** `n` attributes, added to those read so far. */
  function ParseAttributes(t: Tables, n: nat, attrs: map<Bytes, DValue>, b: Bytes): (p: Parse<map<Bytes, DValue>>)
    ensures Within(p, b)
    ensures p.Parsed? ==> |p.value| <= |attrs| + n
    decreases |b|, 1, n
  {
    if n == 0 then Parsed(attrs, b)
    else
      match ParseValue(t, b, true)
      case Fail(e) => Fail(e)
      case Parsed(key, b1) =>
        if !key.DStr? then Fail(NonStringKey)
        else
          match ParseValue(t, b1, true)
          case Fail(e) => Fail(e)
          case Parsed(value, b2) => ParseAttributes(t, n - 1, attrs[key.s := value], b2)
  }

  function ParseList(t: Tables, tag: byte, b: Bytes): (p: Parse<DValue>)
    ensures Within(p, b)
    decreases |b|, 4
  {
    match ParseListSize(tag, b)
    case Fail(e) => Fail(e)
    case Parsed(size, b1) =>
      match ParseNodes(t, size, b1)
      case Fail(e) => Fail(e)
      case Parsed(nodes, b2) => Parsed(DNodes(nodes), b2)
  }

  function ParseNodes(t: Tables, n: nat, b: Bytes): (p: Parse<seq<DNode>>)
    ensures Within(p, b)
    ensures p.Parsed? ==> |p.value| == n
    decreases |b|, 3, n
  {
    if n == 0 then Parsed([], b)
    else
      match ParseNode(t, b)
      case Fail(e) => Fail(e)
      case Parsed(head, b1) =>
        match ParseNodes(t, n - 1, b1)
        case Fail(e) => Fail(e)
        case Parsed(tail, b2) => Parsed([head] + tail, b2)
  }

  function ParseNode(t: Tables, b: Bytes): (p: Parse<DNode>)
    ensures Consumes(p, b)
    decreases |b|, 2
  {
    match ParseByte(b)
    case Fail(e) => Fail(e)
    case Parsed(sizeTag, b1) =>
      match ParseListSize(sizeTag, b1)
      case Fail(e) => Fail(e)
      case Parsed(listSize, b2) =>
        match ParseValue(t, b2, true)
        case Fail(e) => Fail(e)
        case Parsed(desc, b3) =>
          if !desc.DStr? then Fail(Crash)
          else if listSize == 0 || desc.s == [] then Fail(InvalidNode)
          else ParseNodeBody(t, desc.s, listSize, b3)
  }

  function ParseNodeBody(t: Tables, tag: Bytes, listSize: nat, b: Bytes): (p: Parse<DNode>)
    requires listSize > 0
    ensures Within(p, b)
    decreases |b|, 2
  {
    match ParseAttributes(t, (listSize - 1) / 2, map[], b)
    case Fail(e) => Fail(e)
    case Parsed(attrs, b1) =>
      if listSize % 2 == 1 then Parsed(DNode(tag, attrs, DNil), b1)
      else
        match ParseValue(t, b1, false)
        case Fail(e) => Fail(e)
        case Parsed(content, b2) => Parsed(DNode(tag, attrs, content), b2)
  }

  function Unmarshalled(t: Tables, b: Bytes): Result<DNode, Error> {
    match ParseNode(t, b)
    case Fail(e) => Err(e)
    case Parsed(n, rest) => if rest != [] then Err(LeftoverBytes) else Ok(n)
  }

  /** The source or-s the shifted bytes together; their bits do not overlap, so adding them is the same. */
  method ShiftedSum(data: Bytes, index: nat, n: nat, littleEndian: bool) returns (ret: nat)
    requires index + n <= |data|
    ensures ret == FromIntBytes(data[index..index + n], littleEndian)
  {
    ret := 0;
    for i := 0 to n
      invariant ret == PartialSum(data[index..index + i], n, littleEndian)
    {
      hide PartialSum, Pow256;
      var curShift := if littleEndian then i else n - i - 1;
      assert data[index..index + i + 1] == data[index..index + i] + [data[index + i]];
      NextSum(data[index..index + i], data[index + i], n, littleEndian);
      ret := ret + data[index + i] * Pow256(curShift);
    }
    assert Pow256(0) == 1;
  }

  /** What the first bytes of `n` contribute. */
  ghost function PartialSum(b: Bytes, n: nat, littleEndian: bool): nat
    requires |b| <= n
  {
    if littleEndian then FromLittleEndian(b) else FromBigEndian(b) * Pow256(n - |b|)
  }

  lemma NextSum(b: Bytes, x: byte, n: nat, littleEndian: bool)
    requires |b| < n
    ensures PartialSum(b + [x], n, littleEndian)
         == PartialSum(b, n, littleEndian) + x * Pow256(if littleEndian then |b| else n - |b| - 1)
  {
    hide FromBigEndian, FromLittleEndian, Pow256;
    FromLittleEndianSnoc(b, x);
    AppendDigit(b, x, n - |b| - 1);
  }

  lemma AppendDigit(high: Bytes, low: byte, shift: nat)
    ensures FromBigEndian(high + [low]) * Pow256(shift) == FromBigEndian(high) * Pow256(shift + 1) + low * Pow256(shift)
  {
    var h, p := FromBigEndian(high), Pow256(shift);
    assert (high + [low])[..|high|] == high;
    assert FromBigEndian(high + [low]) == 256 * h + low;
    MulDistributes(p, 256 * h, low);
    assert p * (256 * h) == h * (256 * p);
  }

  // ---- the decoder

  /** Reads from `data` at `index`. Every method agrees with its reader above, so on every input it ends,
      keeps the index inside the data and, where the reader consumes, moves the index forward. */
  class BinaryDecoder {
    const tables: Tables
    const data: Bytes
    var index: nat

    ghost predicate Valid()
      reads this
    {
      index <= |data|
    }

    ghost function Rest(): Bytes
      requires Valid()
      reads this
    {
      data[index..]
    }

    /** `r` is what `p` says, and the index is where `p` stops. */
    ghost predicate Agrees<T(!new)>(p: Parse<T>, r: Result<T, Error>)
      reads this
    {
      Valid() && match p
      case Fail(e) => r == Err(e)
      case Parsed(v, rest) => r == Ok(v) && Rest() == rest
    }

    constructor (t: Tables, bytes: Bytes)
      ensures tables == t && data == bytes && index == 0
    {
      tables, data, index := t, bytes, 0;
    }

    method ReadByte() returns (r: Result<byte, Error>)
      requires Valid()
      modifies this
      ensures Agrees(ParseByte(old(Rest())), r)
    {
      if index + 1 > |data| { return Err(Eof); }
      r := Ok(data[index]);
      index := index + 1;
    }

    method ReadIntN(n: nat, littleEndian: bool) returns (r: Result<nat, Error>)
      requires Valid()
      modifies this
      ensures Agrees(ParseIntN(n, old(Rest()), littleEndian), r)
      ensures r.Ok? ==> index == old(index) + n
    {
      if index + n > |data| { return Err(Eof); }
      ghost var b := Rest();
      var ret := ShiftedSum(data, index, n, littleEndian);
      assert data[index..index + n] == b[..n];
      index := index + n;
      return Ok(ret);
    }

    method ReadInt20() returns (r: Result<nat, Error>)
      requires Valid()
      modifies this
      ensures Agrees(ParseInt20(old(Rest())), r)
    {
      if index + 3 > |data| { return Err(Eof); }
      r := Ok(Int20(data[index], data[index + 1], data[index + 2]));
      index := index + 3;
    }

    method ReadRaw(length: nat) returns (r: Result<Bytes, Error>)
      requires Valid()
      modifies this
      ensures Agrees(ParseRaw(length, old(Rest())), r)
    {
      if index + length > |data| { return Err(Eof); }
      r := Ok(data[index..index + length]);
      assert data[index..index + length] == Rest()[..length];
      index := index + length;
    }

    method ReadPacked8(tag: byte) returns (r: Result<Bytes, Error>)
      requires Valid()
      modifies this
      ensures Agrees(ParsePacked8(tag, old(Rest())), r)
    {
      var startByte := ReadByte();
      if startByte.Err? { return Err(startByte.error); }
      var build: Bytes := [];
      var count := startByte.value % 128;
      ghost var start := Rest();
      PrependNothing(UnpackPairs(tag, count, start));
      for i := 0 to count
        invariant Valid()
        invariant UnpackPairs(tag, count, start) == Prepend(build, UnpackPairs(tag, count - i, Rest()))
      {
        ghost var b := Rest();
        var currByte := ReadByte();
        if currByte.Err? { return Err(currByte.error); }
        var lower := UnpackByte(tag, currByte.value / 16);
        if lower.None? { return Err(BadPackedNibble); }
        var upper := UnpackByte(tag, currByte.value % 16);
        if upper.None? { return Err(BadPackedNibble); }
        PrependPair(tag, count - i, b, build, lower.value, upper.value);
        build := build + [lower.value, upper.value];
      }
      assert build + [] == build;
      if startByte.value < 128 { return Ok(build); }
      if build == [] { return Err(Crash); }
      return Ok(build[..|build| - 1]);
    }

    method ReadListSize(tag: int) returns (r: Result<nat, Error>)
      requires Valid()
      modifies this
      ensures Agrees(ParseListSize(tag, old(Rest())), r)
      ensures r.Ok? ==> index >= old(index)
    {
      if tag == LIST_EMPTY { return Ok(0); }
      else if tag == LIST_8 { r := ReadIntN(1, false); }
      else if tag == LIST_16 { r := ReadIntN(2, false); }
      else { return Err(UnknownListTag); }
    }

    method ReadBytesOrString(length: nat, asString: bool) returns (r: Result<DValue, Error>)
      requires Valid()
      modifies this
      ensures Agrees(BytesOrString(ParseRaw(length, old(Rest())), asString), r)
    {
      var bytes := ReadRaw(length);
      if bytes.Err? { return Err(bytes.error); }
      return Ok(if asString then DStr(bytes.value) else DBytes(bytes.value));
    }

    /** The cases of `Read` that read no nested value. */
    method ReadLeaf(tag: byte, asString: bool) returns (r: Result<DValue, Error>)
      requires Valid()
      modifies this
      ensures Agrees(ParseLeaf(tables, tag, old(Rest()), asString), r)
    {
      if tag == LIST_EMPTY {
        return Ok(DNil);
      } else if tag == BINARY_8 || tag == BINARY_20 || tag == BINARY_32 {
        var size: Result<nat, Error>;
        if tag == BINARY_8 { size := ReadIntN(1, false); }
        else if tag == BINARY_20 { size := ReadInt20(); }
        else { size := ReadIntN(4, false); }
        if size.Err? { return Err(size.error); }
        r := ReadBytesOrString(size.value, asString);
      } else if DICTIONARY_0 <= tag <= DICTIONARY_3 {
        var i := ReadByte();
        if i.Err? { return Err(i.error); }
        var token := GetDoubleToken(tables, tag - DICTIONARY_0, i.value);
        if token.None? { return Err(TokenOutOfBounds); }
        return Ok(DStr(token.value));
      } else if tag == NIBBLE_8 || tag == HEX_8 {
        var s := ReadPacked8(tag);
        if s.Err? { return Err(s.error); }
        return Ok(DStr(s.value));
      } else if 1 <= tag < |tables.single| {
        return Ok(DStr(tables.single[tag]));
      } else {
        return Err(InvalidToken);
      }
    }

    method Read(asString: bool) returns (r: Result<DValue, Error>)
      requires Valid()
      modifies this
      ensures Agrees(ParseValue(tables, old(Rest()), asString), r)
      ensures r.Ok? ==> index > old(index)
      decreases |data| - index, 0
    {
      hide ParseLeaf, ParseList, ParseFBJID, ParseInteropJID, ParseJIDPair, ParseADJID;
      var tag := ReadByte();
      if tag.Err? { return Err(tag.error); }
      if tag.value == LIST_8 || tag.value == LIST_16 { r := ReadList(tag.value); }
      else if tag.value == FB_JID { r := ReadFBJID(); }
      else if tag.value == INTEROP_JID { r := ReadInteropJID(); }
      else if tag.value == JID_PAIR { r := ReadJIDPair(); }
      else if tag.value == AD_JID { r := ReadADJID(); }
      else { r := ReadLeaf(tag.value, asString); }
    }

    method ReadJIDPair() returns (r: Result<DValue, Error>)
      requires Valid()
      modifies this
      ensures Agrees(ParseJIDPair(tables, old(Rest())), r)
      decreases |data| - index, 1
    {
      hide ParseValue;
      var user := Read(true);
      if user.Err? { return Err(user.error); }
      var server := Read(true);
      if server.Err? { return Err(server.error); }
      if server.value.DNil? { return Err(InvalidJIDType); }
      if !server.value.DStr? { return Err(Crash); }
      if user.value.DNil? { return Ok(DJid(NewJID([], server.value.s))); }
      if !user.value.DStr? { return Err(Crash); }
      return Ok(DJid(NewJID(user.value.s, server.value.s)));
    }

    method ReadInteropJID() returns (r: Result<DValue, Error>)
      requires Valid()
      modifies this
      ensures Agrees(ParseInteropJID(tables, old(Rest())), r)
      decreases |data| - index, 1
    {
      hide ParseValue, ParseIntN, Ascii;
      var user := Read(true);
      if user.Err? { return Err(user.error); }
      var device := ReadIntN(2, false);
      if device.Err? { return Err(device.error); }
      var integrator := ReadIntN(2, false);
      if integrator.Err? { return Err(integrator.error); }
      var server := Read(true);
      if server.Err? { return Err(server.error); }
      if server.value != DStr(INTEROP_SERVER) { return Err(InvalidJIDType); }
      if !user.value.DStr? { return Err(Crash); }
      return Ok(DJid(JID(user.value.s, 0, device.value % 0x1_0000, integrator.value % 0x1_0000, INTEROP_SERVER)));
    }

    method ReadFBJID() returns (r: Result<DValue, Error>)
      requires Valid()
      modifies this
      ensures Agrees(ParseFBJID(tables, old(Rest())), r)
      decreases |data| - index, 1
    {
      hide ParseValue, ParseIntN, Ascii;
      var user := Read(true);
      if user.Err? { return Err(user.error); }
      var device := ReadIntN(2, false);
      if device.Err? { return Err(device.error); }
      var server := Read(true);
      if server.Err? { return Err(server.error); }
      if server.value != DStr(MESSENGER_SERVER) { return Err(InvalidJIDType); }
      if !user.value.DStr? { return Err(Crash); }
      return Ok(DJid(JID(user.value.s, 0, device.value % 0x1_0000, 0, server.value.s)));
    }

    method ReadADJID() returns (r: Result<DValue, Error>)
      requires Valid()
      modifies this
      ensures Agrees(ParseADJID(tables, old(Rest())), r)
      decreases |data| - index, 1
    {
      hide ParseValue, NewADJID;
      var agent := ReadByte();
      if agent.Err? { return Err(agent.error); }
      var device := ReadByte();
      if device.Err? { return Err(device.error); }
      assert Rest() == old(Rest())[2..];
      var user := Read(true);
      if user.Err? { return Err(user.error); }
      if !user.value.DStr? { return Err(Crash); }
      return Ok(DJid(NewADJID(user.value.s, agent.value, device.value)));
    }

    method ReadAttributes(n: nat) returns (r: Result<map<Bytes, DValue>, Error>)
      requires Valid()
      modifies this
      ensures Agrees(ParseAttributes(tables, n, map[], old(Rest())), r)
      decreases |data| - index, 1
    {
      hide ParseValue;
      var attrs: map<Bytes, DValue> := map[];
      for i := 0 to n
        invariant Valid() && index >= old(index)
        invariant ParseAttributes(tables, n, map[], old(Rest())) == ParseAttributes(tables, n - i, attrs, Rest())
      {
        var key := Read(true);
        if key.Err? { return Err(key.error); }
        if !key.value.DStr? { return Err(NonStringKey); }
        var value := Read(true);
        if value.Err? { return Err(value.error); }
        attrs := attrs[key.value.s := value.value];
      }
      return Ok(attrs);
    }

    method ReadList(tag: byte) returns (r: Result<DValue, Error>)
      requires Valid()
      modifies this
      ensures Agrees(ParseList(tables, tag, old(Rest())), r)
      decreases |data| - index, 5
    {
      hide ParseNodes, ParseListSize;
      var size := ReadListSize(tag);
      if size.Err? { return Err(size.error); }
      var nodes := ReadNodes(size.value);
      if nodes.Err? { return Err(nodes.error); }
      return Ok(DNodes(nodes.value));
    }

    method ReadNodes(size: nat) returns (r: Result<seq<DNode>, Error>)
      requires Valid()
      modifies this
      ensures Agrees(ParseNodes(tables, size, old(Rest())), r)
      decreases |data| - index, 4
    {
      hide ParseNode;
      var ret: seq<DNode> := [];
      ghost var all := ParseNodes(tables, size, Rest());
      PrependNothing(all);
      for i := 0 to size
        invariant Valid() && index >= old(index)
        invariant all == Prepend(ret, ParseNodes(tables, size - i, Rest()))
      {
        PrependNode(tables, size - i, Rest(), ret);
        var n := ReadNode();
        if n.Err? { return Err(n.error); }
        ret := ret + [n.value];
      }
      assert ret + [] == ret;
      return Ok(ret);
    }

    method ReadNode() returns (r: Result<DNode, Error>)
      requires Valid()
      modifies this
      ensures Agrees(ParseNode(tables, old(Rest())), r)
      ensures r.Ok? ==> index > old(index)
      decreases |data| - index, 3
    {
      hide ParseValue, ParseListSize, ParseAttributes;
      var size := ReadByte();
      if size.Err? { return Err(size.error); }
      var listSize := ReadListSize(size.value);
      if listSize.Err? { return Err(listSize.error); }
      var rawDesc := Read(true);
      if rawDesc.Err? { return Err(rawDesc.error); }
      if !rawDesc.value.DStr? { return Err(Crash); }
      var tag := rawDesc.value.s;
      if listSize.value == 0 || tag == [] { return Err(InvalidNode); }
      var attrs := ReadAttributes((listSize.value - 1) / 2);
      if attrs.Err? { return Err(attrs.error); }
      if listSize.value % 2 == 1 { return Ok(DNode(tag, attrs.value, DNil)); }
      var content := Read(false);
      if content.Err? { return Err(content.error); }
      return Ok(DNode(tag, attrs.value, content.value));
    }
  }

  ghost function Prepend<T>(s: seq<T>, p: Parse<seq<T>>): Parse<seq<T>> {
    match p
    case Fail(e) => Fail(e)
    case Parsed(v, rest) => Parsed(s + v, rest)
  }

  lemma PrependNothing<T>(p: Parse<seq<T>>)
    ensures Prepend([], p) == p
  {
    if p.Parsed? {
      assert [] + p.value == p.value;
    }
  }

  lemma PrependPair(tag: byte, n: nat, b: Bytes, build: Bytes, lower: byte, upper: byte)
    requires n > 0 && |b| > 0
    requires UnpackByte(tag, b[0] / 16) == Some(lower) && UnpackByte(tag, b[0] % 16) == Some(upper)
    ensures Prepend(build, UnpackPairs(tag, n, b)) == Prepend(build + [lower, upper], UnpackPairs(tag, n - 1, b[1..]))
  {
    var p := UnpackPairs(tag, n - 1, b[1..]);
    if p.Parsed? {
      assert build + ([lower, upper] + p.value) == build + [lower, upper] + p.value;
    }
  }

  lemma PrependNode(t: Tables, n: nat, b: Bytes, ns: seq<DNode>)
    requires n > 0
    ensures
      Prepend(ns, ParseNodes(t, n, b))
      == match ParseNode(t, b)
         case Fail(e) => Fail(e)
         case Parsed(head, b1) => Prepend(ns + [head], ParseNodes(t, n - 1, b1))
  {
    var p := ParseNode(t, b);
    if p.Parsed? {
      var q := ParseNodes(t, n - 1, p.rest);
      if q.Parsed? {
        assert ns + ([p.value] + q.value) == ns + [p.value] + q.value;
      }
    }
  }

  method Unmarshal(t: Tables, bytes: Bytes) returns (r: Result<DNode, Error>)
    ensures r == Unmarshalled(t, bytes)
  {
    var d := new BinaryDecoder(t, bytes);
    assert d.Rest() == bytes;
    r := d.ReadNode();
    if r.Ok? && d.index != |d.data| { return Err(LeftoverBytes); }
  }
}
