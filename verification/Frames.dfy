/** Length-prefixed frames over a websocket (socket/framesocket.go). */
module Frames {
  import opened ByteStrings

  const FRAME_MAX_SIZE := 0x100_0000
  const FRAME_LENGTH_SIZE := 3

  type Frame = f: Bytes | |f| < FRAME_MAX_SIZE

  function Prefix(length: nat): (p: Bytes)
    ensures |p| == FRAME_LENGTH_SIZE
  {
    [length / 0x1_0000 % 256, length / 256 % 256, length % 256]
  }

  function Framed(f: Bytes): Bytes {
    Prefix(|f|) + f
  }

  function Stream(fs: seq<Frame>): Bytes {
    if fs == [] then [] else Framed(fs[0]) + Stream(fs[1..])
  }

  lemma {:induction false} ConcatAppend(chunks: seq<Bytes>, c: Bytes)
    ensures Concat(chunks + [c]) == Concat(chunks) + c
  {
    if chunks != [] {
      ConcatAppend(chunks[1..], c);
      assert (chunks + [c])[1..] == chunks[1..] + [c];
    }
  }

  lemma {:induction false} StreamAppend(fs: seq<Frame>, f: Frame)
    ensures Stream(fs + [f]) == Stream(fs) + Framed(f)
  {
    if fs != [] {
      StreamAppend(fs[1..], f);
      assert (fs + [f])[1..] == fs[1..] + [f];
    }
  }

  lemma SentAppend(written: seq<Bytes>, header: Bytes, connHeader: Bytes, sent: seq<Frame>, f: Frame)
    requires Concat(written) + header == connHeader + Stream(sent)
    ensures Concat(written + [header + Framed(f)]) + [] == connHeader + Stream(sent + [f])
  {
    ConcatAppend(written, header + Framed(f));
    StreamAppend(sent, f);
    hide Concat, Stream, Framed;
    assert Concat(written) + (header + Framed(f)) == (connHeader + Stream(sent)) + Framed(f);
  }

  // ---- sending

  class FrameSender {
    /** Sent once, in front of the first frame. */
    var header: Bytes
    /** The messages written to the websocket. */
    var written: seq<Bytes>

    const connHeader: Bytes
    ghost var sent: seq<Frame>
    /** The write that carried the connection header failed; it is not sent again. */
    ghost var headerLost: bool

    /** The bytes written are the connection header, unless it got lost, and the frames sent so far. */
    ghost predicate Valid()
      reads this
    {
      && |written| == |sent| && ((sent == [] && !headerLost) || header == [])
      && Concat(written) + header == (if headerLost then [] else connHeader) + Stream(sent)
    }

    constructor (connHeader: Bytes)
      ensures Valid() && this.connHeader == connHeader && sent == [] && !headerLost
    {
      this.connHeader, header, written, sent, headerLost := connHeader, connHeader, [], [], false;
    }

    /** `open` says whether there is a connection, `accepted` whether it takes the message. */
    method SendFrame(data: Bytes, open: bool, accepted: bool) returns (ok: bool)
      requires Valid()
      modifies this
      ensures Valid() && sent == if ok then old(sent) + [data] else old(sent)
      ensures ok <==> open && |data| < FRAME_MAX_SIZE && accepted
      ensures written == if ok then old(written) + [old(header) + Framed(data)] else old(written)
      ensures header == if open && |data| < FRAME_MAX_SIZE then [] else old(header)
      ensures headerLost == (old(headerLost) || (open && |data| < FRAME_MAX_SIZE && !accepted && old(header) != []))
    {
      if !open || |data| >= FRAME_MAX_SIZE { return false; }
      if old(sent) == [] {
        assert written == [] && Stream(sent) == [] && Concat(written) == [];
      }
      hide Prefix, Concat, Stream, Framed;
      var wholeFrame := WholeFrame(header, data);
      header := [];
      if !accepted {
        headerLost := headerLost || old(header) != [];
        return false;
      }
      SentAppend(written, old(header), if headerLost then [] else connHeader, sent, data);
      written, sent := written + [wholeFrame[..]], sent + [data];
      return true;
    }
  }

  /** The buffer for one message: the header, the length and the data. */
  method WholeFrame(header: Bytes, data: Bytes) returns (wholeFrame: array<byte>)
    ensures fresh(wholeFrame) && wholeFrame[..] == header + Framed(data)
  {
    hide Prefix;
    var headerLength := |header|;
    wholeFrame := new byte[headerLength + FRAME_LENGTH_SIZE + |data|](i => 0);
    Copy(wholeFrame, 0, header);
    assert wholeFrame[..headerLength] == header;
    Copy(wholeFrame, headerLength, Prefix(|data|));
    assert wholeFrame[..headerLength + FRAME_LENGTH_SIZE] == header + Prefix(|data|);
    Copy(wholeFrame, headerLength + FRAME_LENGTH_SIZE, data);
    assert wholeFrame[..] == header + Prefix(|data|) + data == header + Framed(data);
  }

  /** Go's copy into a slice that starts at `at`. */
  method Copy(dst: array<byte>, at: nat, src: Bytes)
    requires at + |src| <= dst.Length
    modifies dst
    ensures dst[..] == old(dst[..])[..at] + src + old(dst[..])[at + |src|..]
  {
    for i := 0 to |src|
      invariant dst[..] == old(dst[..])[..at] + src[..i] + old(dst[..])[at + i..]
    {
      assert src[..i + 1] == src[..i] + [src[i]];
      dst[at + i] := src[i];
    }
    assert src[..|src|] == src;
  }

  // ---- receiving

  /** The socket's fields, and the frames it has delivered. */
  datatype State = State(partial: Option<Bytes>, incoming: Option<Bytes>, incomingLength: nat, receivedLength: nat,
      frames: seq<Bytes>)

  /** A partial header is one or two bytes, held only between frames. */
  predicate Sound(st: State) {
    && (st.partial.Some? ==> 0 < |st.partial.value| < FRAME_LENGTH_SIZE && st.incoming.None?)
    && (st.incoming.Some? ==> |st.incoming.value| == st.incomingLength > 0)
  }

  function LengthOf(msg: Bytes): nat
    requires |msg| >= FRAME_LENGTH_SIZE
  {
    DecodeLength(msg[0], msg[1], msg[2])
  }

  function DecodeLength(high: nat, middle: nat, low: nat): nat {
    high * 0x1_0000 + middle * 256 + low
  }

  function Delivered(st: State, frame: Bytes): State {
    State(None, None, 0, 0, st.frames + [frame])
  }

  function Zeros(n: nat): (z: Bytes)
    ensures |z| == n && forall b <- z :: b == 0
  {
    seq(n, i => 0)
  }

  /** One turn of the processing loop; None for a panic. `counted` prefix bytes go into `receivedLength`:
      all three in the source, none in the variant that counts body bytes only. */
  function Step(st: State, msg: Bytes, counted: nat): (r: Option<(State, Bytes)>)
    requires Sound(st) && msg != []
    ensures r.Some? ==>
      && Sound(r.value.0)
      && (|r.value.1| < |msg| || (r.value.1 == msg && st.incoming.Some? && r.value.0.incoming.None?))
    ensures r.Some? ==> st.frames <= r.value.0.frames
  {
    if st.incoming.None? then
      var m := if st.partial.Some? then st.partial.value + msg else msg;
      if |m| < FRAME_LENGTH_SIZE then Some((st.(partial := Some(m)), []))
      else
        var length, body := LengthOf(m), m[FRAME_LENGTH_SIZE..];
        if |body| >= length then Some((Delivered(st, body[..length]), body[length..]))
        else Some((State(None, Some(body + Zeros(length - |body|)), length, |body| + counted, st.frames), []))
    else Continued(st, msg)
  }

  /** A turn while a frame is open. */
  function Continued(st: State, msg: Bytes): Option<(State, Bytes)>
    requires Sound(st) && st.incoming.Some?
  {
    var buf, received, need := st.incoming.value, st.receivedLength, st.incomingLength - st.receivedLength;
    if received + |msg| >= st.incomingLength then
      if need < 0 then None
      else Some((Delivered(st, buf[..received] + msg[..need]), msg[need..]))
    else
      var incoming := buf[..received] + msg + buf[received + |msg|..];
      Some((st.(incoming := Some(incoming), receivedLength := received + |msg|), []))
  }

  /** The rest of a message, then the messages after it. */
  function Run(st: State, msg: Bytes, chunks: seq<Bytes>, counted: nat): (r: Option<State>)
    requires Sound(st)
    ensures r.Some? ==> st.frames <= r.value.frames && Sound(r.value)
    decreases |chunks|, |msg|, if st.incoming.Some? then 1 else 0
  {
    if msg == [] then
      if chunks == [] then Some(st) else Run(st, chunks[0], chunks[1..], counted)
    else
      match Step(st, msg, counted)
      case None => None
      case Some((st', msg')) => Run(st', msg', chunks, counted)
  }

  /** A run over several messages is a run over the first, then one over the others. */
  lemma {:induction false} RunSplits(st: State, msg: Bytes, chunks: seq<Bytes>, counted: nat)
    requires Sound(st)
    ensures Run(st, msg, chunks, counted)
         == match Run(st, msg, [], counted)
            case None => None
            case Some(st') => Run(st', [], chunks, counted)
    decreases |msg|, if st.incoming.Some? then 1 else 0
  {
    if msg != [] {
      var next := Step(st, msg, counted);
      if next.Some? {
        RunSplits(next.value.0, next.value.1, chunks, counted);
      }
    }
  }

  const START := State(None, None, 0, 0, [])

  class FrameSocket {
    var incomingLength: nat
    var receivedLength: nat
    var incoming: array?<byte>
    var partialHeader: Option<Bytes>
    /** What went down the channel. */
    var frames: seq<Bytes>

    ghost function Fields(): State
      reads this, incoming
    {
      State(partialHeader, if incoming == null then None else Some(incoming[..]),
            incomingLength, receivedLength, frames)
    }

    constructor ()
      ensures Fields() == START
    {
      incomingLength, receivedLength, incoming, partialHeader, frames := 0, 0, null, None, [];
    }

    method FrameComplete(data: Bytes)
      modifies this
      ensures Fields() == Delivered(old(Fields()), data)
    {
      incoming := null;
      partialHeader := None;
      incomingLength := 0;
      receivedLength := 0;
      frames := frames + [data];
    }

    /** The body of the loop in processData. */
    method ProcessSome(msg: Bytes) returns (r: Option<Bytes>)
      requires Sound(Fields()) && msg != []
      modifies this, incoming
      ensures match Step(old(Fields()), msg, FRAME_LENGTH_SIZE)
              case None => r.None?
              case Some((st, rest)) =>
                && r == Some(rest) && Fields() == st
                && (incoming == null || fresh(incoming) || incoming == old(incoming))
    {
      var m := msg;
      if partialHeader.Some? {
        m := partialHeader.value + msg;
        partialHeader := None;
      }
      if incoming == null {
        if |m| >= FRAME_LENGTH_SIZE {
          var length := DecodeLength(m[0], m[1], m[2]);
          incomingLength := length;
          receivedLength := |m|;
          m := m[FRAME_LENGTH_SIZE..];
          if |m| >= length {
            FrameComplete(m[..length]);
            r := Some(m[length..]);
          } else {
            incoming := new byte[length](i => 0);
            Copy(incoming, 0, m);
            assert incoming[..] == m + Zeros(length - |m|);
            r := Some([]);
          }
        } else {
          partialHeader := Some(m);
          r := Some([]);
        }
      } else {
        hide Continued;
        r := ContinueFrame(m);
      }
    }

    /** Its branch for an open frame. */
    method ContinueFrame(m: Bytes) returns (r: Option<Bytes>)
      requires Sound(Fields()) && incoming != null
      modifies this, incoming
      ensures match Continued(old(Fields()), m)
              case None => r.None?
              case Some((st, rest)) =>
                r == Some(rest) && Fields() == st && (incoming == null || incoming == old(incoming))
    {
      if receivedLength + |m| >= incomingLength {
        if receivedLength > incomingLength { return None; }
        var need := incomingLength - receivedLength;
        Copy(incoming, receivedLength, m[..need]);
        assert incoming[..] == old(incoming[..])[..receivedLength] + m[..need];
        FrameComplete(incoming[..]);
        r := Some(m[need..]);
      } else {
        Copy(incoming, receivedLength, m);
        receivedLength := receivedLength + |m|;
        r := Some([]);
      }
    }

    /** `ok == false` stands for a panic. */
    method ProcessData(msg: Bytes) returns (ok: bool)
      requires Sound(Fields())
      modifies this, incoming
      ensures match Run(old(Fields()), msg, [], FRAME_LENGTH_SIZE)
              case None => !ok
              case Some(st) =>
                && ok && Fields() == st
                && (incoming == null || fresh(incoming) || incoming == old(incoming))
    {
      var rest := msg;
      while |rest| > 0
        invariant Sound(Fields())
        invariant incoming == null || fresh(incoming) || incoming == old(incoming)
        invariant Run(Fields(), rest, [], FRAME_LENGTH_SIZE) == Run(old(Fields()), msg, [], FRAME_LENGTH_SIZE)
        decreases |rest|, if incoming == null then 0 else 1
      {
        var next := ProcessSome(rest);
        if next.None? { return false; }
        rest := next.value;
      }
      return true;
    }

    /** The messages of the websocket, one after the other. */
    method ReadPump(messages: seq<Bytes>) returns (ok: bool)
      requires Sound(Fields())
      modifies this, incoming
      ensures match Run(old(Fields()), [], messages, FRAME_LENGTH_SIZE)
              case None => !ok
              case Some(st) => ok && Fields() == st
    {
      for i := 0 to |messages|
        invariant Sound(Fields())
        invariant incoming == null || fresh(incoming) || incoming == old(incoming)
        invariant Run(Fields(), [], messages[i..], FRAME_LENGTH_SIZE)
            == Run(old(Fields()), [], messages, FRAME_LENGTH_SIZE)
      {
        RunSplits(Fields(), messages[i], messages[i + 1..], FRAME_LENGTH_SIZE);
        assert messages[i..][1..] == messages[i + 1..];
        ok := ProcessData(messages[i]);
        if !ok { return; }
      }
      return true;
    }
  }
}
