/** Which cuttings of a stream of frames the receiver puts back together. */
module Reassembly {
  import opened ByteStrings
  import opened Frames

  /** Position `p` of the stream lies between two frames or inside a length prefix, not at its end. */
  predicate GoodCut(fs: seq<Frame>, p: nat) {
    p < FRAME_LENGTH_SIZE
    || (fs != [] && p >= FRAME_LENGTH_SIZE + |fs[0]| && GoodCut(fs[1..], p - FRAME_LENGTH_SIZE - |fs[0]|))
  }

  /** Where the stream is cut: after the message at hand, which starts at `at`, and after each later one. */
  predicate GoodCuts(fs: seq<Frame>, at: nat, msg: Bytes, chunks: seq<Bytes>)
    decreases |chunks|
  {
    GoodCut(fs, at + |msg|) && (chunks == [] || GoodCuts(fs, at + |msg|, chunks[0], chunks[1..]))
  }

  /** Between frames, with `p` read of the next prefix. */
  function Idle(frames: seq<Bytes>, p: Bytes): (st: State) {
    State(if p == [] then None else Some(p), None, 0, 0, frames)
  }

  ghost predicate Delivers(r: Option<State>, frames: seq<Bytes>) {
    r.Some? && r.value.frames == frames
  }

  lemma HeadOf(fs: seq<Frame>, m: Bytes, rest: Bytes)
    requires fs != [] && m + rest == Stream(fs) && |m| >= FRAME_LENGTH_SIZE
    ensures LengthOf(m) == |fs[0]|
    ensures m[FRAME_LENGTH_SIZE..] + rest == fs[0] + Stream(fs[1..])
  {
    hide Stream, Prefix, LengthOf;
    var f, later := fs[0], Stream(fs[1..]);
    StreamHead(fs);
    SplitFrame(m, rest, Prefix(|f|), f + later);
    LengthOfPrefix(m, |f|);
  }

  lemma StreamHead(fs: seq<Frame>)
    requires fs != []
    ensures Stream(fs) == Prefix(|fs[0]|) + (fs[0] + Stream(fs[1..]))
  {
    hide Prefix;
  }

  lemma LengthOfPrefix(m: Bytes, n: nat)
    requires |m| >= FRAME_LENGTH_SIZE && m[..FRAME_LENGTH_SIZE] == Prefix(n) && n < FRAME_MAX_SIZE
    ensures LengthOf(m) == n
  {
    assert m[0] == Prefix(n)[0] && m[1] == Prefix(n)[1] && m[2] == Prefix(n)[2];
  }

  lemma SplitFrame(body: Bytes, rest: Bytes, f: Bytes, later: Bytes)
    requires body + rest == f + later && |body| >= |f|
    ensures body[..|f|] == f && body[|f|..] + rest == later
  {
    assert (body + rest)[..|f|] == body[..|f|] && (f + later)[..|f|] == f;
    assert (body + rest)[|f|..] == body[|f|..] + rest && (f + later)[|f|..] == later;
  }

  lemma SplitBody(body: Bytes, rest: Bytes, f: Bytes, later: Bytes)
    requires body + rest == f + later && |body| < |f|
    ensures body == f[..|body|] && rest == f[|body|..] + later
  {
    assert (body + rest)[..|body|] == body && (f + later)[..|body|] == f[..|body|];
    assert (body + rest)[|body|..] == rest && (f + later)[|body|..] == f[|body|..] + later;
  }

  /** The tail of the cuts, seen from the next frame. */
  lemma {:induction false} CutsShift(fs: seq<Frame>, at: nat, msg: Bytes, chunks: seq<Bytes>, at': nat, msg': Bytes)
    requires fs != [] && at + |msg| == FRAME_LENGTH_SIZE + |fs[0]| + at' + |msg'|
    ensures GoodCuts(fs, at, msg, chunks) == GoodCuts(fs[1..], at', msg', chunks)
    decreases |chunks|
  {
    if chunks != [] {
      CutsShift(fs, at + |msg|, chunks[0], chunks[1..], at' + |msg'|, chunks[0]);
    }
  }

  // ---- the variant that counts body bytes only: any cutting

  /** Inside the body of `f`, with `b` bytes of it read. */
  function Waiting(frames: seq<Bytes>, f: Bytes, b: nat): State
    requires b < |f|
  {
    State(None, Some(f[..b] + Zeros(|f| - b)), |f|, b, frames)
  }

  lemma {:induction false} AnyCutIdle(frames: seq<Bytes>, fs: seq<Frame>, p: Bytes, msg: Bytes, chunks: seq<Bytes>)
    requires |p| < FRAME_LENGTH_SIZE && p + (msg + Concat(chunks)) == Stream(fs)
    ensures Run(Idle(frames, p), msg, chunks, 0) == Some(Idle(frames + fs, []))
    decreases |chunks|, |msg|, 0
  {
    hide Step, LengthOf;
    if msg == [] {
      if chunks == [] {
        assert p == Stream(fs);
        assert fs == [] && frames + fs == frames;
      } else {
        assert msg + Concat(chunks) == chunks[0] + Concat(chunks[1..]);
        AnyCutIdle(frames, fs, p, chunks[0], chunks[1..]);
      }
    } else {
      var m := p + msg;
      var rest := Concat(chunks);
      assert m + rest == p + (msg + rest) && (p == [] ==> m == msg);
      PrefixStep(frames, p, msg, 0);
      if |m| < FRAME_LENGTH_SIZE {
        assert m + ([] + rest) == Stream(fs);
        AnyCutIdle(frames, fs, m, [], chunks);
      } else {
        HeadOf(fs, m, rest);
        var f, body := fs[0], m[FRAME_LENGTH_SIZE..];
        if |body| >= |f| {
          SplitFrame(body, rest, f, Stream(fs[1..]));
          assert [] + (body[|f|..] + rest) == Stream(fs[1..]);
          AnyCutIdle(frames + [f], fs[1..], [], body[|f|..], chunks);
          assert frames + [f] + fs[1..] == frames + fs;
        } else {
          SplitBody(body, rest, f, Stream(fs[1..]));
          AnyCutWaiting(frames, fs, |body|, [], chunks);
        }
      }
    }
  }

  lemma {:induction false} AnyCutWaiting(frames: seq<Bytes>, fs: seq<Frame>, b: nat, msg: Bytes, chunks: seq<Bytes>)
    requires fs != [] && b < |fs[0]| && msg + Concat(chunks) == fs[0][b..] + Stream(fs[1..])
    ensures Run(Waiting(frames, fs[0], b), msg, chunks, 0) == Some(Idle(frames + fs, []))
    decreases |chunks|, |msg|, 1
  {
    hide Step, Waiting;
    var f, rest := fs[0], Concat(chunks);
    if msg == [] {
      assert chunks != [];
      assert msg + rest == chunks[0] + Concat(chunks[1..]);
      AnyCutWaiting(frames, fs, b, chunks[0], chunks[1..]);
    } else {
      hide Stream, Concat;
      var need := |f| - b;
      if b + |msg| >= |f| {
        SplitFrame(msg, rest, f[b..], Stream(fs[1..]));
        WaitingStep(frames, f, b, msg);
        assert [] + (msg[need..] + rest) == Stream(fs[1..]);
        AnyCutIdle(frames + [f], fs[1..], [], msg[need..], chunks);
        assert frames + [f] + fs[1..] == frames + fs;
      } else {
        SplitBody(msg, rest, f[b..], Stream(fs[1..]));
        WaitingStep(frames, f, b, msg);
        assert [] + rest == f[b + |msg|..] + Stream(fs[1..]);
        AnyCutWaiting(frames, fs, b + |msg|, [], chunks);
      }
    }
  }

  lemma WaitingStep(frames: seq<Bytes>, f: Bytes, b: nat, msg: Bytes)
    requires b < |f| && msg != []
    requires if b + |msg| >= |f| then msg[..|f| - b] == f[b..] else msg == f[b..b + |msg|]
    ensures Step(Waiting(frames, f, b), msg, 0)
         == if b + |msg| >= |f| then Some((Idle(frames + [f], []), msg[|f| - b..]))
            else Some((Waiting(frames, f, b + |msg|), []))
  {
    var buf := Waiting(frames, f, b).incoming.value;
    if b + |msg| >= |f| {
      assert buf[..b] + msg[..|f| - b] == f;
    } else {
      assert buf[..b] + msg + buf[b + |msg|..] == f[..b + |msg|] + Zeros(|f| - b - |msg|);
    }
  }

  /** Were only body bytes counted, every cutting of the stream would deliver exactly the frames sent. */
  lemma BodyCountReassembles(fs: seq<Frame>, chunks: seq<Bytes>)
    requires Concat(chunks) == Stream(fs)
    ensures Run(START, [], chunks, 0) == Some(Idle(fs, []))
  {
    assert [] + ([] + Concat(chunks)) == Stream(fs) && [] + fs == fs;
    AnyCutIdle([], fs, [], [], chunks);
  }

  // ---- the source, which counts the prefix too

  /** Inside the body of `f`: `b` bytes came with the prefix and were put in place, `k` more came later and
      were put three positions too far. */
  function Shifted(frames: seq<Bytes>, f: Bytes, b: nat, k: nat): (st: State)
    requires b < |f| && (k > 0 ==> b + FRAME_LENGTH_SIZE + k < |f|)
    ensures Sound(st)
  {
    State(None, Some(ShiftedBody(f, b, k)), |f|, b + FRAME_LENGTH_SIZE + k, frames)
  }

  function ShiftedBody(f: Bytes, b: nat, k: nat): (r: Bytes)
    requires b < |f| && (k > 0 ==> b + FRAME_LENGTH_SIZE + k < |f|)
    ensures |r| == |f|
  {
    if k == 0 then f[..b] + Zeros(|f| - b)
    else f[..b] + Zeros(FRAME_LENGTH_SIZE) + f[b..b + k] + Zeros(|f| - b - FRAME_LENGTH_SIZE - k)
  }

  /** The body delivered in the end: the bytes after the cut are pushed back by three zeros. */
  function Garbled(f: Bytes, b: nat): Bytes
    requires b + FRAME_LENGTH_SIZE <= |f|
  {
    f[..b] + Zeros(FRAME_LENGTH_SIZE) + f[b..|f| - FRAME_LENGTH_SIZE]
  }

  lemma {:induction false} GarbledIsZero(f: Bytes, b: nat, i: nat)
    requires b + FRAME_LENGTH_SIZE <= |f| && Garbled(f, b) == f && b <= i < |f|
    ensures f[i] == 0
    decreases i
  {
    if i < b + FRAME_LENGTH_SIZE {
      assert Garbled(f, b)[i] == 0;
    } else {
      assert Garbled(f, b)[i] == f[i - FRAME_LENGTH_SIZE];
      GarbledIsZero(f, b, i - FRAME_LENGTH_SIZE);
    }
  }

  /** The three bytes left over from such a body read as the prefix of an empty frame. */
  lemma LeftoverIsPrefix(f: Bytes, b: nat)
    requires b + FRAME_LENGTH_SIZE <= |f| && Garbled(f, b) == f
    ensures f[|f| - FRAME_LENGTH_SIZE..] == Framed([])
  {
    var n := |f| - FRAME_LENGTH_SIZE;
    GarbledIsZero(f, b, n);
    GarbledIsZero(f, b, n + 1);
    GarbledIsZero(f, b, n + 2);
    assert f[n..] == [f[n], f[n + 1], f[n + 2]];
  }

  /** Once frames differ from those expected they keep differing. */
  lemma MismatchStays(st: State, msg: Bytes, chunks: seq<Bytes>, expected: seq<Bytes>)
    requires Sound(st) && !(st.frames <= expected)
    ensures !Delivers(Run(st, msg, chunks, FRAME_LENGTH_SIZE), expected)
  {}

  lemma NotBegun(frames: seq<Bytes>, f: Bytes, fs: seq<Frame>)
    requires fs == [] || fs[0] != f
    ensures !(frames + [f] <= frames + fs)
  {
    assert (frames + [f])[|frames|] == f;
  }

  /** One frame behind, the receiver never catches up: the frames `gs` are preceded by one nobody sent. */
  lemma {:induction false} LagStays(frames: seq<Bytes>, gs: seq<Frame>, p: Bytes, msg: Bytes, chunks: seq<Bytes>)
    requires |p| < FRAME_LENGTH_SIZE && p + (msg + Concat(chunks)) == Framed([]) + Stream(gs)
    ensures !Delivers(Run(Idle(frames, p), msg, chunks, FRAME_LENGTH_SIZE), frames + gs)
    decreases |chunks|, |msg|, 0
  {
    var rest := Concat(chunks);
    if msg == [] {
      if chunks == [] {
        assert false;
      }
      assert msg + rest == chunks[0] + Concat(chunks[1..]);
      LagStays(frames, gs, p, chunks[0], chunks[1..]);
    } else {
      var m := p + msg;
      assert m + rest == p + (msg + rest) && (p == [] ==> m == msg);
      if |m| < FRAME_LENGTH_SIZE {
        assert m + ([] + rest) == Framed([]) + Stream(gs);
        LagStays(frames, gs, m, [], chunks);
      } else {
        assert Framed([]) + Stream(gs) == Stream([[]] + gs);
        HeadOf([[]] + gs, m, rest);
        assert ([[]] + gs)[1..] == gs;
        LagNext(frames, gs, m[FRAME_LENGTH_SIZE..], chunks);
      }
    }
  }

  /** The frame nobody sent is delivered, and the stream goes on with `gs`. */
  lemma LagNext(frames: seq<Bytes>, gs: seq<Frame>, msg: Bytes, chunks: seq<Bytes>)
    requires msg + Concat(chunks) == Stream(gs)
    ensures !Delivers(Run(Idle(frames + [[]], []), msg, chunks, FRAME_LENGTH_SIZE), frames + gs)
    decreases |chunks|, |msg|, 1
  {
    hide Run, Concat, Prefix, Delivers;
    var st := Idle(frames + [[]], []);
    if gs == [] || gs[0] != [] {
      hide Stream;
      NotBegun(frames, [], gs);
      MismatchStays(st, msg, chunks, frames + gs);
    } else {
      assert frames + gs == frames + [[]] + gs[1..];
      assert [] + (msg + Concat(chunks)) == Framed([]) + Stream(gs[1..]);
      hide Stream, Framed;
      LagStays(frames + [[]], gs[1..], [], msg, chunks);
    }
  }

  /** A body that was cut is never delivered in step with the rest. */
  lemma {:induction false} CutBodyLoses(frames: seq<Bytes>, fs: seq<Frame>, b: nat, k: nat, msg: Bytes,
      chunks: seq<Bytes>)
    requires fs != [] && b < |fs[0]| && (k > 0 ==> b + FRAME_LENGTH_SIZE + k < |fs[0]|)
    requires msg + Concat(chunks) == fs[0][b + k..] + Stream(fs[1..])
    ensures !Delivers(Run(Shifted(frames, fs[0], b, k), msg, chunks, FRAME_LENGTH_SIZE), frames + fs)
    decreases |chunks|, |msg|
  {
    hide Run, Shifted, Garbled, Stream;
    var f, rest := fs[0], Concat(chunks);
    var received := b + FRAME_LENGTH_SIZE + k;
    if msg == [] {
      assert chunks != [];
      assert msg + rest == chunks[0] + Concat(chunks[1..]);
      RunNext(Shifted(frames, f, b, k), chunks, FRAME_LENGTH_SIZE);
      CutBodyLoses(frames, fs, b, k, chunks[0], chunks[1..]);
    } else if received > |f| {
      TooFar(frames, f, b, msg);
      RunStep(Shifted(frames, f, b, k), msg, chunks, FRAME_LENGTH_SIZE);
    } else if received + |msg| >= |f| {
      CutBodyDelivered(frames, fs, b, k, msg, chunks);
    } else {
      hide Concat, Step, Delivers;
      SplitBody(msg, rest, f[b + k..], Stream(fs[1..]));
      ShiftedMore(frames, f, b, k, msg);
      RunStep(Shifted(frames, f, b, k), msg, chunks, FRAME_LENGTH_SIZE);
      assert [] + rest == f[b + k + |msg|..] + Stream(fs[1..]);
      CutBodyLoses(frames, fs, b, k + |msg|, [], chunks);
    }
  }

  lemma CutBodyDelivered(frames: seq<Bytes>, fs: seq<Frame>, b: nat, k: nat, msg: Bytes, chunks: seq<Bytes>)
    requires fs != [] && b < |fs[0]| && (k > 0 ==> b + FRAME_LENGTH_SIZE + k < |fs[0]|) && msg != []
    requires b + FRAME_LENGTH_SIZE + k <= |fs[0]| <= b + FRAME_LENGTH_SIZE + k + |msg|
    requires msg + Concat(chunks) == fs[0][b + k..] + Stream(fs[1..])
    ensures !Delivers(Run(Shifted(frames, fs[0], b, k), msg, chunks, FRAME_LENGTH_SIZE), frames + fs)
  {
    hide Run, Shifted, Garbled, Stream, Concat, Step, Delivers;
    var f, n := fs[0], |fs[0]| - FRAME_LENGTH_SIZE;
    assert f[b + k..] == f[b + k..n] + f[n..];
    SplitFrame(msg, Concat(chunks), f[b + k..n], f[n..] + Stream(fs[1..]));
    ShiftedFull(frames, f, b, k, msg);
    RunStep(Shifted(frames, f, b, k), msg, chunks, FRAME_LENGTH_SIZE);
    AfterGarbled(frames, fs, b, msg[n - b - k..], chunks);
  }

  lemma RunNext(st: State, chunks: seq<Bytes>, counted: nat)
    requires Sound(st) && chunks != []
    ensures Run(st, [], chunks, counted) == Run(st, chunks[0], chunks[1..], counted)
  {}

  lemma RunStep(st: State, msg: Bytes, chunks: seq<Bytes>, counted: nat)
    requires Sound(st) && msg != []
    ensures Run(st, msg, chunks, counted)
         == match Step(st, msg, counted)
            case None => None
            case Some((st', msg')) => Run(st', msg', chunks, counted)
  {}

  /** The slice bounds are out of range: two or fewer bytes of the body are missing. */
  lemma TooFar(frames: seq<Bytes>, f: Bytes, b: nat, msg: Bytes)
    requires b < |f| < b + FRAME_LENGTH_SIZE && msg != []
    ensures Step(Shifted(frames, f, b, 0), msg, FRAME_LENGTH_SIZE) == None
  {}

  lemma ShiftedFull(frames: seq<Bytes>, f: Bytes, b: nat, k: nat, msg: Bytes)
    requires b < |f| && (k > 0 ==> b + FRAME_LENGTH_SIZE + k < |f|) && msg != []
    requires b + FRAME_LENGTH_SIZE + k <= |f| <= b + FRAME_LENGTH_SIZE + k + |msg|
    requires msg[..|f| - (b + FRAME_LENGTH_SIZE + k)] == f[b + k..|f| - FRAME_LENGTH_SIZE]
    ensures Step(Shifted(frames, f, b, k), msg, FRAME_LENGTH_SIZE)
         == Some((Idle(frames + [Garbled(f, b)], []), msg[|f| - (b + FRAME_LENGTH_SIZE + k)..]))
  {
    var received := b + FRAME_LENGTH_SIZE + k;
    assert ShiftedBody(f, b, k)[..received] + msg[..|f| - received] == Garbled(f, b);
  }

  lemma ShiftedMore(frames: seq<Bytes>, f: Bytes, b: nat, k: nat, msg: Bytes)
    requires b < |f| && (k > 0 ==> b + FRAME_LENGTH_SIZE + k < |f|) && msg != []
    requires b + FRAME_LENGTH_SIZE + k + |msg| < |f| && msg == f[b + k..b + k + |msg|]
    ensures Step(Shifted(frames, f, b, k), msg, FRAME_LENGTH_SIZE) == Some((Shifted(frames, f, b, k + |msg|), []))
  {
    var buf, received := ShiftedBody(f, b, k), b + FRAME_LENGTH_SIZE + k;
    assert buf[..received] + msg + buf[received + |msg|..] == ShiftedBody(f, b, k + |msg|);
  }

  /** Either the garbled body differs from the one sent, or what is left of it passes for one more frame. */
  lemma AfterGarbled(frames: seq<Bytes>, fs: seq<Frame>, b: nat, msg: Bytes, chunks: seq<Bytes>)
    requires fs != [] && b + FRAME_LENGTH_SIZE <= |fs[0]|
    requires msg + Concat(chunks) == fs[0][|fs[0]| - FRAME_LENGTH_SIZE..] + Stream(fs[1..])
    ensures !Delivers(Run(Idle(frames + [Garbled(fs[0], b)], []), msg, chunks, FRAME_LENGTH_SIZE), frames + fs)
  {
    hide Run, Concat, Delivers, Stream, Framed, Garbled;
    var f := fs[0];
    var st := Idle(frames + [Garbled(f, b)], []);
    if Garbled(f, b) == f {
      LeftoverIsPrefix(f, b);
      assert frames + fs == frames + [f] + fs[1..];
      assert [] + (msg + Concat(chunks)) == Framed([]) + Stream(fs[1..]);
      LagStays(frames + [f], fs[1..], [], msg, chunks);
    } else {
      NotBegun(frames, Garbled(f, b), fs);
      MismatchStays(st, msg, chunks, frames + fs);
    }
  }

  lemma {:induction false} CutsDecide(frames: seq<Bytes>, fs: seq<Frame>, p: Bytes, msg: Bytes, chunks: seq<Bytes>)
    requires |p| < FRAME_LENGTH_SIZE && p + (msg + Concat(chunks)) == Stream(fs)
    ensures Delivers(Run(Idle(frames, p), msg, chunks, FRAME_LENGTH_SIZE), frames + fs)
        <==> GoodCuts(fs, |p|, msg, chunks)
    decreases |chunks|, |msg|
  {
    hide Step, LengthOf;
    var rest := Concat(chunks);
    if msg == [] {
      if chunks == [] {
        assert fs == [] && frames + fs == frames;
      } else {
        hide GoodCut;
        assert msg + rest == chunks[0] + Concat(chunks[1..]);
        CutsDecide(frames, fs, p, chunks[0], chunks[1..]);
        assert Run(Idle(frames, p), msg, chunks, FRAME_LENGTH_SIZE)
            == Run(Idle(frames, p), chunks[0], chunks[1..], FRAME_LENGTH_SIZE);
        assert GoodCuts(fs, |p|, msg, chunks) == (GoodCut(fs, |p|) && GoodCuts(fs, |p|, chunks[0], chunks[1..]));
        ShortCut(fs, |p|);
      }
    } else {
      var m := p + msg;
      assert m + rest == p + (msg + rest) && (p == [] ==> m == msg);
      PrefixStep(frames, p, msg, FRAME_LENGTH_SIZE);
      if |m| < FRAME_LENGTH_SIZE {
        hide Stream, Concat, GoodCut;
        assert m + ([] + rest) == Stream(fs);
        CutsDecide(frames, fs, m, [], chunks);
        assert GoodCuts(fs, |p|, msg, chunks) == GoodCuts(fs, |m|, [], chunks);
      } else {
        HeadOf(fs, m, rest);
        hide Stream, Concat;
        var f, body := fs[0], m[FRAME_LENGTH_SIZE..];
        if |body| >= |f| {
          SplitFrame(body, rest, f, Stream(fs[1..]));
          assert [] + (body[|f|..] + rest) == Stream(fs[1..]);
          CutsShift(fs, |p|, msg, chunks, 0, body[|f|..]);
          CutsDecide(frames + [f], fs[1..], [], body[|f|..], chunks);
          assert frames + [f] + fs[1..] == frames + fs;
        } else {
          hide GoodCut;
          SplitBody(body, rest, f, Stream(fs[1..]));
          assert [] + rest == f[|body| + 0..] + Stream(fs[1..]);
          CutBodyLoses(frames, fs, |body|, 0, [], chunks);
          assert !GoodCut(fs, |p| + |msg|) by { BadCut(fs, |p| + |msg|); }
        }
      }
    }
  }

  lemma ShortCut(fs: seq<Frame>, p: nat)
    requires p < FRAME_LENGTH_SIZE
    ensures GoodCut(fs, p)
  {}

  lemma BadCut(fs: seq<Frame>, p: nat)
    requires fs != [] && FRAME_LENGTH_SIZE <= p < FRAME_LENGTH_SIZE + |fs[0]|
    ensures !GoodCut(fs, p)
  {}

  /** What a message does when no frame is open. */
  lemma PrefixStep(frames: seq<Bytes>, p: Bytes, msg: Bytes, counted: nat)
    requires |p| < FRAME_LENGTH_SIZE && msg != []
    ensures
      var m := p + msg;
      var next := Step(Idle(frames, p), msg, counted);
      if |m| < FRAME_LENGTH_SIZE then next == Some((Idle(frames, m), []))
      else
        var length, body := LengthOf(m), m[FRAME_LENGTH_SIZE..];
        if |body| >= length then next == Some((Idle(frames + [body[..length]], []), body[length..]))
        else next == Some((State(None, Some(body + Zeros(length - |body|)), length, |body| + counted, frames), []))
  {
    assert p == [] ==> p + msg == msg;
  }

  /** As written, the receiver delivers exactly the frames sent if and only if no message of the websocket ends
      behind a length prefix or inside a body. */
  lemma SourceReassemblesExactly(fs: seq<Frame>, chunks: seq<Bytes>)
    requires Concat(chunks) == Stream(fs)
    ensures Delivers(Run(START, [], chunks, FRAME_LENGTH_SIZE), fs) <==> GoodCuts(fs, 0, [], chunks)
  {
    assert [] + ([] + Concat(chunks)) == Stream(fs) && [] + fs == fs;
    CutsDecide([], fs, [], [], chunks);
  }

  /** A frame of four bytes cut in its middle: the receiver delivers something else. */
  lemma CutBodyExample()
    ensures !Delivers(Run(START, [], [[0, 0, 4, 1, 2], [3, 4]], FRAME_LENGTH_SIZE), [[1, 2, 3, 4]])
  {
    var fs: seq<Frame> := [[1, 2, 3, 4]];
    var chunks: seq<Bytes> := [[0, 0, 4, 1, 2], [3, 4]];
    assert chunks[1..] == [[3, 4]] && Concat(chunks[1..][1..]) == [];
    assert Concat(chunks) == [0, 0, 4, 1, 2, 3, 4];
    assert Framed(fs[0]) == [0, 0, 4, 1, 2, 3, 4] && fs[1..] == [];
    SourceReassemblesExactly(fs, chunks);
    assert !GoodCut(fs, 5);
  }
}
