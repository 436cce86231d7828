/** The per-connection read loop: decode, read more, drain at end of file. */
module Session {
  import opened Text
  import opened Syslog
  import opened Frame
  import SdGrammar
  import StructuredData

  /** What one read of the socket yields; a read of no bytes is end of file. */
  datatype Read = Data(bytes: Bytes) | ReadError

  /** What the loop hands on, in order; `Panicked` is its end by a panic of the decoder, of which
      nothing is reported. */
  datatype Event = Handled(m: SyslogMessage) | FrameFailure(error: FrameError) | Panicked

  function Failure(e: FrameError): Event {
    if e == DecoderPanic then Panicked else FrameFailure(e)
  }

  /** Events so far and the bytes left in the buffer when the loop returns. */
  type Trace = (seq<Event>, Bytes)

  function Then(e: seq<Event>, t: Trace): Trace {
    (e + t.0, t.1)
  }

  // ── The loop as a function of the buffer and the reads to come ──────────────

  function Run(codec: Codec, utf8: Bytes -> bool, buf: Bytes, input: seq<Read>): Trace
    decreases |input|, |buf|, 1
  {
    var (decoded, rest) := Decode(codec, utf8, buf);
    match decoded
    case Ok(Some(m)) => Then([Handled(m)], Run(codec, utf8, rest, input))
    case Ok(None) => ReadMore(codec, utf8, rest, input)
    case Err(DecoderPanic) => ([Panicked], rest)
    case Err(e) => Then([FrameFailure(e)], ReadMore(codec, utf8, [], input))
  }

  function Drain(codec: Codec, utf8: Bytes -> bool, buf: Bytes): Trace
    decreases |buf|
  {
    var (decoded, rest) := DecodeEof(codec, utf8, buf);
    match decoded
    case Ok(Some(m)) => Then([Handled(m)], Drain(codec, utf8, rest))
    case Ok(None) => ([], rest)
    case Err(e) => ([Failure(e)], rest)
  }

  function ReadMore(codec: Codec, utf8: Bytes -> bool, buf: Bytes, input: seq<Read>): Trace
    decreases |input|, |buf|, 0
  {
    if input == [] || input[0] == Data([]) then Drain(codec, utf8, buf)
    else if input[0].ReadError? then ([], buf)
    else Run(codec, utf8, buf + input[0].bytes, input[1..])
  }

  // ── The loop itself ────────────────────────────────────────────────────────

  method DecodeInto(codec: Codec, utf8: Bytes -> bool, buf: BytesMut) returns (r: Decoded)
    modifies buf
    ensures (r, buf.data) == Decode(codec, utf8, old(buf.data))
  {
    match codec {
      case OctetCount(maxSize) =>
        r := OctetDecode(maxSize, utf8, buf);
      case Delimiter(delimiter, maxSize) =>
        r := DelimiterDecode(delimiter, maxSize, utf8, buf);
    }
  }

  lemma ThenNothing(t: Trace)
    ensures Then([], t) == t
  {
    assert [] + t.0 == t.0;
  }

  lemma ThenThen(a: seq<Event>, b: seq<Event>, t: Trace)
    ensures Then(a, Then(b, t)) == Then(a + b, t)
  {
    assert a + (b + t.0) == a + b + t.0;
  }

  lemma ThenInjective(e: seq<Event>, t: Trace, u: Trace)
    ensures Then(e, t) == Then(e, u) <==> t == u
  {
    assert (e + t.0)[|e|..] == t.0 && (e + u.0)[|e|..] == u.0;
  }

  /** The inner loop at end of file. */
  method DrainLoop(codec: Codec, utf8: Bytes -> bool, buf: BytesMut) returns (events: seq<Event>)
    modifies buf
    ensures (events, buf.data) == Drain(codec, utf8, old(buf.data))
  {
    hide Decode;
    events := [];
    ghost var goal := Drain(codec, utf8, buf.data);
    ThenNothing(goal);
    while true
      invariant goal == Then(events, Drain(codec, utf8, buf.data))
      decreases |buf.data|
    {
      var decoded := DecodeInto(codec, utf8, buf);
      if decoded == Ok(None) && buf.data != [] {
        decoded := Err(Io);
      }
      match decoded {
        case Ok(Some(m)) =>
          ThenThen(events, [Handled(m)], Drain(codec, utf8, buf.data));
          events := events + [Handled(m)];
        case Ok(None) =>
          assert events + [] == events;
          break;
        case Err(e) =>
          events := events + [Failure(e)];
          break;
      }
    }
  }

  /** `run_with_codec`: one buffer, decoded until it needs more bytes, cleared on an error. */
  method RunWithCodec(codec: Codec, utf8: Bytes -> bool, input: seq<Read>)
    returns (events: seq<Event>, leftover: Bytes)
    ensures (events, leftover) == Run(codec, utf8, [], input)
  {
    hide Decode, Drain;
    var buf := new BytesMut();
    var next := 0;
    events := [];
    ghost var goal := Run(codec, utf8, [], input);
    assert input[0..] == input;
    ThenNothing(goal);
    while true
      invariant next <= |input|
      invariant goal == Then(events, Run(codec, utf8, buf.data, input[next..]))
      decreases |input| - next, |buf.data|
    {
      ghost var later := input[next..];
      var decoded := DecodeInto(codec, utf8, buf);
      match decoded {
        case Ok(Some(m)) =>
          ThenThen(events, [Handled(m)], Run(codec, utf8, buf.data, later));
          events := events + [Handled(m)];
          continue;
        case Ok(None) =>
        case Err(DecoderPanic) =>
          return events + [Panicked], buf.data;
        case Err(e) =>
          buf.Clear();
          ThenThen(events, [FrameFailure(e)], ReadMore(codec, utf8, [], later));
          events := events + [FrameFailure(e)];
      }
      assert goal == Then(events, ReadMore(codec, utf8, buf.data, later));
      if next == |input| || input[next] == Data([]) {
        var drained := DrainLoop(codec, utf8, buf);
        return events + drained, buf.data;
      }
      if input[next].ReadError? {
        assert events + [] == events;
        return events, buf.data;
      }
      buf.Put(input[next].bytes);
      next := next + 1;
      assert later[1..] == input[next..];
    }
  }

  // ── Streams of frames ──────────────────────────────────────────────────────

  function Stream(codec: Codec, ms: seq<SyslogMessage>): Bytes {
    if ms == [] then [] else FrameOf(codec, ms[0]) + Stream(codec, ms[1..])
  }

  function AllHandled(ms: seq<SyslogMessage>): seq<Event> {
    seq(|ms|, i requires 0 <= i < |ms| => Handled(ms[i]))
  }

  /** Reads that each bring at least one byte. */
  predicate AreChunks(input: seq<Read>) {
    forall i :: 0 <= i < |input| ==> input[i].Data? && input[i].bytes != []
  }

  function Joined(input: seq<Read>): Bytes
    requires AreChunks(input)
  {
    if input == [] then [] else input[0].bytes + Joined(input[1..])
  }

  /** Every prefix of `p` leaves the decoder waiting. */
  predicate IsUndecided(codec: Codec, utf8: Bytes -> bool, p: Bytes) {
    forall k :: 0 <= k <= |p| ==> Decode(codec, utf8, p[..k]) == (Ok(None), p[..k])
  }

  lemma FramePrefixUndecided(codec: Codec, utf8: Bytes -> bool, m: SyslogMessage, p: Bytes)
    requires Fits(codec, m) && IsTransparent(codec, m) && p < FrameOf(codec, m)
    ensures IsUndecided(codec, utf8, p)
  {
    hide FrameOf, Decode, Fits, IsTransparent;
    forall k | 0 <= k <= |p|
      ensures Decode(codec, utf8, p[..k]) == (Ok(None), p[..k])
    {
      PartialFrame(codec, utf8, m, p[..k]);
    }
  }

  lemma EmptyUndecided(codec: Codec, utf8: Bytes -> bool)
    ensures IsUndecided(codec, utf8, [])
  {
  }

  lemma Regroup(buf: Bytes, input: seq<Read>)
    requires AreChunks(input) && input != []
    ensures AreChunks(input[1..])
    ensures buf + input[0].bytes + Joined(input[1..]) == buf + Joined(input)
    ensures |buf + input[0].bytes| > |buf|
  {
    Assoc(buf, input[0].bytes, Joined(input[1..]));
  }

  lemma ReadOne(codec: Codec, utf8: Bytes -> bool, buf: Bytes, input: seq<Read>)
    requires AreChunks(input) && input != [] && Decode(codec, utf8, buf) == (Ok(None), buf)
    ensures Run(codec, utf8, buf, input) == Run(codec, utf8, buf + input[0].bytes, input[1..])
  {
    hide Decode, Drain;
  }

  lemma AllHandledCons(ms: seq<SyslogMessage>, more: seq<Event>)
    requires ms != []
    ensures [Handled(ms[0])] + (AllHandled(ms[1..]) + more) == AllHandled(ms) + more
  {
    assert [Handled(ms[0])] + AllHandled(ms[1..]) == AllHandled(ms);
    assert [Handled(ms[0])] + (AllHandled(ms[1..]) + more) == [Handled(ms[0])] + AllHandled(ms[1..]) + more;
  }

  /** Either the first frame is whole in the buffer, or the buffer is a proper prefix of it. */
  lemma SplitFront(buf: Bytes, more: Bytes, f: Bytes, rest: Bytes)
    requires buf + more == f + rest
    ensures |buf| < |f| ==> buf < f && more != []
    ensures |buf| >= |f| ==> buf == f + buf[|f|..] && buf[|f|..] + more == rest
  {
    var s := buf + more;
    assert s[..|f|] == f && s[|f|..] == rest;
    assert forall k :: 0 <= k < |buf| ==> s[k] == buf[k];
    if |buf| >= |f| {
      assert buf[..|f|] == s[..|f|];
      assert s[|f|..] == buf[|f|..] + more;
    }
  }

  /** What the loop does at end of file with a partial frame in the buffer. */
  function TailEvents(tail: Bytes): seq<Event> {
    if tail == [] then [] else [FrameFailure(Io)]
  }

  lemma {:induction false} TailFrom(codec: Codec, utf8: Bytes -> bool, buf: Bytes, input: seq<Read>, tail: Bytes)
    requires AreChunks(input) && buf + Joined(input) == tail && IsUndecided(codec, utf8, tail)
    ensures Run(codec, utf8, buf, input) == (AllHandled([]) + TailEvents(tail), tail)
    decreases |input|
  {
    hide Decode;
    assert tail[..|buf|] == buf;
    assert Decode(codec, utf8, buf) == (Ok(None), buf);
    if input == [] {
      assert buf == tail;
      assert AllHandled([]) + TailEvents(tail) == TailEvents(tail);
    } else {
      ReadOne(codec, utf8, buf, input);
      Regroup(buf, input);
      TailFrom(codec, utf8, buf + input[0].bytes, input[1..], tail);
    }
  }

  /** At the front of any buffer the frame decodes to `m` and is consumed exactly, and every
      proper prefix of it leaves the decoder waiting. */
  ghost predicate Delivers(codec: Codec, utf8: Bytes -> bool, frame: Bytes, m: SyslogMessage) {
    && (forall rest: Bytes :: Decode(codec, utf8, frame + rest) == (Ok(Some(m)), rest))
    && (forall p: Bytes :: p < frame ==> Decode(codec, utf8, p) == (Ok(None), p))
  }

  lemma FrameDelivers(codec: Codec, utf8: Bytes -> bool, m: SyslogMessage)
    requires Fits(codec, m) && Survives(codec, utf8, m)
    ensures Delivers(codec, utf8, FrameOf(codec, m), m)
  {
    hide Decode, FrameOf, IsPrintable, IsTransparent, Fits;
    var frame := FrameOf(codec, m);
    forall rest: Bytes ensures Decode(codec, utf8, frame + rest) == (Ok(Some(m)), rest) {
      WholeFrame(codec, utf8, m, rest);
    }
    forall p: Bytes | p < frame ensures Decode(codec, utf8, p) == (Ok(None), p) {
      PartialFrame(codec, utf8, m, p);
    }
  }

  function Concat(frames: seq<Bytes>): Bytes {
    if frames == [] then [] else frames[0] + Concat(frames[1..])
  }

  lemma ConcatFront(frames: seq<Bytes>, tail: Bytes)
    requires frames != []
    ensures Concat(frames) + tail == frames[0] + (Concat(frames[1..]) + tail)
  {
    Assoc(frames[0], Concat(frames[1..]), tail);
  }

  lemma HandleOne(
    codec: Codec, utf8: Bytes -> bool, frame: Bytes, m: SyslogMessage, rest: Bytes, input: seq<Read>)
    requires Decode(codec, utf8, frame + rest) == (Ok(Some(m)), rest)
    ensures Run(codec, utf8, frame + rest, input) == Then([Handled(m)], Run(codec, utf8, rest, input))
  {
    hide Decode, Drain;
  }

  /** From any point of a stream of frames that ends in an undecided tail, and however the rest
      arrives in chunks, the loop handles exactly the messages to come. */
  lemma {:induction false} FramesFrom(
    codec: Codec, utf8: Bytes -> bool, buf: Bytes, input: seq<Read>,
    frames: seq<Bytes>, ms: seq<SyslogMessage>, tail: Bytes)
    requires AreChunks(input) && buf + Joined(input) == Concat(frames) + tail
    requires |frames| == |ms| && forall i :: 0 <= i < |ms| ==> Delivers(codec, utf8, frames[i], ms[i])
    requires IsUndecided(codec, utf8, tail)
    ensures Run(codec, utf8, buf, input) == (AllHandled(ms) + TailEvents(tail), tail)
    decreases |input|, |ms|
  {
    hide Decode, Run, AllHandled;
    if ms == [] {
      assert Concat(frames) + tail == tail;
      TailFrom(codec, utf8, buf, input, tail);
    } else {
      var f, rest := frames[0], Concat(frames[1..]) + tail;
      ConcatFront(frames, tail);
      SplitFront(buf, Joined(input), f, rest);
      assert Delivers(codec, utf8, f, ms[0]);
      if |buf| >= |f| {
        HandleOne(codec, utf8, f, ms[0], buf[|f|..], input);
        FramesFrom(codec, utf8, buf[|f|..], input, frames[1..], ms[1..], tail);
        AllHandledCons(ms, TailEvents(tail));
      } else {
        ReadOne(codec, utf8, buf, input);
        Regroup(buf, input);
        FramesFrom(codec, utf8, buf + input[0].bytes, input[1..], frames, ms, tail);
      }
    }
  }

  function FramesOf(codec: Codec, ms: seq<SyslogMessage>): seq<Bytes> {
    seq(|ms|, i requires 0 <= i < |ms| => FrameOf(codec, ms[i]))
  }

  lemma {:induction false} StreamIsConcat(codec: Codec, ms: seq<SyslogMessage>)
    ensures Stream(codec, ms) == Concat(FramesOf(codec, ms))
  {
    hide FrameOf;
    if ms != [] {
      StreamIsConcat(codec, ms[1..]);
      assert FramesOf(codec, ms)[1..] == FramesOf(codec, ms[1..]);
    }
  }

  /** The same for a stream of messages that survive the wire. */
  lemma StreamFrom(
    codec: Codec, utf8: Bytes -> bool, buf: Bytes, input: seq<Read>, ms: seq<SyslogMessage>, tail: Bytes)
    requires AreChunks(input) && buf + Joined(input) == Stream(codec, ms) + tail
    requires forall i :: 0 <= i < |ms| ==> Fits(codec, ms[i]) && Survives(codec, utf8, ms[i])
    requires IsUndecided(codec, utf8, tail)
    ensures Run(codec, utf8, buf, input) == (AllHandled(ms) + TailEvents(tail), tail)
  {
    hide Delivers, FrameOf, Fits, Survives, Run, AllHandled, Joined, Concat, Stream;
    forall i | 0 <= i < |ms| ensures Delivers(codec, utf8, FramesOf(codec, ms)[i], ms[i]) {
      FrameDelivers(codec, utf8, ms[i]);
    }
    StreamIsConcat(codec, ms);
    FramesFrom(codec, utf8, buf, input, FramesOf(codec, ms), ms, tail);
  }

  /** The first event of the loop, when the buffer decides one. */
  lemma FirstEvent(codec: Codec, utf8: Bytes -> bool, buf: Bytes, input: seq<Read>)
    requires Decode(codec, utf8, buf).0 != Ok(None)
    ensures var (events, d) := (Run(codec, utf8, buf, input).0, Decode(codec, utf8, buf).0);
            && events != []
            && events[0] == if d.Ok? then Handled(d.value.value) else Failure(d.error)
  {
    hide Decode, ReadMore;
  }

  /** While a frame that does not survive arrives, the decoder waits or yields something else. */
  lemma BrokenFront(codec: Codec, utf8: Bytes -> bool, m: SyslogMessage, rest: Bytes, buf: Bytes, more: Bytes)
    requires Fits(codec, m) && !Survives(codec, utf8, m) && buf + more == FrameOf(codec, m) + rest
    ensures || Decode(codec, utf8, buf) == (Ok(None), buf)
            || (Decode(codec, utf8, buf).0 != Ok(None) && Decode(codec, utf8, buf).0 != Ok(Some(m)))
  {
    hide Decode, FrameOf, IsPrintable, Display;
    var f := FrameOf(codec, m);
    SplitFront(buf, more, f, rest);
    if !IsTransparent(codec, m) {
      assert (buf + more)[..|buf|] == buf;
      CutFrame(codec, utf8, m, rest, buf);
    } else if |buf| < |f| {
      PartialFrame(codec, utf8, m, buf);
    } else {
      FrameRead(codec, utf8, m, buf[|f|..]);
      WholeFrame(codec, utf8, m, buf[|f|..]);
    }
  }

  lemma {:induction false} FirstBroken(
    codec: Codec, utf8: Bytes -> bool, buf: Bytes, input: seq<Read>, m: SyslogMessage, rest: Bytes)
    requires AreChunks(input) && buf + Joined(input) == FrameOf(codec, m) + rest
    requires Fits(codec, m) && !Survives(codec, utf8, m)
    ensures var events := Run(codec, utf8, buf, input).0;
            events == [] || events[0] != Handled(m)
    decreases |input|
  {
    hide Decode, FrameOf, Fits, Survives, Joined;
    BrokenFront(codec, utf8, m, rest, buf, Joined(input));
    if Decode(codec, utf8, buf).0 != Ok(None) {
      FirstEvent(codec, utf8, buf, input);
    } else if input != [] {
      hide Run;
      ReadOne(codec, utf8, buf, input);
      Regroup(buf, input);
      FirstBroken(codec, utf8, buf + input[0].bytes, input[1..], m, rest);
    }
  }

  lemma StreamFront(codec: Codec, ms: seq<SyslogMessage>, tail: Bytes)
    requires ms != []
    ensures Stream(codec, ms) + tail == FrameOf(codec, ms[0]) + (Stream(codec, ms[1..]) + tail)
  {
    hide FrameOf;
    Assoc(FrameOf(codec, ms[0]), Stream(codec, ms[1..]), tail);
  }

  lemma HandledFront(ms: seq<SyslogMessage>, events: seq<Event>)
    requires ms != [] && AllHandled(ms) <= events
    ensures events != [] && events[0] == Handled(ms[0]) && AllHandled(ms[1..]) <= events[1..]
  {
    assert AllHandled(ms)[0] == events[0];
    assert AllHandled(ms)[1..] == AllHandled(ms[1..]);
  }

  /** When one of the messages does not survive, they are never handled as sent, however they
      arrive and whatever follows. */
  lemma {:induction false} StreamBroken(
    codec: Codec, utf8: Bytes -> bool, buf: Bytes, input: seq<Read>, ms: seq<SyslogMessage>, tail: Bytes, k: nat)
    requires AreChunks(input) && buf + Joined(input) == Stream(codec, ms) + tail
    requires forall i :: 0 <= i < |ms| ==> Fits(codec, ms[i])
    requires k < |ms| && !Survives(codec, utf8, ms[k])
    ensures !(AllHandled(ms) <= Run(codec, utf8, buf, input).0)
    decreases |input|, |ms|
  {
    hide Decode, FrameOf, Run, AllHandled, Survives, Fits;
    var f, rest, events := FrameOf(codec, ms[0]), Stream(codec, ms[1..]) + tail, Run(codec, utf8, buf, input).0;
    StreamFront(codec, ms, tail);
    if AllHandled(ms) <= events {
      HandledFront(ms, events);
    }
    if !Survives(codec, utf8, ms[0]) {
      FirstBroken(codec, utf8, buf, input, ms[0], rest);
    } else {
      FrameDelivers(codec, utf8, ms[0]);
      SplitFront(buf, Joined(input), f, rest);
      if |buf| >= |f| {
        HandleOne(codec, utf8, f, ms[0], buf[|f|..], input);
        StreamBroken(codec, utf8, buf[|f|..], input, ms[1..], tail, k - 1);
        assert events[1..] == Run(codec, utf8, buf[|f|..], input).0;
      } else {
        ReadOne(codec, utf8, buf, input);
        Regroup(buf, input);
        StreamBroken(codec, utf8, buf + input[0].bytes, input[1..], ms, tail, k);
      }
    }
  }

  // ── Main results ───────────────────────────────────────────────────────────

  /** A stream cut off inside a frame: the whole frames are handled, and the partial one is
      reported once, as an I/O error, at end of file, if and only if each of the messages is
      printable, has a UTF-8 rendering and is one to which the framing is transparent. */
  lemma TruncatedStream(
    codec: Codec, utf8: Bytes -> bool, ms: seq<SyslogMessage>, last: SyslogMessage, tail: Bytes, input: seq<Read>)
    requires forall i :: 0 <= i < |ms| ==> Fits(codec, ms[i])
    requires Fits(codec, last) && IsTransparent(codec, last) && tail < FrameOf(codec, last)
    requires AreChunks(input) && Joined(input) == Stream(codec, ms) + tail
    ensures Run(codec, utf8, [], input) == (AllHandled(ms) + TailEvents(tail), tail)
       <==> forall i :: 0 <= i < |ms| ==> Survives(codec, utf8, ms[i])
    ensures AllHandled(ms) <= Run(codec, utf8, [], input).0
       <==> forall i :: 0 <= i < |ms| ==> Survives(codec, utf8, ms[i])
  {
    hide Decode, FrameOf, Run, Joined, IsTransparent, Stream, Survives, Fits;
    assert [] + Joined(input) == Stream(codec, ms) + tail;
    if k :| 0 <= k < |ms| && !Survives(codec, utf8, ms[k]) {
      StreamBroken(codec, utf8, [], input, ms, tail, k);
    } else {
      FramePrefixUndecided(codec, utf8, last, tail);
      StreamFrom(codec, utf8, [], input, ms, tail);
    }
  }

  /** Stream fidelity: over every split of the encoded stream into non-empty chunks the
      session handles exactly the messages sent, in order, with no frame error and nothing
      left over, if and only if each of them is printable, has a UTF-8 rendering and is one to
      which the framing is transparent. Octet-count framing is transparent to all; delimiter
      framing is when the rendering does not hold the delimiter. */
  lemma StreamFidelity(codec: Codec, utf8: Bytes -> bool, ms: seq<SyslogMessage>, input: seq<Read>)
    requires forall i :: 0 <= i < |ms| ==> Fits(codec, ms[i])
    requires AreChunks(input) && Joined(input) == Stream(codec, ms)
    ensures Run(codec, utf8, [], input) == (AllHandled(ms), [])
       <==> forall i :: 0 <= i < |ms| ==> Survives(codec, utf8, ms[i])
    ensures AllHandled(ms) <= Run(codec, utf8, [], input).0
       <==> forall i :: 0 <= i < |ms| ==> Survives(codec, utf8, ms[i])
  {
    hide Decode, FrameOf, Run, Joined, Stream, Survives, Fits;
    assert [] + Joined(input) == Stream(codec, ms) + [];
    if k :| 0 <= k < |ms| && !Survives(codec, utf8, ms[k]) {
      StreamBroken(codec, utf8, [], input, ms, [], k);
    } else {
      EmptyUndecided(codec, utf8);
      StreamFrom(codec, utf8, [], input, ms, []);
      assert AllHandled(ms) + [] == AllHandled(ms);
    }
  }

  lemma AfterError(codec: Codec, utf8: Bytes -> bool, bad: Bytes, input: seq<Read>)
    requires Decode(codec, utf8, bad).0.Err?
    ensures var (d, rest) := Decode(codec, utf8, bad);
            Run(codec, utf8, bad, input) == if d.error == DecoderPanic then ([Panicked], rest)
                                            else Then([FrameFailure(d.error)], Run(codec, utf8, [], input))
  {
    EmptyUndecided(codec, utf8);
    hide Decode, Drain;
    var empty: Bytes := [];
    assert empty[..0] == empty;
    assert Run(codec, utf8, empty, input) == ReadMore(codec, utf8, empty, input);
  }

  /** What the loop does when `stop` follows the chunks, given what it does at end of file. */
  predicate StopsAs(codec: Codec, utf8: Bytes -> bool, stop: Read, stopped: Trace, ended: Trace) {
    var (events, rest) := stopped;
    if stop == ReadError && !(events != [] && events[|events| - 1] == Panicked)
    then ended == Then(events, Drain(codec, utf8, rest))
    else ended == stopped
  }

  lemma StopsAfter(codec: Codec, utf8: Bytes -> bool, e: Event, stop: Read, stopped: Trace, ended: Trace)
    requires StopsAs(codec, utf8, stop, stopped, ended) && e != Panicked
    ensures StopsAs(codec, utf8, stop, Then([e], stopped), Then([e], ended))
  {
    hide Drain;
    ThenThen([e], stopped.0, Drain(codec, utf8, stopped.1));
  }

  lemma StopNow(codec: Codec, utf8: Bytes -> bool, buf: Bytes, stop: Read, more: seq<Read>)
    requires (stop == ReadError || stop == Data([])) && Decode(codec, utf8, buf) == (Ok(None), buf)
    ensures StopsAs(codec, utf8, stop, Run(codec, utf8, buf, [] + [stop] + more), Run(codec, utf8, buf, []))
  {
    hide Decode, Drain;
    ThenNothing(Drain(codec, utf8, buf));
    assert ([] + [stop] + more)[0] == stop;
  }

  lemma PanicStops(codec: Codec, utf8: Bytes -> bool, stop: Read, rest: Bytes)
    ensures StopsAs(codec, utf8, stop, ([Panicked], rest), ([Panicked], rest))
  {
  }

  lemma EmptyWaits(codec: Codec, utf8: Bytes -> bool)
    ensures Decode(codec, utf8, []) == (Ok(None), [])
  {
  }

  /** A read error ends the loop with the events so far: what a drain would still do with the bytes
      left over is not done, and whatever might be read later is not. A read of no bytes is end of
      file, whatever might be read later. */
  lemma {:induction false} ReadStops(
    codec: Codec, utf8: Bytes -> bool, buf: Bytes, chunks: seq<Read>, stop: Read, more: seq<Read>)
    requires AreChunks(chunks) && (stop == ReadError || stop == Data([]))
    ensures StopsAs(codec, utf8, stop, Run(codec, utf8, buf, chunks + [stop] + more), Run(codec, utf8, buf, chunks))
    decreases |chunks|, |buf|
  {
    hide StopsAs, Decode, Drain;
    var input := chunks + [stop] + more;
    var (decoded, rest) := Decode(codec, utf8, buf);
    match decoded {
      case Ok(Some(m)) =>
        ReadStops(codec, utf8, rest, chunks, stop, more);
        StopsAfter(codec, utf8, Handled(m), stop, Run(codec, utf8, rest, input), Run(codec, utf8, rest, chunks));
      case Ok(None) =>
        if chunks == [] {
          StopNow(codec, utf8, buf, stop, more);
        } else {
          assert input[0] == chunks[0] && input[1..] == chunks[1..] + [stop] + more;
          ReadStops(codec, utf8, buf + chunks[0].bytes, chunks[1..], stop, more);
        }
      case Err(e) =>
        AfterError(codec, utf8, buf, input);
        AfterError(codec, utf8, buf, chunks);
        if e == DecoderPanic {
          PanicStops(codec, utf8, stop, rest);
        } else {
          EmptyWaits(codec, utf8);
          ReadStops(codec, utf8, [], chunks, stop, more);
          StopsAfter(codec, utf8, FrameFailure(e), stop, Run(codec, utf8, [], input), Run(codec, utf8, [], chunks));
        }
    }
  }

  /** After a frame error the session recovers: whatever was in the buffer is dropped, and a
      stream of frames that starts with the next read is handled in full, if and only if its
      messages survive the wire. A panic of the decoder ends the session instead. */
  lemma RecoversAfterError(
    codec: Codec, utf8: Bytes -> bool, bad: Bytes, ms: seq<SyslogMessage>, input: seq<Read>)
    requires Decode(codec, utf8, bad).0.Err?
    requires forall i :: 0 <= i < |ms| ==> Fits(codec, ms[i])
    requires AreChunks(input) && Joined(input) == Stream(codec, ms)
    ensures var (d, rest) := Decode(codec, utf8, bad);
            if d.error == DecoderPanic then Run(codec, utf8, bad, input) == ([Panicked], rest)
            else Run(codec, utf8, bad, input) == ([FrameFailure(d.error)] + AllHandled(ms), [])
                 <==> forall i :: 0 <= i < |ms| ==> Survives(codec, utf8, ms[i])
  {
    hide Decode, Run, Joined, Stream, Fits, Survives, AllHandled;
    var error := Decode(codec, utf8, bad).0.error;
    AfterError(codec, utf8, bad, input);
    StreamFidelity(codec, utf8, ms, input);
    ThenInjective([FrameFailure(error)], Run(codec, utf8, [], input), (AllHandled(ms), []));
  }

  /** A message on which the parser panics. */
  predicate IsPanicMessage(m: SyslogMessage) {
    m == SyslogMessage(Priority(1, 5), None, None, None, None, None, "[id a=\"b\"\U{C3}\U{A9}]", [])
  }

  lemma PanicMessageParsed(m: SyslogMessage)
    requires IsPanicMessage(m)
    ensures Parse(Display(m)) == Err(Panic)
  {
    hide Display, ParseShape, StructuredData.CheckContent, StructuredData.FindEnd;
    hide StructuredData.Started, StructuredData.IsWellCut;
    SdGrammar.PanicExample();
    assert m.structuredData[0] == '[';
    assert IsShaped(m);
    ShapePrinted(m);
    assert ContentError(m) == Some(Panic);
  }

  /** Its octet-count frame ends the session, whatever else has arrived or is to come. */
  lemma PanicEndsSession(maxSize: nat, utf8: Bytes -> bool, m: SyslogMessage, rest: Bytes, input: seq<Read>)
    requires IsPanicMessage(m) && Fits(OctetCount(maxSize), m) && utf8(Display(m))
    ensures Run(OctetCount(maxSize), utf8, FrameOf(OctetCount(maxSize), m) + rest, input) == ([Panicked], rest)
  {
    hide Decode, Display, FrameOf, Run, Fits, IsPanicMessage, Parse;
    PanicMessageParsed(m);
    FrameRead(OctetCount(maxSize), utf8, m, rest);
    AfterError(OctetCount(maxSize), utf8, FrameOf(OctetCount(maxSize), m) + rest, input);
  }
}
