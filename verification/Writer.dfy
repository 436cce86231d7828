/** The reconnecting stream writer of the client transport and of the forwarder: one connection
    slot, filled on demand and emptied when a write fails. */
module Writer {
  import opened Text
  import opened Syslog
  import opened Frame
  import opened Session

  /** What the operating system will answer: whether a connect succeeds, and after how many
      bytes a write fails, if it does. */
  datatype Fate = Fate(connects: bool, failsAfter: Option<nat>)

  /** A message to send, its octet-count frame, and whether it exceeds the size limit. */
  datatype Packet = Packet(m: SyslogMessage, frame: Bytes, oversized: bool, fate: Fate)

  /** The client has a size limit; the forwarder has none. */
  function PacketOf(limit: Option<nat>, m: SyslogMessage, fate: Fate): (p: Packet)
    ensures p.frame != []
  {
    var wire := Display(m);
    Packet(m, Decimal(|wire|) + " " + wire, limit.Some? && |wire| > limit.value, fate)
  }

  /** `Sent` names the connection that carried the message. */
  datatype SendResult = Sent(conn: nat) | TooLarge | IoError

  /** The slot, and the bytes every connection opened so far has carried. */
  datatype Slot = Slot(stream: Option<nat>, wires: seq<Bytes>)

  predicate IsSlot(s: Slot) {
    s.stream.Some? ==> s.stream.value < |s.wires|
  }

  /** The bytes a write puts on the wire: all of them, or a proper prefix when it fails. */
  function Written(frame: Bytes, fate: Fate): (w: Bytes)
    requires frame != []
    ensures if fate.failsAfter.None? then w == frame else w < frame
  {
    match fate.failsAfter
    case None => frame
    case Some(k) => if k < |frame| then frame[..k] else frame[..|frame| - 1]
  }

  /** The slot once a connection is there. */
  function Connected(s: Slot): (s': Slot)
    requires IsSlot(s)
    ensures IsSlot(s') && s'.stream.Some? && s.wires <= s'.wires
  {
    if s.stream.None? then Slot(Some(|s.wires|), s.wires + [[]]) else s
  }

  /** One `send`. */
  function SendStep(s: Slot, p: Packet): (r: (Slot, SendResult))
    requires IsSlot(s) && p.frame != []
    ensures IsSlot(r.0)
  {
    if p.oversized then (s, TooLarge)
    else if s.stream.None? && !p.fate.connects then (s, IoError)
    else
      var open := Connected(s);
      var c := open.stream.value;
      var wires := open.wires[c := open.wires[c] + Written(p.frame, p.fate)];
      if p.fate.failsAfter.None? then (Slot(Some(c), wires), Sent(c)) else (Slot(None, wires), IoError)
  }

  /** `UnixTransport::send`, and the stream branch of `Forwarder::forward`. */
  class UnixTransport {
    const limit: Option<nat>
    var stream: Option<nat>
    var wires: seq<Bytes>

    ghost predicate Valid()
      reads this
    {
      IsSlot(Slot(stream, wires))
    }

    constructor (limit: Option<nat>)
      ensures Valid() && this.limit == limit && stream == None && wires == []
    {
      this.limit := limit;
      stream, wires := None, [];
    }

    method Send(m: SyslogMessage, fate: Fate) returns (r: SendResult)
      requires Valid()
      modifies this
      ensures Valid()
      ensures (Slot(stream, wires), r) == SendStep(old(Slot(stream, wires)), PacketOf(limit, m, fate))
    {
      var packet := PacketOf(limit, m, fate);
      if packet.oversized {
        return TooLarge;
      }
      if stream.None? {
        if !fate.connects {
          return IoError;
        }
        stream, wires := Some(|wires|), wires + [[]];
      }
      var c := stream.value;
      wires := wires[c := wires[c] + Written(packet.frame, fate)];
      if fate.failsAfter.Some? {
        stream := None;
        return IoError;
      }
      return Sent(c);
    }
  }

  // ── Whole runs of sends ────────────────────────────────────────────────────

  predicate ArePackets(ps: seq<Packet>) {
    forall i :: 0 <= i < |ps| ==> ps[i].frame != []
  }

  function AfterSends(ps: seq<Packet>): (s: Slot)
    requires ArePackets(ps)
    ensures IsSlot(s)
  {
    if ps == [] then Slot(None, []) else SendStep(AfterSends(ps[..|ps| - 1]), ps[|ps| - 1]).0
  }

  function LastResult(ps: seq<Packet>): SendResult
    requires ps != [] && ArePackets(ps)
  {
    SendStep(AfterSends(ps[..|ps| - 1]), ps[|ps| - 1]).1
  }

  /** The packets whose send succeeded on connection `c`, in order. */
  function SentOn(ps: seq<Packet>, c: nat): seq<Packet>
    requires ArePackets(ps)
  {
    if ps == [] then []
    else SentOn(ps[..|ps| - 1], c) + if LastResult(ps) == Sent(c) then [ps[|ps| - 1]] else []
  }

  function Frames(ps: seq<Packet>): Bytes {
    if ps == [] then [] else ps[0].frame + Frames(ps[1..])
  }

  lemma {:induction false} FramesSnoc(ps: seq<Packet>, p: Packet)
    ensures Frames(ps + [p]) == Frames(ps) + p.frame
  {
    if ps == [] {
      assert ps + [p] == [p] && [p][1..] == [];
      assert Frames([]) == [];
    } else {
      assert (ps + [p])[1..] == ps[1..] + [p];
      FramesSnoc(ps[1..], p);
    }
  }

  function WireOf(s: Slot, c: nat): Bytes {
    if c < |s.wires| then s.wires[c] else []
  }

  /** The result of a send, and the slot after it: too large if and only if the packet is over the
      limit; otherwise, over the connection in the slot or a new one, sent if and only if there is
      one and the write does not fail; and a failed write empties the slot. */
  lemma SendExactly(s: Slot, p: Packet)
    requires IsSlot(s) && p.frame != []
    ensures var (s', r) := SendStep(s, p);
            var reaches := !p.oversized && (s.stream.Some? || p.fate.connects);
            && (r == TooLarge <==> p.oversized)
            && (forall c :: r == Sent(c) <==>
                  && !p.oversized && p.fate.failsAfter.None?
                  && (s.stream == Some(c) || (s.stream.None? && p.fate.connects && c == |s.wires|)))
            && s'.stream == (if r.Sent? then Some(r.conn) else if reaches then None else s.stream)
            && |s'.wires| == |s.wires| + if reaches && s.stream.None? then 1 else 0
  {
  }

  /** What a send does to connection `c`: nothing, one whole frame, or a proper prefix of a
      frame, and after a prefix the connection is out of the slot. */
  lemma SendEffect(s: Slot, p: Packet, c: nat)
    requires IsSlot(s) && p.frame != []
    ensures var (s', r) := SendStep(s, p);
            && |s.wires| <= |s'.wires|
            && (r == Sent(c) ==> && (s.stream == Some(c) || c == |s.wires|) && !p.oversized
                                 && WireOf(s', c) == WireOf(s, c) + p.frame)
            && (r != Sent(c) ==>
                  WireOf(s', c) == WireOf(s, c)
                  || (&& (s.stream == Some(c) || c == |s.wires|) && s'.stream != Some(c) && !p.oversized
                      && exists tail :: tail < p.frame && WireOf(s', c) == WireOf(s, c) + tail))
            && (s'.stream == Some(c) ==> s.stream == Some(c) || c >= |s.wires|)
  {
    var (s', r) := SendStep(s, p);
    if !p.oversized && (s.stream.Some? || p.fate.connects) {
      var open := Connected(s);
      assert WireOf(open, c) == WireOf(s, c);
      if c == open.stream.value {
        assert WireOf(s', c) == WireOf(s, c) + Written(p.frame, p.fate);
      }
    }
  }

  /** `tail` is a proper prefix of the frame of a packet of `ps` that the size check let pass. */
  ghost predicate IsCutFrame(tail: Bytes, ps: seq<Packet>) {
    exists i :: 0 <= i < |ps| && !ps[i].oversized && tail < ps[i].frame
  }

  /** `wire` is the frames of `sent`, then a cut frame or nothing. */
  ghost predicate IsWire(wire: Bytes, sent: seq<Packet>, ps: seq<Packet>, whole: bool) {
    || wire == Frames(sent)
    || (!whole && exists tail :: IsCutFrame(tail, ps) && wire == Frames(sent) + tail)
  }

  lemma WireLater(wire: Bytes, sent: seq<Packet>, ps: seq<Packet>, p: Packet, whole: bool, whole': bool)
    requires IsWire(wire, sent, ps, whole) && (whole' ==> whole)
    ensures IsWire(wire, sent, ps + [p], whole')
  {
    if wire != Frames(sent) {
      var tail :| IsCutFrame(tail, ps) && wire == Frames(sent) + tail;
      var i :| 0 <= i < |ps| && !ps[i].oversized && tail < ps[i].frame;
      assert (ps + [p])[i] == ps[i];
      assert IsCutFrame(tail, ps + [p]);
    }
  }

  lemma ShapeStep(init: seq<Packet>, p: Packet, s: Slot, sent: seq<Packet>, c: nat)
    requires IsSlot(s) && p.frame != []
    requires IsWire(WireOf(s, c), sent, init, s.stream == Some(c) || c >= |s.wires|)
    ensures var (s', r) := SendStep(s, p);
            IsWire(WireOf(s', c), if r == Sent(c) then sent + [p] else sent + [], init + [p],
                   s'.stream == Some(c) || c >= |s'.wires|)
  {
    var (s', r) := SendStep(s, p);
    SendEffect(s, p, c);
    assert sent + [] == sent;
    if r == Sent(c) {
      FramesSnoc(sent, p);
    } else if WireOf(s', c) == WireOf(s, c) {
      WireLater(WireOf(s, c), sent, init, p,
                s.stream == Some(c) || c >= |s.wires|, s'.stream == Some(c) || c >= |s'.wires|);
    } else {
      var tail :| tail < p.frame && WireOf(s', c) == WireOf(s, c) + tail;
      assert (init + [p])[|init|] == p;
      assert IsCutFrame(tail, init + [p]);
    }
  }

  lemma AfterSnoc(ps: seq<Packet>, p: Packet)
    requires ArePackets(ps) && p.frame != []
    ensures ArePackets(ps + [p]) && AfterSends(ps + [p]) == SendStep(AfterSends(ps), p).0
    ensures LastResult(ps + [p]) == SendStep(AfterSends(ps), p).1
  {
    assert (ps + [p])[..|ps|] == ps;
  }

  /** Reconnection: after any run, a send whose write is cut leaves the next one to connect anew,
      and if that connect and write succeed it is sent, alone, on a connection never used before. */
  lemma Reconnects(ps: seq<Packet>, cut: Packet, p: Packet)
    requires ArePackets(ps) && cut.frame != [] && p.frame != []
    requires !cut.oversized && cut.fate.failsAfter.Some? && (AfterSends(ps).stream.Some? || cut.fate.connects)
    requires !p.oversized && p.fate == Fate(true, None)
    ensures ArePackets(ps + [cut] + [p])
    ensures var c := |AfterSends(ps + [cut]).wires|;
            && LastResult(ps + [cut]) == IoError && LastResult(ps + [cut] + [p]) == Sent(c)
            && WireOf(AfterSends(ps + [cut] + [p]), c) == p.frame
  {
    AfterSnoc(ps, cut);
    AfterSnoc(ps + [cut], p);
    SendExactly(AfterSends(ps), cut);
    SendExactly(AfterSends(ps + [cut]), p);
  }

  /** Every connection, after every run of sends, has carried whole frames of exactly the
      packets sent on it and at most one cut frame; one still in the slot has no cut frame. */
  lemma {:induction false} WireShape(ps: seq<Packet>, c: nat)
    requires ArePackets(ps)
    ensures IsWire(WireOf(AfterSends(ps), c), SentOn(ps, c), ps,
                   AfterSends(ps).stream == Some(c) || c >= |AfterSends(ps).wires|)
  {
    if ps != [] {
      var init, p := ps[..|ps| - 1], ps[|ps| - 1];
      assert ps == init + [p];
      WireShape(init, c);
      ShapeStep(init, p, AfterSends(init), SentOn(init, c), c);
    }
  }

  // ── The receiver's view ────────────────────────────────────────────────────

  function Messages(ps: seq<Packet>): seq<SyslogMessage> {
    seq(|ps|, i requires 0 <= i < |ps| => ps[i].m)
  }

  /** The packets carry the octet-count frames of their messages. */
  predicate AreFramed(codec: Codec, ps: seq<Packet>) {
    forall i :: 0 <= i < |ps| ==> ps[i].frame == FrameOf(codec, ps[i].m)
  }

  lemma {:induction false} FramesAreStream(codec: Codec, ps: seq<Packet>)
    requires AreFramed(codec, ps)
    ensures Frames(ps) == Stream(codec, Messages(ps))
  {
    if ps != [] {
      assert Messages(ps)[1..] == Messages(ps[1..]);
      FramesAreStream(codec, ps[1..]);
    }
  }

  lemma {:induction false} SentWereSends(ps: seq<Packet>, c: nat)
    requires ArePackets(ps)
    ensures forall k :: 0 <= k < |SentOn(ps, c)| ==> SentOn(ps, c)[k] in ps && !SentOn(ps, c)[k].oversized
  {
    if ps != [] {
      SentWereSends(ps[..|ps| - 1], c);
    }
  }

  /** Every message that passes the sender's size check fits the receiver's limit; nothing is
      asked of the messages the check refuses. */
  predicate AllowedFit(codec: Codec, ps: seq<Packet>) {
    forall i :: 0 <= i < |ps| && !ps[i].oversized ==> Fits(codec, ps[i].m)
  }

  lemma AllFit(codec: Codec, ps: seq<Packet>, sent: seq<Packet>)
    requires codec.OctetCount? && AreFramed(codec, ps) && AllowedFit(codec, ps)
    requires forall k :: 0 <= k < |sent| ==> sent[k] in ps && !sent[k].oversized
    ensures AreFramed(codec, sent)
    ensures forall k :: 0 <= k < |sent| ==> Fits(codec, sent[k].m) && IsTransparent(codec, sent[k].m)
  {
  }

  /** The receiver handled all of `sent`, then nothing, or the report of a cut frame. */
  predicate IsSeen(events: seq<Event>, sent: seq<Packet>, whole: bool) {
    var all := AllHandled(Messages(sent));
    events == all || (events == all + [FrameFailure(Io)] && !whole)
  }

  lemma WireLoosened(wire: Bytes, sent: seq<Packet>, ps: seq<Packet>, whole: bool)
    requires IsWire(wire, sent, ps, whole)
    ensures IsWire(wire, sent, ps, false)
  {
  }

  lemma ReceiverOfWire(
    codec: Codec, utf8: Bytes -> bool, ps: seq<Packet>, sent: seq<Packet>, whole: bool, input: seq<Read>)
    requires codec.OctetCount? && AreFramed(codec, ps) && AllowedFit(codec, ps)
    requires forall k :: 0 <= k < |sent| ==> sent[k] in ps && !sent[k].oversized
    requires AreChunks(input) && IsWire(Joined(input), sent, ps, whole)
    ensures IsSeen(Run(codec, utf8, [], input).0, sent, whole)
       <==> forall k :: 0 <= k < |sent| ==> Survives(codec, utf8, sent[k].m)
  {
    hide Run, FrameOf, Decode, IsTransparent, Joined, Fits, Survives, AllHandled;
    var ms := Messages(sent);
    AllFit(codec, ps, sent);
    FramesAreStream(codec, sent);
    assert forall k :: 0 <= k < |sent| ==> ms[k] == sent[k].m;
    if Joined(input) == Frames(sent) {
      StreamFidelity(codec, utf8, ms, input);
    } else {
      var tail :| IsCutFrame(tail, ps) && Joined(input) == Frames(sent) + tail;
      var i :| 0 <= i < |ps| && !ps[i].oversized && tail < ps[i].frame;
      var one := [ps[i]];
      AllFit(codec, ps, one);
      assert one[0].m == ps[i].m;
      TruncatedStream(codec, utf8, ms, ps[i].m, tail, input);
      assert AllHandled(ms) + [] == AllHandled(ms);
    }
  }

  /** Reconnecting writer: over every sequence of sends, with messages refused as too large and
      arbitrary failures, the octet-count session on each connection, however its bytes arrive,
      handles exactly the messages whose send succeeded on that connection, in order, if and only
      if each of those is printable and has a UTF-8 rendering; a cut frame shows up only as one
      I/O error at end of file, and only on a connection that has been given up. */
  lemma ReceiverSeesSent(ps: seq<Packet>, c: nat, maxSize: nat, utf8: Bytes -> bool, input: seq<Read>)
    requires ArePackets(ps) && AreFramed(OctetCount(maxSize), ps) && AllowedFit(OctetCount(maxSize), ps)
    requires AreChunks(input) && Joined(input) == WireOf(AfterSends(ps), c)
    ensures var sent := SentOn(ps, c);
            IsSeen(Run(OctetCount(maxSize), utf8, [], input).0, sent, AfterSends(ps).stream == Some(c))
            <==> forall k :: 0 <= k < |sent| ==> IsPrintable(sent[k].m) && utf8(Display(sent[k].m))
  {
    hide Run, Joined, IsPrintable, Display, AllHandled, FrameOf, AfterSends, SentOn;
    var s, sent := AfterSends(ps), SentOn(ps, c);
    WireShape(ps, c);
    SentWereSends(ps, c);
    if s.stream == Some(c) {
      ReceiverOfWire(OctetCount(maxSize), utf8, ps, sent, true, input);
    } else {
      WireLoosened(Joined(input), sent, ps, c >= |s.wires|);
      ReceiverOfWire(OctetCount(maxSize), utf8, ps, sent, false, input);
    }
    assert forall k :: 0 <= k < |sent| ==>
        (Survives(OctetCount(maxSize), utf8, sent[k].m) <==> IsPrintable(sent[k].m) && utf8(Display(sent[k].m)));
  }

  /** The packets the transport builds are framed for any octet-count receiver; and one that the
      transport's own limit lets through fits every receiver whose limit is not smaller. */
  lemma PacketsAreFramed(limit: Option<nat>, m: SyslogMessage, fate: Fate, maxSize: nat)
    ensures PacketOf(limit, m, fate).frame == FrameOf(OctetCount(maxSize), m)
    ensures PacketOf(limit, m, fate).m == m && PacketOf(limit, m, fate).fate == fate
    ensures PacketOf(limit, m, fate).oversized <==> limit.Some? && |Display(m)| > limit.value
    ensures limit.Some? && limit.value <= maxSize <= USIZE_MAX && !PacketOf(limit, m, fate).oversized ==>
              Fits(OctetCount(maxSize), m)
  {
  }
}
