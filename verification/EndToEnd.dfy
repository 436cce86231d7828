/** From a client's sends to what the daemon forwards: the writer, the session on one connection
    and the step system joined. */
module EndToEnd {
  import opened Text
  import opened Syslog
  import opened Pipeline
  import Frame
  import Session
  import Writer

  /** The messages session `id` decodes, in order. */
  function DecodedBy(acts: seq<Action>, id: nat): seq<SyslogMessage> {
    if acts == [] then []
    else
      var n := |acts| - 1;
      DecodedBy(acts[..n], id) + if acts[n].Decode? && acts[n].id == id then [acts[n].msg] else []
  }

  lemma DecodedSnoc(acts: seq<Action>, id: nat, n: nat)
    requires n < |acts|
    ensures DecodedBy(acts[..n + 1], id)
         == DecodedBy(acts[..n], id) + if acts[n].Decode? && acts[n].id == id then [acts[n].msg] else []
  {
    assert acts[..n + 1][..n] == acts[..n];
  }

  lemma {:induction false} DecodedGrows(acts: seq<Action>, id: nat, i: nat, n: nat)
    requires i <= n <= |acts|
    ensures DecodedBy(acts[..i], id) <= DecodedBy(acts[..n], id)
    decreases n
  {
    if i < n {
      DecodedGrows(acts, id, i, n - 1);
      DecodedSnoc(acts, id, n - 1);
    }
  }

  /** The message decoded at step `j` has its place in the list, after all decoded before. */
  lemma DecodedAt(acts: seq<Action>, id: nat, j: nat, n: nat, m: SyslogMessage)
    requires j < n <= |acts| && acts[j] == Action.Decode(id, m)
    ensures var (k, all) := (|DecodedBy(acts[..j], id)|, DecodedBy(acts[..n], id));
            k < |all| && all[k] == m
  {
    DecodedSnoc(acts, id, j);
    DecodedGrows(acts, id, j + 1, n);
  }

  /** Where in that list the message is from which `w` comes. */
  ghost function OriginOf(
    env: Env, states: seq<State>, acts: seq<Action>, e: nat, id: nat, w: SyslogMessage): (k: nat)
    requires |states| == |acts| + 1 && IsLegitimate(env, states, acts, e, id, w)
    ensures exists j: nat, i: nat, m: SyslogMessage ::
              ComesFrom(env, states, acts, e, id, w, j, i, m) && j <= |acts| && k == |DecodedBy(acts[..j], id)|
  {
    var j: nat, i: nat, m: SyslogMessage :| ComesFrom(env, states, acts, e, id, w, j, i, m);
    |DecodedBy(acts[..j], id)|
  }

  /** `w`, which session `id` emits at step `e`, is an outgoing form of `m`: `m` passed, and was
      prepared, under the validator of its snapshot. */
  ghost predicate IsOutgoing(
    env: Env, states: seq<State>, acts: seq<Action>, e: nat, id: nat, w: SyslogMessage, m: SyslogMessage)
    requires |states| == |acts| + 1
  {
    exists j: nat, i: nat :: ComesFrom(env, states, acts, e, id, w, j, i, m)
  }

  /** The messages forwarded for session `id` are outgoing forms of the messages of `hs` at the
      positions `at`, which increase. */
  ghost predicate IsTraced(
    env: Env, states: seq<State>, acts: seq<Action>, n: nat, id: nat, hs: seq<SyslogMessage>, at: seq<nat>)
    requires |states| == |acts| + 1 && n <= |acts|
  {
    var (outs, es) := (ForwardedOf(states[n].out), Emits(acts[..n]));
    && |at| == |outs| == |es|
    && (forall k :: 0 <= k < |at| && acts[es[k]].id == id ==>
          at[k] < |hs| && IsOutgoing(env, states, acts, es[k], id, outs[k], hs[at[k]]))
    && (forall k, l :: 0 <= k < l < |at| && acts[es[k]].id == id && acts[es[l]].id == id ==> at[k] < at[l])
  }

  lemma OriginFound(env: Env, states: seq<State>, acts: seq<Action>, n: nat, id: nat, e: nat, w: SyslogMessage)
    requires |states| == |acts| + 1 && e < n <= |acts| && IsLegitimate(env, states, acts, e, id, w)
    ensures var (k, all) := (OriginOf(env, states, acts, e, id, w), DecodedBy(acts[..n], id));
            k < |all| && IsOutgoing(env, states, acts, e, id, w, all[k])
  {
    hide DecodedBy;
    var k := OriginOf(env, states, acts, e, id, w);
    var j: nat, i: nat, m: SyslogMessage :|
      ComesFrom(env, states, acts, e, id, w, j, i, m) && j <= |acts| && k == |DecodedBy(acts[..j], id)|;
    DecodedAt(acts, id, j, n, m);
  }

  lemma OriginsInOrder(env: Env, states: seq<State>, acts: seq<Action>, n: nat, id: nat, k: nat, l: nat)
    requires |states| == |acts| + 1 && n <= |acts| && k < l < |ForwardedOf(states[n].out)|
    requires |Emits(acts[..n])| == |ForwardedOf(states[n].out)|
    requires var (outs, es) := (ForwardedOf(states[n].out), Emits(acts[..n]));
             && AllLegitimate(env, states, acts, es, outs) && OriginsKept(env, states, acts, es, outs)
             && acts[es[k]].id == id && acts[es[l]].id == id
    ensures var (outs, es) := (ForwardedOf(states[n].out), Emits(acts[..n]));
            OriginOf(env, states, acts, es[k], id, outs[k]) < OriginOf(env, states, acts, es[l], id, outs[l])
  {
    hide IsLegitimate, ForwardedOf, DecodedBy;
    var outs, es := ForwardedOf(states[n].out), Emits(acts[..n]);
    var p, q := OriginOf(env, states, acts, es[k], id, outs[k]), OriginOf(env, states, acts, es[l], id, outs[l]);
    var j: nat, i: nat, m: SyslogMessage :|
      ComesFrom(env, states, acts, es[k], id, outs[k], j, i, m) && j <= |acts| && p == |DecodedBy(acts[..j], id)|;
    var j': nat, i': nat, m': SyslogMessage :|
      ComesFrom(env, states, acts, es[l], id, outs[l], j', i', m') && j' <= |acts| && q == |DecodedBy(acts[..j'], id)|;
    assert j < es[k] < j';
    DecodedAt(acts, id, j, j', m);
  }

  /** Each session's forwarded messages come from the messages it decoded, each from its own, in
      order. */
  lemma TracedToDecoded(env: Env, states: seq<State>, acts: seq<Action>, n: nat, id: nat)
    returns (at: seq<nat>)
    requires IsRun(env, states, acts) && n <= |acts|
    ensures IsTraced(env, states, acts, n, id, DecodedBy(acts[..n], id), at)
  {
    hide ComesFrom, IsLegitimate, ForwardedOf, DecodedBy, IsOutgoing;
    FilterSafety(env, states, acts, n);
    var outs, es := ForwardedOf(states[n].out), Emits(acts[..n]);
    at := seq(|outs|, k requires 0 <= k < |outs| =>
      if acts[es[k]].id == id then OriginOf(env, states, acts, es[k], id, outs[k]) else 0);
    forall k | 0 <= k < |at| && acts[es[k]].id == id
      ensures && at[k] < |DecodedBy(acts[..n], id)|
              && IsOutgoing(env, states, acts, es[k], id, outs[k], DecodedBy(acts[..n], id)[at[k]])
    {
      OriginFound(env, states, acts, n, id, es[k], outs[k]);
    }
    forall k, l | 0 <= k < l < |at| && acts[es[k]].id == id && acts[es[l]].id == id ensures at[k] < at[l] {
      OriginsInOrder(env, states, acts, n, id, k, l);
    }
  }

  lemma TracedLonger(
    env: Env, states: seq<State>, acts: seq<Action>, n: nat, id: nat, ds: seq<SyslogMessage>, hs: seq<SyslogMessage>,
    at: seq<nat>)
    requires |states| == |acts| + 1 && n <= |acts| && ds <= hs && IsTraced(env, states, acts, n, id, ds, at)
    ensures IsTraced(env, states, acts, n, id, hs, at)
  {
    hide IsOutgoing, ForwardedOf;
  }

  // ── The session's events ───────────────────────────────────────────────────

  function HandledIn(events: seq<Session.Event>): seq<SyslogMessage> {
    if events == [] then []
    else (if events[0].Handled? then [events[0].m] else []) + HandledIn(events[1..])
  }

  lemma {:induction false} HandledOfAll(ms: seq<SyslogMessage>, more: seq<Session.Event>)
    requires forall k :: 0 <= k < |more| ==> !more[k].Handled?
    ensures HandledIn(Session.AllHandled(ms) + more) == ms
    decreases |ms| + |more|
  {
    var events := Session.AllHandled(ms) + more;
    if ms != [] {
      HandledOfAll(ms[1..], more);
      assert events[1..] == Session.AllHandled(ms[1..]) + more;
    } else if more != [] {
      HandledOfAll([], more[1..]);
      assert events[1..] == Session.AllHandled([]) + more[1..];
    }
  }

  /** From client to forwarder: a client sends messages, with refused sizes and arbitrary failures,
      and all that its sends put through are printable with UTF-8 renderings. Connection `c` is
      served by session `id`, whose decoded messages are those that its read loop hands over, up to
      where it has got, and whose steps interleave with other sessions and reloads. Then the
      messages forwarded for it are outgoing forms of the messages whose send succeeded on `c`,
      each of its own, in the order sent. */
  lemma ClientToForwarder(
    env: Env, states: seq<State>, acts: seq<Action>, n: nat, id: nat,
    ps: seq<Writer.Packet>, c: nat, maxSize: nat, utf8: Bytes -> bool, input: seq<Session.Read>)
    requires IsRun(env, states, acts) && n <= |acts|
    requires Writer.ArePackets(ps) && Writer.AreFramed(Frame.OctetCount(maxSize), ps)
    requires Writer.AllowedFit(Frame.OctetCount(maxSize), ps)
    requires var sent := Writer.SentOn(ps, c);
             forall k :: 0 <= k < |sent| ==> IsPrintable(sent[k].m) && utf8(Display(sent[k].m))
    requires Session.AreChunks(input) && Session.Joined(input) == Writer.WireOf(Writer.AfterSends(ps), c)
    requires DecodedBy(acts[..n], id) <= HandledIn(Session.Run(Frame.OctetCount(maxSize), utf8, [], input).0)
    ensures exists at: seq<nat> :: IsTraced(env, states, acts, n, id, Writer.Messages(Writer.SentOn(ps, c)), at)
  {
    hide IsTraced, Steps, DecodedBy, IsPrintable, Display;
    hide Session.Run, Session.Joined, Writer.AfterSends, Writer.SentOn;
    var sent := Writer.SentOn(ps, c);
    var ms, events := Writer.Messages(sent), Session.Run(Frame.OctetCount(maxSize), utf8, [], input).0;
    Writer.ReceiverSeesSent(ps, c, maxSize, utf8, input);
    HandledOfAll(ms, []);
    HandledOfAll(ms, [Session.FrameFailure(Frame.Io)]);
    assert Session.AllHandled(ms) + [] == Session.AllHandled(ms);
    assert HandledIn(events) == ms;
    var at := TracedToDecoded(env, states, acts, n, id);
    TracedLonger(env, states, acts, n, id, DecodedBy(acts[..n], id), ms, at);
  }
}
