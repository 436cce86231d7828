/** The message counters: conservation over every interleaving, and what snapshots can show. */
module Metrics {
  import opened Syslog
  import opened Validator
  import opened Rewrite
  import opened Pipeline

  datatype Totals = Totals(received: nat, forwarded: nat, dropped: nat, errors: nat)

  function ReadState(s: State): Totals {
    Totals(s.received, s.forwarded, s.dropped, s.errors)
  }

  /** Counted as received, and not yet as forwarded, dropped or failed. */
  predicate IsInFlight(p: Phase) {
    p.Counted? || p.Holding? || p.Rejected? || p.Ready? || p.Sending? || p.Sent?
  }

  /** The sessions in a phase with property `p`. */
  function Among(sessions: map<nat, Phase>, p: Phase -> bool): set<nat> {
    set id | id in sessions && p(sessions[id])
  }

  function InFlight(s: State): set<nat> {
    Among(s.sessions, IsInFlight)
  }

  ghost predicate IsConserved(s: State) {
    s.received == s.forwarded + s.dropped + s.errors + |InFlight(s)|
  }

  /** One for a session in a phase with property `p`, zero for any other. */
  function Weight(s: State, id: nat, p: Phase -> bool): nat {
    if id in s.sessions && p(s.sessions[id]) then 1 else 0
  }

  /** The messages received and not accounted for. */
  function Unaccounted(s: State): int {
    s.received - s.forwarded - s.dropped - s.errors
  }

  /** A step changes the unaccounted count by what it changes in its own session. */
  lemma StepOpens(env: Env, s: State, a: Action, id: nat)
    requires Enabled(env, s, a) && !a.Reload? && !a.ReloadFailed? && a.id == id
    ensures Unaccounted(Apply(env, s, a)) - Unaccounted(s)
         == Weight(Apply(env, s, a), id, IsInFlight) - Weight(s, id, IsInFlight)
    ensures Apply(env, s, a).sessions - {id} == s.sessions - {id}
  {
    hide Outgoing, Validate, IsPrintable;
  }

  lemma AmongSplit(s: State, id: nat, p: Phase -> bool)
    ensures |Among(s.sessions, p)| == |Among(s.sessions - {id}, p)| + Weight(s, id, p)
  {
    var rest := Among(s.sessions - {id}, p);
    assert Among(s.sessions, p) == if Weight(s, id, p) == 1 then rest + {id} else rest;
  }

  lemma StepConserves(env: Env, s: State, a: Action)
    requires Enabled(env, s, a) && IsConserved(s)
    ensures IsConserved(Apply(env, s, a))
  {
    var s' := Apply(env, s, a);
    if a.Reload? || a.ReloadFailed? {
      assert InFlight(s') == InFlight(s);
    } else {
      StepOpens(env, s, a, a.id);
      AmongSplit(s, a.id, IsInFlight);
      AmongSplit(s', a.id, IsInFlight);
    }
  }

  /** Counter conservation: after every step of every run, the messages received are those
      forwarded, dropped or failed, plus those in flight. */
  lemma {:induction false} CountersConserved(env: Env, states: seq<State>, acts: seq<Action>, n: nat)
    requires IsRun(env, states, acts) && n <= |acts|
    ensures IsConserved(states[n])
  {
    if n == 0 {
      assert InFlight(states[0]) == {};
    } else {
      CountersConserved(env, states, acts, n - 1);
      assert Steps(env, states[n - 1], acts[n - 1], states[n]);
      StepConserves(env, states[n - 1], acts[n - 1]);
    }
  }

  /** Handed to the transport, and not yet counted as forwarded. */
  predicate IsUncounted(p: Phase) {
    p == Sent(true)
  }

  ghost predicate IsTallied(s: State) {
    |ForwardedOf(s.out)| == s.forwarded + |Among(s.sessions, IsUncounted)|
  }

  lemma StepTallies(env: Env, s: State, a: Action)
    requires Enabled(env, s, a) && IsTallied(s)
    ensures IsTallied(Apply(env, s, a))
  {
    hide Outgoing, Validate, IsPrintable, ForwardedOf;
    var s' := Apply(env, s, a);
    StepForwards(env, s, a);
    if a.Reload? || a.ReloadFailed? {
      assert s'.sessions == s.sessions;
    } else {
      StepOpens(env, s, a, a.id);
      AmongSplit(s, a.id, IsUncounted);
      AmongSplit(s', a.id, IsUncounted);
    }
  }

  /** The forwarded counter is the number of messages that went out, except for those that went
      out and are not counted yet, at most one for each session. */
  lemma {:induction false} ForwardedTallied(env: Env, states: seq<State>, acts: seq<Action>, n: nat)
    requires IsRun(env, states, acts) && n <= |acts|
    ensures IsTallied(states[n])
  {
    if n == 0 {
      assert Among(states[0].sessions, IsUncounted) == {};
    } else {
      ForwardedTallied(env, states, acts, n - 1);
      assert Steps(env, states[n - 1], acts[n - 1], states[n]);
      StepTallies(env, states[n - 1], acts[n - 1]);
    }
  }

  /** A counter moves exactly when a message is counted: framing errors, rejection reports and
      reloads move none. */
  lemma OnlyMessagesCount(env: Env, s: State, a: Action)
    requires Enabled(env, s, a)
    ensures ReadState(Apply(env, s, a)) != ReadState(s)
       <==> a.CountReceived? || a.CountDropped? || a.CountResult?
  {
  }

  lemma {:induction false} CountersGrow(env: Env, states: seq<State>, acts: seq<Action>, i: nat, n: nat)
    requires IsRun(env, states, acts) && i <= n <= |acts|
    ensures states[i].received <= states[n].received && states[i].forwarded <= states[n].forwarded
    ensures states[i].dropped <= states[n].dropped && states[i].errors <= states[n].errors
    decreases n
  {
    if i < n {
      CountersGrow(env, states, acts, i, n - 1);
      assert Steps(env, states[n - 1], acts[n - 1], states[n]);
    }
  }

  // ── Snapshots ──────────────────────────────────────────────────────────────

  /** The four loads of one `snapshot` call, each of the value its counter had at some moment of
      the run; the loads are relaxed, so the moments need not be ordered. */
  function ReadAt(states: seq<State>, a: nat, b: nat, c: nat, d: nat): Totals
    requires a < |states| && b < |states| && c < |states| && d < |states|
  {
    Totals(states[a].received, states[b].forwarded, states[c].dropped, states[d].errors)
  }

  /** Each counter alone is read in the order of its changes, so a later snapshot never shows less
      of it. When the load of `received` is also the first to take effect, a snapshot never shows
      more messages unaccounted for than were in flight at that moment. */
  lemma SnapshotsOrdered(
    env: Env, states: seq<State>, acts: seq<Action>,
    a: nat, b: nat, c: nat, d: nat, a': nat, b': nat, c': nat, d': nat)
    requires IsRun(env, states, acts)
    requires a <= a' <= |acts| && b <= b' <= |acts| && c <= c' <= |acts| && d <= d' <= |acts|
    ensures var (x, y) := (ReadAt(states, a, b, c, d), ReadAt(states, a', b', c', d'));
            && x.received <= y.received && x.forwarded <= y.forwarded
            && x.dropped <= y.dropped && x.errors <= y.errors
            && (a <= b && a <= c && a <= d ==>
                  x.received - x.forwarded - x.dropped - x.errors <= |InFlight(states[a])|)
  {
    CountersGrow(env, states, acts, a, a');
    CountersGrow(env, states, acts, b, b');
    CountersGrow(env, states, acts, c, c');
    CountersGrow(env, states, acts, d, d');
    if a <= b && a <= c && a <= d {
      CountersConserved(env, states, acts, a);
      CountersGrow(env, states, acts, a, b);
      CountersGrow(env, states, acts, a, c);
      CountersGrow(env, states, acts, a, d);
    }
  }

  lemma {:induction false} CountersRest(env: Env, states: seq<State>, acts: seq<Action>, i: nat, n: nat)
    requires IsRun(env, states, acts) && i <= n <= |acts|
    requires forall k :: i <= k < n ==> !acts[k].CountReceived? && !acts[k].CountDropped? && !acts[k].CountResult?
    ensures ReadState(states[n]) == ReadState(states[i])
    decreases n
  {
    if i < n {
      CountersRest(env, states, acts, i, n - 1);
      assert Steps(env, states[n - 1], acts[n - 1], states[n]);
      OnlyMessagesCount(env, states[n - 1], acts[n - 1]);
    }
  }

  /** A snapshot during which no message is counted is exact. */
  lemma QuietSnapshot(
    env: Env, states: seq<State>, acts: seq<Action>, i: nat, n: nat, a: nat, b: nat, c: nat, d: nat)
    requires IsRun(env, states, acts) && i <= n <= |acts|
    requires forall k :: i <= k < n ==> !acts[k].CountReceived? && !acts[k].CountDropped? && !acts[k].CountResult?
    requires i <= a <= n && i <= b <= n && i <= c <= n && i <= d <= n
    ensures ReadAt(states, a, b, c, d) == ReadState(states[i])
  {
    CountersRest(env, states, acts, i, a);
    CountersRest(env, states, acts, i, b);
    CountersRest(env, states, acts, i, c);
    CountersRest(env, states, acts, i, d);
  }

  // ── One message, start to finish ───────────────────────────────────────────

  /** The shared counters. */
  class MetricsStore {
    var received: nat
    var forwarded: nat
    var dropped: nat
    var errors: nat

    constructor ()
      ensures Read() == Totals(0, 0, 0, 0)
    {
      received, forwarded, dropped, errors := 0, 0, 0, 0;
    }

    function Read(): Totals
      reads this
    {
      Totals(received, forwarded, dropped, errors)
    }

    method IncReceived()
      modifies this
      ensures Read() == old(Read()).(received := old(received) + 1)
    {
      received := received + 1;
    }

    method IncForwarded()
      modifies this
      ensures Read() == old(Read()).(forwarded := old(forwarded) + 1)
    {
      forwarded := forwarded + 1;
    }

    method IncDropped()
      modifies this
      ensures Read() == old(Read()).(dropped := old(dropped) + 1)
    {
      dropped := dropped + 1;
    }

    method IncErrors()
      modifies this
      ensures Read() == old(Read()).(errors := old(errors) + 1)
    {
      errors := errors + 1;
    }
  }

  /** What one message adds to the counters and to the output; `sent` is whether the transport
      takes the message or the notice. */
  function Handled(env: Env, v: Validator, m: SyslogMessage, notice: SyslogMessage, sent: bool): (Totals, seq<Output>) {
    if Validate(env.lib, v, m).Err? then (Totals(1, 0, 1, 0), if sent then [Report(notice)] else [])
    else if sent then (Totals(1, 1, 0, 0), [Forwarded(Outgoing(env, v, m))])
    else (Totals(1, 0, 0, 1), [])
  }

  function Plus(a: Totals, b: Totals): Totals {
    Totals(a.received + b.received, a.forwarded + b.forwarded, a.dropped + b.dropped, a.errors + b.errors)
  }

  /** `handle_message`, without interruption. */
  method HandleMessage(
    env: Env, v: Validator, m: SyslogMessage, notice: SyslogMessage, sent: bool, store: MetricsStore)
    returns (out: seq<Output>)
    modifies store
    ensures store.Read() == Plus(old(store.Read()), Handled(env, v, m, notice, sent).0)
    ensures out == Handled(env, v, m, notice, sent).1
    ensures sent && Validate(env.lib, v, m).Ok? && IsLawfulOn(env.lib, Bare(m.msg)) ==>
              |out| == 1 && out[0].Forwarded? && IsPrepared(env, v, m, out[0].w)
  {
    hide Validate, Prepare, RewriteSender, IsPrepared, IsLawfulOn;
    if Validate(env.lib, v, m).Ok? && IsLawfulOn(env.lib, Bare(m.msg)) {
      OutgoingIsPrepared(env, v, m);
    }
    store.IncReceived();
    if Validate(env.lib, v, m).Err? {
      store.IncDropped();
      return if sent then [Report(notice)] else [];
    }
    var prepared := Prepare(env.lib, v, m);
    var toForward :=
      match env.sender
      case Original => prepared
      case Logfenced => RewriteSender(prepared, env.localHostname, env.pid);
    if !sent {
      store.IncErrors();
      return [];
    }
    store.IncForwarded();
    return [Forwarded(toForward)];
  }

  /** The steps one idle session takes for one message. */
  ghost function MessageSteps(
    env: Env, v: Validator, id: nat, m: SyslogMessage, notice: SyslogMessage, sent: bool): seq<Action>
  {
    [Decode(id, m), CountReceived(id), Snapshot(id), Judge(id)] +
    if Validate(env.lib, v, m).Err? then [CountDropped(id, notice), SendReport(id, sent)]
    else [PrepareMsg(id), Forward(id, sent), CountResult(id)]
  }

  ghost predicate Follows(env: Env, s: State, acts: seq<Action>, s': State)
    decreases |acts|
  {
    if acts == [] then s == s'
    else Enabled(env, s, acts[0]) && Follows(env, Apply(env, s, acts[0]), acts[1..], s')
  }

  lemma {:induction false} FollowsOne(env: Env, s: State, acts: seq<Action>, mid: State, a: Action)
    requires Follows(env, s, acts, mid) && Enabled(env, mid, a)
    ensures Follows(env, s, acts + [a], Apply(env, mid, a))
    decreases |acts|
  {
    if acts == [] {
      assert acts + [a] == [a] && [a][1..] == [];
    } else {
      assert (acts + [a])[1..] == acts[1..] + [a];
      FollowsOne(env, Apply(env, s, acts[0]), acts[1..], mid, a);
    }
  }

  /** `s` with session `id` in phase `p`, these totals and this output. */
  function With(s: State, id: nat, p: Phase, t: Totals, out: seq<Output>): State {
    State(s.current, s.sessions[id := p], out, t.received, t.forwarded, t.dropped, t.errors)
  }

  lemma Moved(s: State, id: nat, p: Phase, t: Totals, out: seq<Output>, q: Phase)
    ensures Move(With(s, id, p, t, out), id, q) == With(s, id, q, t, out)
  {
    assert s.sessions[id := p][id := q] == s.sessions[id := q];
  }

  lemma FollowsNext(env: Env, s: State, acts: seq<Action>, mid: State, a: Action, next: State, all: seq<Action>)
    requires Follows(env, s, acts, mid) && Enabled(env, mid, a) && next == Apply(env, mid, a) && all == acts + [a]
    ensures Follows(env, s, all, next)
  {
    FollowsOne(env, s, acts, mid, a);
  }

  /** Decoding, counting, the snapshot and the verdict. */
  lemma FirstSteps(env: Env, s: State, id: nat, m: SyslogMessage)
    requires At(s, id, Idle) && IsPrintable(m)
    ensures var t := ReadState(s).(received := s.received + 1);
            var p := if Validate(env.lib, s.current, m).Ok? then Ready(m, s.current) else Rejected(m);
            Follows(env, s, [Decode(id, m), CountReceived(id), Snapshot(id), Judge(id)], With(s, id, p, t, s.out))
  {
    assert Follows(env, s, [], s);
    hide Follows, Validate, IsPrintable;
    var t0, out := ReadState(s), s.out;
    var t := t0.(received := t0.received + 1);
    var p := if Validate(env.lib, s.current, m).Ok? then Ready(m, s.current) else Rejected(m);
    var s1 := With(s, id, Phase.Decoded(m), t0, out);
    var s2 := With(s, id, Counted(m), t, out);
    var s3 := With(s, id, Holding(m, s.current), t, out);
    var a1, a2 := [Decode(id, m)], [Decode(id, m), CountReceived(id)];
    var a3 := [Decode(id, m), CountReceived(id), Snapshot(id)];
    FollowsNext(env, s, [], s, Decode(id, m), s1, a1);
    Moved(s, id, Phase.Decoded(m), t, out, Counted(m));
    FollowsNext(env, s, a1, s1, CountReceived(id), s2, a2);
    Moved(s, id, Counted(m), t, out, Holding(m, s.current));
    FollowsNext(env, s, a2, s2, Snapshot(id), s3, a3);
    Moved(s, id, Holding(m, s.current), t, out, p);
    FollowsNext(env, s, a3, s3, Judge(id), With(s, id, p, t, out), a3 + [Judge(id)]);
    assert a3 + [Judge(id)] == [Decode(id, m), CountReceived(id), Snapshot(id), Judge(id)];
  }

  lemma RejectSteps(
    env: Env, s: State, id: nat, m: SyslogMessage, t: Totals, acts: seq<Action>, notice: SyslogMessage, sent: bool)
    requires Follows(env, s, acts, With(s, id, Rejected(m), t, s.out))
    ensures Follows(env, s, acts + [CountDropped(id, notice), SendReport(id, sent)],
                    With(s, id, Idle, t.(dropped := t.dropped + 1), s.out + if sent then [Report(notice)] else []))
  {
    hide Follows;
    var t' := t.(dropped := t.dropped + 1);
    var reporting := With(s, id, Reporting(notice), t', s.out);
    FollowsOne(env, s, acts, With(s, id, Rejected(m), t, s.out), CountDropped(id, notice));
    Moved(s, id, Rejected(m), t', s.out, Reporting(notice));
    FollowsOne(env, s, acts + [CountDropped(id, notice)], reporting, SendReport(id, sent));
    Moved(s, id, Reporting(notice), t', s.out, Idle);
    assert acts + [CountDropped(id, notice)] + [SendReport(id, sent)]
        == acts + [CountDropped(id, notice), SendReport(id, sent)];
    assert s.out + [] == s.out;
  }

  lemma SendSteps(env: Env, s: State, id: nat, w: SyslogMessage, t: Totals, acts: seq<Action>, sent: bool)
    requires Follows(env, s, acts, With(s, id, Sending(w), t, s.out))
    ensures var t' := if sent then t.(forwarded := t.forwarded + 1) else t.(errors := t.errors + 1);
            var out := if sent then s.out + [Forwarded(w)] else s.out;
            Follows(env, s, acts + [Forward(id, sent), CountResult(id)], With(s, id, Idle, t', out))
  {
    hide Follows;
    var out := if sent then s.out + [Forwarded(w)] else s.out;
    FollowsOne(env, s, acts, With(s, id, Sending(w), t, s.out), Forward(id, sent));
    Moved(s, id, Sending(w), t, s.out, Sent(sent));
    FollowsOne(env, s, acts + [Forward(id, sent)], With(s, id, Sent(sent), t, out), CountResult(id));
    Moved(s, id, Sent(sent), t, out, Idle);
    assert acts + [Forward(id, sent)] + [CountResult(id)] == acts + [Forward(id, sent), CountResult(id)];
  }

  lemma PrepareStep(env: Env, s: State, id: nat, m: SyslogMessage, v: Validator, t: Totals, w: SyslogMessage)
    requires w == Outgoing(env, v, m)
    ensures Enabled(env, With(s, id, Ready(m, v), t, s.out), PrepareMsg(id))
    ensures Apply(env, With(s, id, Ready(m, v), t, s.out), PrepareMsg(id)) == With(s, id, Sending(w), t, s.out)
  {
    hide Outgoing;
    Moved(s, id, Ready(m, v), t, s.out, Sending(w));
  }

  lemma ForwardSteps(
    env: Env, s: State, id: nat, ready: State, w: SyslogMessage, t: Totals, acts: seq<Action>, sent: bool)
    requires Follows(env, s, acts, ready) && Enabled(env, ready, PrepareMsg(id))
    requires Apply(env, ready, PrepareMsg(id)) == With(s, id, Sending(w), t, s.out)
    ensures var t' := if sent then t.(forwarded := t.forwarded + 1) else t.(errors := t.errors + 1);
            var out := if sent then s.out + [Forwarded(w)] else s.out;
            Follows(env, s, acts + [PrepareMsg(id), Forward(id, sent), CountResult(id)], With(s, id, Idle, t', out))
  {
    hide Follows, Apply, Enabled;
    FollowsOne(env, s, acts, ready, PrepareMsg(id));
    SendSteps(env, s, id, w, t, acts + [PrepareMsg(id)], sent);
    assert acts + [PrepareMsg(id)] + [Forward(id, sent), CountResult(id)]
        == acts + [PrepareMsg(id), Forward(id, sent), CountResult(id)];
  }

  /** What a rejected message adds, spelled out. */
  lemma RejectedEffect(env: Env, s: State, m: SyslogMessage, notice: SyslogMessage, sent: bool)
    requires Validate(env.lib, s.current, m).Err?
    ensures var h := Handled(env, s.current, m, notice, sent);
            && Plus(ReadState(s), h.0) == ReadState(s).(received := s.received + 1, dropped := s.dropped + 1)
            && s.out + h.1 == s.out + if sent then [Report(notice)] else []
  {
    hide Outgoing, Validate;
  }

  lemma RejectedSteps(env: Env, s: State, id: nat, m: SyslogMessage, notice: SyslogMessage, sent: bool)
    requires At(s, id, Idle) && IsPrintable(m) && Validate(env.lib, s.current, m).Err?
    ensures var h := Handled(env, s.current, m, notice, sent);
            Follows(env, s, MessageSteps(env, s.current, id, m, notice, sent),
                    With(s, id, Idle, Plus(ReadState(s), h.0), s.out + h.1))
  {
    hide Follows, Validate, IsPrintable, Handled, With, Plus;
    var acts := [Decode(id, m), CountReceived(id), Snapshot(id), Judge(id)];
    var t := ReadState(s).(received := s.received + 1);
    FirstSteps(env, s, id, m);
    RejectSteps(env, s, id, m, t, acts, notice, sent);
    RejectedEffect(env, s, m, notice, sent);
  }

  /** What a passed message adds, spelled out. */
  lemma PassedEffect(env: Env, s: State, m: SyslogMessage, notice: SyslogMessage, sent: bool)
    requires Validate(env.lib, s.current, m).Ok?
    ensures var (h, t) := (Handled(env, s.current, m, notice, sent), ReadState(s).(received := s.received + 1));
            && Plus(ReadState(s), h.0)
               == (if sent then t.(forwarded := t.forwarded + 1) else t.(errors := t.errors + 1))
            && s.out + h.1 == if sent then s.out + [Forwarded(Outgoing(env, s.current, m))] else s.out
  {
    hide Outgoing, Validate;
  }

  lemma PassedSteps(env: Env, s: State, id: nat, m: SyslogMessage, notice: SyslogMessage, sent: bool)
    requires At(s, id, Idle) && IsPrintable(m) && Validate(env.lib, s.current, m).Ok?
    ensures var h := Handled(env, s.current, m, notice, sent);
            Follows(env, s, MessageSteps(env, s.current, id, m, notice, sent),
                    With(s, id, Idle, Plus(ReadState(s), h.0), s.out + h.1))
  {
    hide Follows, Outgoing, Validate, Apply, Enabled, IsPrintable, Handled, With, Plus;
    var acts := [Decode(id, m), CountReceived(id), Snapshot(id), Judge(id)];
    var t := ReadState(s).(received := s.received + 1);
    var ready := With(s, id, Ready(m, s.current), t, s.out);
    FirstSteps(env, s, id, m);
    PrepareStep(env, s, id, m, s.current, t, Outgoing(env, s.current, m));
    ForwardSteps(env, s, id, ready, Outgoing(env, s.current, m), t, acts, sent);
    PassedEffect(env, s, m, notice, sent);
  }

  /** Taken one after another by an idle session, the steps of the interleaved system do to
      the counters and the output exactly what `HandleMessage` does, and leave it idle. */
  lemma StepsAreHandleMessage(env: Env, s: State, id: nat, m: SyslogMessage, notice: SyslogMessage, sent: bool)
    requires At(s, id, Idle) && IsPrintable(m)
    ensures var h := Handled(env, s.current, m, notice, sent);
            Follows(env, s, MessageSteps(env, s.current, id, m, notice, sent),
                    With(s, id, Idle, Plus(ReadState(s), h.0), s.out + h.1))
  {
    hide Follows, MessageSteps, Handled, With, Validate, IsPrintable;
    if Validate(env.lib, s.current, m).Err? {
      RejectedSteps(env, s, id, m, notice, sent);
    } else {
      PassedSteps(env, s, id, m, notice, sent);
    }
  }
}
