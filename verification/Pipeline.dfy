/** Sessions, hot reload and counters as a step system: any number of sessions interleave
    their atomic steps with each other and with validator reloads. */
module Pipeline {
  import opened Text
  import opened Syslog
  import opened Json
  import opened Validator
  import opened Rewrite

  datatype SenderMode = Original | Logfenced

  /** What is fixed for the life of the daemon. */
  datatype Env = Env(lib: JsonLib, sender: SenderMode, localHostname: Bytes, pid: nat)

  /** Where a session, or a datagram worker, is in `handle_message`. */
  datatype Phase =
    | Idle
    | Decoded(m: SyslogMessage)                 // handed over by the codec
    | Counted(m: SyslogMessage)                 // received counter incremented
    | Holding(m: SyslogMessage, v: Validator)   // validator snapshot taken
    | Rejected(m: SyslogMessage)                // validation failed, not yet counted
    | Ready(m: SyslogMessage, v: Validator)     // validation passed
    | Sending(w: SyslogMessage)                 // prepared, possibly rewritten
    | Sent(ok: bool)                            // forward returned, not yet counted
    | Reporting(report: SyslogMessage)          // rejection notice being sent

  datatype Output = Forwarded(w: SyslogMessage) | Report(report: SyslogMessage)

  datatype State = State(
    current: Validator,
    sessions: map<nat, Phase>,
    out: seq<Output>,
    received: nat,
    forwarded: nat,
    dropped: nat,
    errors: nat
  )

  datatype Action =
    | Open(id: nat)
    | Close(id: nat)
    | Decode(id: nat, msg: SyslogMessage)
    | FrameError(id: nat, report: Option<SyslogMessage>)
    | CountReceived(id: nat)
    | Snapshot(id: nat)
    | Judge(id: nat)
    | CountDropped(id: nat, notice: SyslogMessage)
    | PrepareMsg(id: nat)
    | Forward(id: nat, sent: bool)
    | CountResult(id: nat)
    | SendReport(id: nat, sent: bool)
    | Reload(v: Validator)
    | ReloadFailed

  /** The message that goes out for `m` under validator `v`. */
  function Outgoing(env: Env, v: Validator, m: SyslogMessage): SyslogMessage {
    var prepared := Prepare(env.lib, v, m);
    match env.sender
    case Original => prepared
    case Logfenced => RewriteSender(prepared, env.localHostname, env.pid)
  }

  /** The payload of `w` is that of `m` as validator `v` wants it forwarded: the cookie follows the
      output policy and is never doubled, and the JSON is sorted when that is asked for and is the
      same up to key order, else untouched. */
  ghost predicate IsPayload(lib: JsonLib, v: Validator, m: SyslogMessage, w: SyslogMessage) {
    var (a, b) := (lib.parse(Bare(m.msg)), lib.parse(Bare(w.msg)));
    && CookieAllowed(v.outputCee, w.msg) && !HasCookie(Bare(w.msg))
    && (v.outputCee.Optional? ==> HasCookie(w.msg) == HasCookie(m.msg))
    && a.Some? && b.Some? && Same(a.value, b.value)
    && (if v.canonicalJson then IsCanonical(b.value) else Bare(w.msg) == Bare(m.msg))
  }

  /** `w` is `m` with that payload; with logfenced as sender it is also rewritten. */
  ghost predicate IsPrepared(env: Env, v: Validator, m: SyslogMessage, w: SyslogMessage) {
    && IsPayload(env.lib, v, m, w)
    && match env.sender
       case Original => w == m.(msg := w.msg)
       case Logfenced => IsRewritten(m.(msg := w.msg), env.localHostname, env.pid, w)
  }

  lemma OutgoingIsPrepared(env: Env, v: Validator, m: SyslogMessage)
    requires IsLawfulOn(env.lib, Bare(m.msg)) && Validate(env.lib, v, m).Ok?
    ensures IsPrepared(env, v, m, Outgoing(env, v, m))
  {
    hide Validate, Prepare, IsRewritten, IsLawfulOn, Same, IsCanonical;
    var p := Prepare(env.lib, v, m);
    PrepareValidated(env.lib, v, m);
    RewriteKeepsSender(p, env.localHostname, env.pid);
    hide RewriteSender;
    var w := Outgoing(env, v, m);
    assert w.msg == p.msg && m.(msg := w.msg) == p;
    assert IsPayload(env.lib, v, m, w);
  }

  ghost predicate At(s: State, id: nat, p: Phase) {
    id in s.sessions && s.sessions[id] == p
  }

  /** When a step can happen. Decoded messages come from the parser, so they are printable. */
  ghost predicate Enabled(env: Env, s: State, a: Action) {
    match a
    case Open(id) => id !in s.sessions
    case Close(id) => At(s, id, Idle)
    case Decode(id, m) => At(s, id, Idle) && IsPrintable(m)
    case FrameError(id, _) => At(s, id, Idle)
    case CountReceived(id) => id in s.sessions && s.sessions[id].Decoded?
    case Snapshot(id) => id in s.sessions && s.sessions[id].Counted?
    case Judge(id) => id in s.sessions && s.sessions[id].Holding?
    case CountDropped(id, _) => id in s.sessions && s.sessions[id].Rejected?
    case PrepareMsg(id) => id in s.sessions && s.sessions[id].Ready?
    case Forward(id, _) => id in s.sessions && s.sessions[id].Sending?
    case CountResult(id) => id in s.sessions && s.sessions[id].Sent?
    case SendReport(id, _) => id in s.sessions && s.sessions[id].Reporting?
    case Reload(_) => true
    case ReloadFailed => true
  }

  function Move(s: State, id: nat, p: Phase): State {
    s.(sessions := s.sessions[id := p])
  }

  ghost function Apply(env: Env, s: State, a: Action): State
    requires Enabled(env, s, a)
  {
    match a
    case Open(id) => Move(s, id, Idle)
    case Close(id) => s.(sessions := s.sessions - {id})
    case Decode(id, m) => Move(s, id, Phase.Decoded(m))
    case FrameError(id, report) => if report.Some? then Move(s, id, Reporting(report.value)) else s
    case CountReceived(id) => Move(s, id, Counted(s.sessions[id].m)).(received := s.received + 1)
    case Snapshot(id) => Move(s, id, Holding(s.sessions[id].m, s.current))
    case Judge(id) =>
      var (m, v) := (s.sessions[id].m, s.sessions[id].v);
      Move(s, id, if Validate(env.lib, v, m).Ok? then Ready(m, v) else Rejected(m))
    case CountDropped(id, notice) => Move(s, id, Reporting(notice)).(dropped := s.dropped + 1)
    case PrepareMsg(id) => Move(s, id, Sending(Outgoing(env, s.sessions[id].v, s.sessions[id].m)))
    case Forward(id, ok) =>
      Move(s, id, Sent(ok)).(out := if ok then s.out + [Forwarded(s.sessions[id].w)] else s.out)
    case CountResult(id) =>
      if s.sessions[id].ok then Move(s, id, Idle).(forwarded := s.forwarded + 1)
      else Move(s, id, Idle).(errors := s.errors + 1)
    case SendReport(id, ok) =>
      Move(s, id, Idle).(out := if ok then s.out + [Report(s.sessions[id].report)] else s.out)
    case Reload(v) => s.(current := v)
    case ReloadFailed => s
  }

  ghost predicate Steps(env: Env, s: State, a: Action, s': State) {
    Enabled(env, s, a) && s' == Apply(env, s, a)
  }

  /** A run: the daemon starts with no session and all counters at zero. */
  ghost predicate IsRun(env: Env, states: seq<State>, acts: seq<Action>) {
    && |states| == |acts| + 1
    && states[0] == State(states[0].current, map[], [], 0, 0, 0, 0)
    && forall k :: 0 <= k < |acts| ==> Steps(env, states[k], acts[k], states[k + 1])
  }

  /** Nothing waits for anything but itself: in every state a reload can happen and a new session can
      open, an idle session can decode any printable message, report a framing error or close, and
      any other session can take its next step. */
  lemma StepsAvailable(env: Env, s: State, id: nat, m: SyslogMessage, report: Option<SyslogMessage>, v: Validator)
    requires IsPrintable(m)
    ensures Enabled(env, s, Reload(v)) && Enabled(env, s, ReloadFailed)
    ensures Enabled(env, s, Open(id)) <==> id !in s.sessions
    ensures At(s, id, Idle) ==>
              Enabled(env, s, Decode(id, m)) && Enabled(env, s, FrameError(id, report)) && Enabled(env, s, Close(id))
    ensures id in s.sessions && s.sessions[id] != Idle ==>
              exists a: Action :: Enabled(env, s, a) && !a.Reload? && !a.ReloadFailed? && a.id == id
  {
    hide IsPrintable;
    if id in s.sessions {
      var a :=
        match s.sessions[id]
        case Idle => Close(id)
        case Decoded(_) => CountReceived(id)
        case Counted(_) => Snapshot(id)
        case Holding(_, _) => Judge(id)
        case Rejected(_) => CountDropped(id, m)
        case Ready(_, _) => PrepareMsg(id)
        case Sending(_) => Forward(id, true)
        case Sent(_) => CountResult(id)
        case Reporting(_) => SendReport(id, true);
      assert Enabled(env, s, a);
    }
  }

  // ── Where a forwarded message comes from ───────────────────────────────────

  /** Session `id` neither decodes nor forwards a message at this step. */
  predicate IsQuiet(a: Action, id: nat) {
    !((a.Decode? || a.Forward?) && a.id == id)
  }

  predicate QuietBetween(acts: seq<Action>, j: nat, n: nat, id: nat) {
    forall k :: j < k < n && k < |acts| ==> IsQuiet(acts[k], id)
  }

  /** Session `id` decoded message `m` at step `j`, and since then, up to step `n`, it has neither
      decoded nor forwarded another. */
  ghost predicate WasDecoded(acts: seq<Action>, j: nat, n: nat, id: nat, m: SyslogMessage) {
    j < n && j < |acts| && acts[j] == Decode(id, m) && QuietBetween(acts, j, n, id)
  }

  /** At step `i`, session `id` took its snapshot for message `m`, which it had decoded at the
      earlier step `j`. */
  ghost predicate TookSnapshot(
    states: seq<State>, acts: seq<Action>, j: nat, i: nat, n: nat, id: nat, m: SyslogMessage)
    requires |states| == |acts| + 1
  {
    && j < i < n && i < |acts| && acts[i] == Snapshot(id) && At(states[i], id, Counted(m))
    && WasDecoded(acts, j, n, id, m)
  }

  /** Before step `n`, session `id` decoded `m` at step `j` and took the validator of step `i` for it;
      `m` passes under that validator, and `w` is what that validator makes of it. */
  ghost predicate ComesFrom(
    env: Env, states: seq<State>, acts: seq<Action>, n: nat, id: nat, w: SyslogMessage,
    j: nat, i: nat, m: SyslogMessage)
    requires |states| == |acts| + 1
  {
    && TookSnapshot(states, acts, j, i, n, id, m) && IsPrintable(m)
    && Validate(env.lib, states[i].current, m).Ok? && w == Outgoing(env, states[i].current, m)
  }

  ghost predicate IsLegitimate(env: Env, states: seq<State>, acts: seq<Action>, n: nat, id: nat, w: SyslogMessage)
    requires |states| == |acts| + 1
  {
    exists j: nat, i: nat, m: SyslogMessage :: ComesFrom(env, states, acts, n, id, w, j, i, m)
  }

  /** What is known of a session in each phase after `n` steps. */
  ghost predicate PhaseOk(env: Env, states: seq<State>, acts: seq<Action>, n: nat, id: nat, p: Phase)
    requires |states| == |acts| + 1
  {
    match p
    case Decoded(m) => IsPrintable(m) && exists j: nat :: WasDecoded(acts, j, n, id, m)
    case Counted(m) => IsPrintable(m) && exists j: nat :: WasDecoded(acts, j, n, id, m)
    case Holding(m, v) =>
      && IsPrintable(m)
      && exists j: nat, i: nat :: TookSnapshot(states, acts, j, i, n, id, m) && v == states[i].current
    case Ready(m, v) => IsLegitimate(env, states, acts, n, id, Outgoing(env, v, m))
    case Sending(w) => IsLegitimate(env, states, acts, n, id, w)
    case _ => true
  }

  ghost predicate AllPhasesOk(env: Env, states: seq<State>, acts: seq<Action>, n: nat)
    requires |states| == |acts| + 1 && n <= |acts|
  {
    forall id :: id in states[n].sessions ==> PhaseOk(env, states, acts, n, id, states[n].sessions[id])
  }

  lemma TookSnapshotLater(
    states: seq<State>, acts: seq<Action>, j: nat, i: nat, n: nat, id: nat, m: SyslogMessage)
    requires |states| == |acts| + 1 && TookSnapshot(states, acts, j, i, n, id, m)
    requires n < |acts| && IsQuiet(acts[n], id)
    ensures TookSnapshot(states, acts, j, i, n + 1, id, m)
  {
  }

  lemma LegitimateLater(env: Env, states: seq<State>, acts: seq<Action>, n: nat, id: nat, w: SyslogMessage)
    requires |states| == |acts| + 1 && IsLegitimate(env, states, acts, n, id, w)
    requires n < |acts| && IsQuiet(acts[n], id)
    ensures IsLegitimate(env, states, acts, n + 1, id, w)
  {
    hide Validate, Outgoing, IsPrintable, TookSnapshot;
    var j: nat, i: nat, m: SyslogMessage :| ComesFrom(env, states, acts, n, id, w, j, i, m);
    TookSnapshotLater(states, acts, j, i, n, id, m);
    assert ComesFrom(env, states, acts, n + 1, id, w, j, i, m);
  }

  lemma PhaseLater(env: Env, states: seq<State>, acts: seq<Action>, n: nat, id: nat, p: Phase)
    requires |states| == |acts| + 1 && PhaseOk(env, states, acts, n, id, p)
    requires n < |acts| && IsQuiet(acts[n], id)
    ensures PhaseOk(env, states, acts, n + 1, id, p)
  {
    hide Validate, Outgoing, IsPrintable, IsLegitimate;
    match p {
      case Decoded(m) =>
        var j: nat :| WasDecoded(acts, j, n, id, m);
        assert WasDecoded(acts, j, n + 1, id, m);
      case Counted(m) =>
        var j: nat :| WasDecoded(acts, j, n, id, m);
        assert WasDecoded(acts, j, n + 1, id, m);
      case Holding(m, v) =>
        var j: nat, i: nat :| TookSnapshot(states, acts, j, i, n, id, m) && v == states[i].current;
        TookSnapshotLater(states, acts, j, i, n, id, m);
      case Ready(m, v) =>
        LegitimateLater(env, states, acts, n, id, Outgoing(env, v, m));
      case Sending(w) =>
        LegitimateLater(env, states, acts, n, id, w);
      case _ =>
    }
  }

  lemma SnapshotTaken(env: Env, states: seq<State>, acts: seq<Action>, n: nat, id: nat)
    requires |states| == |acts| + 1 && n < |acts| && acts[n] == Snapshot(id)
    requires id in states[n].sessions && states[n].sessions[id].Counted?
    requires PhaseOk(env, states, acts, n, id, states[n].sessions[id])
    ensures PhaseOk(env, states, acts, n + 1, id, Holding(states[n].sessions[id].m, states[n].current))
  {
    hide IsPrintable;
    var m := states[n].sessions[id].m;
    var j: nat :| WasDecoded(acts, j, n, id, m);
    assert WasDecoded(acts, j, n + 1, id, m);
    assert TookSnapshot(states, acts, j, n, n + 1, id, m);
  }

  lemma JudgePassed(env: Env, states: seq<State>, acts: seq<Action>, n: nat, id: nat)
    requires |states| == |acts| + 1 && n < |acts| && acts[n] == Judge(id)
    requires id in states[n].sessions && states[n].sessions[id].Holding?
    requires PhaseOk(env, states, acts, n, id, states[n].sessions[id])
    ensures var (m, v) := (states[n].sessions[id].m, states[n].sessions[id].v);
            Validate(env.lib, v, m).Ok? ==> PhaseOk(env, states, acts, n + 1, id, Ready(m, v))
  {
    hide Validate, Outgoing, IsPrintable, WasDecoded;
    var m, v := states[n].sessions[id].m, states[n].sessions[id].v;
    if Validate(env.lib, v, m).Ok? {
      var j: nat, i: nat :| TookSnapshot(states, acts, j, i, n, id, m) && v == states[i].current;
      TookSnapshotLater(states, acts, j, i, n, id, m);
      assert ComesFrom(env, states, acts, n + 1, id, Outgoing(env, v, m), j, i, m);
    }
  }

  /** The session that takes step `n` is in a good phase afterwards. */
  lemma MovedPhase(env: Env, states: seq<State>, acts: seq<Action>, n: nat, id: nat)
    requires IsRun(env, states, acts) && n < |acts| && AllPhasesOk(env, states, acts, n)
    requires id in states[n + 1].sessions
    requires id in states[n].sessions ==> states[n + 1].sessions[id] != states[n].sessions[id]
    ensures PhaseOk(env, states, acts, n + 1, id, states[n + 1].sessions[id])
  {
    hide Validate, Outgoing, IsPrintable, TookSnapshot;
    var s, a := states[n], acts[n];
    assert Steps(env, s, a, states[n + 1]);
    if id in s.sessions && IsQuiet(a, id) {
      PhaseLater(env, states, acts, n, id, s.sessions[id]);
    }
    match a {
      case Decode(_, m) =>
        assert WasDecoded(acts, n, n + 1, id, m);
      case Snapshot(_) =>
        SnapshotTaken(env, states, acts, n, id);
      case Judge(_) =>
        JudgePassed(env, states, acts, n, id);
      case _ =>
    }
  }

  /** A session that stays in its phase, unless idle, is quiet. */
  lemma StaysQuiet(env: Env, s: State, a: Action, id: nat)
    requires Enabled(env, s, a) && id in s.sessions && s.sessions[id] != Idle
    requires id in Apply(env, s, a).sessions && Apply(env, s, a).sessions[id] == s.sessions[id]
    ensures IsQuiet(a, id)
  {
    hide Validate, Outgoing, IsPrintable;
  }

  lemma IdleIsOk(env: Env, states: seq<State>, acts: seq<Action>, n: nat, id: nat)
    requires |states| == |acts| + 1
    ensures PhaseOk(env, states, acts, n, id, Idle)
  {
  }

  lemma {:induction false} PhasesOk(env: Env, states: seq<State>, acts: seq<Action>, n: nat)
    requires IsRun(env, states, acts) && n <= |acts|
    ensures AllPhasesOk(env, states, acts, n)
  {
    hide PhaseOk, Enabled, Apply;
    if n > 0 {
      PhasesOk(env, states, acts, n - 1);
      var s, s' := states[n - 1], states[n];
      assert Steps(env, s, acts[n - 1], s');
      forall id | id in s'.sessions ensures PhaseOk(env, states, acts, n, id, s'.sessions[id]) {
        if id !in s.sessions || s'.sessions[id] != s.sessions[id] {
          MovedPhase(env, states, acts, n - 1, id);
        } else if s.sessions[id] == Idle {
          IdleIsOk(env, states, acts, n, id);
        } else {
          StaysQuiet(env, s, acts[n - 1], id);
          PhaseLater(env, states, acts, n - 1, id, s.sessions[id]);
        }
      }
    }
  }

  // ── Filter safety ──────────────────────────────────────────────────────────

  predicate IsEmit(a: Action) {
    a.Forward? && a.sent
  }

  /** The steps at which a session's message went out, in order. */
  function Emits(acts: seq<Action>): (es: seq<nat>)
    ensures forall k :: 0 <= k < |es| ==> es[k] < |acts| && IsEmit(acts[es[k]])
    ensures forall k, l :: 0 <= k < l < |es| ==> es[k] < es[l]
    ensures forall e: nat :: e < |acts| && IsEmit(acts[e]) ==> e in es
  {
    if acts == [] then []
    else
      var n := |acts| - 1;
      Emits(acts[..n]) + if IsEmit(acts[n]) then [n] else []
  }

  /** The messages among the outputs that are not rejection reports, in order. */
  function ForwardedOf(out: seq<Output>): seq<SyslogMessage> {
    if out == [] then []
    else
      var n := |out| - 1;
      ForwardedOf(out[..n]) + if out[n].Forwarded? then [out[n].w] else []
  }

  lemma ForwardedSnoc(out: seq<Output>, o: Output)
    ensures ForwardedOf(out + [o]) == ForwardedOf(out) + if o.Forwarded? then [o.w] else []
  {
    assert (out + [o])[..|out|] == out;
  }

  lemma StepForwards(env: Env, s: State, a: Action)
    requires Enabled(env, s, a)
    ensures ForwardedOf(Apply(env, s, a).out)
         == ForwardedOf(s.out) + if IsEmit(a) then [s.sessions[a.id].w] else []
  {
    hide ForwardedOf, Validate, Outgoing, IsPrintable;
    match a {
      case Forward(id, sent) =>
        ForwardedSnoc(s.out, Forwarded(s.sessions[id].w));
      case SendReport(id, sent) =>
        ForwardedSnoc(s.out, Report(s.sessions[id].report));
      case _ =>
    }
  }

  lemma EmitsSnoc(acts: seq<Action>, n: nat)
    requires n < |acts|
    ensures Emits(acts[..n + 1]) == Emits(acts[..n]) + if IsEmit(acts[n]) then [n] else []
  {
    assert acts[..n + 1][..n] == acts[..n];
  }

  /** The k-th forwarded message is the one that was being sent at the k-th emitting step. */
  ghost predicate SentAt(states: seq<State>, acts: seq<Action>, es: seq<nat>, outs: seq<SyslogMessage>) {
    && |es| == |outs|
    && forall k :: 0 <= k < |es| ==>
         && es[k] < |states| && es[k] < |acts| && acts[es[k]].Forward?
         && At(states[es[k]], acts[es[k]].id, Sending(outs[k]))
  }

  lemma SentAtNext(
    states: seq<State>, acts: seq<Action>, es: seq<nat>, outs: seq<SyslogMessage>, e: nat, w: SyslogMessage)
    requires SentAt(states, acts, es, outs)
    requires e < |states| && e < |acts| && acts[e].Forward? && At(states[e], acts[e].id, Sending(w))
    ensures SentAt(states, acts, es + [e], outs + [w])
  {
  }

  lemma {:induction false} OutputsAreEmits(env: Env, states: seq<State>, acts: seq<Action>, n: nat)
    requires IsRun(env, states, acts) && n <= |acts|
    ensures SentAt(states, acts, Emits(acts[..n]), ForwardedOf(states[n].out))
  {
    if n == 0 {
      assert acts[..0] == [];
    } else {
      hide ForwardedOf, Apply, SentAt, Emits;
      OutputsAreEmits(env, states, acts, n - 1);
      var s, a := states[n - 1], acts[n - 1];
      assert Steps(env, s, a, states[n]);
      var es, outs := Emits(acts[..n - 1]), ForwardedOf(s.out);
      EmitsSnoc(acts, n - 1);
      StepForwards(env, s, a);
      if IsEmit(a) {
        SentAtNext(states, acts, es, outs, n - 1, s.sessions[a.id].w);
      }
      assert es + [] == es && outs + [] == outs;
    }
  }

  /** Two messages that go out at different steps were decoded at different steps, and those of
      one session in the same order. */
  lemma OriginsDiffer(
    env: Env, states: seq<State>, acts: seq<Action>, e: nat, w: SyslogMessage, j: nat, i: nat, m: SyslogMessage,
    e': nat, w': SyslogMessage, j': nat, i': nat, m': SyslogMessage)
    requires |states| == |acts| + 1 && e < e' < |acts| && IsEmit(acts[e]) && IsEmit(acts[e'])
    requires ComesFrom(env, states, acts, e, acts[e].id, w, j, i, m)
    requires ComesFrom(env, states, acts, e', acts[e'].id, w', j', i', m')
    ensures j != j'
    ensures acts[e].id == acts[e'].id ==> j < e < j'
  {
    hide Validate, Outgoing, IsPrintable;
    if acts[e].id == acts[e'].id {
      assert !IsQuiet(acts[e], acts[e].id);
      assert e <= j';
    }
  }

  /** The k-th message went out at step `es[k]`, and it is legitimate there. */
  ghost predicate AllLegitimate(
    env: Env, states: seq<State>, acts: seq<Action>, es: seq<nat>, outs: seq<SyslogMessage>)
    requires |states| == |acts| + 1 && |es| == |outs|
  {
    forall k :: 0 <= k < |es| ==>
      && es[k] < |acts| && IsEmit(acts[es[k]])
      && IsLegitimate(env, states, acts, es[k], acts[es[k]].id, outs[k])
  }

  /** No two of the messages come from one decoded message, and those of one session were decoded
      in the order in which they went out, each after the one before had gone out. */
  ghost predicate OriginsKept(
    env: Env, states: seq<State>, acts: seq<Action>, es: seq<nat>, outs: seq<SyslogMessage>)
    requires |states| == |acts| + 1 && |es| == |outs| && AllLegitimate(env, states, acts, es, outs)
  {
    forall k, l, j: nat, i: nat, m, j': nat, i': nat, m' ::
      && 0 <= k < l < |es|
      && ComesFrom(env, states, acts, es[k], acts[es[k]].id, outs[k], j, i, m)
      && ComesFrom(env, states, acts, es[l], acts[es[l]].id, outs[l], j', i', m') ==>
        j != j' && (acts[es[k]].id == acts[es[l]].id ==> j < es[k] < j')
  }

  /** The JSON library is lawful on the payload of every message decoded in the run. */
  ghost predicate DecodesLawful(lib: JsonLib, acts: seq<Action>) {
    forall k :: 0 <= k < |acts| && acts[k].Decode? ==> IsLawfulOn(lib, Bare(acts[k].msg.msg))
  }

  /** Whatever decoded message one of the messages comes from, it is that message prepared by the
      validator of its snapshot. */
  ghost predicate AllPrepared(
    env: Env, states: seq<State>, acts: seq<Action>, es: seq<nat>, outs: seq<SyslogMessage>)
    requires |states| == |acts| + 1 && |es| == |outs| && AllLegitimate(env, states, acts, es, outs)
  {
    forall k, j: nat, i: nat, m ::
      && 0 <= k < |es| && ComesFrom(env, states, acts, es[k], acts[es[k]].id, outs[k], j, i, m) ==>
        IsPrepared(env, states[i].current, m, outs[k])
  }

  lemma EmitsPrepared(
    env: Env, states: seq<State>, acts: seq<Action>, es: seq<nat>, outs: seq<SyslogMessage>)
    requires |states| == |acts| + 1 && |es| == |outs| && AllLegitimate(env, states, acts, es, outs)
    requires DecodesLawful(env.lib, acts)
    ensures AllPrepared(env, states, acts, es, outs)
  {
    hide IsLegitimate, IsPrepared, Validate, Outgoing, IsPrintable, IsLawfulOn;
    forall k, j: nat, i: nat, m
      | && 0 <= k < |es| && ComesFrom(env, states, acts, es[k], acts[es[k]].id, outs[k], j, i, m)
      ensures IsPrepared(env, states[i].current, m, outs[k])
    {
      OutgoingIsPrepared(env, states[i].current, m);
    }
  }

  lemma EmitsKeepOrigins(env: Env, states: seq<State>, acts: seq<Action>, n: nat, outs: seq<SyslogMessage>)
    requires |states| == |acts| + 1 && n <= |acts| && |Emits(acts[..n])| == |outs|
    requires AllLegitimate(env, states, acts, Emits(acts[..n]), outs)
    ensures OriginsKept(env, states, acts, Emits(acts[..n]), outs)
  {
    hide ComesFrom, IsLegitimate;
    var es := Emits(acts[..n]);
    forall k, l, j: nat, i: nat, m, j': nat, i': nat, m' |
      && 0 <= k < l < |es|
      && ComesFrom(env, states, acts, es[k], acts[es[k]].id, outs[k], j, i, m)
      && ComesFrom(env, states, acts, es[l], acts[es[l]].id, outs[l], j', i', m')
      ensures j != j' && (acts[es[k]].id == acts[es[l]].id ==> j < es[k] < j')
    {
      OriginsDiffer(env, states, acts, es[k], outs[k], j, i, m, es[l], outs[l], j', i', m');
    }
  }

  lemma EmitsLegitimate(env: Env, states: seq<State>, acts: seq<Action>, n: nat)
    requires IsRun(env, states, acts) && n <= |acts|
    ensures |Emits(acts[..n])| == |ForwardedOf(states[n].out)|
    ensures AllLegitimate(env, states, acts, Emits(acts[..n]), ForwardedOf(states[n].out))
  {
    OutputsAreEmits(env, states, acts, n);
    var es, outs := Emits(acts[..n]), ForwardedOf(states[n].out);
    hide ForwardedOf, IsLegitimate, IsRun;
    forall k | 0 <= k < |es|
      ensures && es[k] < |acts| && IsEmit(acts[es[k]])
              && IsLegitimate(env, states, acts, es[k], acts[es[k]].id, outs[k])
    {
      assert acts[..n][es[k]] == acts[es[k]];
      PhasesOk(env, states, acts, es[k]);
      assert PhaseOk(env, states, acts, es[k], acts[es[k]].id, Sending(outs[k]));
    }
  }

  /** Filter safety: in every run, every forwarded message that is not a rejection report is
      the prepared, possibly rewritten form of a decoded message that passed validation, and
      one validator, the one current at that message's snapshot, did both. Each decoded message
      accounts for at most one forwarded message, and those of one session keep their order. Where
      the JSON library is lawful, what is forwarded has the payload the validator asks for and, of
      the other fields, exactly those that the sender mode changes differ. */
  lemma FilterSafety(env: Env, states: seq<State>, acts: seq<Action>, n: nat)
    requires IsRun(env, states, acts) && n <= |acts|
    ensures |Emits(acts[..n])| == |ForwardedOf(states[n].out)|
    ensures AllLegitimate(env, states, acts, Emits(acts[..n]), ForwardedOf(states[n].out))
    ensures OriginsKept(env, states, acts, Emits(acts[..n]), ForwardedOf(states[n].out))
    ensures DecodesLawful(env.lib, acts) ==>
              AllPrepared(env, states, acts, Emits(acts[..n]), ForwardedOf(states[n].out))
  {
    hide AllLegitimate, OriginsKept, AllPrepared, DecodesLawful;
    EmitsLegitimate(env, states, acts, n);
    EmitsKeepOrigins(env, states, acts, n, ForwardedOf(states[n].out));
    if DecodesLawful(env.lib, acts) {
      EmitsPrepared(env, states, acts, Emits(acts[..n]), ForwardedOf(states[n].out));
    }
  }

  /** In original-sender mode the receiver parses exactly the prepared message from the wire. */
  lemma ForwardedParsesBack(env: Env, states: seq<State>, acts: seq<Action>, n: nat, k: nat)
    requires IsRun(env, states, acts) && n <= |acts| && DecodesLawful(env.lib, acts) && env.sender == Original
    requires k < |ForwardedOf(states[n].out)|
    ensures Parse(Display(ForwardedOf(states[n].out)[k])) == Ok(ForwardedOf(states[n].out)[k])
  {
    hide Validate, Prepare, Parse, Display, ForwardedOf, IsPrintable, IsLawfulOn;
    FilterSafety(env, states, acts, n);
    var w, e := ForwardedOf(states[n].out)[k], Emits(acts[..n])[k];
    var j: nat, i: nat, m: SyslogMessage :| ComesFrom(env, states, acts, e, acts[e].id, w, j, i, m);
    PreparedIsPrintable(env.lib, states[i].current, m);
    DisplayParse(w);
  }

  /** A receiver parses `w` as the rewritten form of a message that session `id` decoded before
      step `n`, passed and prepared by the validator of that message's snapshot. */
  ghost predicate IsSeen(env: Env, states: seq<State>, acts: seq<Action>, n: nat, id: nat, w: SyslogMessage)
    requires |states| == |acts| + 1
  {
    exists j: nat, i: nat, m: SyslogMessage ::
      && TookSnapshot(states, acts, j, i, n, id, m) && Validate(env.lib, states[i].current, m).Ok?
      && Parse(Display(w)) == Ok(Seen(Prepare(env.lib, states[i].current, m), env.localHostname, env.pid))
  }

  lemma LegitimateIsSeen(env: Env, states: seq<State>, acts: seq<Action>, n: nat, id: nat, w: SyslogMessage)
    requires |states| == |acts| + 1 && IsLegitimate(env, states, acts, n, id, w)
    requires DecodesLawful(env.lib, acts) && env.sender == Logfenced
    requires IsPrintUsAscii(env.localHostname, 255) && env.pid < 0x1_0000_0000
    ensures IsSeen(env, states, acts, n, id, w)
  {
    hide Validate, Prepare, Parse, Display, Seen, RewriteSender, IsPrintable, IsLawfulOn;
    var j: nat, i: nat, m: SyslogMessage :| ComesFrom(env, states, acts, n, id, w, j, i, m);
    PreparedIsPrintable(env.lib, states[i].current, m);
    RewriteSeen(Prepare(env.lib, states[i].current, m), env.localHostname, env.pid);
  }

  /** In logfenced-sender mode, with a valid local hostname, it parses the rewritten form of the
      prepared message as `Rewrite.Seen` says. */
  lemma RewrittenParsesBack(env: Env, states: seq<State>, acts: seq<Action>, n: nat, k: nat)
    requires IsRun(env, states, acts) && n <= |acts| && DecodesLawful(env.lib, acts) && env.sender == Logfenced
    requires IsPrintUsAscii(env.localHostname, 255) && env.pid < 0x1_0000_0000
    requires k < |ForwardedOf(states[n].out)|
    ensures |Emits(acts[..n])| == |ForwardedOf(states[n].out)|
    ensures var e := Emits(acts[..n])[k];
            IsSeen(env, states, acts, e, acts[e].id, ForwardedOf(states[n].out)[k])
  {
    hide IsLegitimate, IsSeen, DecodesLawful, ForwardedOf;
    FilterSafety(env, states, acts, n);
    var e := Emits(acts[..n])[k];
    LegitimateIsSeen(env, states, acts, e, acts[e].id, ForwardedOf(states[n].out)[k]);
  }

  /** The validator in force is the last one a successful reload installed; a failed reload,
      like every step of a session, leaves it alone. */
  lemma {:induction false} CurrentIsLastReload(env: Env, states: seq<State>, acts: seq<Action>, i: nat, n: nat)
    requires IsRun(env, states, acts) && i <= n <= |acts|
    requires forall k :: i <= k < n ==> !acts[k].Reload?
    ensures states[n].current == states[i].current
    ensures n < |acts| && acts[n].Reload? ==> states[n + 1].current == acts[n].v
    decreases n
  {
    assert n < |acts| ==> Steps(env, states[n], acts[n], states[n + 1]);
    if i < n {
      assert Steps(env, states[n - 1], acts[n - 1], states[n]);
      CurrentIsLastReload(env, states, acts, i, n - 1);
    }
  }
}
