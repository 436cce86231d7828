/** The stream listener's permits: an accept loop that takes one semaphore permit per session,
    shutdown at either of its two waits, and the drain that follows. */
module Listener {
  import opened Text

  /** Waiting for a permit; holding one and waiting for a connection; waiting for the sessions
      to finish; done. */
  datatype Phase = Acquiring | Accepting | Draining | Drained

  datatype State = State(phase: Phase, cancelled: bool, free: nat, sessions: set<nat>)

  datatype Action =
    | Cancel
    | Acquire
    | AcceptFailed
    | Accept(id: nat)
    | Break
    | Finish(id: nat)
    | DrainDone

  function Init(max: nat): State {
    State(Acquiring, false, max, {})
  }

  /** The permits the drain asks for: `u32::try_from(max).unwrap_or(u32::MAX)`. */
  function DrainTotal(max: nat): nat {
    if max <= U32_MAX then max else U32_MAX
  }

  /** Both selects look at cancellation first. */
  predicate Enabled(max: nat, s: State, a: Action) {
    match a
    case Cancel => true
    case Acquire => s.phase == Acquiring && !s.cancelled && s.free > 0
    case AcceptFailed => s.phase == Accepting && !s.cancelled
    case Accept(id) => s.phase == Accepting && !s.cancelled && id !in s.sessions
    case Break => (s.phase == Acquiring || s.phase == Accepting) && s.cancelled
    case Finish(id) => id in s.sessions
    case DrainDone => s.phase == Draining && s.free >= DrainTotal(max)
  }

  /** The permit the loop itself holds; leaving the loop drops it. */
  function Held(s: State): nat {
    if s.phase == Accepting then 1 else 0
  }

  function Apply(max: nat, s: State, a: Action): State
    requires Enabled(max, s, a)
  {
    match a
    case Cancel => s.(cancelled := true)
    case Acquire => s.(phase := Accepting, free := s.free - 1)
    case AcceptFailed => s.(phase := Acquiring, free := s.free + 1)
    case Accept(id) => s.(phase := Acquiring, sessions := s.sessions + {id})
    case Break => s.(phase := Draining, free := s.free + Held(s))
    case Finish(id) => s.(free := s.free + 1, sessions := s.sessions - {id})
    case DrainDone => s.(phase := Drained)
  }

  function After(max: nat, s: State, acts: seq<Action>): Option<State>
    decreases |acts|
  {
    if acts == [] then Some(s)
    else if !Enabled(max, s, acts[0]) then None
    else After(max, Apply(max, s, acts[0]), acts[1..])
  }

  predicate IsAccounted(max: nat, s: State) {
    s.free + Held(s) + |s.sessions| == max
  }

  lemma StepAccounts(max: nat, s: State, a: Action)
    requires IsAccounted(max, s) && Enabled(max, s, a)
    ensures IsAccounted(max, Apply(max, s, a))
  {
    match a
    case Accept(id) => assert |s.sessions + {id}| == |s.sessions| + 1;
    case Finish(id) => assert |s.sessions - {id}| == |s.sessions| - 1;
    case _ =>
  }

  lemma {:induction false} RunAccounts(max: nat, s: State, acts: seq<Action>)
    requires IsAccounted(max, s) && After(max, s, acts).Some?
    ensures IsAccounted(max, After(max, s, acts).value)
    decreases |acts|
  {
    if acts != [] {
      StepAccounts(max, s, acts[0]);
      RunAccounts(max, Apply(max, s, acts[0]), acts[1..]);
    }
  }

  /** Permit accounting: after every step of every run the free permits, the loop's own and
      the sessions' add up to the limit, so sessions never exceed it; and once the loop has
      left either wait it holds none. */
  lemma PermitsAccounted(max: nat, acts: seq<Action>)
    requires After(max, Init(max), acts).Some?
    ensures var s := After(max, Init(max), acts).value;
            && s.free + Held(s) + |s.sessions| == max && |s.sessions| <= max
            && (s.phase == Draining || s.phase == Drained ==> s.free + |s.sessions| == max)
  {
    RunAccounts(max, Init(max), acts);
  }

  /** A run that fills the daemon with `k` sessions. */
  function FillRun(k: nat): seq<Action> {
    if k == 0 then [] else FillRun(k - 1) + [Acquire, Accept(k - 1)]
  }

  function UpTo(k: nat): (ids: set<nat>)
    ensures |ids| == k && forall i :: i in ids ==> i < k
  {
    if k == 0 then {} else UpTo(k - 1) + {k - 1}
  }

  lemma {:induction false} AfterJoin(max: nat, s: State, a: seq<Action>, b: seq<Action>)
    requires After(max, s, a).Some?
    ensures After(max, s, a + b) == After(max, After(max, s, a).value, b)
    decreases |a|
  {
    if a == [] {
      assert a + b == b;
    } else {
      assert (a + b)[1..] == a[1..] + b;
      AfterJoin(max, Apply(max, s, a[0]), a[1..], b);
    }
  }

  lemma FillStep(max: nat, s: State, id: nat)
    requires s.phase == Acquiring && !s.cancelled && s.free > 0 && id !in s.sessions
    ensures After(max, s, [Acquire, Accept(id)]) == Some(s.(free := s.free - 1, sessions := s.sessions + {id}))
  {
    var s1 := s.(phase := Accepting, free := s.free - 1);
    var s2 := s.(free := s.free - 1, sessions := s.sessions + {id});
    assert [Acquire, Accept(id)][1..] == [Accept(id)] && [Accept(id)][1..] == [];
    assert After(max, s2, []) == Some(s2);
    assert After(max, s1, [Accept(id)]) == Some(s2);
  }

  lemma {:induction false} Filled(max: nat, k: nat)
    requires k <= max
    ensures After(max, Init(max), FillRun(k)) == Some(State(Acquiring, false, max - k, UpTo(k)))
  {
    if k > 0 {
      hide After;
      Filled(max, k - 1);
      AfterJoin(max, Init(max), FillRun(k - 1), [Acquire, Accept(k - 1)]);
      FillStep(max, State(Acquiring, false, max - k + 1, UpTo(k - 1)), k - 1);
    }
  }

  /** The limit can be reached: some run has that many sessions active at once. */
  lemma LimitReached(max: nat)
    ensures exists acts: seq<Action> ::
              After(max, Init(max), acts).Some? && |After(max, Init(max), acts).value.sessions| == max
  {
    Filled(max, max);
  }

  /** Before cancellation the loop takes a permit exactly when fewer sessions than the limit are
      active, and then accepts any connection, or fails to; after it, no connection is accepted and
      the loop can be left. Cancellation can come, and an active session end, at any time. */
  lemma AdmitsExactly(max: nat, acts: seq<Action>, id: nat)
    requires After(max, Init(max), acts).Some?
    ensures var s := After(max, Init(max), acts).value;
            && (s.phase == Acquiring ==> (Enabled(max, s, Acquire) <==> !s.cancelled && |s.sessions| < max))
            && (s.phase == Accepting ==> (Enabled(max, s, Accept(id)) <==> !s.cancelled && id !in s.sessions))
            && (s.phase != Accepting ==> !Enabled(max, s, Accept(id)))
            && (s.phase == Accepting ==> (Enabled(max, s, AcceptFailed) <==> !s.cancelled))
            && (s.phase == Acquiring || s.phase == Accepting ==> (Enabled(max, s, Break) <==> s.cancelled))
            && Enabled(max, s, Cancel) && (Enabled(max, s, Finish(id)) <==> id in s.sessions)
  {
    RunAccounts(max, Init(max), acts);
  }

  /** From cancellation on, sessions only end. */
  lemma {:induction false} NoneAfterCancel(max: nat, s: State, acts: seq<Action>)
    requires s.cancelled && After(max, s, acts).Some?
    ensures forall a :: a in acts ==> !a.Acquire? && !a.Accept?
    ensures After(max, s, acts).value.sessions <= s.sessions
    decreases |acts|
  {
    if acts != [] {
      NoneAfterCancel(max, Apply(max, s, acts[0]), acts[1..]);
      assert acts == [acts[0]] + acts[1..];
    }
  }

  // ── The drain ──────────────────────────────────────────────────────────────

  predicate LeaksAfter(max: nat, acts: seq<Action>) {
    var s := After(max, Init(max), acts);
    s.Some? && Enabled(max, s.value, DrainDone) && s.value.sessions != {}
  }

  /** The drain can complete while a session is still active, after some run. */
  ghost predicate CanLeakSession(max: nat) {
    exists acts: seq<Action> :: LeaksAfter(max, acts)
  }

  lemma LeakingRun(max: nat)
    requires max > U32_MAX
    ensures LeaksAfter(max, [Acquire, Accept(0), Cancel, Break])
  {
    var s1 := State(Accepting, false, max - 1, {});
    var s2 := State(Acquiring, false, max - 1, {0});
    var s3 := State(Acquiring, true, max - 1, {0});
    var s4 := State(Draining, true, max - 1, {0});
    assert After(max, s4, []) == Some(s4);
    assert [Break][1..] == [];
    assert After(max, s3, [Break]) == Some(s4);
    assert [Cancel, Break][1..] == [Break];
    assert After(max, s2, [Cancel, Break]) == Some(s4);
    assert [Accept(0), Cancel, Break][1..] == [Cancel, Break];
    assert {} + {0} == {0};
    assert After(max, s1, [Accept(0), Cancel, Break]) == Some(s4);
    assert [Acquire, Accept(0), Cancel, Break][1..] == [Accept(0), Cancel, Break];
    assert After(max, Init(max), [Acquire, Accept(0), Cancel, Break]) == Some(s4);
  }

  /** A completed drain means no active session, in every run, if and only if the limit fits
      32 bits. */
  lemma DrainIsComplete(max: nat)
    requires max >= 1
    ensures !CanLeakSession(max) <==> max <= 4_294_967_295
  {
    if max <= U32_MAX {
      forall acts: seq<Action> ensures !LeaksAfter(max, acts) {
        if After(max, Init(max), acts).Some? {
          RunAccounts(max, Init(max), acts);
        }
      }
    } else {
      LeakingRun(max);
    }
  }

  /** Within 32 bits the drain waits for the last session and for nothing else. */
  lemma DrainEnabledExactly(max: nat, acts: seq<Action>)
    requires max <= U32_MAX && After(max, Init(max), acts).Some?
    requires After(max, Init(max), acts).value.phase == Draining
    ensures Enabled(max, After(max, Init(max), acts).value, DrainDone)
       <==> After(max, Init(max), acts).value.sessions == {}
  {
    RunAccounts(max, Init(max), acts);
  }
}
