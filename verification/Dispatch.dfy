/** The datagram listener: one receiving loop deals datagrams round-robin to a fixed pool of
    workers over bounded channels, and drains the pool on shutdown. Steps of the loop and of
    the workers interleave freely, and a worker may die of a panic while it processes a datagram. */
module Dispatch {
  import opened Text

  const WORKER_CHANNEL_CAP: nat := 256

  type Item = Bytes

  /** Where the receiving loop is. */
  datatype Phase = Waiting | Receiving | Dispatching | Closed

  datatype State = State(
    phase: Phase,
    received: seq<Item>,          // everything taken from the socket, in order
    batch: seq<Item>,             // received in this wake-up and not yet dealt
    workerIdx: nat,
    channels: seq<seq<Item>>,     // what each worker's channel holds
    busy: seq<Option<Item>>,      // what each worker is processing
    finished: seq<seq<Item>>,     // what each worker has processed
    dead: seq<bool>,              // which workers have died
    lost: seq<seq<Item>>,         // what each worker had in hand and in its channel when it died
    dropped: seq<Item>            // the rest of the batch when the loop met a dead worker
  )

  predicate IsPool(n: nat, s: State) {
    |s.channels| == |s.busy| == |s.finished| == |s.dead| == |s.lost| == n
  }

  datatype Action =
    | Readable
    | Recv(item: Item)
    | WouldBlock
    | Deal
    | BatchDone
    | Cancelled
    | Take(worker: nat)
    | Finish(worker: nat)
    | Die(worker: nat)
    | MeetDead

  predicate Enabled(n: nat, s: State, a: Action)
    requires IsPool(n, s)
  {
    match a
    case Readable => s.phase == Waiting
    case Recv(_) => s.phase == Receiving
    case WouldBlock => s.phase == Receiving
    case Deal =>
      && s.phase == Dispatching && s.batch != [] && s.workerIdx < n && !s.dead[s.workerIdx]
      && |s.channels[s.workerIdx]| < WORKER_CHANNEL_CAP
    case BatchDone => s.phase == Dispatching && s.batch == []
    case Cancelled => s.phase == Waiting
    case Take(w) => w < n && s.busy[w].None? && s.channels[w] != []
    case Finish(w) => w < n && s.busy[w].Some?
    case Die(w) => w < n && s.busy[w].Some?
    case MeetDead => s.phase == Dispatching && s.batch != [] && s.workerIdx < n && s.dead[s.workerIdx]
  }

  function Apply(n: nat, s: State, a: Action): (s': State)
    requires IsPool(n, s) && Enabled(n, s, a)
    ensures IsPool(n, s')
  {
    match a
    case Readable => s.(phase := Receiving)
    case Recv(item) => s.(received := s.received + [item], batch := s.batch + [item])
    case WouldBlock => s.(phase := Dispatching)
    case Deal =>
      var w := s.workerIdx;
      s.(batch := s.batch[1..],
         channels := s.channels[w := s.channels[w] + [s.batch[0]]],
         workerIdx := (w + 1) % n)
    case BatchDone => s.(phase := Waiting)
    case Cancelled => s.(phase := Closed)
    case Take(w) =>
      s.(busy := s.busy[w := Some(s.channels[w][0])], channels := s.channels[w := s.channels[w][1..]])
    case Finish(w) =>
      s.(busy := s.busy[w := None], finished := s.finished[w := s.finished[w] + [s.busy[w].value]])
    case Die(w) =>
      s.(busy := s.busy[w := None], channels := s.channels[w := []],
         dead := s.dead[w := true], lost := s.lost[w := [s.busy[w].value] + s.channels[w]])
    case MeetDead => s.(phase := Closed, batch := [], dropped := s.batch)
  }

  function Init(n: nat): State {
    State(Waiting, [], [], 0, seq(n, _ => []), seq(n, _ => None), seq(n, _ => []),
          seq(n, _ => false), seq(n, _ => []), [])
  }

  /** The state after a sequence of steps, when each one can happen in turn. */
  function After(n: nat, s: State, acts: seq<Action>): (r: Option<State>)
    requires IsPool(n, s)
    ensures r.Some? ==> IsPool(n, r.value)
    decreases |acts|
  {
    if acts == [] then Some(s)
    else if !Enabled(n, s, acts[0]) then None
    else After(n, Apply(n, s, acts[0]), acts[1..])
  }

  // ── The share of one worker ────────────────────────────────────────────────

  /** The datagrams at positions congruent to `w` modulo `n`, in order. */
  function Share(s: seq<Item>, w: nat, n: nat): seq<Item>
    requires n > 0
  {
    if s == [] then []
    else Share(s[..|s| - 1], w, n) + if (|s| - 1) % n == w then [s[|s| - 1]] else []
  }

  lemma ShareSnoc(s: seq<Item>, x: Item, w: nat, n: nat)
    requires n > 0
    ensures Share(s + [x], w, n) == Share(s, w, n) + if |s| % n == w then [x] else []
  {
    assert (s + [x])[..|s|] == s;
  }

  lemma MulAtLeast(n: int, d: int)
    requires n > 0
    ensures d >= 1 ==> n * d >= n
    ensures d <= -1 ==> n * d <= -n
  {
  }

  lemma QuotientUnique(n: nat, q: int, r: int, q': int, r': int)
    requires 0 <= r < n && 0 <= r' < n && n * q + r == n * q' + r'
    ensures q == q' && r == r'
  {
    MulAtLeast(n, q - q');
    assert n * (q - q') == n * q - n * q';
  }

  lemma DivUnique(k: nat, n: nat, q: nat, r: nat)
    requires r < n && k == n * q + r
    ensures k / n == q && k % n == r
  {
    var q', r' := k / n, k % n;
    assert k == n * q' + r';
    QuotientUnique(n, q, r, q', r');
  }

  lemma NextQuotient(k: nat, n: nat, q: nat, r: nat)
    requires r < n && k == n * q + r
    ensures if r == n - 1 then (k + 1) / n == q + 1 && (k + 1) % n == 0 && (r + 1) % n == 0
            else (k + 1) / n == q && (k + 1) % n == r + 1 && (r + 1) % n == r + 1
  {
    if r == n - 1 {
      assert n * (q + 1) == n * q + n;
      DivUnique(k + 1, n, q + 1, 0);
      DivUnique(r + 1, n, 1, 0);
    } else {
      DivUnique(k + 1, n, q, r + 1);
      DivUnique(r + 1, n, 0, r + 1);
    }
  }

  lemma DivStep(k: nat, n: nat)
    requires n > 0
    ensures if k % n == n - 1 then (k + 1) / n == k / n + 1 && (k + 1) % n == 0
            else (k + 1) / n == k / n && (k + 1) % n == k % n + 1
    ensures (k % n + 1) % n == (k + 1) % n
  {
    var q, r := k / n, k % n;
    assert k == n * q + r;
    NextQuotient(k, n, q, r);
    DivUnique(k, n, q, r);
  }

  /** Worker loads differ by at most one, and the k-th datagram is item k / n of worker k mod n. */
  lemma {:induction false} ShareExact(s: seq<Item>, w: nat, n: nat)
    requires w < n
    ensures |Share(s, w, n)| == |s| / n + if w < |s| % n then 1 else 0
    ensures forall k :: 0 <= k < |s| && k % n == w ==> k / n < |Share(s, w, n)| && Share(s, w, n)[k / n] == s[k]
  {
    if s == [] {
      DivUnique(0, n, 0, 0);
    } else {
      var init := s[..|s| - 1];
      ShareExact(init, w, n);
      DivStep(|init|, n);
    }
  }

  // ── The invariant ──────────────────────────────────────────────────────────

  /** What worker `w` has been given: processed, lost, in hand, and waiting in its channel. */
  function Given(s: State, w: nat): seq<Item>
    requires w < |s.channels| == |s.busy| == |s.finished| == |s.lost|
  {
    s.finished[w] + s.lost[w] + (if s.busy[w].Some? then [s.busy[w].value] else []) + s.channels[w]
  }

  /** The datagrams that went into a channel. */
  function Dealt(s: State): seq<Item> {
    var left := |s.batch| + |s.dropped|;
    if left <= |s.received| then s.received[..|s.received| - left] else []
  }

  /** A dead worker has lost a datagram and holds none; a live one has lost none. */
  predicate IsWorkerOk(n: nat, s: State, w: nat)
    requires IsPool(n, s) && w < n
  {
    && |s.channels[w]| <= WORKER_CHANNEL_CAP
    && (s.dead[w] ==> s.lost[w] != [] && s.busy[w].None? && s.channels[w] == [])
    && (!s.dead[w] ==> s.lost[w] == [])
  }

  predicate IsGood(n: nat, s: State) {
    && IsPool(n, s) && n > 0
    && s.received == Dealt(s) + s.batch + s.dropped
    && (s.phase == Waiting || s.phase == Closed ==> s.batch == [])
    && (s.dropped != [] ==> s.phase == Closed && exists w :: 0 <= w < n && s.dead[w])
    && (s.phase != Closed ==> s.workerIdx == |Dealt(s)| % n)
    && forall w :: 0 <= w < n ==> IsWorkerOk(n, s, w) && Given(s, w) == Share(Dealt(s), w, n)
  }

  lemma DealKeeps(n: nat, s: State)
    requires IsGood(n, s) && Enabled(n, s, Deal)
    ensures IsGood(n, Apply(n, s, Deal))
  {
    var s' := Apply(n, s, Deal);
    var x := s.batch[0];
    assert Dealt(s') == Dealt(s) + [x];
    DivStep(|Dealt(s)|, n);
    forall w | 0 <= w < n ensures IsWorkerOk(n, s', w) && Given(s', w) == Share(Dealt(s'), w, n) {
      ShareSnoc(Dealt(s), x, w, n);
      assert w == s.workerIdx ==> Given(s', w) == Given(s, w) + [x];
      assert w != s.workerIdx ==> Given(s', w) == Given(s, w);
    }
    assert s'.received == Dealt(s') + s'.batch + s'.dropped;
  }

  lemma WorkerKept(n: nat, s: State, a: Action, w: nat)
    requires IsPool(n, s) && w < n && IsWorkerOk(n, s, w)
    requires Enabled(n, s, a) && (a.Take? || a.Finish? || a.Die?)
    ensures IsWorkerOk(n, Apply(n, s, a), w) && Given(Apply(n, s, a), w) == Given(s, w)
    ensures s.dead[w] ==> Apply(n, s, a).dead[w]
  {
    if w == a.worker && a.Take? {
      assert s.channels[w] == [s.channels[w][0]] + s.channels[w][1..];
    }
  }

  lemma WorkerKeeps(n: nat, s: State, a: Action)
    requires IsGood(n, s) && Enabled(n, s, a) && (a.Take? || a.Finish? || a.Die?)
    ensures IsGood(n, Apply(n, s, a))
  {
    hide Given, IsWorkerOk, Share;
    var s' := Apply(n, s, a);
    assert Dealt(s') == Dealt(s);
    forall w | 0 <= w < n
      ensures IsWorkerOk(n, s', w) && Given(s', w) == Given(s, w) && (s.dead[w] ==> s'.dead[w])
    {
      WorkerKept(n, s, a, w);
    }
  }

  lemma MeetDeadKeeps(n: nat, s: State)
    requires IsGood(n, s) && Enabled(n, s, MeetDead)
    ensures IsGood(n, Apply(n, s, MeetDead))
  {
    var s' := Apply(n, s, MeetDead);
    assert s'.dead[s.workerIdx];
    assert Dealt(s') == Dealt(s);
    assert forall w :: 0 <= w < n ==> Given(s', w) == Given(s, w) && (IsWorkerOk(n, s, w) ==> IsWorkerOk(n, s', w));
  }

  lemma StepKeeps(n: nat, s: State, a: Action)
    requires IsGood(n, s) && Enabled(n, s, a)
    ensures IsGood(n, Apply(n, s, a))
  {
    if a.Deal? {
      DealKeeps(n, s);
    } else if a.Take? || a.Finish? || a.Die? {
      WorkerKeeps(n, s, a);
    } else if a.MeetDead? {
      MeetDeadKeeps(n, s);
    } else {
      var s' := Apply(n, s, a);
      assert Dealt(s') == Dealt(s);
      assert forall w :: 0 <= w < n ==> Given(s', w) == Given(s, w) && (IsWorkerOk(n, s, w) ==> IsWorkerOk(n, s', w));
    }
  }

  lemma {:induction false} RunKeeps(n: nat, s: State, acts: seq<Action>)
    requires IsGood(n, s) && After(n, s, acts).Some?
    ensures IsGood(n, After(n, s, acts).value)
    decreases |acts|
  {
    if acts != [] {
      StepKeeps(n, s, acts[0]);
      RunKeeps(n, Apply(n, s, acts[0]), acts[1..]);
    }
  }

  // ── Main results ───────────────────────────────────────────────────────────

  lemma InitGood(n: nat)
    requires n > 0
    ensures IsGood(n, Init(n))
  {
    DivUnique(0, n, 0, 0);
  }

  /** The datagrams read from the socket, in order. */
  function Recvd(acts: seq<Action>): seq<Item> {
    if acts == [] then [] else (if acts[0].Recv? then [acts[0].item] else []) + Recvd(acts[1..])
  }

  lemma RecvStep(n: nat, s: State, a: Action)
    requires IsPool(n, s) && Enabled(n, s, a)
    ensures Apply(n, s, a).received == s.received + if a.Recv? then [a.item] else []
  {
  }

  /** All of them, and nothing else, is in the account of what was received. */
  lemma {:induction false} ReceivedExactly(n: nat, s: State, acts: seq<Action>)
    requires IsPool(n, s) && After(n, s, acts).Some?
    ensures After(n, s, acts).value.received == s.received + Recvd(acts)
    decreases |acts|
  {
    hide Apply, Enabled;
    if acts == [] {
      assert s.received + [] == s.received;
    } else {
      var first, later := if acts[0].Recv? then [acts[0].item] else [], Recvd(acts[1..]);
      RecvStep(n, s, acts[0]);
      ReceivedExactly(n, Apply(n, s, acts[0]), acts[1..]);
      assert s.received + first + later == s.received + (first + later);
    }
  }

  /** Every run: the k-th datagram dealt goes to worker k mod n as its next item, each worker
      takes its items in that order, loads differ by at most one, and no channel holds more than
      256; what is received is what was read from the socket. */
  lemma RoundRobin(n: nat, acts: seq<Action>, w: nat)
    requires w < n && After(n, Init(n), acts).Some?
    ensures var s := After(n, Init(n), acts).value;
            && s.received == Recvd(acts) && Dealt(s) <= s.received
            && |s.channels[w]| <= 256
            && (|Given(s, w)| == |Dealt(s)| / n || |Given(s, w)| == |Dealt(s)| / n + 1)
            && forall k :: 0 <= k < |Dealt(s)| && k % n == w ==>
                 k / n < |Given(s, w)| && Given(s, w)[k / n] == s.received[k]
  {
    InitGood(n);
    RunKeeps(n, Init(n), acts);
    ReceivedExactly(n, Init(n), acts);
    assert [] + Recvd(acts) == Recvd(acts);
    var s := After(n, Init(n), acts).value;
    assert IsWorkerOk(n, s, w);
    ShareExact(Dealt(s), w, n);
  }

  /** The loop has stopped, and every worker has emptied its channel and gone idle. */
  predicate IsDrained(s: State) {
    && s.phase == Closed
    && (forall w :: 0 <= w < |s.channels| ==> s.channels[w] == [])
    && (forall w :: 0 <= w < |s.busy| ==> s.busy[w].None?)
  }

  function Together(parts: seq<seq<Item>>): multiset<Item> {
    if parts == [] then multiset{} else Together(parts[..|parts| - 1]) + multiset(parts[|parts| - 1])
  }

  function Shares(s: seq<Item>, upTo: nat, n: nat): seq<seq<Item>>
    requires n > 0
  {
    seq(upTo, w requires 0 <= w => Share(s, w, n))
  }

  lemma {:induction false} SharesGrow(s: seq<Item>, x: Item, upTo: nat, n: nat)
    requires n > 0
    ensures Together(Shares(s + [x], upTo, n))
         == Together(Shares(s, upTo, n)) + if |s| % n < upTo then multiset{x} else multiset{}
  {
    hide Share;
    if upTo > 0 {
      var a, b := Shares(s + [x], upTo, n), Shares(s, upTo, n);
      assert a[..upTo - 1] == Shares(s + [x], upTo - 1, n) && b[..upTo - 1] == Shares(s, upTo - 1, n);
      SharesGrow(s, x, upTo - 1, n);
      ShareSnoc(s, x, upTo - 1, n);
    }
  }

  lemma {:induction false} NothingShared(upTo: nat, n: nat)
    requires n > 0
    ensures Together(Shares([], upTo, n)) == multiset{}
  {
    if upTo > 0 {
      var a := Shares([], upTo, n);
      assert a[..upTo - 1] == Shares([], upTo - 1, n);
      NothingShared(upTo - 1, n);
    }
  }

  /** The shares of all workers together hold every datagram exactly once. */
  lemma {:induction false} SharesPartition(s: seq<Item>, n: nat)
    requires n > 0
    ensures Together(Shares(s, n, n)) == multiset(s)
  {
    if s == [] {
      NothingShared(n, n);
    } else {
      var init, last := s[..|s| - 1], s[|s| - 1];
      assert s == init + [last];
      SharesPartition(init, n);
      SharesGrow(init, last, n, n);
    }
  }

  lemma {:induction false} TogetherAdds(a: seq<seq<Item>>, b: seq<seq<Item>>, c: seq<seq<Item>>)
    requires |a| == |b| == |c| && forall w :: 0 <= w < |a| ==> c[w] == a[w] + b[w]
    ensures Together(c) == Together(a) + Together(b)
  {
    if a != [] {
      var k := |a| - 1;
      TogetherAdds(a[..k], b[..k], c[..k]);
    }
  }

  lemma {:induction false} TogetherHolds(parts: seq<seq<Item>>, w: nat)
    requires w < |parts|
    ensures multiset(parts[w]) <= Together(parts)
  {
    if w < |parts| - 1 {
      TogetherHolds(parts[..|parts| - 1], w);
    }
  }

  lemma {:induction false} NothingTogether(parts: seq<seq<Item>>)
    requires forall w :: 0 <= w < |parts| ==> parts[w] == []
    ensures Together(parts) == multiset{}
  {
    if parts != [] {
      NothingTogether(parts[..|parts| - 1]);
    }
  }

  /** Every datagram is accounted for: processed, lost with a worker that died, or dropped when the
      loop stopped at one. */
  lemma DrainedAccounts(n: nat, s: State)
    requires IsGood(n, s) && IsDrained(s)
    ensures Together(s.finished) + Together(s.lost) + multiset(s.dropped) == multiset(s.received)
    ensures forall w :: 0 <= w < n ==> s.finished[w] + s.lost[w] == Share(Dealt(s), w, n)
  {
    hide Share;
    var shares := Shares(Dealt(s), n, n);
    forall w | 0 <= w < n ensures s.finished[w] + s.lost[w] == Share(Dealt(s), w, n) {
      assert Given(s, w) == s.finished[w] + s.lost[w];
    }
    TogetherAdds(s.finished, s.lost, shares);
    SharesPartition(Dealt(s), n);
    assert s.received == Dealt(s) + s.dropped;
  }

  /** Dispatch conservation: once the loop has stopped and the drain has completed, every datagram
      ever read from the socket is accounted for; and all of them have been processed exactly once,
      by the worker whose turn it was and in the order received, if and only if no worker died. */
  lemma DrainedProcessesAll(n: nat, acts: seq<Action>)
    requires n > 0 && After(n, Init(n), acts).Some? && IsDrained(After(n, Init(n), acts).value)
    ensures var (s, all) := (After(n, Init(n), acts).value, Recvd(acts));
            && Together(s.finished) + Together(s.lost) + multiset(s.dropped) == multiset(all)
            && (Together(s.finished) == multiset(all) <==> forall w :: 0 <= w < n ==> !s.dead[w])
            && ((forall w :: 0 <= w < n ==> !s.dead[w]) ==>
                  forall w :: 0 <= w < n ==> s.finished[w] == Share(all, w, n))
  {
    InitGood(n);
    RunKeeps(n, Init(n), acts);
    ReceivedExactly(n, Init(n), acts);
    assert [] + Recvd(acts) == Recvd(acts);
    var s := After(n, Init(n), acts).value;
    DrainedAccounts(n, s);
    if w :| 0 <= w < n && s.dead[w] {
      TogetherHolds(s.lost, w);
      assert s.lost[w][0] in multiset(s.lost[w]);
      assert Together(s.lost)[s.lost[w][0]] > 0;
      assert (Together(s.finished) + Together(s.lost))[s.lost[w][0]] > Together(s.finished)[s.lost[w][0]];
    } else {
      NothingTogether(s.lost);
      assert Dealt(s) == s.received;
      assert forall w :: 0 <= w < n ==> s.finished[w] + s.lost[w] == s.finished[w];
    }
  }

  // ── Progress ───────────────────────────────────────────────────────────────

  /** The steps worker `w` still has to take for what it has. */
  function Pending(channel: seq<Item>, busy: Option<Item>): nat {
    2 * |channel| + if busy.Some? then 1 else 0
  }

  function Load(channels: seq<seq<Item>>, busy: seq<Option<Item>>): nat
    requires |channels| == |busy|
  {
    if channels == [] then 0
    else
      var k := |channels| - 1;
      Load(channels[..k], busy[..k]) + Pending(channels[k], busy[k])
  }

  lemma {:induction false} LoadChanges(
    channels: seq<seq<Item>>, busy: seq<Option<Item>>, w: nat, c: seq<Item>, b: Option<Item>)
    requires w < |channels| == |busy|
    ensures Load(channels[w := c], busy[w := b]) + Pending(channels[w], busy[w])
         == Load(channels, busy) + Pending(c, b)
  {
    var k := |channels| - 1;
    if w < k {
      LoadChanges(channels[..k], busy[..k], w, c, b);
      assert channels[w := c][..k] == channels[..k][w := c] && busy[w := b][..k] == busy[..k][w := b];
    } else {
      assert channels[w := c][..k] == channels[..k] && busy[w := b][..k] == busy[..k];
    }
  }

  lemma {:induction false} LoadZero(channels: seq<seq<Item>>, busy: seq<Option<Item>>)
    requires |channels| == |busy|
    ensures Load(channels, busy) == 0
       <==> forall w :: 0 <= w < |channels| ==> channels[w] == [] && busy[w].None?
  {
    if channels != [] {
      var k := |channels| - 1;
      LoadZero(channels[..k], busy[..k]);
    }
  }

  /** After the loop has stopped, every step is a worker's and lessens the load. */
  lemma ClosedStep(n: nat, s: State, a: Action)
    requires IsPool(n, s) && s.phase == Closed && Enabled(n, s, a)
    ensures var s' := Apply(n, s, a);
            s'.phase == Closed && Load(s'.channels, s'.busy) < Load(s.channels, s.busy)
  {
    var s', w := Apply(n, s, a), a.worker;
    assert s'.channels == s.channels[w := s'.channels[w]] && s'.busy == s.busy[w := s'.busy[w]];
    LoadChanges(s.channels, s.busy, w, s'.channels[w], s'.busy[w]);
  }

  lemma ClosedEnables(n: nat, s: State) returns (a: Action)
    requires IsPool(n, s) && s.phase == Closed && !IsDrained(s)
    ensures (a.Take? || a.Finish?) && Enabled(n, s, a)
  {
    var w :| 0 <= w < n && (s.channels[w] != [] || s.busy[w].Some?);
    a := if s.busy[w].Some? then Finish(w) else Take(w);
  }

  /** Once the loop has stopped the drain completes: no run from there is longer than the load, and
      as long as it is not drained some worker can go on. */
  lemma {:induction false} DrainCompletes(n: nat, s: State, acts: seq<Action>)
    requires IsPool(n, s) && s.phase == Closed && After(n, s, acts).Some?
    ensures var end := After(n, s, acts).value;
            && |acts| + Load(end.channels, end.busy) <= Load(s.channels, s.busy)
            && (IsDrained(end) <==> Load(end.channels, end.busy) == 0)
            && (!IsDrained(end) ==> exists a :: Enabled(n, end, a))
    decreases |acts|
  {
    if acts == [] {
      LoadZero(s.channels, s.busy);
      if !IsDrained(s) {
        var a := ClosedEnables(n, s);
      }
    } else {
      ClosedStep(n, s, acts[0]);
      DrainCompletes(n, Apply(n, s, acts[0]), acts[1..]);
    }
  }

  /** The loop is never stuck: it waits for the socket or for cancellation, it reads until the socket
      has no more, and a datagram to be dealt goes to its worker when that has fewer than 256
      waiting, stops the loop when it is dead, and else waits for that worker, which can go on. */
  lemma LoopProgress(n: nat, acts: seq<Action>)
    requires n > 0 && After(n, Init(n), acts).Some?
    ensures var s := After(n, Init(n), acts).value;
            match s.phase
            case Waiting => Enabled(n, s, Readable) && Enabled(n, s, Cancelled)
            case Receiving => Enabled(n, s, WouldBlock) && forall x :: Enabled(n, s, Recv(x))
            case Dispatching =>
              var w := s.workerIdx;
              if s.batch == [] then Enabled(n, s, BatchDone)
              else w < n && if s.dead[w] then Enabled(n, s, MeetDead)
                            else if |s.channels[w]| < 256 then Enabled(n, s, Deal)
                            else Enabled(n, s, Take(w)) || Enabled(n, s, Finish(w))
            case Closed => true
  {
    InitGood(n);
    RunKeeps(n, Init(n), acts);
  }
}
