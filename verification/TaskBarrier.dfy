/** The task barrier: a coordinator calls SyncTaskOneTime in a loop while k
    registered workers loop over wait, work and done. Every step is one critical
    section of MultiThreadSync or SemaphoreExImpl. A thread blocked on a
    condition variable runs again only when that variable is signalled, or
    spuriously. */
module TaskBarrier {
  import opened Arith
  import opened Counting

  /** A worker checks its flag, sleeps on it, or does its task. */
  datatype WorkerPc = Checking | Asleep | Working

  /** `posted` counts the times Signal has set the worker's flag, `dones` its
      calls of done. */
  datatype Worker = Worker(flag: bool, pc: WorkerPc, posted: nat, dones: nat)

  /** The coordinator is about to call Signal, tests the count in SemWait, or
      sleeps there. */
  datatype MainPc = Signalling | Counting | Sleeping

  /** `count` and `weight` are unsigned chars; `synced` counts the returns of
      SyncTaskOneTime. */
  datatype State = State(workers: seq<Worker>, count: nat, weight: nat, main: MainPc, synced: nat)

  datatype Action = StepWorker(i: nat) | StepMain | WakeWorker(i: nat) | WakeMain

  const UCHAR := 256

  /** k workers are registered; the control object was initialised for n. */
  function Init(k: nat, n: nat): State {
    State(seq(k, _ => Worker(false, Checking, 0, 0)), 0, n % UCHAR, Signalling, 0)
  }

  predicate Enabled(s: State, a: Action) {
    match a
    case StepWorker(i) => i < |s.workers| && !s.workers[i].pc.Asleep?
    case StepMain => !s.main.Sleeping?
    case WakeWorker(i) => i < |s.workers| && s.workers[i].pc.Asleep?
    case WakeMain => s.main.Sleeping?
  }

  function Raise(w: Worker): Worker {
    w.(flag := true, pc := if w.pc.Asleep? then Checking else w.pc, posted := w.posted + 1)
  }

  function Do(s: State, a: Action): State
    requires Enabled(s, a)
  {
    match a
    case StepWorker(i) =>
      var w := s.workers[i];
      if w.pc.Working? then
        // done: SemSignal adds the post weight 1 and signals the condition
        s.(workers := s.workers[i := w.(pc := Checking, dones := w.dones + 1)],
           count := (s.count + 1) % UCHAR,
           main := if s.main.Sleeping? then Counting else s.main)
      else if w.flag then s.(workers := s.workers[i := w.(flag := false, pc := Working)])
      else s.(workers := s.workers[i := w.(pc := Asleep)])
    case StepMain =>
      if s.main.Signalling? then
        s.(workers := seq(|s.workers|, i requires 0 <= i < |s.workers| => Raise(s.workers[i])), main := Counting)
      else if s.count < s.weight then s.(main := Sleeping)
      else s.(count := s.count - s.weight, main := Signalling, synced := s.synced + 1)
    case WakeWorker(i) => s.(workers := s.workers[i := s.workers[i].(pc := Checking)])
    case WakeMain => s.(main := Counting)
  }

  ghost predicate Next(s: State, t: State) {
    exists a :: Enabled(s, a) && t == Do(s, a)
  }

  /** The states of a run, from the initial one. */
  ghost predicate Trace(tr: seq<State>, k: nat, n: nat) {
    && tr != []
    && tr[0] == Init(k, n)
    && forall i, j :: 0 <= i < |tr| && j == i + 1 < |tr| ==> Next(tr[i], tr[j])
  }

  ghost predicate Reachable(s: State, k: nat, n: nat) {
    exists tr :: Trace(tr, k, n) && tr[|tr| - 1] == s
  }

  // ----- the invariant when no more workers than the weight are registered -----

  predicate Finished(w: Worker) { w.dones == w.posted }

  predicate WorkerOk(w: Worker, started: nat) {
    && w.posted == started
    && (w.flag ==> w.pc.Checking? && w.dones + 1 == w.posted)
    && (w.pc.Working? ==> w.dones + 1 == w.posted)
    && (!w.flag && !w.pc.Working? ==> w.dones == w.posted)
  }

  /** Calls of Signal so far. */
  function Started(s: State): nat { if s.main.Signalling? then s.synced else s.synced + 1 }

  predicate Inv(s: State, k: nat, n: nat) {
    && |s.workers| == k && s.weight == n % UCHAR
    && k <= s.weight
    && (forall i :: 0 <= i < k ==> WorkerOk(s.workers[i], Started(s)))
    && (s.main.Signalling? ==> s.count == 0 && forall i :: 0 <= i < k ==> Finished(s.workers[i]))
    && (!s.main.Signalling? ==> s.count == Count(s.workers, Finished))
    && (s.main.Sleeping? ==> s.count < s.weight)
  }

  lemma WorkerKeepsInv(s: State, i: nat, k: nat, n: nat)
    requires Inv(s, k, n) && Enabled(s, StepWorker(i))
    ensures Inv(Do(s, StepWorker(i)), k, n)
  {
    var t := Do(s, StepWorker(i));
    assert WorkerOk(s.workers[i], Started(s));
    CountUpdate(s.workers, i, t.workers[i], Finished);
    CountBound(s.workers, Finished);
    hide Count;
    assert forall j :: 0 <= j < k && j != i ==> t.workers[j] == s.workers[j];
  }

  lemma MainKeepsInv(s: State, k: nat, n: nat)
    requires Inv(s, k, n) && Enabled(s, StepMain)
    ensures Inv(Do(s, StepMain), k, n)
  {
    var t := Do(s, StepMain);
    CountBound(s.workers, Finished);
    CountBound(t.workers, Finished);
    forall j | 0 <= j < k ensures WorkerOk(t.workers[j], Started(t)) {
      assert WorkerOk(s.workers[j], Started(s));
    }
    if s.main.Signalling? {
      assert forall j :: 0 <= j < k ==> !Finished(t.workers[j]);
    }
  }

  lemma StepKeepsInv(s: State, a: Action, k: nat, n: nat)
    requires Inv(s, k, n) && Enabled(s, a)
    ensures Inv(Do(s, a), k, n)
  {
    match a
    case StepWorker(i) => WorkerKeepsInv(s, i, k, n);
    case StepMain => MainKeepsInv(s, k, n);
    case WakeWorker(i) =>
      var t := Do(s, a);
      CountUpdate(s.workers, i, t.workers[i], Finished);
      assert forall j :: 0 <= j < k && j != i ==> t.workers[j] == s.workers[j];
      assert WorkerOk(s.workers[i], Started(s));
    case WakeMain =>
  }

  lemma InitInv(k: nat, n: nat)
    requires k <= n % UCHAR
    ensures Inv(Init(k, n), k, n)
  {
  }

  lemma NextKeepsInv(s: State, t: State, k: nat, n: nat)
    requires Inv(s, k, n) && Next(s, t)
    ensures Inv(t, k, n)
  {
    var a :| Enabled(s, a) && t == Do(s, a);
    StepKeepsInv(s, a, k, n);
  }

  lemma {:induction false} TraceKeepsInv(tr: seq<State>, k: nat, n: nat, i: nat)
    requires Trace(tr, k, n) && k <= n % UCHAR && i < |tr|
    ensures Inv(tr[i], k, n)
  {
    InitInv(k, n);
    hide Inv, Next;
    if i > 0 {
      TraceKeepsInv(tr, k, n, i - 1);
      NextKeepsInv(tr[i - 1], tr[i], k, n);
    }
  }

  lemma ReachableInv(s: State, k: nat, n: nat)
    requires Reachable(s, k, n) && k <= n % UCHAR
    ensures Inv(s, k, n)
  {
    var tr :| Trace(tr, k, n) && tr[|tr| - 1] == s;
    TraceKeepsInv(tr, k, n, |tr| - 1);
  }

  // ----- the barrier property -----

  /** When SyncTaskOneTime has returned for the r-th time, every worker has
      called done exactly r times, and all flags and the count are zero. */
  predicate AtBarrier(s: State) {
    s.main.Signalling? ==>
      && s.count == 0
      && forall i :: 0 <= i < |s.workers| ==> s.workers[i].dones == s.synced && !s.workers[i].flag
  }

  ghost predicate BarrierHolds(k: nat, n: nat) {
    forall s :: Reachable(s, k, n) ==> AtBarrier(s)
  }

  /** In every run the count stays within the number of workers, so the
      unsigned char does not wrap: done adds exactly one to it. */
  lemma CountNeverWraps(s: State, k: nat, n: nat, i: nat)
    requires Reachable(s, k, n) && k <= n % UCHAR
    requires i < |s.workers| && s.workers[i].pc.Working?
    ensures s.count < k && Do(s, StepWorker(i)).count == s.count + 1
  {
    ReachableInv(s, k, n);
    assert WorkerOk(s.workers[i], Started(s));
    CountBound(s.workers, Finished);
  }

  /** With as many workers as the weight, some thread can always run without a
      spurious wake-up. */
  lemma NoLostWakeup(s: State, k: nat, n: nat)
    requires 1 <= k == n % UCHAR && Reachable(s, k, n)
    ensures Enabled(s, StepMain) || exists i :: Enabled(s, StepWorker(i))
  {
    ReachableInv(s, k, n);
    CountBound(s.workers, Finished);
    hide Count, Reachable;
    if !Enabled(s, StepMain) {
      var i :| 0 <= i < k && !Finished(s.workers[i]);
      assert WorkerOk(s.workers[i], s.synced + 1);
      assert Enabled(s, StepWorker(i));
    }
  }

  // ----- how long a round can take -----

  function WorkerClock(w: Worker): nat {
    4 * w.posted + if w.flag then 0 else if w.pc.Working? then 1 else if w.pc.Checking? then 2 else 3
  }

  function Total(ws: seq<Worker>): nat {
    if ws == [] then 0 else WorkerClock(ws[|ws| - 1]) + Total(ws[..|ws| - 1])
  }

  function MainClock(s: State): nat {
    match s.main
    case Signalling => 0
    case Counting => 1 + 2 * s.count
    case Sleeping => 2 + 2 * s.count
  }

  /** Every step of a thread moves this clock. */
  function Clock(s: State): int {
    Times(s.synced, 2 * |s.workers| + 4) + MainClock(s) + Total(s.workers)
  }

  lemma {:induction false} TotalUpdate(ws: seq<Worker>, i: nat, w: Worker)
    requires i < |ws|
    ensures Total(ws[i := w]) == Total(ws) - WorkerClock(ws[i]) + WorkerClock(w)
  {
    var n := |ws| - 1;
    if i < n {
      assert ws[i := w][..n] == ws[..n][i := w];
      TotalUpdate(ws[..n], i, w);
    } else {
      assert ws[i := w][..n] == ws[..n];
    }
  }

  lemma {:induction false} TotalGrows(ws: seq<Worker>, vs: seq<Worker>)
    requires |ws| == |vs| && forall i :: 0 <= i < |ws| ==> WorkerClock(ws[i]) <= WorkerClock(vs[i])
    ensures Total(ws) <= Total(vs)
  {
    if ws != [] {
      TotalGrows(ws[..|ws| - 1], vs[..|vs| - 1]);
    }
  }

  lemma {:induction false} TotalBound(ws: seq<Worker>, m: int)
    requires forall i :: 0 <= i < |ws| ==> WorkerClock(ws[i]) <= m
    ensures Total(ws) <= Times(|ws|, m)
  {
    if ws != [] {
      TotalBound(ws[..|ws| - 1], m);
    }
  }

  lemma WorkerTicks(s: State, i: nat, k: nat, n: nat)
    requires Inv(s, k, n) && Enabled(s, StepWorker(i))
    ensures Clock(Do(s, StepWorker(i))) > Clock(s)
  {
    hide Count, Times;
    var t := Do(s, StepWorker(i));
    assert WorkerOk(s.workers[i], Started(s));
    TotalUpdate(s.workers, i, t.workers[i]);
    CountBound(s.workers, Finished);
    assert s.workers[i].pc.Working? ==> !Finished(s.workers[i]);
  }

  lemma MainTicks(s: State, k: nat, n: nat)
    requires Inv(s, k, n) && Enabled(s, StepMain)
    ensures Clock(Do(s, StepMain)) > Clock(s)
  {
    hide Count;
    var t := Do(s, StepMain);
    CountBound(s.workers, Finished);
    if s.main.Signalling? {
      forall i | 0 <= i < k ensures WorkerClock(s.workers[i]) <= WorkerClock(t.workers[i]) {
        assert WorkerOk(s.workers[i], Started(s)) && Finished(s.workers[i]);
      }
      TotalGrows(s.workers, t.workers);
    }
  }

  lemma ClockBound(s: State, k: nat, n: nat)
    requires Inv(s, k, n)
    ensures Clock(s) <= (s.synced + 1) * (9 * k + 4)
  {
    hide Count;
    CountBound(s.workers, Finished);
    forall i | 0 <= i < k ensures WorkerClock(s.workers[i]) <= 4 * s.synced + 7 {
      assert WorkerOk(s.workers[i], Started(s));
    }
    TotalBound(s.workers, 4 * s.synced + 7);
    RoundSum(s.synced, k);
  }

  lemma RoundSum(r: nat, k: nat)
    ensures Times(r, 2 * k + 4) + Times(k, 4 * r + 7) + 2 * k + 2 <= (r + 1) * (9 * k + 4)
  {
    hide Times;
    TimesIsProduct(r, 2 * k + 4);
    TimesIsProduct(k, 4 * r + 7);
    Affine(r, k, 2, 4);
    Affine(k, r, 4, 7);
    Affine(r + 1, k, 9, 4);
    Swap(k, r);
    NextTimes(r, k);
    MulMono(0, r, k);
    SumUp(Times(r, 2 * k + 4), Times(k, 4 * r + 7), (r + 1) * (9 * k + 4), r * k, r, k);
  }

  lemma SumUp(a: int, b: int, c: int, p: nat, r: nat, k: nat)
    requires a == 2 * p + 4 * r && b == 4 * p + 7 * k && c == 9 * (p + k) + 4 * (r + 1)
    ensures a + b + 2 * k + 2 <= c
  {
  }

  /** The threads' own steps, without spurious wake-ups. */
  ghost predicate CalmNext(s: State, t: State) {
    exists a: Action :: (a.StepWorker? || a.StepMain?) && Enabled(s, a) && t == Do(s, a)
  }

  ghost predicate CalmTrace(tr: seq<State>, k: nat, n: nat) {
    && tr != []
    && tr[0] == Init(k, n)
    && forall i, j :: 0 <= i < |tr| && j == i + 1 < |tr| ==> CalmNext(tr[i], tr[j])
  }

  lemma CalmTicks(s: State, t: State, k: nat, n: nat)
    requires Inv(s, k, n) && CalmNext(s, t)
    ensures Inv(t, k, n) && Clock(t) > Clock(s)
  {
    hide Inv, Clock, Do;
    var a: Action :| (a.StepWorker? || a.StepMain?) && Enabled(s, a) && t == Do(s, a);
    StepKeepsInv(s, a, k, n);
    if a.StepWorker? {
      WorkerTicks(s, a.i, k, n);
    } else {
      MainTicks(s, k, n);
    }
  }

  lemma {:induction false} ClockCounts(tr: seq<State>, k: nat, n: nat, i: nat)
    requires CalmTrace(tr, k, n) && k <= n % UCHAR && i < |tr|
    ensures Inv(tr[i], k, n) && Clock(tr[i]) >= i
  {
    InitInv(k, n);
    if i > 0 {
      hide Inv, Clock, CalmNext;
      ClockCounts(tr, k, n, i - 1);
      CalmTicks(tr[i - 1], tr[i], k, n);
    }
  }

  /** Without spurious wake-ups, after more than r * (9k + 4) steps under any
      scheduler SyncTaskOneTime has returned at least r times. */
  lemma ReturnsInTime(tr: seq<State>, k: nat, n: nat, i: nat, r: nat)
    requires CalmTrace(tr, k, n) && k <= n % UCHAR && i < |tr| && i > r * (9 * k + 4)
    ensures tr[i].synced >= r
  {
    hide Inv, Clock, CalmTrace;
    ClockCounts(tr, k, n, i);
    ClockBound(tr[i], k, n);
    if tr[i].synced + 1 <= r {
      MulMono(tr[i].synced + 1, r, 9 * k + 4);
      assert false;
    }
  }

  /** With fewer workers than the weight the coordinator never returns. */
  lemma TooFewNeverReturns(s: State, k: nat, n: nat)
    requires Reachable(s, k, n) && k < n % UCHAR
    ensures s.synced == 0
  {
    var tr :| Trace(tr, k, n) && tr[|tr| - 1] == s;
    TooFewAt(tr, k, n, |tr| - 1);
  }

  lemma TooFewStep(s: State, t: State, k: nat, n: nat)
    requires Inv(s, k, n) && k < n % UCHAR && Next(s, t)
    ensures t.synced == s.synced
  {
    CountBound(s.workers, Finished);
  }

  lemma {:induction false} TooFewAt(tr: seq<State>, k: nat, n: nat, i: nat)
    requires Trace(tr, k, n) && k < n % UCHAR && i < |tr|
    ensures tr[i].synced == 0
  {
    hide Inv, Next;
    if i > 0 {
      TooFewAt(tr, k, n, i - 1);
      TraceKeepsInv(tr, k, n, i - 1);
      TooFewStep(tr[i - 1], tr[i], k, n);
    }
  }

  // ----- with more workers than the weight it fails -----

  /** After the first Signal, with workers 0 .. j - 1 already done. */
  function SomeDone(k: nat, n: nat, j: nat): State {
    State(seq(k, i => if i < j then Worker(false, Checking, 1, 1) else Worker(true, Checking, 1, 0)),
          j, n % UCHAR, Counting, 0)
  }

  lemma Extend(tr: seq<State>, k: nat, n: nat, a: Action)
    requires Trace(tr, k, n) && Enabled(tr[|tr| - 1], a)
    ensures Trace(tr + [Do(tr[|tr| - 1], a)], k, n)
  {
    var more := tr + [Do(tr[|tr| - 1], a)];
    forall i, j | 0 <= i < |more| && j == i + 1 < |more| ensures Next(more[i], more[j]) {
      if j < |tr| {
        assert Next(tr[i], tr[j]);
      }
    }
  }

  lemma {:induction false} ReachSomeDone(k: nat, n: nat, j: nat) returns (tr: seq<State>)
    requires j <= n % UCHAR && j <= k
    ensures Trace(tr, k, n) && tr[|tr| - 1] == SomeDone(k, n, j)
  {
    if j == 0 {
      var s0 := [Init(k, n)];
      Extend(s0, k, n, StepMain);
      tr := s0 + [Do(s0[0], StepMain)];
      assert tr[1].workers == SomeDone(k, n, 0).workers;
    } else {
      var tr0 := ReachSomeDone(k, n, j - 1);
      OneMoreDone(k, n, j - 1);
      var a := StepWorker(j - 1);
      Extend(tr0, k, n, a);
      var tr1 := tr0 + [Do(tr0[|tr0| - 1], a)];
      Extend(tr1, k, n, a);
      tr := tr1 + [Do(tr1[|tr1| - 1], a)];
    }
  }

  lemma OneMoreDone(k: nat, n: nat, j: nat)
    requires j < n % UCHAR && j < k
    ensures var a := StepWorker(j);
            var s := SomeDone(k, n, j);
            && Enabled(s, a)
            && Enabled(Do(s, a), a)
            && Do(Do(s, a), a) == SomeDone(k, n, j + 1)
  {
    var a := StepWorker(j);
    var s := SomeDone(k, n, j);
    var t := Do(Do(s, a), a);
    assert s.workers[j] == Worker(true, Checking, 1, 0);
    assert t.workers == SomeDone(k, n, j + 1).workers;
  }

  lemma TooManyBreaks(k: nat, n: nat)
    requires n % UCHAR < k
    ensures !BarrierHolds(k, n)
  {
    var w := n % UCHAR;
    var tr := ReachSomeDone(k, n, w);
    assert tr[|tr| - 1] == SomeDone(k, n, w);
    Extend(tr, k, n, StepMain);
    var bad := Do(tr[|tr| - 1], StepMain);
    var more := tr + [bad];
    assert Trace(more, k, n) && more[|more| - 1] == bad;
    assert Reachable(bad, k, n);
    assert bad.workers[w].dones == 0 && bad.synced == 1;
  }

  /** The barrier holds in every run exactly when the registered workers do not
      outnumber the weight that the unsigned char keeps. */
  lemma BarrierExact(k: nat, n: nat)
    ensures BarrierHolds(k, n) <==> k <= n % UCHAR
  {
    if k <= n % UCHAR {
      forall s | Reachable(s, k, n) ensures AtBarrier(s) {
        ReachableInv(s, k, n);
      }
    } else {
      TooManyBreaks(k, n);
    }
  }

  /** For a control object initialised for the n workers it has: exactly when
      n fits an unsigned char. */
  lemma BarrierForOwnCount(n: nat)
    ensures BarrierHolds(n, n) <==> n < UCHAR
  {
    BarrierExact(n, n);
  }
}
