/** The repeat side of the timer manager. The ticker (TimerHandle) and the
    worker (DealRepeatHandle) walk the timers at the same time, both under a
    read lock, and touch the same state field; adding, deleting and modifying a
    timer takes the write lock. One step of the model is one access to a shared
    timer field, one semaphore operation or one lock operation. */
module RepeatTimers {
  import opened TimerUnits

  /** state is nFinish: 0 before the first expiration, 1 counting an interval,
      2 expired and not yet handled. The fields after `modified` only record
      history: `ticks` and `ones` are the ticker's visits, and its visits in
      state 1, since the last expiration (or since the timer was added); `since`
      and `counting` are the numbers of passes before that, and before it was
      last put into state 1; `expired` and `called` count expirations and
      callbacks. */
  datatype Timer = Timer(
    name: nat, start: nat, interval: nat, count: nat, state: nat,
    modified: bool, ticks: nat, ones: nat, since: nat, counting: nat, expired: nat, called: nat)

  function NewTimer(name: nat, start: nat, interval: nat, passes: nat): Timer {
    Timer(name, start, interval, 0, 0, false, 0, 0, passes, passes, 0, 0)
  }

  /** The ticker: between ticks, about to take the read lock, or at timer `pos`:
      reading the state, incrementing, then the two writes in the order the
      branch has them, raising the flag; then posting and unlocking. */
  datatype TickPc =
    | TIdle | TLock
    | TFetch(pos: nat) | TBump(pos: nat, first: bool)
    | TFinish0(pos: nat) | TReset0(pos: nat)
    | TReset1(pos: nat) | TFinish1(pos: nat)
    | TFlag(pos: nat)
    | TPost | TUnlock

  /** The worker: in sem_wait, about to take the read lock, or at timer `pos`:
      testing IsTimeout, calling TimerProc, calling ResetState. */
  datatype WorkPc = WWait | WLock | WCheck(pos: nat) | WCall(pos: nat) | WReset(pos: nat)

  /** The timers are in the order of their names, as in the ordered map of the
      source; `passes` counts the ticker's passes over them that are over. */
  datatype State = State(timers: seq<Timer>, tick: TickPc, flag: bool, work: WorkPc, sem: nat, passes: nat)

  datatype Action =
    | Tick | Work | Wake
    | Add(name: nat, start: nat, interval: nat)
    | Del(name: nat)
    | Modify(name: nat, start: nat, interval: nat)

  function Init(): State { State([], TIdle, false, WWait, 0, 0) }

  /** The place of a name in the order. */
  function Place(ts: seq<Timer>, name: nat): (k: nat)
    ensures k <= |ts|
    ensures forall i :: 0 <= i < k ==> ts[i].name < name
    ensures k < |ts| ==> name <= ts[k].name
  {
    if ts == [] || name <= ts[0].name then 0 else 1 + Place(ts[1..], name)
  }

  predicate At(ts: seq<Timer>, name: nat) { Place(ts, name) < |ts| && ts[Place(ts, name)].name == name }

  function PutIn(ts: seq<Timer>, t: Timer): seq<Timer> {
    ts[..Place(ts, t.name)] + [t] + ts[Place(ts, t.name)..]
  }

  function Changed(ts: seq<Timer>, name: nat, start: nat, interval: nat): seq<Timer>
    requires At(ts, name)
  {
    var k := Place(ts, name);
    ts[k := ts[k].(start := start, interval := interval, modified := true)]
  }

  function TakeOut(ts: seq<Timer>, name: nat): seq<Timer>
    requires At(ts, name)
  {
    ts[..Place(ts, name)] + ts[Place(ts, name) + 1..]
  }

  predicate TickerReads(t: TickPc) { !t.TIdle? && !t.TLock? }
  predicate WorkerReads(w: WorkPc) { !w.WWait? && !w.WLock? }
  predicate WriteLockFree(s: State) { !TickerReads(s.tick) && !WorkerReads(s.work) }

  /** The timer the ticker (the worker) is at. */
  predicate AtTimer(t: TickPc) { !t.TIdle? && !t.TLock? && !t.TPost? && !t.TUnlock? }

  predicate Enabled(s: State, a: Action) {
    match a
    case Tick => AtTimer(s.tick) && !s.tick.TFetch? ==> s.tick.pos < |s.timers|
    case Work =>
      && (s.work.WWait? ==> s.sem > 0)
      && (s.work.WCall? || s.work.WReset? ==> s.work.pos < |s.timers|)
    case Wake => true
    case Add(_, start, interval) => WriteLockFree(s) && start < USHORT && 0 < interval < USHORT
    case Del(_) => WriteLockFree(s)
    case Modify(_, start, interval) => WriteLockFree(s) && start < USHORT && interval < USHORT
  }

  function Put(s: State, p: nat, t: Timer, pc: TickPc): State
    requires p < |s.timers|
  {
    s.(timers := s.timers[p := t], tick := pc)
  }

  function DoTick(s: State): State
    requires Enabled(s, Tick)
  {
    match s.tick
    case TIdle => s.(flag := false, tick := TLock)
    case TLock => s.(tick := TFetch(0))
    case TFetch(p) =>
      if p >= |s.timers| then s.(tick := TPost)
      else
        var t := s.timers[p].(ticks := s.timers[p].ticks + 1);
        Put(s, p, t, if t.state == 0 then TBump(p, true)
                     else if t.state == 1 then TBump(p, false)
                     else TFetch(p + 1))
    case TBump(p, first) =>
      var t := s.timers[p];
      var c := (t.count + 1) % USHORT;
      Put(s, p, t.(count := c, ones := if first then t.ones else t.ones + 1),
          if (if first then t.start else t.interval) != c * PRECISION then TFetch(p + 1)
          else if first then TFinish0(p) else TReset1(p))
    case TFinish0(p) => Put(s, p, Expire(s.timers[p], s.passes), TReset0(p))
    case TReset0(p) => Put(s, p, s.timers[p].(count := 0), TFlag(p))
    case TReset1(p) => Put(s, p, s.timers[p].(count := 0), TFinish1(p))
    case TFinish1(p) => Put(s, p, Expire(s.timers[p], s.passes), TFlag(p))
    case TFlag(p) => s.(flag := true, tick := TFetch(p + 1))
    case TPost => s.(sem := if s.flag then s.sem + 1 else s.sem, tick := TUnlock)
    case TUnlock => s.(tick := TIdle, passes := s.passes + 1)
  }

  /** SetFinish. */
  function Expire(t: Timer, passes: nat): Timer {
    t.(state := 2, ticks := 0, ones := 0, since := passes + 1, expired := t.expired + 1)
  }

  /** The ticker's visits to timer i in the pass it is making. */
  function Visits(tick: TickPc, i: nat): nat {
    match tick
    case TIdle => 0
    case TLock => 0
    case TPost => 1
    case TUnlock => 1
    case TFetch(p) => if i < p then 1 else 0
    case _ => if i <= tick.pos then 1 else 0
  }

  function DoWork(s: State): State
    requires Enabled(s, Work)
  {
    match s.work
    case WWait => s.(sem := s.sem - 1, work := WLock)
    case WLock => s.(work := WCheck(0))
    case WCheck(p) =>
      if p >= |s.timers| then s.(work := WWait)
      else if s.timers[p].state > 1 then s.(work := WCall(p))
      else s.(work := WCheck(p + 1))
    case WCall(p) =>
      s.(timers := s.timers[p := s.timers[p].(called := s.timers[p].called + 1)], work := WReset(p))
    case WReset(p) =>
      s.(timers := s.timers[p := s.timers[p].(state := 1, counting := s.passes + Visits(s.tick, p))],
         work := WCheck(p + 1))
  }

  function Do(s: State, a: Action): State
    requires Enabled(s, a)
  {
    match a
    case Tick => DoTick(s)
    case Work => DoWork(s)
    case Wake => s.(sem := s.sem + 1)
    case Add(name, start, interval) =>
      if At(s.timers, name) then s
      else s.(timers := PutIn(s.timers, NewTimer(name, start, interval, s.passes)))
    case Del(name) =>
      if At(s.timers, name) then s.(timers := TakeOut(s.timers, name)) else s
    case Modify(name, start, interval) =>
      if At(s.timers, name) then s.(timers := Changed(s.timers, name, start, interval)) else s
  }

  ghost predicate Next(s: State, t: State) {
    exists a :: Enabled(s, a) && t == Do(s, a)
  }

  ghost predicate Trace(tr: seq<State>) {
    && tr != []
    && tr[0] == Init()
    && forall i, j :: 0 <= i < |tr| && j == i + 1 < |tr| ==> Next(tr[i], tr[j])
  }

  ghost predicate Reachable(s: State) {
    exists tr :: Trace(tr) && tr[|tr| - 1] == s
  }

  // ----- the invariant -----

  /** The ticker's flag is up, or it is about to raise it, and not yet posted. */
  predicate WillPost(s: State) {
    match s.tick
    case TReset0(_) => true
    case TFlag(_) => true
    case TIdle => false
    case TLock => false
    case TUnlock => false
    case _ => s.flag
  }

  /** The worker has still to come to timer i (or is at it). */
  predicate WillReach(w: WorkPc, i: nat) {
    match w
    case WWait => false
    case WLock => true
    case WCheck(p) => p <= i
    case WCall(p) => p <= i
    case WReset(p) => p <= i
  }

  predicate Covered(s: State, i: nat) { s.sem > 0 || WillPost(s) || WillReach(s.work, i) }

  /** Where the two threads are agrees with the state of the timer there. */
  predicate PlacesOk(s: State) {
    && (AtTimer(s.tick) ==> s.tick.pos <= |s.timers|)
    && (AtTimer(s.tick) && !s.tick.TFetch? ==> s.tick.pos < |s.timers|)
    && (s.tick.TBump? ==> s.timers[s.tick.pos].state == if s.tick.first then 0 else 1)
    && (s.tick.TFinish0? ==> s.timers[s.tick.pos].state == 0)
    && (s.tick.TReset0? ==> s.timers[s.tick.pos].state != 0)
    && (s.tick.TReset1? || s.tick.TFinish1? ==> s.timers[s.tick.pos].state == 1)
    && (s.work.WCheck? ==> s.work.pos <= |s.timers|)
    && (s.work.WCall? || s.work.WReset? ==> s.work.pos < |s.timers| && s.timers[s.work.pos].state == 2)
  }

  /** Expirations and callbacks of timer i alternate, expiration first. */
  predicate Alternates(s: State, i: nat)
    requires i < |s.timers|
  {
    var t := s.timers[i];
    t.expired == if t.state == 2 && s.work != WReset(i) then t.called + 1 else t.called
  }

  /** The increment that equals a multiple of the precision, if there is one. */
  function Target(ms: nat): nat { ms / PRECISION }

  predicate Hits(ms: nat) { ms % PRECISION == 0 && ms > 0 }

  /** What the ticker is about to do at one timer. */
  datatype Phase = Away | Bump0 | Bump1 | Finish0 | Reset0 | Reset1 | Finish1

  function PhaseAt(tick: TickPc, i: nat): Phase {
    if !AtTimer(tick) || tick.pos != i then Away
    else
      match tick
      case TBump(_, first) => if first then Bump0 else Bump1
      case TFinish0(_) => Finish0
      case TReset0(_) => Reset0
      case TReset1(_) => Reset1
      case TFinish1(_) => Finish1
      case _ => Away
  }

  /** How far the counter of a timer that nobody modified has come. */
  predicate CountOk(t: Timer, ph: Phase) {
    && t.start < USHORT && t.interval < USHORT
    && (ph.Bump0? || ph.Bump1? ==> t.ticks >= 1)
    && t.ones + (if ph.Bump1? then 1 else 0) <= t.ticks
    && (t.modified || (t.interval > 0 && if t.state == 0 then FirstOk(t, ph) else LaterOk(t, ph)))
  }

  /** Before the first expiration the counter holds the ticks so far. */
  predicate FirstOk(t: Timer, ph: Phase) {
    var done := if ph.Bump0? && t.ticks >= 1 then t.ticks - 1 else t.ticks;
    && t.count == done % USHORT
    && if ph.Finish0?
       then t.start == t.count * PRECISION && (Hits(t.start) ==> t.ticks == Target(t.start))
       else Hits(t.start) ==> done < Target(t.start)
  }

  /** Afterwards it holds the visits in state 1 since the last expiration. */
  predicate LaterOk(t: Timer, ph: Phase) {
    if ph.Reset1? || ph.Finish1? then
      && t.interval == (t.ones % USHORT) * PRECISION && t.ones == Target(t.interval)
      && (ph.Finish1? ==> t.count == 0)
    else
      && (t.state == 2 || ph.Reset0? ==> t.ones == 0)
      && (!ph.Reset0? ==> t.count == t.ones % USHORT)
      && (Hits(t.interval) ==> t.ones < Target(t.interval))
  }

  /** The ticker visits every timer exactly once in each pass. */
  predicate PassesOk(t: Timer, ph: Phase, passes: nat, visits: nat) {
    && t.since <= passes + visits && t.ticks == passes + visits - t.since
    && (t.state != 1 ==> t.ones == 0)
    && (t.state == 1 ==>
          && t.since <= t.counting <= passes + visits
          && t.ones + (if ph.Bump1? then 1 else 0) == passes + visits - t.counting)
  }

  predicate VisitsOk(s: State, i: nat)
    requires i < |s.timers|
  {
    PassesOk(s.timers[i], PhaseAt(s.tick, i), s.passes, Visits(s.tick, i))
  }

  predicate Ordered(ts: seq<Timer>) {
    forall i, j :: 0 <= i < j < |ts| ==> ts[i].name < ts[j].name
  }

  predicate Inv(s: State) {
    && PlacesOk(s)
    && Ordered(s.timers)
    && (forall i :: 0 <= i < |s.timers| ==> VisitsOk(s, i))
    && (forall i :: 0 <= i < |s.timers| ==> s.timers[i].state <= 2)
    && (forall i :: 0 <= i < |s.timers| && s.timers[i].state == 2 ==> Covered(s, i))
    && (forall i :: 0 <= i < |s.timers| ==> Alternates(s, i))
    && (forall i :: 0 <= i < |s.timers| ==> CountOk(s.timers[i], PhaseAt(s.tick, i)))
  }

  // ----- every step keeps it -----

  lemma WrapSucc(x: nat)
    ensures (x % USHORT + 1) % USHORT == (x + 1) % USHORT
  {
  }

  lemma TickKeepsPlaces(s: State)
    requires PlacesOk(s) && Enabled(s, Tick) && forall i :: 0 <= i < |s.timers| ==> s.timers[i].state <= 2
    ensures var t := DoTick(s);
            && PlacesOk(t) && |t.timers| == |s.timers| && (forall i :: 0 <= i < |t.timers| ==> t.timers[i].state <= 2)
            && forall i :: 0 <= i < |t.timers| ==> t.timers[i].name == s.timers[i].name
  {
  }

  lemma TickKeepsVisits(s: State, i: nat)
    requires PlacesOk(s) && Enabled(s, Tick) && i < |s.timers| && VisitsOk(s, i) && s.timers[i].state <= 2
    ensures var t := DoTick(s); i < |t.timers| && VisitsOk(t, i)
  {
    hide Covered, Alternates, CountOk;
  }

  lemma TickKeepsOne(s: State, i: nat)
    requires PlacesOk(s) && Enabled(s, Tick) && i < |s.timers|
    requires Alternates(s, i) && (s.timers[i].state == 2 ==> Covered(s, i))
    ensures var t := DoTick(s);
            i < |t.timers| && Alternates(t, i) && (t.timers[i].state == 2 ==> Covered(t, i))
  {
  }

  /** The ticker's work on one timer, in each phase. */
  lemma FetchKeepsCount(t: Timer)
    requires CountOk(t, Away) && t.state <= 2
    ensures CountOk(t.(ticks := t.ticks + 1), if t.state == 0 then Bump0 else if t.state == 1 then Bump1 else Away)
  {
  }

  lemma BumpKeepsCount(t: Timer, first: bool)
    requires t.state == if first then 0 else 1
    requires CountOk(t, if first then Bump0 else Bump1)
    ensures var c := (t.count + 1) % USHORT;
            CountOk(t.(count := c, ones := if first then t.ones else t.ones + 1),
                    if (if first then t.start else t.interval) != c * PRECISION then Away
                    else if first then Finish0 else Reset1)
  {
    WrapSucc(t.ticks - 1);
    WrapSucc(t.ones);
  }

  lemma ExpireKeepsCount(t: Timer, ph: Phase, passes: nat)
    requires CountOk(t, ph) && (ph.Finish0? || ph.Finish1?)
    requires ph.Finish1? ==> t.state == 1
    ensures CountOk(Expire(t, passes), if ph.Finish0? then Reset0 else Away)
  {
  }

  lemma ClearKeepsCount(t: Timer, ph: Phase)
    requires CountOk(t, ph) && t.state != 0 && (ph.Reset0? || ph.Reset1?)
    ensures CountOk(t.(count := 0), if ph.Reset0? then Away else Finish1)
  {
  }

  lemma TickElsewhere(s: State, i: nat)
    requires Enabled(s, Tick) && i < |s.timers| && !(AtTimer(s.tick) && s.tick.pos == i)
    ensures var t := DoTick(s);
            |t.timers| == |s.timers| && t.timers[i] == s.timers[i]
            && PhaseAt(t.tick, i) == PhaseAt(s.tick, i)
  {
  }

  lemma TickHere(s: State, i: nat)
    requires Enabled(s, Tick) && i < |s.timers| && AtTimer(s.tick) && s.tick.pos == i
    requires PlacesOk(s) && s.timers[i].state <= 2 && CountOk(s.timers[i], PhaseAt(s.tick, i))
    ensures var t := DoTick(s);
            |t.timers| == |s.timers| && CountOk(t.timers[i], PhaseAt(t.tick, i))
  {
    var t := s.timers[i];
    match s.tick
    case TFetch(_) => FetchKeepsCount(t);
    case TBump(_, first) => BumpKeepsCount(t, first);
    case TFinish0(_) => ExpireKeepsCount(t, Finish0, s.passes);
    case TFinish1(_) => ExpireKeepsCount(t, Finish1, s.passes);
    case TReset0(_) => ClearKeepsCount(t, Reset0);
    case TReset1(_) => ClearKeepsCount(t, Reset1);
    case TFlag(_) =>
  }

  lemma TickKeepsCount(s: State, i: nat)
    requires Inv(s) && Enabled(s, Tick) && i < |s.timers|
    ensures var t := DoTick(s); i < |t.timers| && CountOk(t.timers[i], PhaseAt(t.tick, i))
  {
    assert CountOk(s.timers[i], PhaseAt(s.tick, i));
    if AtTimer(s.tick) && s.tick.pos == i {
      TickHere(s, i);
    } else {
      TickElsewhere(s, i);
    }
  }

  lemma TickKeepsInv(s: State)
    requires Inv(s) && Enabled(s, Tick)
    ensures Inv(DoTick(s))
  {
    var t := DoTick(s);
    TickKeepsPlaces(s);
    forall i | 0 <= i < |t.timers|
      ensures CountOk(t.timers[i], PhaseAt(t.tick, i))
      ensures Alternates(t, i) && (t.timers[i].state == 2 ==> Covered(t, i)) && VisitsOk(t, i)
    {
      TickKeepsCount(s, i);
      assert VisitsOk(s, i);
      TickKeepsVisits(s, i);
      assert Alternates(s, i);
      TickKeepsOne(s, i);
    }
    hide DoTick, CountOk, Alternates, Covered, PlacesOk, VisitsOk;
  }

  /** The worker's callback and its ResetState on one timer. */
  lemma HandleKeepsCount(t: Timer, ph: Phase)
    requires CountOk(t, ph) && t.state == 2
    ensures CountOk(t.(called := t.called + 1), ph)
    ensures forall c :: CountOk(t.(state := 1, counting := c), ph)
  {
  }

  lemma WorkKeepsTimers(s: State, i: nat)
    requires Inv(s) && Enabled(s, Work) && i < |s.timers|
    ensures var t := DoWork(s);
            && t.tick == s.tick
            && |t.timers| == |s.timers|
            && t.timers[i].state <= 2
            && Alternates(t, i)
            && CountOk(t.timers[i], PhaseAt(t.tick, i))
            && VisitsOk(t, i) && t.timers[i].name == s.timers[i].name
  {
    assert Alternates(s, i) && VisitsOk(s, i);
    assert CountOk(s.timers[i], PhaseAt(s.tick, i));
    if s.timers[i].state == 2 {
      HandleKeepsCount(s.timers[i], PhaseAt(s.tick, i));
    }
  }

  lemma WorkKeepsCovered(s: State, i: nat)
    requires PlacesOk(s) && Enabled(s, Work) && i < |s.timers| && (s.timers[i].state == 2 ==> Covered(s, i))
    ensures var t := DoWork(s);
            i < |t.timers| && (t.timers[i].state == 2 ==> Covered(t, i))
  {
  }

  lemma WorkKeepsPlaces(s: State)
    requires PlacesOk(s) && Enabled(s, Work) && forall i :: 0 <= i < |s.timers| ==> s.timers[i].state <= 2
    ensures PlacesOk(DoWork(s)) && |DoWork(s).timers| == |s.timers|
  {
  }

  lemma WorkKeepsInv(s: State)
    requires Inv(s) && Enabled(s, Work)
    ensures Inv(DoWork(s))
  {
    var t := DoWork(s);
    WorkKeepsPlaces(s);
    forall i | 0 <= i < |s.timers|
      ensures t.timers[i].state <= 2 && Alternates(t, i) && VisitsOk(t, i) && t.timers[i].name == s.timers[i].name
      ensures CountOk(t.timers[i], PhaseAt(t.tick, i))
      ensures t.timers[i].state == 2 ==> Covered(t, i)
    {
      WorkKeepsTimers(s, i);
      assert s.timers[i].state == 2 ==> Covered(s, i);
      WorkKeepsCovered(s, i);
    }
    hide DoWork, CountOk, Alternates, Covered, PlacesOk, VisitsOk;
  }

  /** What one timer owes to the invariant while nobody reads the list. */
  predicate RestOk(t: Timer, passes: nat) {
    var s := State([t], TIdle, false, WWait, 0, passes);
    t.state <= 2 && Alternates(s, 0) && CountOk(t, Away) && PassesOk(t, Away, passes, 0)
  }

  lemma InvAtRest(s: State)
    requires WriteLockFree(s)
    ensures Inv(s) <==>
            && Ordered(s.timers)
            && (forall i :: 0 <= i < |s.timers| ==> RestOk(s.timers[i], s.passes))
            && (forall i :: 0 <= i < |s.timers| && s.timers[i].state == 2 ==> s.sem > 0 || s.work.WLock?)
  {
    forall i | 0 <= i < |s.timers|
      ensures RestOk(s.timers[i], s.passes) <==>
              s.timers[i].state <= 2 && Alternates(s, i) && CountOk(s.timers[i], PhaseAt(s.tick, i)) && VisitsOk(s, i)
      ensures Covered(s, i) <==> s.sem > 0 || s.work.WLock?
    {
    }
  }

  lemma PutInAt(ts: seq<Timer>, t: Timer)
    ensures var k, us := Place(ts, t.name), PutIn(ts, t);
            && |us| == |ts| + 1 && us[k] == t
            && forall i :: 0 <= i < |us| && i != k ==> us[i] == ts[if i < k then i else i - 1]
  {
  }

  lemma TakeOutAt(ts: seq<Timer>, name: nat)
    requires At(ts, name)
    ensures var k, us := Place(ts, name), TakeOut(ts, name);
            && |us| == |ts| - 1
            && forall i :: 0 <= i < |us| ==> us[i] == ts[if i < k then i else i + 1]
  {
  }

  lemma PutInOrdered(ts: seq<Timer>, t: Timer)
    requires Ordered(ts) && !At(ts, t.name)
    ensures Ordered(PutIn(ts, t))
  {
    PutInAt(ts, t);
    hide PutIn;
    var k, us := Place(ts, t.name), PutIn(ts, t);
    assert forall i :: k <= i < |ts| ==> t.name < ts[i].name;
    forall i, j | 0 <= i < j < |us| ensures us[i].name < us[j].name {
    }
  }

  lemma TakeOutOrdered(ts: seq<Timer>, name: nat)
    requires Ordered(ts) && At(ts, name)
    ensures Ordered(TakeOut(ts, name))
  {
    TakeOutAt(ts, name);
    hide TakeOut;
    var us := TakeOut(ts, name);
    forall i, j | 0 <= i < j < |us| ensures us[i].name < us[j].name {
    }
  }

  /** While nobody reads the list, the invariant is about each timer alone. */
  predicate TimersAtRest(ts: seq<Timer>, passes: nat, woken: bool) {
    && Ordered(ts)
    && forall i :: 0 <= i < |ts| ==> RestOk(ts[i], passes) && (ts[i].state == 2 ==> woken)
  }

  lemma InvIsAtRest(s: State)
    requires WriteLockFree(s)
    ensures Inv(s) <==> TimersAtRest(s.timers, s.passes, s.sem > 0 || s.work.WLock?)
  {
    InvAtRest(s);
    hide Inv, RestOk;
  }

  lemma AddAtRest(ts: seq<Timer>, t: Timer, passes: nat, woken: bool)
    requires TimersAtRest(ts, passes, woken) && !At(ts, t.name) && RestOk(t, passes) && t.state != 2
    ensures TimersAtRest(PutIn(ts, t), passes, woken)
  {
    PutInOrdered(ts, t);
    PutInAt(ts, t);
    hide PutIn, RestOk, Ordered;
  }

  lemma DelAtRest(ts: seq<Timer>, name: nat, passes: nat, woken: bool)
    requires TimersAtRest(ts, passes, woken) && At(ts, name)
    ensures TimersAtRest(TakeOut(ts, name), passes, woken)
  {
    TakeOutOrdered(ts, name);
    TakeOutAt(ts, name);
    hide TakeOut, RestOk, Ordered;
  }

  lemma ModifyAtRest(ts: seq<Timer>, name: nat, start: nat, interval: nat, passes: nat, woken: bool)
    requires TimersAtRest(ts, passes, woken) && At(ts, name) && start < USHORT && interval < USHORT
    ensures TimersAtRest(Changed(ts, name, start, interval), passes, woken)
  {
    var k := Place(ts, name);
    assert RestOk(ts[k], passes);
    assert RestOk(ts[k].(start := start, interval := interval, modified := true), passes);
  }

  /** Under the write lock both threads are outside the list, so a timer may be
      put in or taken out at any place. */
  lemma WriterKeepsInv(s: State, a: Action)
    requires Inv(s) && Enabled(s, a) && (a.Add? || a.Del? || a.Modify?)
    ensures Inv(Do(s, a))
  {
    hide Inv, At, TimersAtRest, RestOk, PutIn, TakeOut, Changed;
    var t, woken := Do(s, a), s.sem > 0 || s.work.WLock?;
    InvIsAtRest(s);
    InvIsAtRest(t);
    if At(s.timers, a.name) {
      match a
      case Add(_, _, _) =>
      case Del(name) => DelAtRest(s.timers, name, s.passes, woken);
      case Modify(name, start, interval) => ModifyAtRest(s.timers, name, start, interval, s.passes, woken);
    } else if a.Add? {
      NewAtRest(a.name, a.start, a.interval, s.passes);
      AddAtRest(s.timers, NewTimer(a.name, a.start, a.interval, s.passes), s.passes, woken);
    }
  }

  lemma NewAtRest(name: nat, start: nat, interval: nat, passes: nat)
    requires start < USHORT && 0 < interval < USHORT
    ensures RestOk(NewTimer(name, start, interval, passes), passes)
  {
  }

  lemma StepKeepsInv(s: State, a: Action)
    requires Inv(s) && Enabled(s, a)
    ensures Inv(Do(s, a))
  {
    match a
    case Tick => TickKeepsInv(s);
    case Work => WorkKeepsInv(s);
    case Wake =>
      var t := Do(s, a);
      forall i | 0 <= i < |t.timers| ensures Alternates(t, i) && CountOk(t.timers[i], PhaseAt(t.tick, i)) && VisitsOk(t, i) {
        assert Alternates(s, i) && CountOk(s.timers[i], PhaseAt(s.tick, i)) && VisitsOk(s, i);
      }
    case _ => WriterKeepsInv(s, a);
  }

  lemma InitInv()
    ensures Inv(Init())
  {
  }

  lemma NextKeepsInv(s: State, t: State)
    requires Inv(s) && Next(s, t)
    ensures Inv(t)
  {
    var a :| Enabled(s, a) && t == Do(s, a);
    StepKeepsInv(s, a);
  }

  lemma {:induction false} TraceKeepsInv(tr: seq<State>, i: nat)
    requires Trace(tr) && i < |tr|
    ensures Inv(tr[i])
  {
    InitInv();
    hide Inv, Next;
    if i > 0 {
      TraceKeepsInv(tr, i - 1);
      NextKeepsInv(tr[i - 1], tr[i]);
    }
  }

  lemma ReachableInv(s: State)
    requires Reachable(s)
    ensures Inv(s)
  {
    var tr :| Trace(tr) && tr[|tr| - 1] == s;
    TraceKeepsInv(tr, |tr| - 1);
  }

  // ----- what it gives -----

  /** Neither thread ever walks off the list, whatever is added or deleted
      meanwhile: the ticker can always go on, and so can the worker unless it
      waits on a zero semaphore. */
  lemma ThreadsStayInTheList(s: State)
    requires Reachable(s)
    ensures Enabled(s, Tick)
    ensures Enabled(s, Work) <==> !(s.work.WWait? && s.sem == 0)
  {
    ReachableInv(s);
  }

  /** No wake-up is lost: an expired timer has a posted semaphore, a ticker that
      will post, or a worker that will come to it. */
  lemma NoLostWakeup(s: State, i: nat)
    requires Reachable(s) && i < |s.timers| && s.timers[i].state == 2
    ensures s.sem > 0 || WillPost(s) || WillReach(s.work, i)
  {
    ReachableInv(s);
    assert Covered(s, i);
  }

  /** So when the worker sleeps on a zero semaphore between ticks, nothing is
      left unhandled and every expiration has had its callback. */
  lemma QuietMeansHandled(s: State, i: nat)
    requires Reachable(s) && i < |s.timers|
    requires s.work.WWait? && s.sem == 0 && (s.tick.TIdle? || s.tick.TLock?)
    ensures s.timers[i].state != 2 && s.timers[i].expired == s.timers[i].called
  {
    ReachableInv(s);
    assert Alternates(s, i);
    assert s.timers[i].state == 2 ==> Covered(s, i);
  }

  /** Expirations and callbacks of a timer strictly alternate: at every moment
      their numbers are equal, or one expiration waits for its callback. */
  lemma StrictAlternation(s: State, i: nat)
    requires Reachable(s) && i < |s.timers|
    ensures s.timers[i].called <= s.timers[i].expired <= s.timers[i].called + 1
    ensures s.work == WCall(i) ==> s.timers[i].expired == s.timers[i].called + 1
    ensures s.tick == TFinish0(i) || s.tick == TFinish1(i) ==> s.timers[i].expired == s.timers[i].called
  {
    ReachableInv(s);
    assert Alternates(s, i);
    assert PlacesOk(s);
  }

  /** The ticker visits every timer in every pass: between passes, each timer has
      had as many visits as there were passes since it was added or last expired. */
  lemma VisitedInEveryPass(s: State, i: nat)
    requires Reachable(s) && i < |s.timers| && !TickerReads(s.tick)
    ensures s.timers[i].since <= s.passes && s.timers[i].ticks == s.passes - s.timers[i].since
  {
    ReachableInv(s);
    assert VisitsOk(s, i);
  }

  /** A timer that nobody modified expires for the first time in the pass its start
      asks for: start 5k in the k-th pass after it was added. */
  lemma FirstExpiration(s: State, i: nat, k: nat)
    requires Reachable(s) && i < |s.timers| && !s.timers[i].modified
    requires s.tick == TFinish0(i) && s.timers[i].start == PRECISION * k && k >= 1
    ensures s.passes + 1 - s.timers[i].since == k
  {
    ReachableInv(s);
    assert CountOk(s.timers[i], PhaseAt(s.tick, i)) && VisitsOk(s, i);
  }

  /** And it does expire then: between passes, while it has not expired yet, there
      were fewer than k passes. */
  lemma FirstExpirationDue(s: State, i: nat, k: nat)
    requires Reachable(s) && i < |s.timers| && !s.timers[i].modified && !TickerReads(s.tick)
    requires s.timers[i].start == PRECISION * k && k >= 1 && s.timers[i].state == 0
    ensures s.passes - s.timers[i].since < k
  {
    ReachableInv(s);
    assert CountOk(s.timers[i], PhaseAt(s.tick, i)) && VisitsOk(s, i);
  }

  /** It expires again only at an interval that is a multiple of the precision, 5j:
      in the j-th pass that finds it in state 1, so at least j passes after it
      last expired. */
  lemma NextExpiration(s: State, i: nat)
    requires Reachable(s) && i < |s.timers| && !s.timers[i].modified
    requires s.tick == TFinish1(i)
    ensures s.timers[i].interval == PRECISION * (s.passes + 1 - s.timers[i].counting)
    ensures s.timers[i].since <= s.timers[i].counting
  {
    ReachableInv(s);
    assert CountOk(s.timers[i], PhaseAt(s.tick, i)) && VisitsOk(s, i);
  }

  /** And it does: between passes, while it counts an interval of 5j, there were
      fewer than j passes since it was put into state 1. */
  lemma NextExpirationDue(s: State, i: nat, j: nat)
    requires Reachable(s) && i < |s.timers| && !s.timers[i].modified && !TickerReads(s.tick)
    requires s.timers[i].interval == PRECISION * j && s.timers[i].state == 1
    ensures s.passes - s.timers[i].counting < j
  {
    ReachableInv(s);
    assert CountOk(s.timers[i], PhaseAt(s.tick, i)) && VisitsOk(s, i);
  }

  // ----- passes come to an end -----

  function TickRank(s: State): int {
    var n := |s.timers|;
    match s.tick
    case TIdle => 0
    case TLock => 5 * n + 4
    case TFetch(p) => 5 * (n - p) + 3
    case TBump(p, _) => 5 * (n - p) + 2
    case TFinish0(p) => 5 * (n - p) + 1
    case TReset1(p) => 5 * (n - p) + 1
    case TReset0(p) => 5 * (n - p)
    case TFinish1(p) => 5 * (n - p)
    case TFlag(p) => 5 * (n - p) - 1
    case TPost => 2
    case TUnlock => 1
  }

  function WorkRank(s: State): int {
    var n := |s.timers|;
    match s.work
    case WWait => 0
    case WLock => 3 * n + 2
    case WCheck(p) => 3 * (n - p) + 1
    case WCall(p) => 3 * (n - p)
    case WReset(p) => 3 * (n - p) - 1
  }

  lemma TickGetsOn(s: State)
    requires PlacesOk(s) && !s.tick.TIdle?
    ensures Enabled(s, Tick) && 0 <= TickRank(DoTick(s)) < TickRank(s) <= 5 * |s.timers| + 4
  {
    hide Expire;
  }

  lemma WorkGetsOn(s: State)
    requires PlacesOk(s) && !s.work.WWait?
    ensures Enabled(s, Work) && 0 <= WorkRank(DoWork(s)) < WorkRank(s) <= 3 * |s.timers| + 2
  {
  }

  /** Once begun, a pass of the ticker or of the worker needs only steps of its own,
      each of which leaves less to do: at most 5 per timer and 4, or 3 and 2. */
  lemma PassesEnd(s: State)
    requires Reachable(s)
    ensures !s.tick.TIdle? ==> Enabled(s, Tick) && 0 <= TickRank(Do(s, Tick)) < TickRank(s) <= 5 * |s.timers| + 4
    ensures !s.work.WWait? ==> Enabled(s, Work) && 0 <= WorkRank(Do(s, Work)) < WorkRank(s) <= 3 * |s.timers| + 2
  {
    ReachableInv(s);
    hide DoTick, DoWork, Enabled, PlacesOk, Covered, Alternates, CountOk, VisitsOk, Ordered, TickRank, WorkRank;
    if !s.tick.TIdle? {
      TickGetsOn(s);
    }
    if !s.work.WWait? {
      WorkGetsOn(s);
    }
  }

  // ----- the timers are those that were added -----

  /** The states of a run with its actions. */
  ghost predicate Trail(tr: seq<State>, acts: seq<Action>) {
    && |tr| == |acts| + 1 && tr[0] == Init()
    && forall i, j :: 0 <= i < |acts| && j == i + 1 ==> StepBy(tr[i], acts[i], tr[j])
  }

  ghost predicate StepBy(s: State, a: Action, t: State) { Enabled(s, a) && t == Do(s, a) }

  datatype Setting = Setting(start: nat, interval: nat)

  /** What the calls of AddTimer, DelTimer and ModifyRepeatTimer ask for. A name in
      use is not added again; an unknown name is neither deleted nor modified. */
  function Settings(acts: seq<Action>, n: nat): map<nat, Setting>
    requires n <= |acts|
  {
    if n == 0 then map[]
    else
      var m := Settings(acts, n - 1);
      match acts[n - 1]
      case Add(name, start, interval) => if name in m then m else m[name := Setting(start, interval)]
      case Del(name) => m - {name}
      case Modify(name, start, interval) => if name in m then m[name := Setting(start, interval)] else m
      case _ => m
  }

  predicate SetSo(t: Timer, m: map<nat, Setting>) {
    t.name in m && m[t.name] == Setting(t.start, t.interval)
  }

  function NamesOf(ts: seq<Timer>): set<nat> { set t | t in ts :: t.name }

  /** The list holds exactly the timers set, each once, in the order of their names
      and with their settings. */
  predicate AsSet(ts: seq<Timer>, m: map<nat, Setting>) {
    Ordered(ts) && NamesOf(ts) == m.Keys && forall t :: t in ts ==> SetSo(t, m)
  }

  lemma AtIff(ts: seq<Timer>, name: nat)
    requires Ordered(ts)
    ensures At(ts, name) <==> name in NamesOf(ts)
  {
    if At(ts, name) {
      assert ts[Place(ts, name)] in ts;
    }
    if name in NamesOf(ts) {
      var k :| 0 <= k < |ts| && ts[k].name == name;
      PlaceIs(ts, name, k);
    }
  }

  lemma PlaceIs(ts: seq<Timer>, name: nat, k: nat)
    requires Ordered(ts) && k < |ts| && ts[k].name == name
    ensures Place(ts, name) == k && At(ts, name)
  {
  }

  lemma SameSettings(ts: seq<Timer>, us: seq<Timer>, m: map<nat, Setting>)
    requires AsSet(ts, m) && |us| == |ts|
    requires forall i :: 0 <= i < |ts| ==>
               us[i].name == ts[i].name && us[i].start == ts[i].start && us[i].interval == ts[i].interval
    ensures AsSet(us, m)
  {
    forall t | t in us ensures SetSo(t, m) {
      var i :| 0 <= i < |us| && us[i] == t;
      assert SetSo(ts[i], m);
    }
    forall name ensures name in NamesOf(us) <==> name in NamesOf(ts) {
      if name in NamesOf(us) {
        var i :| 0 <= i < |us| && us[i].name == name;
        assert ts[i] in ts;
      }
      if name in NamesOf(ts) {
        var i :| 0 <= i < |ts| && ts[i].name == name;
        assert us[i] in us;
      }
    }
  }

  lemma PutInMembers(ts: seq<Timer>, t: Timer)
    ensures forall x :: x in PutIn(ts, t) <==> x in ts || x == t
  {
    var k := Place(ts, t.name);
    assert ts == ts[..k] + ts[k..];
  }

  lemma TakeOutMembers(ts: seq<Timer>, name: nat)
    requires Ordered(ts) && At(ts, name)
    ensures forall x :: x in TakeOut(ts, name) <==> x in ts && x.name != name
  {
    var k := Place(ts, name);
    var a, b := ts[..k], ts[k + 1..];
    assert ts == a + [ts[k]] + b && TakeOut(ts, name) == a + b;
    assert forall x :: x in a ==> x.name < name;
    assert forall x :: x in b ==> name < x.name;
  }

  lemma ChangedMembers(ts: seq<Timer>, name: nat, start: nat, interval: nat)
    requires Ordered(ts) && At(ts, name)
    ensures var us, t := Changed(ts, name, start, interval), ts[Place(ts, name)].(start := start, interval := interval, modified := true);
            Ordered(us) && forall x :: x in us <==> (x in ts && x.name != name) || x == t
  {
    var k, us := Place(ts, name), Changed(ts, name, start, interval);
    TakeOutMembers(ts, name);
    hide Place;
    assert us == ts[..k] + [us[k]] + ts[k + 1..];
  }

  lemma AddAsSet(ts: seq<Timer>, m: map<nat, Setting>, t: Timer)
    requires AsSet(ts, m) && t.name !in m
    ensures !At(ts, t.name) && AsSet(PutIn(ts, t), m[t.name := Setting(t.start, t.interval)])
  {
    AtIff(ts, t.name);
    PutInOrdered(ts, t);
    PutInMembers(ts, t);
    hide PutIn, Ordered, At;
    assert NamesOf(PutIn(ts, t)) == NamesOf(ts) + {t.name};
  }

  lemma DelAsSet(ts: seq<Timer>, m: map<nat, Setting>, name: nat)
    requires AsSet(ts, m) && At(ts, name)
    ensures AsSet(TakeOut(ts, name), m - {name})
  {
    TakeOutOrdered(ts, name);
    TakeOutMembers(ts, name);
    hide TakeOut, Ordered, At;
    assert NamesOf(TakeOut(ts, name)) == NamesOf(ts) - {name};
  }

  lemma ModifyAsSet(ts: seq<Timer>, m: map<nat, Setting>, name: nat, start: nat, interval: nat)
    requires AsSet(ts, m) && At(ts, name)
    ensures AsSet(Changed(ts, name, start, interval), m[name := Setting(start, interval)])
  {
    ChangedMembers(ts, name, start, interval);
    AtIff(ts, name);
    var us, t := Changed(ts, name, start, interval), ts[Place(ts, name)].(start := start, interval := interval, modified := true);
    assert t.name == name;
    hide Changed, Ordered, At, Place;
    assert NamesOf(us) == NamesOf(ts);
  }

  lemma Absent(ts: seq<Timer>, m: map<nat, Setting>, name: nat)
    requires AsSet(ts, m)
    ensures At(ts, name) <==> name in m
  {
    AtIff(ts, name);
  }

  /** The two threads change no setting. */
  lemma ThreadsKeepSettings(s: State, a: Action)
    requires Inv(s) && Enabled(s, a) && (a.Tick? || a.Work? || a.Wake?)
    ensures var t := Do(s, a);
            |t.timers| == |s.timers| && forall i :: 0 <= i < |s.timers| ==>
              && t.timers[i].name == s.timers[i].name
              && t.timers[i].start == s.timers[i].start && t.timers[i].interval == s.timers[i].interval
  {
    hide Covered, Alternates, CountOk, VisitsOk, Ordered;
  }

  lemma StepAsSet(s: State, a: Action, t: State, acts: seq<Action>, n: nat)
    requires Inv(s) && StepBy(s, a, t) && n < |acts| && acts[n] == a && AsSet(s.timers, Settings(acts, n))
    ensures Inv(t) && AsSet(t.timers, Settings(acts, n + 1))
  {
    hide AsSet, Inv, At, Settings, PutIn, TakeOut, Changed, DoTick, DoWork;
    var m := Settings(acts, n);
    StepKeepsInv(s, a);
    SettingsStep(acts, n);
    match a
    case Add(name, start, interval) =>
      Absent(s.timers, m, name);
      if name !in m {
        AddAsSet(s.timers, m, NewTimer(name, start, interval, s.passes));
      }
    case Del(name) =>
      Absent(s.timers, m, name);
      if name in m {
        DelAsSet(s.timers, m, name);
      } else {
        assert m - {name} == m;
      }
    case Modify(name, start, interval) =>
      Absent(s.timers, m, name);
      if name in m {
        ModifyAsSet(s.timers, m, name, start, interval);
      }
    case _ =>
      ThreadsKeepSettings(s, a);
      SameSettings(s.timers, t.timers, m);
  }

  lemma SettingsStep(acts: seq<Action>, n: nat)
    requires n < |acts|
    ensures var m := Settings(acts, n);
            Settings(acts, n + 1) ==
            match acts[n]
            case Add(name, start, interval) => if name in m then m else m[name := Setting(start, interval)]
            case Del(name) => m - {name}
            case Modify(name, start, interval) => if name in m then m[name := Setting(start, interval)] else m
            case _ => m
  {
  }

  /** Over every run the list holds exactly the timers added and not deleted since,
      each once, with the settings last given. */
  lemma {:induction false} TimersAreAsSet(tr: seq<State>, acts: seq<Action>, n: nat)
    requires Trail(tr, acts) && n <= |acts|
    ensures Inv(tr[n]) && AsSet(tr[n].timers, Settings(acts, n))
  {
    hide Inv, AsSet, StepBy;
    if n == 0 {
      InitInv();
      NothingSet();
    } else {
      TimersAreAsSet(tr, acts, n - 1);
      StepAsSet(tr[n - 1], acts[n - 1], tr[n], acts, n - 1);
    }
  }

  lemma NothingSet()
    ensures AsSet([], map[])
  {
  }

  // ----- the ticker posts exactly when a timer expired, and no post is lost -----

  /** Some timer expired in the pass that is being made. */
  ghost predicate ExpiredNow(s: State) { exists i :: 0 <= i < |s.timers| && s.timers[i].since == s.passes + 1 }

  ghost predicate FlagOk(s: State) {
    && (s.tick.TLock? ==> !s.flag)
    && (TickerReads(s.tick) && !s.tick.TUnlock? ==> (WillPost(s) <==> ExpiredNow(s)))
  }

  lemma NoneYet(s: State)
    requires Inv(s) && s.tick.TLock?
    ensures !ExpiredNow(s)
  {
    hide Alternates, CountOk, Covered, Ordered;
    forall i | 0 <= i < |s.timers| ensures s.timers[i].since <= s.passes {
      assert VisitsOk(s, i);
    }
  }

  lemma SameExpired(s: State, t: State)
    requires |t.timers| == |s.timers| && t.passes == s.passes
    requires forall i :: 0 <= i < |s.timers| ==> t.timers[i].since == s.timers[i].since
    ensures ExpiredNow(t) <==> ExpiredNow(s)
  {
    if ExpiredNow(s) {
      var i :| 0 <= i < |s.timers| && s.timers[i].since == s.passes + 1;
      assert t.timers[i].since == t.passes + 1;
    }
  }

  lemma TickKeepsFlag(s: State)
    requires Inv(s) && FlagOk(s) && Enabled(s, Tick)
    ensures FlagOk(DoTick(s))
  {
    var t := DoTick(s);
    if s.tick.TFinish0? || s.tick.TFinish1? {
      assert t.timers[s.tick.pos].since == t.passes + 1;
    } else if !s.tick.TUnlock? {
      if s.tick.TLock? {
        NoneYet(s);
      }
      SameExpired(s, t);
      hide ExpiredNow, Inv;
    }
  }

  lemma StepKeepsFlag(s: State, a: Action)
    requires Inv(s) && FlagOk(s) && Enabled(s, a)
    ensures FlagOk(Do(s, a))
  {
    hide Inv, DoTick;
    if a.Tick? {
      TickKeepsFlag(s);
    } else if a.Work? {
      SameExpired(s, Do(s, a));
    }
  }

  lemma NextKeepsFlag(s: State, t: State)
    requires Inv(s) && FlagOk(s) && Next(s, t)
    ensures FlagOk(t)
  {
    hide Inv, FlagOk, Do;
    var a :| Enabled(s, a) && t == Do(s, a);
    StepKeepsFlag(s, a);
  }

  lemma {:induction false} TraceKeepsFlag(tr: seq<State>, i: nat)
    requires Trace(tr) && i < |tr|
    ensures FlagOk(tr[i])
  {
    hide Inv, FlagOk, Next;
    if i > 0 {
      TraceKeepsFlag(tr, i - 1);
      TraceKeepsInv(tr, i - 1);
      NextKeepsFlag(tr[i - 1], tr[i]);
    } else {
      NoFlagYet();
    }
  }

  /** At the end of a pass the ticker posts if and only if a timer expired in it. */
  lemma PostsIffExpired(s: State)
    requires Reachable(s) && s.tick.TPost?
    ensures Do(s, Tick).sem == s.sem + if ExpiredNow(s) then 1 else 0
  {
    var tr :| Trace(tr) && tr[|tr| - 1] == s;
    TraceKeepsFlag(tr, |tr| - 1);
  }

  /** Passes in which a timer expired, wake-ups asked for, and wake-ups taken. */
  ghost function Posts(tr: seq<State>, acts: seq<Action>, n: nat): nat
    requires n <= |acts| < |tr|
  {
    if n == 0 then 0
    else
      var s, a := tr[n - 1], acts[n - 1];
      Posts(tr, acts, n - 1) + (if a.Wake? || (a.Tick? && s.tick.TPost? && ExpiredNow(s)) then 1 else 0)
  }

  function Waits(tr: seq<State>, acts: seq<Action>, n: nat): nat
    requires n <= |acts| < |tr|
  {
    if n == 0 then 0
    else Waits(tr, acts, n - 1) + (if acts[n - 1].Work? && tr[n - 1].work.WWait? then 1 else 0)
  }

  lemma {:induction false} TrailKeepsFlag(tr: seq<State>, acts: seq<Action>, n: nat)
    requires Trail(tr, acts) && n <= |acts|
    ensures Inv(tr[n]) && FlagOk(tr[n])
  {
    hide Inv, FlagOk, StepBy;
    if n == 0 {
      InitInv();
      assert FlagOk(Init()) by { NoFlagYet(); }
    } else {
      TrailKeepsFlag(tr, acts, n - 1);
      StepKeepsBoth(tr[n - 1], acts[n - 1], tr[n]);
    }
  }

  lemma NoFlagYet()
    ensures FlagOk(Init())
  {
  }

  lemma StepKeepsBoth(s: State, a: Action, t: State)
    requires Inv(s) && FlagOk(s) && StepBy(s, a, t)
    ensures Inv(t) && FlagOk(t)
  {
    hide Inv, FlagOk, Do;
    StepKeepsInv(s, a);
    StepKeepsFlag(s, a);
  }

  /** What one step does to the semaphore. */
  lemma StepBalance(s: State, a: Action, t: State)
    requires Inv(s) && FlagOk(s) && StepBy(s, a, t)
    ensures t.sem == s.sem + (if a.Wake? || (a.Tick? && s.tick.TPost? && ExpiredNow(s)) then 1 else 0)
                           - (if a.Work? && s.work.WWait? then 1 else 0)
  {
    hide Inv, Place, ExpiredNow;
  }

  /** Over every run the semaphore holds the posts that the worker has not taken. */
  lemma {:induction false} SemaphoreBalance(tr: seq<State>, acts: seq<Action>, n: nat)
    requires Trail(tr, acts) && n <= |acts|
    ensures tr[n].sem + Waits(tr, acts, n) == Posts(tr, acts, n)
  {
    hide Inv, FlagOk, StepBy, ExpiredNow;
    if n > 0 {
      SemaphoreBalance(tr, acts, n - 1);
      TrailKeepsFlag(tr, acts, n - 1);
      StepBalance(tr[n - 1], acts[n - 1], tr[n]);
    }
  }
}
