/** The once side of the timer manager: the ticker's pass over the list, the
    worker's pass and AddTimer each run under one mutex, so each is one step. */
module OnceTimers {
  import opened TimerUnits

  /** `fired` is nFinish == 2. The fields after it only record history: `born` is
      the number of ticks before the timer was added, `at` the number of the tick
      at which it expired first. */
  datatype Timer = Timer(id: nat, start: nat, count: nat, fired: bool, born: nat, at: nat)

  // ----- the ticker's loop (TimerHandle) -----

  /** Tick number `now` at one timer. */
  function Bump(t: Timer, now: nat): Timer {
    var c := (t.count + 1) % USHORT;
    var hit := t.start == c * PRECISION;
    t.(count := c, fired := t.fired || hit, at := if hit && !t.fired then now else t.at)
  }

  predicate Hit(t: Timer) { t.start == (t.count + 1) % USHORT * PRECISION }

  function BumpAll(s: seq<Timer>, now: nat): (r: seq<Timer>)
    ensures |r| == |s| && forall i :: 0 <= i < |s| ==> r[i] == Bump(s[i], now)
  {
    seq(|s|, i requires 0 <= i < |s| => Bump(s[i], now))
  }

  predicate AnyHit(s: seq<Timer>) { exists i :: 0 <= i < |s| && Hit(s[i]) }

  method TickLoop(lst: seq<Timer>, now: nat) returns (r: seq<Timer>, flag: bool)
    ensures r == BumpAll(lst, now)
    ensures flag <==> AnyHit(lst)
  {
    r, flag := lst, false;
    for i := 0 to |lst|
      invariant |r| == |lst|
      invariant forall j :: 0 <= j < i ==> r[j] == Bump(lst[j], now)
      invariant forall j :: i <= j < |lst| ==> r[j] == lst[j]
      invariant flag <==> exists j :: 0 <= j < i && Hit(lst[j])
    {
      var t := r[i];
      var c := (t.count + 1) % USHORT;
      t := t.(count := c);
      if t.start == c * PRECISION {
        t := t.(fired := true, at := if t.fired then t.at else now);
        flag := true;
      }
      r := r[i := t];
    }
  }

  // ----- the worker's loops (DealOnceHandle) -----

  function Due(s: seq<Timer>): seq<Timer> {
    if s == [] then []
    else (if s[0].fired then [s[0]] else []) + Due(s[1..])
  }

  function Pending(s: seq<Timer>): seq<Timer> {
    if s == [] then []
    else (if s[0].fired then [] else [s[0]]) + Pending(s[1..])
  }

  lemma {:induction false} FiltersAppend(a: seq<Timer>, b: seq<Timer>)
    ensures Due(a + b) == Due(a) + Due(b)
    ensures Pending(a + b) == Pending(a) + Pending(b)
  {
    if a == [] {
      assert a + b == b;
    } else {
      var c := a + b;
      assert c[0] == a[0] && c[1..] == a[1..] + b;
      FiltersAppend(a[1..], b);
      var d, p := (if a[0].fired then [a[0]] else []), (if a[0].fired then [] else [a[0]]);
      assert Due(c) == d + (Due(a[1..]) + Due(b));
      assert d + (Due(a[1..]) + Due(b)) == (d + Due(a[1..])) + Due(b);
      assert Pending(c) == p + (Pending(a[1..]) + Pending(b));
      assert p + (Pending(a[1..]) + Pending(b)) == (p + Pending(a[1..])) + Pending(b);
    }
  }

  lemma FilterOne(t: Timer)
    ensures Due([t]) == if t.fired then [t] else []
    ensures Pending([t]) == if t.fired then [] else [t]
  {
    assert [t][1..] == [];
  }

  lemma DueSnoc(lst: seq<Timer>, i: nat)
    requires i < |lst|
    ensures Due(lst[..i + 1]) == Due(lst[..i]) + (if lst[i].fired then [lst[i]] else [])
  {
    assert lst[..i + 1] == lst[..i] + [lst[i]];
    FiltersAppend(lst[..i], [lst[i]]);
    FilterOne(lst[i]);
  }

  lemma {:induction false} AllPending(s: seq<Timer>)
    requires forall i :: 0 <= i < |s| ==> !s[i].fired
    ensures Pending(s) == s && Due(s) == []
  {
    if s != [] {
      AllPending(s[1..]);
    }
  }

  lemma PendingFrom(s: seq<Timer>, v: nat, c: nat)
    requires v < c <= |s| && s[v].fired
    requires forall j :: v < j < c ==> !s[j].fired
    ensures Pending(s[v..]) == s[v + 1..c] + Pending(s[c..])
  {
    var mid, tail := s[v + 1..c], s[c..];
    assert s[v..] == [s[v]] + (mid + tail);
    AllPending(mid);
    FiltersAppend([s[v]], mid + tail);
    FiltersAppend(mid, tail);
    FilterOne(s[v]);
    assert [] + (mid + Pending(tail)) == mid + Pending(tail);
  }

  /** The indices of the expired timers, in order. */
  ghost predicate DueIndices(lst: seq<Timer>, upTo: nat, vec: seq<nat>)
    requires upTo <= |lst|
  {
    && (forall k :: 0 <= k < |vec| ==> vec[k] < upTo && lst[vec[k]].fired)
    && (forall k, m :: 0 <= k < m < |vec| ==> vec[k] < vec[m])
    && (forall j :: 0 <= j < upTo && lst[j].fired ==> j in vec)
  }

  lemma NoneCollected(lst: seq<Timer>)
    ensures Due(lst[..0]) == [] && DueIndices(lst, 0, [])
  {
  }

  lemma NextIndex(lst: seq<Timer>, index: nat, vec: seq<nat>)
    requires index < |lst| && DueIndices(lst, index, vec)
    ensures DueIndices(lst, index + 1, if lst[index].fired then vec + [index] else vec)
  {
    var vec' := if lst[index].fired then vec + [index] else vec;
    forall j | 0 <= j < index + 1 && lst[j].fired ensures j in vec' {
      if j == index {
        assert vec'[|vec|] == j;
      } else {
        assert j in vec;
      }
    }
  }

  method CollectDue(lst: seq<Timer>) returns (tmpVec: seq<nat>, called: seq<Timer>)
    ensures DueIndices(lst, |lst|, tmpVec)
    ensures called == Due(lst)
  {
    hide Due, DueIndices;
    tmpVec, called := [], [];
    NoneCollected(lst);
    for index := 0 to |lst|
      invariant called == Due(lst[..index])
      invariant DueIndices(lst, index, tmpVec)
    {
      DueSnoc(lst, index);
      NextIndex(lst, index, tmpVec);
      if lst[index].fired {
        tmpVec := tmpVec + [index];
        called := called + [lst[index]];
      } else {
        assert Due(lst[..index]) + [] == Due(lst[..index]);
      }
    }
    assert lst[..|lst|] == lst;
  }

  /** Where the timers that are already dealt with begin. */
  ghost function Cut(lst: seq<Timer>, vec: seq<nat>, i: nat): (c: nat)
    requires i <= |vec| && DueIndices(lst, |lst|, vec)
    ensures c <= |lst|
  {
    if i == |vec| then |lst| else vec[i]
  }

  lemma NoneBetween(lst: seq<Timer>, vec: seq<nat>, i: nat, j: nat)
    requires DueIndices(lst, |lst|, vec) && i <= |vec|
    requires (if i == 0 then 0 else vec[i - 1] + 1) <= j < Cut(lst, vec, i)
    ensures !lst[j].fired
  {
    if lst[j].fired {
      var k :| 0 <= k < |vec| && vec[k] == j;
      assert false;
    }
  }

  /** The list with the timers from the i-th expired one on dealt with. */
  ghost function Partly(lst: seq<Timer>, vec: seq<nat>, i: nat): seq<Timer>
    requires i <= |vec| && DueIndices(lst, |lst|, vec)
  {
    lst[..Cut(lst, vec, i)] + Pending(lst[Cut(lst, vec, i)..])
  }

  lemma EraseStep(lst: seq<Timer>, vec: seq<nat>, i: nat)
    requires DueIndices(lst, |lst|, vec) && 1 <= i <= |vec|
    ensures var v, was := vec[i - 1], Partly(lst, vec, i);
            v < |was| && Partly(lst, vec, i - 1) == was[..v] + was[v + 1..]
  {
    var v, cut := vec[i - 1], Cut(lst, vec, i);
    forall j | v < j < cut ensures !lst[j].fired {
      NoneBetween(lst, vec, i, j);
    }
    PendingFrom(lst, v, cut);
    hide Pending;
    var was := Partly(lst, vec, i);
    assert was[..v] == lst[..v];
    assert was[v + 1..] == lst[v + 1..cut] + Pending(lst[cut..]);
  }

  lemma PartlyEnds(lst: seq<Timer>, vec: seq<nat>)
    requires DueIndices(lst, |lst|, vec)
    ensures Partly(lst, vec, |vec|) == lst
    ensures Partly(lst, vec, 0) == Pending(lst)
  {
    NoneLeft(lst);
    hide Pending, DueIndices;
    var cut := Cut(lst, vec, 0);
    var a, b := lst[..cut], lst[cut..];
    forall j | 0 <= j < |a| ensures !a[j].fired {
      NoneBetween(lst, vec, 0, j);
    }
    NoneBefore(a, b);
    SplitAt(lst, cut);
  }

  lemma NoneLeft(lst: seq<Timer>)
    ensures lst[..|lst|] + Pending(lst[|lst|..]) == lst
  {
  }

  lemma SplitAt(lst: seq<Timer>, cut: nat)
    requires cut <= |lst|
    ensures lst[..cut] + lst[cut..] == lst
  {
  }

  lemma NoneBefore(a: seq<Timer>, b: seq<Timer>)
    requires forall j :: 0 <= j < |a| ==> !a[j].fired
    ensures a + Pending(b) == Pending(a + b)
  {
    hide Pending, Due;
    AllPending(a);
    FiltersAppend(a, b);
  }

  method EraseFromBack(lst: seq<Timer>, tmpVec: seq<nat>) returns (rest: seq<Timer>)
    requires DueIndices(lst, |lst|, tmpVec)
    ensures rest == Pending(lst)
  {
    PartlyEnds(lst, tmpVec);
    hide Partly, Pending, DueIndices;
    rest := lst;
    var i := |tmpVec|;
    while i > 0
      invariant 0 <= i <= |tmpVec|
      invariant rest == Partly(lst, tmpVec, i)
    {
      EraseStep(lst, tmpVec, i);
      var v := tmpVec[i - 1];
      rest := rest[..v] + rest[v + 1..];
      i := i - 1;
    }
  }

  /** Collecting the indices of the expired timers, calling them in list order,
      and then deleting by index from the back leaves the others in order. */
  method DealOnceHandle(lst: seq<Timer>) returns (rest: seq<Timer>, called: seq<Timer>)
    ensures rest == Pending(lst)
    ensures called == Due(lst)
  {
    var tmpVec;
    tmpVec, called := CollectDue(lst);
    rest := EraseFromBack(lst, tmpVec);
  }

  // ----- runs -----

  /** `log` lists the timers whose TimerProc has been called, each as it was
      then; identifiers number the timers in the order they were added; `ticks`
      counts the ticks. */
  datatype State = State(once: seq<Timer>, sem: nat, dealing: bool, log: seq<Timer>, nextId: nat, ticks: nat)

  datatype Action = Tick | Take | Deal | Wake | Add(start: nat)

  function Init(): State { State([], 0, false, [], 0, 0) }

  predicate Enabled(s: State, a: Action) {
    match a
    case Tick => true
    case Take => s.sem > 0 && !s.dealing
    case Deal => s.dealing
    case Wake => true
    case Add(start) => start < USHORT
  }

  function Do(s: State, a: Action): State
    requires Enabled(s, a)
  {
    match a
    case Tick =>
      s.(once := BumpAll(s.once, s.ticks + 1), ticks := s.ticks + 1,
         sem := if AnyHit(s.once) then s.sem + 1 else s.sem)
    case Take => s.(sem := s.sem - 1, dealing := true)
    case Deal => s.(once := Pending(s.once), log := s.log + Due(s.once), dealing := false)
    case Wake => s.(sem := s.sem + 1)
    case Add(start) => s.(once := s.once + [Timer(s.nextId, start, 0, false, s.ticks, 0)], nextId := s.nextId + 1)
  }

  ghost predicate Next(s: State, t: State) {
    exists a :: Enabled(s, a) && t == Do(s, a)
  }

  ghost predicate Trace(tr: seq<State>) {
    && tr != []
    && tr[0] == Init()
    && forall i, j :: 0 <= i < |tr| && j == i + 1 < |tr| ==> Next(tr[i], tr[j])
  }

  ghost predicate Reachable(s: State) {
    exists tr :: Trace(tr) && tr[|tr| - 1] == s
  }

  // ----- the invariant -----

  /** The tick at which a start value is met: start 5k at the k-th; start 0
      when the counter first wraps; others never. */
  predicate EverFires(start: nat) { start % PRECISION == 0 }

  function FireTick(start: nat): nat { if start == 0 then USHORT else start / PRECISION }

  /** A timer in the list, after `now` ticks. */
  predicate TimerOk(t: Timer, now: nat) {
    && t.start < USHORT && t.born <= now
    && t.count == (now - t.born) % USHORT
    && (t.fired <==> EverFires(t.start) && now - t.born >= FireTick(t.start))
    && (t.fired ==> t.at == t.born + FireTick(t.start))
  }

  /** A timer that has been called. */
  predicate CalledOk(t: Timer) {
    t.start < USHORT && t.fired && EverFires(t.start) && t.at == t.born + FireTick(t.start)
  }

  function Ids(s: seq<Timer>): multiset<nat> {
    if s == [] then multiset{} else multiset{s[0].id} + Ids(s[1..])
  }

  ghost predicate Inv(s: State) {
    && (forall i :: 0 <= i < |s.once| ==> TimerOk(s.once[i], s.ticks))
    && (forall i :: 0 <= i < |s.log| ==> CalledOk(s.log[i]))
    && Below(Ids(s.log) + Ids(s.once), s.nextId)
    && ((exists i :: 0 <= i < |s.once| && s.once[i].fired) ==> s.sem > 0 || s.dealing)
  }

  lemma {:induction false} IdsAppend(a: seq<Timer>, b: seq<Timer>)
    ensures Ids(a + b) == Ids(a) + Ids(b)
  {
    if a == [] {
      assert a + b == b;
    } else {
      assert (a + b)[1..] == a[1..] + b;
      IdsAppend(a[1..], b);
    }
  }

  lemma {:induction false} IdsBump(s: seq<Timer>, now: nat)
    ensures Ids(BumpAll(s, now)) == Ids(s)
  {
    if s != [] {
      IdsBump(s[1..], now);
      assert BumpAll(s, now)[1..] == BumpAll(s[1..], now);
    }
  }

  /** Dealing loses no timer and duplicates none. */
  lemma {:induction false} DealConserves(s: seq<Timer>)
    ensures Ids(Due(s)) + Ids(Pending(s)) == Ids(s)
  {
    if s != [] {
      DealConserves(s[1..]);
      ConserveCons(s);
    }
  }

  lemma ConserveCons(s: seq<Timer>)
    requires s != [] && Ids(Due(s[1..])) + Ids(Pending(s[1..])) == Ids(s[1..])
    ensures Ids(Due(s)) + Ids(Pending(s)) == Ids(s)
  {
    hide Due, Pending, Ids;
    var t, rest := s[0], s[1..];
    assert s == [t] + rest;
    FiltersAppend([t], rest);
    FilterOne(t);
    IdsAppend(Due([t]), Due(rest));
    IdsAppend(Pending([t]), Pending(rest));
    IdsAppend([t], rest);
    IdsOne(t);
    assert Ids(Due([t])) + Ids(Pending([t])) == multiset{t.id};
  }

  lemma IdsOne(t: Timer)
    ensures Ids([t]) == multiset{t.id} && Ids([]) == multiset{}
  {
    assert [t][1..] == [];
  }

  lemma {:induction false} FilterMembers(s: seq<Timer>, t: Timer)
    ensures t in Due(s) <==> t in s && t.fired
    ensures t in Pending(s) <==> t in s && !t.fired
  {
    if s != [] {
      FilterMembers(s[1..], t);
      assert t in s <==> t == s[0] || t in s[1..];
    }
  }

  lemma BumpKeepsOk(t: Timer, now: nat)
    requires TimerOk(t, now)
    ensures TimerOk(Bump(t, now + 1), now + 1)
    ensures Bump(t, now + 1).fired <==> t.fired || Hit(t)
  {
    var age := now - t.born;
    assert (age % USHORT + 1) % USHORT == (age + 1) % USHORT;
  }

  lemma TickKeepsInv(s: State)
    requires Inv(s)
    ensures Inv(Do(s, Tick))
  {
    var t := Do(s, Tick);
    IdsBump(s.once, s.ticks + 1);
    forall i | 0 <= i < |s.once|
      ensures TimerOk(t.once[i], t.ticks) && (t.once[i].fired <==> s.once[i].fired || Hit(s.once[i]))
    {
      BumpKeepsOk(s.once[i], s.ticks);
    }
  }

  lemma DealKeepsInv(s: State)
    requires Inv(s) && s.dealing
    ensures Inv(Do(s, Deal))
  {
    var t := Do(s, Deal);
    DealConserves(s.once);
    IdsAppend(s.log, Due(s.once));
    assert Ids(t.log) + Ids(t.once) == Ids(s.log) + Ids(s.once);
    forall i | 0 <= i < |t.log| ensures CalledOk(t.log[i]) {
      if i >= |s.log| {
        FilterMembers(s.once, t.log[i]);
      }
    }
    forall i | 0 <= i < |t.once| ensures TimerOk(t.once[i], t.ticks) && !t.once[i].fired {
      FilterMembers(s.once, t.once[i]);
    }
  }

  /** Every number below n exactly once. */
  ghost predicate Below(m: multiset<nat>, n: nat) {
    forall id: nat :: m[id] == if id < n then 1 else 0
  }

  lemma OneMoreId(m: multiset<nat>, n: nat)
    requires Below(m, n)
    ensures Below(m + multiset{n}, n + 1)
  {
  }

  lemma AddKeepsInv(s: State, start: nat)
    requires Inv(s) && start < USHORT
    ensures Inv(Do(s, Add(start)))
  {
    hide Ids, Below;
    var t := Do(s, Add(start));
    var added := Timer(s.nextId, start, 0, false, s.ticks, 0);
    var m := Ids(s.log) + Ids(s.once);
    IdsAppend(s.once, [added]);
    IdsOne(added);
    OneMoreId(m, s.nextId);
    assert Ids(t.log) + Ids(t.once) == m + multiset{s.nextId};
    assert TimerOk(added, t.ticks) && !added.fired;
    forall i | 0 <= i < |t.once| ensures TimerOk(t.once[i], t.ticks) && (i == |s.once| || t.once[i] == s.once[i]) {
    }
  }

  lemma StepKeepsInv(s: State, a: Action)
    requires Inv(s) && Enabled(s, a)
    ensures Inv(Do(s, a))
  {
    match a
    case Tick => TickKeepsInv(s);
    case Take =>
    case Deal => DealKeepsInv(s);
    case Wake =>
    case Add(start) => AddKeepsInv(s, start);
  }

  lemma InitInv()
    ensures Inv(Init())
  {
  }

  lemma NextKeepsInv(s: State, t: State)
    requires Inv(s) && Next(s, t)
    ensures Inv(t)
  {
    var a :| Enabled(s, a) && t == Do(s, a);
    StepKeepsInv(s, a);
  }

  lemma {:induction false} TraceKeepsInv(tr: seq<State>, i: nat)
    requires Trace(tr) && i < |tr|
    ensures Inv(tr[i])
  {
    InitInv();
    hide Inv, Next;
    if i > 0 {
      TraceKeepsInv(tr, i - 1);
      NextKeepsInv(tr[i - 1], tr[i]);
    }
  }

  lemma ReachableInv(s: State)
    requires Reachable(s)
    ensures Inv(s)
  {
    var tr :| Trace(tr) && tr[|tr| - 1] == s;
    TraceKeepsInv(tr, |tr| - 1);
  }

  /** Over every run, each timer added is still in the list or has been called,
      exactly once; and it expired at exactly the tick its start asks for. */
  lemma CalledOnceAtItsTick(s: State)
    requires Reachable(s)
    ensures forall id: nat :: id < s.nextId ==> Ids(s.log)[id] + Ids(s.once)[id] == 1
    ensures forall i :: 0 <= i < |s.log| ==>
              var t := s.log[i];
              if t.start > 0 then t.start == PRECISION * (t.at - t.born) else t.at == t.born + USHORT
  {
    ReachableInv(s);
    forall id: nat | id < s.nextId ensures Ids(s.log)[id] + Ids(s.once)[id] == 1 {
      assert (Ids(s.log) + Ids(s.once))[id] == 1;
    }
    forall i | 0 <= i < |s.log|
      ensures var t := s.log[i];
              if t.start > 0 then t.start == PRECISION * (t.at - t.born) else t.at == t.born + USHORT
    {
      assert CalledOk(s.log[i]);
    }
  }

  /** A timer in the list is marked expired from that tick on and not before. */
  lemma ExpiresAtItsTick(s: State, i: nat, k: nat)
    requires Reachable(s) && i < |s.once|
    requires s.once[i].start == PRECISION * k && k >= 1
    ensures s.once[i].fired <==> s.ticks - s.once[i].born >= k
  {
    ReachableInv(s);
    assert TimerOk(s.once[i], s.ticks);
  }

  /** No wake-up is lost. */
  lemma NoLostWakeup(s: State, i: nat)
    requires Reachable(s) && i < |s.once| && s.once[i].fired
    ensures s.sem > 0 || s.dealing
  {
    ReachableInv(s);
  }

  // ----- the timers are those that were added -----

  /** The states of a run with its actions. */
  ghost predicate Trail(tr: seq<State>, acts: seq<Action>) {
    && |tr| == |acts| + 1 && tr[0] == Init()
    && forall i, j :: 0 <= i < |acts| && j == i + 1 ==> StepBy(tr[i], acts[i], tr[j])
  }

  ghost predicate StepBy(s: State, a: Action, t: State) { Enabled(s, a) && t == Do(s, a) }

  function TicksIn(acts: seq<Action>, n: nat): nat
    requires n <= |acts|
  {
    if n == 0 then 0 else TicksIn(acts, n - 1) + (if acts[n - 1].Tick? then 1 else 0)
  }

  /** What an AddTimer asked for, and how many ticks had been before it. */
  datatype Order = Order(start: nat, ticksBefore: nat)

  function Orders(acts: seq<Action>, n: nat): seq<Order>
    requires n <= |acts|
  {
    if n == 0 then []
    else Orders(acts, n - 1) + (match acts[n - 1]
                                case Add(start) => [Order(start, TicksIn(acts, n - 1))]
                                case _ => [])
  }

  /** A timer is as ordered. */
  predicate AsOrdered(t: Timer, orders: seq<Order>) {
    t.id < |orders| && Order(t.start, t.born) == orders[t.id]
  }

  predicate AllAsOrdered(s: State, orders: seq<Order>) {
    && s.nextId == |orders|
    && (forall t :: t in s.once ==> AsOrdered(t, orders))
    && (forall t :: t in s.log ==> AsOrdered(t, orders))
  }

  lemma StepAsOrdered(s: State, a: Action, orders: seq<Order>, more: seq<Order>)
    requires Enabled(s, a) && AllAsOrdered(s, orders)
    requires more == orders + match a
                              case Add(start) => [Order(start, s.ticks)]
                              case _ => []
    ensures AllAsOrdered(Do(s, a), more)
  {
    hide Due, Pending;
    var t := Do(s, a);
    forall x | x in t.once ensures AsOrdered(x, more) {
      match a
      case Tick =>
        var i :| 0 <= i < |t.once| && t.once[i] == x;
        assert s.once[i] in s.once;
      case Deal => FilterMembers(s.once, x);
      case _ =>
    }
    forall x | x in t.log ensures AsOrdered(x, more) {
      FilterMembers(s.once, x);
    }
  }

  /** Over every run: the timers in the list and those called are as their AddTimer
      ordered them, and their ticks are the ticks since then. */
  lemma {:induction false} TimersAreAsOrdered(tr: seq<State>, acts: seq<Action>, n: nat)
    requires Trail(tr, acts) && n <= |acts|
    ensures tr[n].ticks == TicksIn(acts, n)
    ensures AllAsOrdered(tr[n], Orders(acts, n))
  {
    hide AllAsOrdered;
    if n == 0 {
      NothingOrdered();
    } else {
      TimersAreAsOrdered(tr, acts, n - 1);
      assert StepBy(tr[n - 1], acts[n - 1], tr[n]);
      StepAsOrdered(tr[n - 1], acts[n - 1], Orders(acts, n - 1), Orders(acts, n));
    }
  }

  lemma NothingOrdered()
    ensures AllAsOrdered(Init(), [])
  {
  }

  // ----- every post is taken at most once -----

  /** Ticks in which a timer expired, wake-ups asked for, and wake-ups taken. */
  ghost function Posts(tr: seq<State>, acts: seq<Action>, n: nat): nat
    requires n <= |acts| < |tr|
  {
    if n == 0 then 0
    else Posts(tr, acts, n - 1) + (if acts[n - 1].Wake? || (acts[n - 1].Tick? && AnyHit(tr[n - 1].once)) then 1 else 0)
  }

  function Takes(acts: seq<Action>, n: nat): nat
    requires n <= |acts|
  {
    if n == 0 then 0 else Takes(acts, n - 1) + (if acts[n - 1].Take? then 1 else 0)
  }

  /** Over every run the semaphore holds the posts that were not taken yet. */
  lemma {:induction false} SemaphoreBalance(tr: seq<State>, acts: seq<Action>, n: nat)
    requires Trail(tr, acts) && n <= |acts|
    ensures tr[n].sem + Takes(acts, n) == Posts(tr, acts, n)
  {
    if n > 0 {
      SemaphoreBalance(tr, acts, n - 1);
      assert StepBy(tr[n - 1], acts[n - 1], tr[n]);
    }
  }
}
