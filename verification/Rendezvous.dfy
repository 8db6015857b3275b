/** The semaphore-set rendezvous: one main process and n children meet in
    rounds. Every semaphore change is one `semop` call, so the model's atomic
    step is a whole array of semaphore operations. */
module Rendezvous {
  import opened Arith
  import opened Counting
  import opened Options

  // ----- semop -----

  datatype SemOp = SemOp(num: nat, op: int)

  /** One operation: None when it would block or names no semaphore. */
  function Apply(sems: seq<nat>, o: SemOp): (r: Option<seq<nat>>)
    ensures r.Some? ==> |r.value| == |sems|
  {
    if o.num >= |sems| then None
    else if o.op == 0 then (if sems[o.num] == 0 then Some(sems) else None)
    else if sems[o.num] + o.op < 0 then None
    else Some(sems[o.num := sems[o.num] + o.op])
  }

  /** The array from index k on, applied in order and as a whole: None when
      some operation would block, and then nothing changes. */
  function ApplyFrom(sems: seq<nat>, ops: seq<SemOp>, k: nat): (r: Option<seq<nat>>)
    requires k <= |ops|
    ensures r.Some? ==> |r.value| == |sems|
    decreases |ops| - k
  {
    if k == |ops| then Some(sems)
    else
      match Apply(sems, ops[k])
      case None => None
      case Some(next) => ApplyFrom(next, ops, k + 1)
  }

  function SemOps(sems: seq<nat>, ops: seq<SemOp>): (r: Option<seq<nat>>)
    ensures r.Some? ==> |r.value| == |sems|
  {
    ApplyFrom(sems, ops, 0)
  }

  // ----- processes -----

  /** What a child does next; the digits are the protocol's step numbers. */
  datatype ChildPc = C1 | C3 | Send | C4 | C7 | C8

  datatype Child = Child(round: nat, pc: ChildPc)

  datatype Msg = Msg(child: nat, round: nat)

  /** What main does next, with the messages it has taken this round. */
  datatype MainPc = M2 | M5 | Recv(got: seq<Msg>) | M6(got: seq<Msg>)

  /** Semaphore 0 is M, semaphore i + 1 belongs to child i, semaphore n + 1 is C.
      The queue holds at most `cap` messages; a sender blocks on a full queue. */
  datatype State = State(
    sems: seq<nat>,
    children: seq<Child>,
    round: nat,
    main: MainPc,
    queue: seq<Msg>,
    cap: nat)

  datatype Action = StepChild(i: nat) | StepMain

  function Init(n: nat, cap: nat): State {
    State([n] + seq(n, _ => 2) + [n], seq(n, _ => Child(1, C1)), 1, M2, [], cap)
  }

  function ChildOps(n: nat, i: nat, pc: ChildPc): seq<SemOp> {
    match pc
    case C1 => [SemOp(i + 1, -1), SemOp(n + 1, -1)]
    case C3 => [SemOp(i + 1, 0), SemOp(n + 1, 1)]
    case Send => []
    case C4 => [SemOp(0, -1)]
    case C7 => [SemOp(0, 1), SemOp(i + 1, -1)]
    case C8 => [SemOp(i + 1, 2)]
  }

  function MainOps(n: nat, pc: MainPc): seq<SemOp> {
    match pc
    case M2 => seq(n, (k: nat) => SemOp(k + 1, -1)) + [SemOp(n + 1, 0)]
    case M5 => [SemOp(0, 0)]
    case Recv(_) => []
    case M6(_) => seq(n, (k: nat) => SemOp(k + 1, 1))
  }

  function NextChild(c: Child): Child {
    match c.pc
    case C1 => c.(pc := C3)
    case C3 => c.(pc := Send)
    case Send => c.(pc := C4)
    case C4 => c.(pc := C7)
    case C7 => c.(pc := C8)
    case C8 => Child(c.round + 1, C1)
  }

  predicate Enabled(s: State, a: Action) {
    var n := |s.children|;
    match a
    case StepChild(i) =>
      && i < n
      && SemOps(s.sems, ChildOps(n, i, s.children[i].pc)).Some?
      && (s.children[i].pc.Send? ==> |s.queue| < s.cap)
    case StepMain =>
      && SemOps(s.sems, MainOps(n, s.main)).Some?
      && (s.main.Recv? ==> s.queue != [])
  }

  function Do(s: State, a: Action): State
    requires Enabled(s, a)
  {
    var n := |s.children|;
    match a
    case StepChild(i) =>
      var c := s.children[i];
      s.(sems := SemOps(s.sems, ChildOps(n, i, c.pc)).value,
         children := s.children[i := NextChild(c)],
         queue := if c.pc.Send? then s.queue + [Msg(i, c.round)] else s.queue)
    case StepMain =>
      var t := s.(sems := SemOps(s.sems, MainOps(n, s.main)).value);
      match s.main
      case M2 => t.(main := M5)
      case M5 => t.(main := Recv([]))
      case Recv(got) =>
        var got' := got + [s.queue[0]];
        t.(queue := s.queue[1..], main := if |got'| == n then M6(got') else Recv(got'))
      case M6(_) => t.(main := M2, round := s.round + 1)
  }

  /** A run is any interleaving of enabled actions. */
  predicate IsRun(s: State, acts: seq<Action>)
    decreases |acts|
  {
    acts == [] || (Enabled(s, acts[0]) && IsRun(Do(s, acts[0]), acts[1..]))
  }

  function Exec(s: State, acts: seq<Action>): State
    requires IsRun(s, acts)
    decreases |acts|
  {
    if acts == [] then s else Exec(Do(s, acts[0]), acts[1..])
  }

  // ----- the inductive invariant -----

  predicate AtC3(c: Child) { c.pc.C3? }
  predicate AtC7(c: Child) { c.pc.C7? }
  predicate Sent(c: Child) { c.pc.C4? || c.pc.C7? }

  /** Where a child can be, given what main does next in round r. */
  predicate InStep(c: Child, main: MainPc, r: nat) {
    && 1 <= c.round
    && match main
       case M2 => (c.round + 1 == r && (c.pc.C7? || c.pc.C8?)) || (c.round == r && (c.pc.C1? || c.pc.C3?))
       case M5 => c.round == r && (c.pc.C3? || c.pc.Send? || c.pc.C4? || c.pc.C7?)
       case _ => c.round == r && c.pc.C7?
  }

  /** The value of a child's own semaphore. */
  function OwnValue(c: Child, main: MainPc): nat {
    match c.pc
    case C1 => 2
    case C3 => if main.M2? then 1 else 0
    case C7 => if main.M2? then 1 else 0
    case _ => 0
  }

  /** q is one message of round r from each child that has sent, and no more. */
  predicate Collected(q: seq<Msg>, children: seq<Child>, r: nat) {
    && Distinct(q)
    && |q| == Count(children, Sent)
    && (forall m :: m in q ==> m.child < |children| && m.round == r && Sent(children[m.child]))
    && (forall i :: 0 <= i < |children| && Sent(children[i]) ==> Msg(i, r) in q)
  }

  predicate QueueOk(s: State) {
    match s.main
    case M2 => s.queue == []
    case M5 => Collected(s.queue, s.children, s.round)
    case Recv(got) => |got| < |s.children| && Collected(got + s.queue, s.children, s.round)
    case M6(got) => s.queue == [] && Collected(got, s.children, s.round)
  }

  predicate Inv(s: State) {
    var n := |s.children|;
    && 1 <= n && 1 <= s.round
    && |s.sems| == n + 2
    && s.sems[0] == n - Count(s.children, AtC7)
    && s.sems[n + 1] == n - Count(s.children, AtC3)
    && (forall i :: 0 <= i < n ==> InStep(s.children[i], s.main, s.round))
    && (forall i :: 0 <= i < n ==> s.sems[i + 1] == OwnValue(s.children[i], s.main))
    && QueueOk(s)
  }

  lemma InitInv(n: nat, cap: nat)
    requires 1 <= n
    ensures Inv(Init(n, cap))
  {
    var s := Init(n, cap);
    CountBound(s.children, AtC7);
    CountBound(s.children, AtC3);
  }

  /** What a child's array needs and does. */
  function ChildApply(sems: seq<nat>, n: nat, i: nat, pc: ChildPc): Option<seq<nat>>
    requires |sems| == n + 2 && i < n
  {
    var own, c := sems[i + 1], sems[n + 1];
    match pc
    case C1 => if own >= 1 && c >= 1 then Some(sems[i + 1 := own - 1][n + 1 := c - 1]) else None
    case C3 => if own == 0 then Some(sems[n + 1 := c + 1]) else None
    case Send => Some(sems)
    case C4 => if sems[0] >= 1 then Some(sems[0 := sems[0] - 1]) else None
    case C7 => if own >= 1 then Some(sems[0 := sems[0] + 1][i + 1 := own - 1]) else None
    case C8 => Some(sems[i + 1 := own + 2])
  }

  lemma LastOp(sems: seq<nat>, ops: seq<SemOp>)
    requires ops != []
    ensures ApplyFrom(sems, ops, |ops| - 1) == Apply(sems, ops[|ops| - 1])
  {
    var r := Apply(sems, ops[|ops| - 1]);
    if r.Some? {
      assert ApplyFrom(r.value, ops, |ops|) == r;
    }
  }

  lemma ChildSemops(sems: seq<nat>, n: nat, i: nat, pc: ChildPc)
    requires |sems| == n + 2 && i < n
    ensures SemOps(sems, ChildOps(n, i, pc)) == ChildApply(sems, n, i, pc)
  {
    var ops := ChildOps(n, i, pc);
    if ops != [] {
      LastOp(sems, ops);
      if |ops| == 2 && Apply(sems, ops[0]).Some? {
        LastOp(Apply(sems, ops[0]).value, ops);
      }
    }
  }

  /** The semaphores of children lo .. n - 1, each changed by op. */
  function Shift(sems: seq<nat>, lo: nat, n: nat, op: int): (r: seq<nat>)
    requires n + 1 <= |sems|
    requires forall k :: lo < k <= n ==> sems[k] + op >= 0
    ensures |r| == |sems|
  {
    seq(|sems|, (k: nat) requires k < |sems| => if lo < k <= n then (sems[k] + op) as nat else sems[k])
  }

  /** Main's array, whose entry k changes the semaphore of child k by op,
      applies exactly when every child semaphore can take the change; then each
      one changes by op and nothing else does. */
  lemma {:induction false} BulkOps(sems: seq<nat>, ops: seq<SemOp>, lo: nat, n: nat, op: int)
    requires lo <= n <= |ops| && n + 1 <= |sems| && op != 0
    requires forall k :: lo <= k < n ==> ops[k] == SemOp(k + 1, op)
    ensures ApplyFrom(sems, ops, lo) ==
            if forall k :: lo < k <= n ==> sems[k] + op >= 0
            then ApplyFrom(Shift(sems, lo, n, op), ops, n)
            else None
    decreases n - lo
  {
    if lo == n {
      assert Shift(sems, lo, n, op) == sems;
    } else if sems[lo + 1] + op >= 0 {
      var sems' := sems[lo + 1 := sems[lo + 1] + op];
      assert Apply(sems, ops[lo]) == Some(sems');
      BulkOps(sems', ops, lo + 1, n, op);
      assert forall k :: lo + 1 < k <= n ==> sems'[k] == sems[k];
      if forall k :: lo < k <= n ==> sems[k] + op >= 0 {
        assert Shift(sems, lo, n, op) == Shift(sems', lo + 1, n, op);
      }
    }
  }

  // ----- what each step needs and does, under the invariant -----

  /** A child's step is enabled by one plain condition and moves at most three
      semaphores. */
  lemma ChildStep(s: State, i: nat)
    requires Inv(s) && i < |s.children|
    ensures var n := |s.children|;
            Enabled(s, StepChild(i)) <==>
              match s.children[i].pc
              case C1 => s.sems[n + 1] >= 1
              case C3 => s.sems[i + 1] == 0
              case Send => |s.queue| < s.cap
              case C4 => s.sems[0] >= 1
              case C7 => s.sems[i + 1] >= 1
              case C8 => true
    ensures Enabled(s, StepChild(i)) ==>
              Some(Do(s, StepChild(i)).sems) == ChildApply(s.sems, |s.children|, i, s.children[i].pc)
  {
    ChildSemops(s.sems, |s.children|, i, s.children[i].pc);
    assert InStep(s.children[i], s.main, s.round);
    assert s.sems[i + 1] == OwnValue(s.children[i], s.main);
  }

  /** Main's step likewise. */
  lemma MainStep(s: State)
    requires Inv(s)
    ensures var n := |s.children|;
            Enabled(s, StepMain) <==>
              match s.main
              case M2 => s.sems[n + 1] == 0 && forall k :: 1 <= k <= n ==> s.sems[k] >= 1
              case M5 => s.sems[0] == 0
              case Recv(_) => s.queue != []
              case M6(_) => true
    ensures Enabled(s, StepMain) ==>
              var n := |s.children|;
              var t := Do(s, StepMain);
              && |t.sems| == n + 2 && t.sems[0] == s.sems[0] && t.sems[n + 1] == s.sems[n + 1]
              && forall k :: 1 <= k <= n ==> t.sems[k] == match s.main
                                                          case M2 => s.sems[k] - 1
                                                          case M6(_) => s.sems[k] + 1
                                                          case _ => s.sems[k]
  {
    var n := |s.children|;
    match s.main
    case M2 =>
      BulkOps(s.sems, MainOps(n, s.main), 0, n, -1);
      if forall k :: 0 < k <= n ==> s.sems[k] >= 1 {
        LastOp(Shift(s.sems, 0, n, -1), MainOps(n, s.main));
      }
    case M5 =>
      LastOp(s.sems, MainOps(n, s.main));
    case Recv(_) =>
    case M6(_) =>
      BulkOps(s.sems, MainOps(n, s.main), 0, n, 1);
  }

  // ----- every step keeps the invariant -----

  lemma CountsMove(s: seq<Child>, i: nat, c: Child)
    requires i < |s|
    ensures Count(s[i := c], AtC3) == Count(s, AtC3) - (if AtC3(s[i]) then 1 else 0) + (if AtC3(c) then 1 else 0)
    ensures Count(s[i := c], AtC7) == Count(s, AtC7) - (if AtC7(s[i]) then 1 else 0) + (if AtC7(c) then 1 else 0)
    ensures Count(s[i := c], Sent) == Count(s, Sent) - (if Sent(s[i]) then 1 else 0) + (if Sent(c) then 1 else 0)
  {
    CountUpdate(s, i, c, AtC3);
    CountUpdate(s, i, c, AtC7);
    CountUpdate(s, i, c, Sent);
  }

  lemma ChildMovesChildrenOk(s: State, i: nat)
    requires Inv(s) && Enabled(s, StepChild(i))
    ensures var t := Do(s, StepChild(i));
            && |t.children| == |s.children| && |t.sems| == |s.sems|
            && forall j :: 0 <= j < |s.children| ==>
                 InStep(t.children[j], t.main, t.round) && t.sems[j + 1] == OwnValue(t.children[j], t.main)
  {
    ChildStep(s, i);
    hide SemOps, Count, QueueOk;
    var t := Do(s, StepChild(i));
    forall j | 0 <= j < |s.children|
      ensures InStep(t.children[j], t.main, t.round) && t.sems[j + 1] == OwnValue(t.children[j], t.main)
    {
      assert InStep(s.children[j], s.main, s.round);
      assert s.sems[j + 1] == OwnValue(s.children[j], s.main);
    }
  }

  lemma ChildMovesQueueOk(s: State, i: nat)
    requires Inv(s) && Enabled(s, StepChild(i))
    ensures QueueOk(Do(s, StepChild(i)))
  {
    hide SemOps, Count;
    var c := s.children[i];
    var t := Do(s, StepChild(i));
    CountsMove(s.children, i, NextChild(c));
    ChildStep(s, i);
    assert InStep(c, s.main, s.round);
    assert s.sems[i + 1] == OwnValue(c, s.main);
    if s.main.M5? && c.pc.Send? {
      assert Msg(i, s.round) !in s.queue;
      assert t.queue == s.queue + [Msg(i, s.round)];
    }
  }

  lemma ChildKeepsInv(s: State, i: nat)
    requires Inv(s) && Enabled(s, StepChild(i))
    ensures Inv(Do(s, StepChild(i)))
  {
    ChildStep(s, i);
    ChildMovesChildrenOk(s, i);
    ChildMovesQueueOk(s, i);
    CountsMove(s.children, i, NextChild(s.children[i]));
    hide SemOps, Count, QueueOk, InStep, OwnValue;
  }

  lemma MainMovesChildrenOk(s: State)
    requires Inv(s) && Enabled(s, StepMain)
    ensures var t := Do(s, StepMain);
            && t.children == s.children && |t.sems| == |s.sems|
            && forall j :: 0 <= j < |s.children| ==>
                 InStep(t.children[j], t.main, t.round) && t.sems[j + 1] == OwnValue(t.children[j], t.main)
  {
    var n := |s.children|;
    var t := Do(s, StepMain);
    MainStep(s);
    CountBound(s.children, AtC3);
    CountBound(s.children, AtC7);
    assert t.children == s.children;
    forall j | 0 <= j < n
      ensures InStep(t.children[j], t.main, t.round) && t.sems[j + 1] == OwnValue(t.children[j], t.main)
    {
      assert InStep(s.children[j], s.main, s.round);
      assert s.sems[j + 1] == OwnValue(s.children[j], s.main);
    }
  }

  lemma MainMovesQueueOk(s: State)
    requires Inv(s) && Enabled(s, StepMain)
    ensures QueueOk(Do(s, StepMain))
  {
    hide SemOps, MainOps, Count;
    var n := |s.children|;
    var t := Do(s, StepMain);
    MainStep(s);
    CountBound(s.children, Sent);
    match s.main
    case M2 =>
      CountBound(s.children, AtC3);
      assert forall i :: 0 <= i < n ==> AtC3(s.children[i]);
    case M5 =>
      assert [] + s.queue == s.queue;
    case Recv(got) =>
      var got' := got + [s.queue[0]];
      assert got' + t.queue == got + s.queue;
      assert forall i :: 0 <= i < n ==> InStep(s.children[i], s.main, s.round);
      if |got'| == n {
        assert |got' + t.queue| == n;
        assert got' + t.queue == got';
      }
    case M6(_) =>
  }

  lemma MainKeepsInv(s: State)
    requires Inv(s) && Enabled(s, StepMain)
    ensures Inv(Do(s, StepMain))
  {
    MainStep(s);
    MainMovesChildrenOk(s);
    MainMovesQueueOk(s);
  }

  lemma StepKeepsInv(s: State, a: Action)
    requires Inv(s) && Enabled(s, a)
    ensures Inv(Do(s, a))
  {
    match a
    case StepChild(i) => ChildKeepsInv(s, i);
    case StepMain => MainKeepsInv(s);
  }

  lemma {:induction false} RunKeepsInv(s: State, acts: seq<Action>)
    requires Inv(s) && IsRun(s, acts)
    ensures Inv(Exec(s, acts)) && |Exec(s, acts).children| == |s.children| && Exec(s, acts).cap == s.cap
    decreases |acts|
  {
    if acts != [] {
      StepKeepsInv(s, acts[0]);
      hide Inv, Enabled;
      RunKeepsInv(Do(s, acts[0]), acts[1..]);
    }
  }

  // ----- safety -----

  /** In every reachable state in which main can pass step 5 of round r, the
      queue holds one message from each child, all of round r, and no other. */
  lemma SameRoundData(n: nat, cap: nat, acts: seq<Action>)
    requires 1 <= n && IsRun(Init(n, cap), acts)
    ensures var s := Exec(Init(n, cap), acts);
            s.main.M5? && Enabled(s, StepMain) ==>
              && |s.queue| == n
              && forall i :: 0 <= i < n ==> multiset(s.queue)[Msg(i, s.round)] == 1
  {
    InitInv(n, cap);
    RunKeepsInv(Init(n, cap), acts);
    var s := Exec(Init(n, cap), acts);
    if s.main.M5? && Enabled(s, StepMain) {
      MainStep(s);
      CountBound(s.children, AtC7);
      CountBound(s.children, Sent);
      forall i | 0 <= i < n ensures multiset(s.queue)[Msg(i, s.round)] == 1 {
        DistinctOnce(s.queue, Msg(i, s.round));
      }
    }
  }

  /** When main reaches step 6 it has taken exactly that set of messages, and
      left the queue empty for the next round. */
  lemma MainGotTheRound(n: nat, cap: nat, acts: seq<Action>)
    requires 1 <= n && IsRun(Init(n, cap), acts)
    ensures var s := Exec(Init(n, cap), acts);
            s.main.M6? ==>
              && s.queue == [] && |s.main.got| == n
              && forall i :: 0 <= i < n ==> multiset(s.main.got)[Msg(i, s.round)] == 1
  {
    InitInv(n, cap);
    RunKeepsInv(Init(n, cap), acts);
    var s := Exec(Init(n, cap), acts);
    if s.main.M6? {
      CountBound(s.children, Sent);
      forall i | 0 <= i < n ensures multiset(s.main.got)[Msg(i, s.round)] == 1 {
        assert Sent(s.children[i]);
        DistinctOnce(s.main.got, Msg(i, s.round));
      }
    }
  }

  lemma {:induction false} DistinctOnce(q: seq<Msg>, m: Msg)
    requires Distinct(q)
    ensures multiset(q)[m] == if m in q then 1 else 0
  {
    if q != [] {
      var k := |q| - 1;
      assert q == q[..k] + [q[k]];
      assert forall i, j :: 0 <= i < j < k ==> q[..k][i] != q[..k][j];
      DistinctOnce(q[..k], m);
      assert q[k] !in q[..k];
      assert multiset(q) == multiset(q[..k]) + multiset{q[k]};
    }
  }

  predicate PassedStep3(c: Child, r: nat) { c.round > r || (c.round == r && !c.pc.C1? && !c.pc.C3?) }
  predicate FinishedStep8(c: Child, r: nat) { c.round > r }

  /** No child passes step 3 of round r + 1 before every child has finished
      step 8 of round r; so no two children are ever more than a round apart. */
  lemma Lockstep(n: nat, cap: nat, acts: seq<Action>, i: nat, j: nat, r: nat)
    requires 1 <= n && IsRun(Init(n, cap), acts) && i < n && j < n
    ensures var s := Exec(Init(n, cap), acts);
            && i < |s.children| && j < |s.children|
            && (PassedStep3(s.children[i], r + 1) ==> FinishedStep8(s.children[j], r))
            && s.children[i].round <= s.children[j].round + 1
  {
    InitInv(n, cap);
    RunKeepsInv(Init(n, cap), acts);
    var s := Exec(Init(n, cap), acts);
    assert InStep(s.children[i], s.main, s.round);
    assert InStep(s.children[j], s.main, s.round);
  }

  /** The semaphores hold their initial values exactly between rounds: when
      every child is back at step 1 (and main at step 2, all in one round). */
  lemma ResetBetweenRounds(n: nat, cap: nat, acts: seq<Action>)
    requires 1 <= n && IsRun(Init(n, cap), acts)
    ensures var s := Exec(Init(n, cap), acts);
            && |s.children| == n
            && (s.sems == Init(n, cap).sems <==> forall i :: 0 <= i < n ==> s.children[i].pc.C1?)
            && (s.sems == Init(n, cap).sems ==>
                  s.main.M2? && s.queue == [] && forall i :: 0 <= i < n ==> s.children[i].round == s.round)
  {
    InitInv(n, cap);
    RunKeepsInv(Init(n, cap), acts);
    var s := Exec(Init(n, cap), acts);
    CountBound(s.children, AtC3);
    CountBound(s.children, AtC7);
    assert InStep(s.children[0], s.main, s.round);
    assert s.sems[0 + 1] == OwnValue(s.children[0], s.main);
    if s.sems == Init(n, cap).sems {
      forall i | 0 <= i < n ensures s.children[i].pc.C1? && s.children[i].round == s.round {
        assert InStep(s.children[i], s.main, s.round);
        assert s.sems[i + 1] == 2 == OwnValue(s.children[i], s.main);
      }
    }
    if forall i :: 0 <= i < n ==> s.children[i].pc.C1? {
      assert forall i :: 0 <= i < n ==> !AtC3(s.children[i]) && !AtC7(s.children[i]);
      forall k | 0 <= k < n + 2 ensures s.sems[k] == Init(n, cap).sems[k] {
        if 1 <= k <= n {
          assert s.sems[(k - 1) + 1] == OwnValue(s.children[k - 1], s.main);
        }
      }
    }
  }

  // ----- progress -----

  ghost predicate Stuck(s: State) { forall a :: !Enabled(s, a) }

  lemma AllAlikeLetsMainGo(s: State)
    requires Inv(s)
    requires forall i :: 0 <= i < |s.children| ==> if s.main.M2? then AtC3(s.children[i]) else AtC7(s.children[i])
    ensures Enabled(s, StepMain)
  {
    var n := |s.children|;
    MainStep(s);
    CountBound(s.children, AtC3);
    CountBound(s.children, AtC7);
    CountBound(s.children, Sent);
    match s.main
    case M2 =>
      forall k | 1 <= k <= n ensures s.sems[k] >= 1 {
        assert s.sems[(k - 1) + 1] == OwnValue(s.children[k - 1], s.main);
      }
    case _ =>
      assert forall i :: 0 <= i < n ==> Sent(s.children[i]);
  }

  /** With room in the queue for one message per child, some process can always
      take its next step. */
  lemma SomeoneCanStep(s: State)
    requires Inv(s) && s.cap >= |s.children|
    ensures exists a :: Enabled(s, a)
  {
    var n := |s.children|;
    MainStep(s);
    CountBound(s.children, AtC3);
    CountBound(s.children, AtC7);
    CountBound(s.children, Sent);
    if !Enabled(s, StepMain) {
      if forall i :: 0 <= i < n ==> (if s.main.M2? then AtC3(s.children[i]) else AtC7(s.children[i])) {
        AllAlikeLetsMainGo(s);
        assert false;
      }
      var i :| 0 <= i < n && (if s.main.M2? then !AtC3(s.children[i]) else !AtC7(s.children[i]));
      assert InStep(s.children[i], s.main, s.round);
      assert s.sems[i + 1] == OwnValue(s.children[i], s.main);
      ChildStep(s, i);
      assert s.children[i].pc.Send? ==> Count(s.children, Sent) != n;
      assert Enabled(s, StepChild(i));
    }
  }

  /** Steps a child has taken since the start, and main likewise. */
  function ChildSteps(c: Child): int {
    6 * (c.round - 1) + match c.pc
                        case C1 => 0
                        case C3 => 1
                        case Send => 2
                        case C4 => 3
                        case C7 => 4
                        case C8 => 5
  }

  function MainSteps(n: nat, r: nat, main: MainPc): int
    requires 1 <= r
  {
    Times(r - 1, n + 3) + match main
                        case M2 => 0
                        case M5 => 1
                        case Recv(got) => 2 + |got|
                        case M6(_) => n + 2
  }

  function Total(children: seq<Child>): int {
    if children == [] then 0
    else ChildSteps(children[|children| - 1]) + Total(children[..|children| - 1])
  }

  function Clock(s: State): int
    requires 1 <= s.round
  {
    MainSteps(|s.children|, s.round, s.main) + Total(s.children)
  }

  lemma {:induction false} TotalUpdate(s: seq<Child>, i: nat, c: Child)
    requires i < |s|
    ensures Total(s[i := c]) == Total(s) - ChildSteps(s[i]) + ChildSteps(c)
  {
    var n := |s| - 1;
    if i < n {
      assert s[i := c][..n] == s[..n][i := c];
      TotalUpdate(s[..n], i, c);
    } else {
      assert s[i := c][..n] == s[..n];
    }
  }

  lemma {:induction false} TotalBound(s: seq<Child>, m: int)
    requires forall i :: 0 <= i < |s| ==> ChildSteps(s[i]) <= m
    ensures Total(s) <= Times(|s|, m)
  {
    if s != [] {
      TotalBound(s[..|s| - 1], m);
    }
  }

  lemma {:induction false} TotalInit(n: nat)
    ensures Total(seq(n, _ => Child(1, C1))) == 0
  {
    if n > 0 {
      assert seq(n, _ => Child(1, C1))[..n - 1] == seq(n - 1, _ => Child(1, C1));
      TotalInit(n - 1);
    }
  }

  /** Every step moves the clock by exactly one. */
  lemma ClockTicks(s: State, a: Action)
    requires 1 <= s.round && Enabled(s, a)
    ensures Do(s, a).round >= 1 && Clock(Do(s, a)) == Clock(s) + 1
  {
    if a.StepChild? {
      TotalUpdate(s.children, a.i, NextChild(s.children[a.i]));
    }
  }

  lemma {:induction false} ClockCounts(s: State, acts: seq<Action>)
    requires 1 <= s.round && IsRun(s, acts)
    ensures Exec(s, acts).round >= 1 && Clock(Exec(s, acts)) == Clock(s) + |acts|
    decreases |acts|
  {
    if acts != [] {
      ClockTicks(s, acts[0]);
      ClockCounts(Do(s, acts[0]), acts[1..]);
    }
  }

  lemma RoundBound(n: nat, r: nat)
    ensures Times(n, 6 * r) + Times(r, n + 3) == r * (7 * n + 3)
  {
    TimesIsProduct(n, 6 * r);
    TimesIsProduct(r, n + 3);
    calc {
      n * (6 * r) + r * (n + 3);
      r * (6 * n) + r * (n + 3);
      r * (6 * n + (n + 3));
    }
  }

  lemma ClockBound(s: State)
    requires Inv(s)
    ensures Clock(s) <= s.round * (7 * |s.children| + 3)
  {
    var n, r := |s.children|, s.round;
    CountBound(s.children, Sent);
    forall i | 0 <= i < n ensures ChildSteps(s.children[i]) <= 6 * r {
      assert InStep(s.children[i], s.main, r);
    }
    TotalBound(s.children, 6 * r);
    RoundBound(n, r);
    assert MainSteps(n, r, s.main) <= Times(r, n + 3);
  }

  lemma InitClock(n: nat, cap: nat)
    requires 1 <= n
    ensures var s := Init(n, cap);
            Inv(s) && 1 <= s.round && |s.children| == n && Clock(s) == 0
  {
    InitInv(n, cap);
    TotalInit(n);
  }

  /** Under any scheduler, round r is over within r * (7n + 3) steps. */
  lemma RoundsAdvance(n: nat, cap: nat, acts: seq<Action>)
    requires 1 <= n && IsRun(Init(n, cap), acts)
    ensures |acts| <= Exec(Init(n, cap), acts).round * (7 * n + 3)
  {
    hide Inv, Clock, Init, IsRun, Exec;
    InitClock(n, cap);
    RunKeepsInv(Init(n, cap), acts);
    ClockCounts(Init(n, cap), acts);
    var s := Exec(Init(n, cap), acts);
    ClockBound(s);
    assert |s.children| == n;
  }

  /** With a queue smaller than the number of children, main never gets past
      step 5 of round 1. */
  predicate FirstRound(s: State) { s.round == 1 && (s.main.M2? || s.main.M5?) && |s.queue| <= s.cap }

  lemma StepStaysInFirstRound(s: State, a: Action)
    requires Inv(s) && Enabled(s, a) && FirstRound(s) && s.cap < |s.children|
    ensures FirstRound(Do(s, a)) && Do(s, a).cap == s.cap && |Do(s, a).children| == |s.children|
  {
    if a.StepMain? && s.main.M5? {
      MainStep(s);
      CountBound(s.children, AtC7);
      CountBound(s.children, Sent);
      assert false;
    }
  }

  lemma {:induction false} StaysInFirstRound(s: State, acts: seq<Action>)
    requires Inv(s) && IsRun(s, acts) && FirstRound(s) && s.cap < |s.children|
    ensures FirstRound(Exec(s, acts))
    decreases |acts|
  {
    hide Inv, Do, Enabled, FirstRound;
    if acts != [] {
      StepKeepsInv(s, acts[0]);
      StepStaysInFirstRound(s, acts[0]);
      StaysInFirstRound(Do(s, acts[0]), acts[1..]);
    }
  }

  /** From any state of a run that cannot outlast `fuel` more steps, some
      continuation is stuck. */
  lemma {:induction false} RunsIntoStuck(n: nat, cap: nat, acts: seq<Action>, fuel: nat) returns (more: seq<Action>)
    requires 1 <= n && cap < n && IsRun(Init(n, cap), acts)
    requires |acts| + fuel == 7 * n + 4
    ensures IsRun(Init(n, cap), more) && Stuck(Exec(Init(n, cap), more))
    decreases fuel
  {
    InitInv(n, cap);
    RoundsAdvance(n, cap, acts);
    StaysInFirstRound(Init(n, cap), acts);
    var s := Exec(Init(n, cap), acts);
    if a :| Enabled(s, a) {
      RunAppend(Init(n, cap), acts, a);
      more := RunsIntoStuck(n, cap, acts + [a], fuel - 1);
    } else {
      more := acts;
    }
  }

  lemma {:induction false} RunAppend(s: State, acts: seq<Action>, a: Action)
    requires IsRun(s, acts) && Enabled(Exec(s, acts), a)
    ensures IsRun(s, acts + [a]) && Exec(s, acts + [a]) == Do(Exec(s, acts), a)
    decreases |acts|
  {
    var more := acts + [a];
    if acts == [] {
      assert more[1..] == [];
    } else {
      assert more[0] == acts[0] && more[1..] == acts[1..] + [a];
      RunAppend(Do(s, acts[0]), acts[1..], a);
    }
  }

  ghost predicate NeverStuck(n: nat, cap: nat) {
    forall acts :: IsRun(Init(n, cap), acts) ==> !Stuck(Exec(Init(n, cap), acts))
  }

  /** The rendezvous never deadlocks exactly when the message queue has room
      for one message per child. */
  lemma DeadlockFree(n: nat, cap: nat)
    requires 1 <= n
    ensures NeverStuck(n, cap) <==> cap >= n
  {
    if cap >= n {
      forall acts | IsRun(Init(n, cap), acts) ensures !Stuck(Exec(Init(n, cap), acts)) {
        InitInv(n, cap);
        RunKeepsInv(Init(n, cap), acts);
        SomeoneCanStep(Exec(Init(n, cap), acts));
      }
    } else {
      var more := RunsIntoStuck(n, cap, [], 7 * n + 4);
      assert IsRun(Init(n, cap), more);
    }
  }
}
