/** The balancer: worker threads share a session list by contiguous ranges,
    under a read-write lock; each change of the list recomputes the ranges and
    posts the semaphore of every worker whose range is not empty. */
module SessionBalance {
  import opened Arith
  import opened Counting
  import opened Options

  /** Positions in the session list stand for its iterators; `end` is one past. */
  datatype Range = Range(begin: nat, end: nat)

  // ----- InitIterator -----

  /** Worker i's share when count workers divide size sessions. */
  function Share(size: nat, count: nat, i: nat): (r: Range)
    requires 1 <= count && i < count
    ensures r.begin <= r.end <= size
  {
    ShareFits(size, count, i);
    Range(i * (size / count), if i == count - 1 then size else (i + 1) * (size / count))
  }

  lemma ShareFits(size: nat, count: nat, i: nat)
    requires 1 <= count && i < count
    ensures i * (size / count) <= (i + 1) * (size / count) <= size
  {
    var pos := size / count;
    MulMono(i + 1, count, pos);
    assert count * pos <= size;
    MulMono(i, i + 1, pos);
  }

  function Shares(size: nat, count: nat): (rs: seq<Range>)
    requires 1 <= count
    ensures |rs| == count && forall i :: 0 <= i < count ==> rs[i] == Share(size, count, i)
  {
    seq(count, i requires 0 <= i < count => Share(size, count, i))
  }

  method InitIterator(size: nat, count: nat) returns (rs: seq<Range>)
    requires 1 <= count
    ensures rs == Shares(size, count)
  {
    var pos := size / count;
    var it, istart, iend := 0, 0, size;
    rs := seq(count, _ => Range(size, size));
    for i := 0 to count
      invariant it == i * pos
      invariant |rs| == count
      invariant forall k :: 0 <= k < i ==> rs[k] == Share(size, count, k)
    {
      istart := if i == 0 then 0 else it;
      for j := 0 to pos
        invariant it == i * pos + j
      {
        it := it + 1;
      }
      assert (i + 1) * pos == i * pos + pos;
      iend := if count - 1 == i then size else it;
      rs := rs[i := Range(istart, iend)];
    }
  }

  /** The ranges follow one another from the first session to the last. */
  lemma SharesContiguous(size: nat, count: nat)
    requires 1 <= count
    ensures var rs := Shares(size, count);
            && rs[0].begin == 0
            && rs[count - 1].end == size
            && forall i :: 1 <= i < count ==> rs[i - 1].end == rs[i].begin
  {
  }

  /** Every worker gets a full share, the largest that all can get, and the last
      one also what is left over. */
  lemma SharesEven(size: nat, count: nat, i: nat)
    requires 1 <= count && i < count
    ensures var r := Shares(size, count)[i];
            && count * ((size - size % count) / count) == size - size % count
            && r.end - r.begin == (size - size % count) / count + (if i == count - 1 then size % count else 0)
  {
    var q := size / count;
    assert size == count * q + size % count;
    DivExact(count, q);
    NextTimes(i, q);
    NextTimes(count - 1, q);
  }

  lemma DivExact(d: nat, q: nat)
    requires d >= 1
    ensures (d * q) / d == q
  {
    var e := (d * q) / d;
    assert d * e <= d * q < d * e + d;
    if e < q {
      MulMono(e + 1, q, d);
      assert false;
    } else if e > q {
      MulMono(q + 1, e, d);
      assert false;
    }
  }

  /** Each session is in exactly one worker's range. */
  lemma OneOwner(size: nat, count: nat, k: nat) returns (i: nat)
    requires 1 <= count && k < size
    ensures i < count
    ensures var rs := Shares(size, count);
            forall j :: 0 <= j < count ==> (rs[j].begin <= k < rs[j].end <==> j == i)
  {
    var rs := Shares(size, count);
    SharesContiguous(size, count);
    i := 0;
    while rs[i].end <= k
      invariant i < count && rs[i].begin <= k
      decreases count - i
    {
      assert rs[i].end == rs[i + 1].begin;
      i := i + 1;
    }
    forall j | 0 <= j < count ensures rs[j].begin <= k < rs[j].end <==> j == i {
      if i < j {
        SharesOrdered(size, count, i, j);
      } else if j < i {
        SharesOrdered(size, count, j, i);
      }
    }
  }

  lemma SharesOrdered(size: nat, count: nat, i: nat, j: nat)
    requires i < j < count
    ensures Share(size, count, i).end <= Share(size, count, j).begin
  {
    MulMono(i + 1, j, size / count);
  }

  // ----- the protocol -----

  /** A worker: before its read lock, comparing its range under the lock,
      between the empty check and SemWait, before the second read lock, or
      visiting session k of a range that ends at e, under the lock. */
  datatype WorkerPc = Top | Test | ToWait | Relock | Visit(k: nat, e: nat)

  datatype Change = Append(id: nat) | Remove(id: nat)

  /** The writer: outside, holding the write lock, or posting semaphore i. */
  datatype WriterPc = Outside | Holding(change: Change) | Post(i: nat)

  /** `served` lists, for each worker, the sessions it has dealt with in its current
      or last visit; it only records history. */
  datatype State = State(
    sessions: seq<nat>, destroyed: set<nat>, ranges: seq<Range>, sems: seq<nat>,
    workers: seq<WorkerPc>, writer: WriterPc, served: seq<seq<nat>>)

  datatype Action = StepWorker(i: nat) | StartWrite(change: Change) | StepWriter

  function Init(count: nat): State
    requires 1 <= count
  {
    State([], {}, Shares(0, count), seq(count, _ => 0), seq(count, _ => Top), Outside, seq(count, _ => []))
  }

  predicate Reading(w: WorkerPc) { w.Test? || w.Visit? }

  function IndexOf(s: seq<nat>, id: nat): (k: nat)
    ensures k <= |s|
    ensures id !in s[..k]
    ensures k < |s| ==> s[k] == id
  {
    if s == [] then 0
    else if s[0] == id then 0
    else 1 + IndexOf(s[1..], id)
  }

  predicate WellShaped(s: State) {
    |s.ranges| == |s.sems| == |s.workers| == |s.served| >= 1
  }

  predicate Enabled(s: State, a: Action) {
    && WellShaped(s)
    && match a
       case StepWorker(i) =>
         && i < |s.workers|
         && (s.workers[i].Top? || s.workers[i].Relock? ==> s.writer.Outside?)
         && (s.workers[i].ToWait? ==> s.sems[i] > 0)
       case StartWrite(c) =>
         && s.writer.Outside?
         && (forall i :: 0 <= i < |s.workers| ==> !Reading(s.workers[i]))
         && (c.Append? ==> c.id !in s.sessions && c.id !in s.destroyed)
       case StepWriter => !s.writer.Outside?
  }

  function Do(s: State, a: Action): State
    requires Enabled(s, a)
  {
    match a
    case StepWorker(i) =>
      var r := s.ranges[i];
      (match s.workers[i]
       case Top => s.(workers := s.workers[i := Test])
       case Test =>
         s.(workers := s.workers[i := if r.begin == r.end then ToWait else Visit(r.begin, r.end)],
            served := s.served[i := []])
       case ToWait => s.(sems := s.sems[i := s.sems[i] - 1], workers := s.workers[i := Relock])
       case Relock => s.(workers := s.workers[i := Visit(r.begin, r.end)], served := s.served[i := []])
       case Visit(k, e) =>
         if k == e then s.(workers := s.workers[i := Top])
         else
           s.(workers := s.workers[i := Visit(k + 1, e)],
              served := s.served[i := s.served[i] + (if k < |s.sessions| then [s.sessions[k]] else [])]))
    case StartWrite(c) => s.(writer := Holding(c))
    case StepWriter =>
      var count := |s.workers|;
      match s.writer
      case Outside => s
      case Holding(Append(id)) =>
        s.(sessions := s.sessions + [id], ranges := Shares(|s.sessions| + 1, count), writer := Post(0))
      case Holding(Remove(id)) =>
        var k := IndexOf(s.sessions, id);
        if k == |s.sessions| then s.(writer := Outside)
        else
          var rest := s.sessions[..k] + s.sessions[k + 1..];
          s.(sessions := rest, destroyed := s.destroyed + {id},
             ranges := Shares(|rest|, count), writer := Post(0))
      case Post(j) =>
        if j >= count then s.(writer := Outside)
        else
          s.(sems := if s.ranges[j].begin != s.ranges[j].end then s.sems[j := s.sems[j] + 1] else s.sems,
             writer := Post(j + 1))
  }

  ghost predicate Next(s: State, t: State) {
    exists a :: Enabled(s, a) && t == Do(s, a)
  }

  ghost predicate Trace(tr: seq<State>, count: nat) {
    && 1 <= count
    && tr != []
    && tr[0] == Init(count)
    && forall i, j :: 0 <= i < |tr| && j == i + 1 < |tr| ==> Next(tr[i], tr[j])
  }

  ghost predicate Reachable(s: State, count: nat) {
    exists tr :: Trace(tr, count) && tr[|tr| - 1] == s
  }

  // ----- the invariant -----

  predicate Woken(s: State, i: nat)
    requires WellShaped(s) && i < |s.workers|
  {
    s.workers[i].ToWait? && s.ranges[i].begin != s.ranges[i].end ==>
      s.sems[i] > 0 || (s.writer.Post? && s.writer.i <= i)
  }

  predicate VisitOk(s: State, i: nat)
    requires WellShaped(s) && i < |s.workers|
  {
    s.workers[i].Visit? ==>
      && s.ranges[i].begin <= s.workers[i].k <= s.workers[i].e == s.ranges[i].end <= |s.sessions|
      && s.served[i] == s.sessions[s.ranges[i].begin..s.workers[i].k]
  }

  predicate Inv(s: State) {
    && WellShaped(s)
    && s.ranges == Shares(|s.sessions|, |s.workers|)
    && Distinct(s.sessions)
    && (forall x :: x in s.sessions ==> x !in s.destroyed)
    && (!s.writer.Outside? ==> forall i :: 0 <= i < |s.workers| ==> !Reading(s.workers[i]))
    && (s.writer.Holding? && s.writer.change.Append? ==>
          s.writer.change.id !in s.sessions && s.writer.change.id !in s.destroyed)
    && (forall i :: 0 <= i < |s.workers| ==> Woken(s, i) && VisitOk(s, i))
  }

  lemma WriterKeepsInv(s: State)
    requires Inv(s) && Enabled(s, StepWriter)
    ensures Inv(Do(s, StepWriter))
  {
    var t := Do(s, StepWriter);
    if s.writer.Holding? && s.writer.change.Remove? {
      var k := IndexOf(s.sessions, s.writer.change.id);
      if k < |s.sessions| {
        assert forall x :: x in t.sessions ==> x in s.sessions && x != s.sessions[k];
      }
    }
    forall i | 0 <= i < |t.workers| ensures Woken(t, i) && VisitOk(t, i) {
      assert Woken(s, i) && VisitOk(s, i);
    }
  }

  lemma StepKeepsInv(s: State, a: Action)
    requires Inv(s) && Enabled(s, a)
    ensures Inv(Do(s, a)) && |Do(s, a).workers| == |s.workers|
  {
    if a.StepWriter? {
      WriterKeepsInv(s);
    } else {
      var t := Do(s, a);
      forall i | 0 <= i < |t.workers| ensures Woken(t, i) && VisitOk(t, i) {
        assert Woken(s, i) && VisitOk(s, i);
      }
    }
  }

  lemma InitInv(count: nat)
    requires 1 <= count
    ensures Inv(Init(count)) && |Init(count).workers| == count
  {
  }

  lemma NextKeepsInv(s: State, t: State)
    requires Inv(s) && Next(s, t)
    ensures Inv(t) && |t.workers| == |s.workers|
  {
    var a :| Enabled(s, a) && t == Do(s, a);
    StepKeepsInv(s, a);
  }

  lemma {:induction false} TraceKeepsInv(tr: seq<State>, count: nat, i: nat)
    requires Trace(tr, count) && i < |tr|
    ensures Inv(tr[i]) && |tr[i].workers| == count
  {
    if i == 0 {
      InitInv(count);
    }
    hide Inv, Next;
    if i > 0 {
      TraceKeepsInv(tr, count, i - 1);
      NextKeepsInv(tr[i - 1], tr[i]);
    }
  }

  lemma ReachableInv(s: State, count: nat)
    requires Reachable(s, count)
    ensures Inv(s) && |s.workers| == count
  {
    var tr :| Trace(tr, count) && tr[|tr| - 1] == s;
    TraceKeepsInv(tr, count, |tr| - 1);
  }

  // ----- what it gives, over every run -----

  /** After any sequence of additions and removals the ranges follow one another
      from the first session to the last. */
  lemma RangesContiguous(s: State, count: nat)
    requires Reachable(s, count)
    ensures count >= 1 && |s.ranges| == count && s.ranges[0].begin == 0 && s.ranges[count - 1].end == |s.sessions|
    ensures forall i :: 1 <= i < count ==> s.ranges[i - 1].end == s.ranges[i].begin
  {
    ReachableInv(s, count);
    SharesContiguous(|s.sessions|, count);
  }

  /** So they partition the session list: each session has exactly one owner. */
  lemma RangesPartition(s: State, count: nat, k: nat) returns (i: nat)
    requires Reachable(s, count) && k < |s.sessions|
    ensures i < count && |s.ranges| == count
    ensures forall j :: 0 <= j < count ==> (s.ranges[j].begin <= k < s.ranges[j].end <==> j == i)
  {
    ReachableInv(s, count);
    i := OneOwner(|s.sessions|, count, k);
  }

  /** A worker only ever visits a session that is in the list and not
      destroyed, and no other worker visits it at the same time. */
  lemma VisitsAreSafe(s: State, count: nat, i: nat)
    requires Reachable(s, count) && i < |s.workers|
    requires s.workers[i].Visit? && s.workers[i].k < s.workers[i].e
    ensures s.writer.Outside?
    ensures s.workers[i].k < |s.sessions| && s.sessions[s.workers[i].k] !in s.destroyed
    ensures forall j :: 0 <= j < |s.workers| && j != i && s.workers[j].Visit? && s.workers[j].k < s.workers[j].e ==>
              s.workers[j].k != s.workers[i].k
  {
    ReachableInv(s, count);
    assert VisitOk(s, i);
    var owner := RangesPartition(s, count, s.workers[i].k);
    forall j | 0 <= j < |s.workers| && j != i && s.workers[j].Visit? && s.workers[j].k < s.workers[j].e
      ensures s.workers[j].k != s.workers[i].k
    {
      assert VisitOk(s, j);
    }
  }

  /** A session is destroyed only while no worker visits anything. */
  lemma DestroyedUnvisited(s: State, count: nat, a: Action)
    requires Reachable(s, count) && Enabled(s, a)
    requires Do(s, a).destroyed != s.destroyed
    ensures forall i :: 0 <= i < |s.workers| ==> !s.workers[i].Visit?
  {
    ReachableInv(s, count);
  }

  /** No wake-up is lost: a worker between its empty check and its wake with a
      range that is no longer empty has a positive semaphore, unless the writer
      is still on its way to post it. */
  lemma NoLostWakeup(s: State, count: nat, i: nat)
    requires Reachable(s, count) && i < |s.workers| && i < |s.ranges|
    requires s.workers[i].ToWait? && s.ranges[i].begin != s.ranges[i].end
    ensures i < |s.sems|
    ensures s.sems[i] > 0 || (s.writer.Post? && s.writer.i <= i)
  {
    ReachableInv(s, count);
    assert Woken(s, i);
  }

  /** A visit that is over has dealt with exactly the sessions of the worker's
      range, in order. */
  lemma VisitServesRange(s: State, count: nat, i: nat)
    requires Reachable(s, count) && Enabled(s, StepWorker(i))
    requires s.workers[i].Visit? && !Do(s, StepWorker(i)).workers[i].Visit?
    ensures s.ranges[i].begin <= s.ranges[i].end <= |s.sessions|
    ensures s.served[i] == s.sessions[s.ranges[i].begin..s.ranges[i].end]
  {
    ReachableInv(s, count);
    assert VisitOk(s, i);
  }

  /** What is left to do in a visit, and for a writer. */
  function VisitRank(w: WorkerPc): int { if w.Visit? then w.e - w.k + 1 else 0 }

  function WriterRank(w: WriterPc, count: nat): int {
    match w
    case Outside => 0
    case Holding(_) => count + 2
    case Post(i) => count + 1 - i
  }

  /** A visit and a writer always get on: each step leaves less to do, so both
      end, and neither ever waits. */
  lemma VisitsAndWritesEnd(s: State, count: nat, i: nat)
    requires Reachable(s, count)
    ensures i < |s.workers| && s.workers[i].Visit? ==>
              Enabled(s, StepWorker(i)) && 0 <= VisitRank(Do(s, StepWorker(i)).workers[i]) < VisitRank(s.workers[i])
    ensures !s.writer.Outside? ==>
              Enabled(s, StepWriter) && 0 <= WriterRank(Do(s, StepWriter).writer, count) < WriterRank(s.writer, count)
  {
    ReachableInv(s, count);
    if i < |s.workers| {
      assert VisitOk(s, i);
    }
    PostBound(s, count);
  }

  lemma PostBound(s: State, count: nat)
    requires Reachable(s, count)
    ensures s.writer.Post? ==> s.writer.i <= count
  {
    var tr :| Trace(tr, count) && tr[|tr| - 1] == s;
    PostBoundAt(tr, count, |tr| - 1);
  }

  lemma {:induction false} PostBoundAt(tr: seq<State>, count: nat, i: nat)
    requires Trace(tr, count) && i < |tr|
    ensures tr[i].writer.Post? ==> tr[i].writer.i <= count
  {
    if i > 0 {
      PostBoundAt(tr, count, i - 1);
      TraceKeepsInv(tr, count, i - 1);
      assert Next(tr[i - 1], tr[i]);
    }
  }

  // ----- the list is what was written to it -----

  /** The states of a run with its actions. */
  ghost predicate Trail(tr: seq<State>, acts: seq<Action>, count: nat) {
    && 1 <= count && |tr| == |acts| + 1 && tr[0] == Init(count)
    && forall i, j :: 0 <= i < |acts| && j == i + 1 ==> StepBy(tr[i], acts[i], tr[j])
  }

  predicate StepBy(s: State, a: Action, t: State) { Enabled(s, a) && t == Do(s, a) }

  /** The changes that were carried out, and the one that is only begun: each
      StartWrite begins one, and the writer's next step carries it out. */
  datatype Written = Written(done: seq<Change>, pending: Option<Change>)

  function WrittenBy(acts: seq<Action>, n: nat): Written
    requires n <= |acts|
  {
    if n == 0 then Written([], None)
    else
      var w := WrittenBy(acts, n - 1);
      match acts[n - 1]
      case StartWrite(c) => w.(pending := Some(c))
      case StepWriter => if w.pending.Some? then Written(w.done + [w.pending.value], None) else w
      case StepWorker(_) => w
  }

  /** An addition that no later removal undoes. */
  predicate Stays(cs: seq<Change>, i: nat)
    requires i < |cs|
  {
    cs[i].Append? && forall j :: i < j < |cs| ==> cs[j] != Remove(cs[i].id)
  }

  /** The clients added and not removed since, in order of arrival. */
  function Listed(cs: seq<Change>, m: nat): seq<nat>
    requires m <= |cs|
  {
    if m == 0 then [] else Listed(cs, m - 1) + (if Stays(cs, m - 1) then [cs[m - 1].id] else [])
  }

  /** A client that was added and removed later. */
  ghost predicate Gone(cs: seq<Change>, id: nat) {
    exists i, j :: 0 <= i < j < |cs| && cs[i] == Append(id) && cs[j] == Remove(id)
  }

  function Without(s: seq<nat>, id: nat): seq<nat> {
    if s == [] then [] else (if s[0] == id then [] else [s[0]]) + Without(s[1..], id)
  }

  lemma {:induction false} ListedAppend(cs: seq<Change>, id: nat, m: nat)
    requires m <= |cs|
    ensures Listed(cs + [Append(id)], m) == Listed(cs, m)
  {
    if m > 0 {
      ListedAppend(cs, id, m - 1);
      var n := cs + [Append(id)];
      assert Stays(n, m - 1) <==> Stays(cs, m - 1) by {
        assert n[|cs|] == Append(id);
        assert forall j :: m - 1 < j < |cs| ==> n[j] == cs[j];
      }
    }
  }

  lemma {:induction false} ListedRemove(cs: seq<Change>, id: nat, m: nat)
    requires m <= |cs|
    ensures Listed(cs + [Remove(id)], m) == Without(Listed(cs, m), id)
  {
    if m > 0 {
      ListedRemove(cs, id, m - 1);
      var n, c := cs + [Remove(id)], cs[m - 1];
      assert n[|cs|] == Remove(id) && n[m - 1] == c;
      assert forall j :: m - 1 < j < |cs| ==> n[j] == cs[j];
      assert Stays(n, m - 1) <==> Stays(cs, m - 1) && c.id != id;
      var a := Listed(cs, m - 1);
      if Stays(cs, m - 1) {
        WithoutSnoc(a, c.id, id);
      } else {
        assert a + [] == a;
      }
    }
  }

  lemma {:induction false} WithoutSnoc(a: seq<nat>, x: nat, id: nat)
    ensures Without(a + [x], id) == Without(a, id) + (if x == id then [] else [x])
  {
    var n := a + [x];
    if a == [] {
      assert n[1..] == [];
    } else {
      assert n[0] == a[0] && n[1..] == a[1..] + [x];
      WithoutSnoc(a[1..], x, id);
    }
  }

  lemma {:induction false} WithoutNone(s: seq<nat>, id: nat)
    requires id !in s
    ensures Without(s, id) == s
  {
    if s != [] {
      WithoutNone(s[1..], id);
    }
  }

  /** Erasing the one occurrence is filtering. */
  lemma {:induction false} ErasedIsWithout(s: seq<nat>, id: nat)
    requires Distinct(s)
    ensures var k := IndexOf(s, id);
            Without(s, id) == if k == |s| then s else s[..k] + s[k + 1..]
  {
    if s != [] {
      var t := s[1..];
      if s[0] == id {
        WithoutNone(t, id);
        assert s[..0] + s[1..] == t;
      } else {
        ErasedIsWithout(t, id);
        var q := IndexOf(t, id);
        assert [s[0]] + t == s;
        if q < |t| {
          assert [s[0]] + (t[..q] + t[q + 1..]) == s[..q + 1] + s[q + 2..];
        }
      }
    }
  }

  lemma {:induction false} InListed(cs: seq<Change>, m: nat, id: nat)
    requires m <= |cs|
    ensures id in Listed(cs, m) <==> exists i :: 0 <= i < m && cs[i] == Append(id) && Stays(cs, i)
  {
    if m > 0 {
      InListed(cs, m - 1, id);
    }
  }

  /** What was ever added is listed or gone. */
  lemma AddedOnce(cs: seq<Change>, id: nat)
    ensures (exists i :: 0 <= i < |cs| && cs[i] == Append(id)) <==> id in Listed(cs, |cs|) || Gone(cs, id)
  {
    InListed(cs, |cs|, id);
    if i :| 0 <= i < |cs| && cs[i] == Append(id) {
      if !Stays(cs, i) {
        var j :| i < j < |cs| && cs[j] == Remove(id);
        assert Gone(cs, id);
      }
    }
  }

  lemma GoneAppend(cs: seq<Change>, x: nat, id: nat)
    ensures Gone(cs + [Append(x)], id) <==> Gone(cs, id)
  {
    var n := cs + [Append(x)];
    if Gone(cs, id) {
      var i, j :| 0 <= i < j < |cs| && cs[i] == Append(id) && cs[j] == Remove(id);
      assert n[i] == Append(id) && n[j] == Remove(id);
    }
  }

  lemma GoneRemove(cs: seq<Change>, x: nat, id: nat)
    ensures Gone(cs + [Remove(x)], id) <==> Gone(cs, id) || (x == id && (id in Listed(cs, |cs|) || Gone(cs, id)))
  {
    var n := cs + [Remove(x)];
    AddedOnce(cs, id);
    if Gone(cs, id) {
      var i, j :| 0 <= i < j < |cs| && cs[i] == Append(id) && cs[j] == Remove(id);
      assert n[i] == Append(id) && n[j] == Remove(id);
    }
    if i :| 0 <= i < |cs| && cs[i] == Append(id) {
      assert n[i] == Append(id) && n[|cs|] == Remove(x);
    }
    if Gone(n, id) {
      var i, j :| 0 <= i < j < |n| && n[i] == Append(id) && n[j] == Remove(id);
      assert cs[i] == Append(id);
      if j < |cs| {
        assert cs[j] == Remove(id);
      }
    }
  }

  /** The state that the changes carried out so far lead to. */
  ghost predicate AsWritten(s: State, w: Written) {
    && s.sessions == Listed(w.done, |w.done|)
    && (forall id :: id in s.destroyed <==> Gone(w.done, id))
    && (w.pending.Some? <==> s.writer.Holding?)
    && (w.pending.Some? ==> s.writer.change == w.pending.value)
  }

  lemma AppendWritten(cs: seq<Change>, id: nat)
    ensures var n := cs + [Append(id)];
            Listed(n, |n|) == Listed(cs, |cs|) + [id] && forall x :: Gone(n, x) <==> Gone(cs, x)
  {
    hide Gone;
    var n := cs + [Append(id)];
    ListedAppend(cs, id, |cs|);
    assert Stays(n, |cs|);
    forall x ensures Gone(n, x) <==> Gone(cs, x) {
      GoneAppend(cs, id, x);
    }
  }

  lemma RemoveWritten(cs: seq<Change>, id: nat)
    ensures var n := cs + [Remove(id)];
            && Listed(n, |n|) == Without(Listed(cs, |cs|), id)
            && forall x :: Gone(n, x) <==> Gone(cs, x) || (x == id && id in Listed(cs, |cs|))
  {
    hide Gone;
    var n := cs + [Remove(id)];
    ListedRemove(cs, id, |cs|);
    assert Listed(n, |n|) == Listed(n, |cs|) + [];
    forall x ensures Gone(n, x) <==> Gone(cs, x) || (x == id && id in Listed(cs, |cs|)) {
      GoneRemove(cs, id, x);
    }
  }

  lemma CarriedOut(s: State, w: Written)
    requires Inv(s) && Enabled(s, StepWriter) && AsWritten(s, w) && w.pending.Some?
    ensures AsWritten(Do(s, StepWriter), Written(w.done + [w.pending.value], None))
  {
    hide Listed, Gone, Without, IndexOf, Woken, VisitOk;
    match w.pending.value
    case Append(id) => AppendWritten(w.done, id);
    case Remove(id) =>
      RemoveWritten(w.done, id);
      ErasedIsWithout(s.sessions, id);
      FoundIff(s.sessions, id);
  }

  lemma FoundIff(s: seq<nat>, id: nat)
    ensures IndexOf(s, id) < |s| <==> id in s
  {
    assert s[..|s|] == s;
  }

  lemma StartAsWritten(count: nat)
    requires 1 <= count
    ensures Inv(Init(count)) && AsWritten(Init(count), Written([], None))
  {
    InitInv(count);
  }

  lemma StepAsWritten(s: State, a: Action, t: State, w: Written, v: Written)
    requires Inv(s) && StepBy(s, a, t) && AsWritten(s, w)
    requires v == match a
                  case StartWrite(c) => w.(pending := Some(c))
                  case StepWriter => if w.pending.Some? then Written(w.done + [w.pending.value], None) else w
                  case StepWorker(_) => w
    ensures Inv(t) && AsWritten(t, v)
  {
    hide Listed, Gone, Inv;
    StepKeepsInv(s, a);
    if a.StepWriter? && w.pending.Some? {
      CarriedOut(s, w);
    }
  }

  lemma {:induction false} TrailAsWritten(tr: seq<State>, acts: seq<Action>, count: nat, n: nat)
    requires Trail(tr, acts, count) && n <= |acts|
    ensures Inv(tr[n]) && AsWritten(tr[n], WrittenBy(acts, n))
  {
    hide Inv, AsWritten, StepBy;
    if n == 0 {
      StartAsWritten(count);
    } else {
      TrailAsWritten(tr, acts, count, n - 1);
      StepAsWritten(tr[n - 1], acts[n - 1], tr[n], WrittenBy(acts, n - 1), WrittenBy(acts, n));
    }
  }

  /** Over every run: the session list is exactly the clients added and not removed
      since, in order of arrival, and the destroyed ones are exactly those added
      and removed later. */
  lemma ListIsWhatWasWritten(tr: seq<State>, acts: seq<Action>, count: nat, n: nat, id: nat)
    requires Trail(tr, acts, count) && n <= |acts|
    ensures var done := WrittenBy(acts, n).done;
            && tr[n].sessions == Listed(done, |done|)
            && (id in tr[n].destroyed <==> Gone(done, id))
  {
    TrailAsWritten(tr, acts, count, n);
  }

  // ----- every post is taken at most once -----

  /** Changes that left worker j with sessions, and its wake-ups. */
  function Posts(tr: seq<State>, acts: seq<Action>, n: nat, j: nat): nat
    requires n <= |acts| < |tr|
  {
    if n == 0 then 0
    else
      var s := tr[n - 1];
      Posts(tr, acts, n - 1, j)
      + (if acts[n - 1].StepWriter? && s.writer == Post(j) && j < |s.ranges| && s.ranges[j].begin < s.ranges[j].end then 1 else 0)
  }

  function Waits(tr: seq<State>, acts: seq<Action>, n: nat, j: nat): nat
    requires n <= |acts| < |tr|
  {
    if n == 0 then 0
    else
      var s := tr[n - 1];
      Waits(tr, acts, n - 1, j)
      + (if acts[n - 1] == StepWorker(j) && j < |s.workers| && s.workers[j].ToWait? then 1 else 0)
  }

  /** What one step does to semaphore j. */
  lemma StepBalance(s: State, a: Action, t: State, j: nat)
    requires Inv(s) && StepBy(s, a, t) && j < |s.workers|
    ensures |t.sems| == |t.workers| == |s.workers|
    ensures t.sems[j] == s.sems[j]
                       + (if a.StepWriter? && s.writer == Post(j) && s.ranges[j].begin < s.ranges[j].end then 1 else 0)
                       - (if a == StepWorker(j) && s.workers[j].ToWait? then 1 else 0)
  {
    RangesUpright(s, j);
    hide Woken, VisitOk, Shares, IndexOf;
  }

  /** Over every run a worker's semaphore holds the posts it has not used yet. */
  lemma {:induction false} SemaphoreBalance(tr: seq<State>, acts: seq<Action>, count: nat, n: nat, j: nat)
    requires Trail(tr, acts, count) && n <= |acts| && j < count
    ensures |tr[n].workers| == |tr[n].sems| == |tr[n].ranges| == count
    ensures tr[n].sems[j] + Waits(tr, acts, n, j) == Posts(tr, acts, n, j)
  {
    hide Inv, StepBy, AsWritten;
    TrailAsWritten(tr, acts, count, n);
    InvShape(tr[n]);
    if n > 0 {
      SemaphoreBalance(tr, acts, count, n - 1, j);
      TrailAsWritten(tr, acts, count, n - 1);
      StepBalance(tr[n - 1], acts[n - 1], tr[n], j);
    }
  }

  lemma InvShape(s: State)
    requires Inv(s)
    ensures |s.workers| == |s.sems| == |s.ranges|
  {
  }

  lemma RangesUpright(s: State, j: nat)
    requires Inv(s) && j < |s.workers|
    ensures s.ranges[j].begin <= s.ranges[j].end
  {
  }
}
