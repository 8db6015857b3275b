/** RefPtr in its non-loop mode: a registry shared by all pointers of one type
    maps each raw pointer to the set of RefPtr objects that hold it. Addresses
    of memory and of RefPtr objects are numbers; 0 is NULL. */
module RefPointers {

  type Registry = map<nat, set<nat>>

  // ----- the registry operations, on values -----

  function Added(m: Registry, mem: nat, obj: nat): Registry {
    if mem == 0 || obj == 0 then m
    else m[mem := (if mem in m then m[mem] else {}) + {obj}]
  }

  function Deleted(m: Registry, mem: nat, obj: nat): Registry {
    if mem == 0 || obj == 0 || mem !in m || obj !in m[mem] then m
    else if m[mem] == {obj} then m - {mem}
    else m[mem := m[mem] - {obj}]
  }

  function RefCount(m: Registry, mem: nat): nat {
    if mem == 0 || mem !in m then 0 else |m[mem]|
  }

  // ----- class Ref -----

  class Ref {
    var refMaps: Registry
    var refInfo: map<nat, nat>

    constructor ()
      ensures refMaps == map[] && refInfo == map[]
    {
      refMaps, refInfo := map[], map[];
    }

    /** The first object to register a pointer is kept as its owner, also after
        the pointer has left the registry. */
    method AddRef(mem: nat, obj: nat)
      modifies this
      ensures refMaps == Added(old(refMaps), mem, obj)
      ensures refInfo == if mem != 0 && obj != 0 && mem !in old(refMaps) && mem !in old(refInfo)
                         then old(refInfo)[mem := obj] else old(refInfo)
    {
      if mem == 0 || obj == 0 { return; }
      if mem !in refMaps {
        refMaps := refMaps[mem := {}];
        if mem !in refInfo {
          refInfo := refInfo[mem := obj];
        }
      }
      refMaps := refMaps[mem := refMaps[mem] + {obj}];
    }

    method DelRef(mem: nat, obj: nat)
      modifies this`refMaps
      ensures refMaps == Deleted(old(refMaps), mem, obj)
    {
      if mem == 0 || obj == 0 { return; }
      if mem in refMaps && obj in refMaps[mem] {
        var left := refMaps[mem] - {obj};
        refMaps := refMaps[mem := left];
        if |left| == 0 {
          refMaps := refMaps - {mem};
        }
      }
    }

    /** When the registry is exact for some pointers, the number of those that
        hold mem. */
    method GetRefCount(mem: nat) returns (n: nat)
      ensures forall data :: Exact(refMaps, data) && mem != 0 ==> n == |Holding(data, mem)|
      ensures mem == 0 ==> n == 0
      ensures n == RefCount(refMaps, mem)
    {
      forall data | Exact(refMaps, data) && mem != 0
        ensures RefCount(refMaps, mem) == |Holding(data, mem)|
      {
        assert Registered(refMaps, mem) == Holding(data, mem);
      }
      if mem == 0 || mem !in refMaps { return 0; }
      n := |refMaps[mem]|;
    }
  }

  // ----- pointers, the heap and what the operations do -----

  /** `data` gives each live RefPtr the pointer it holds; `heap` is the memory
      allocated and not freed; `badFree` records a delete of anything else. */
  datatype State = State(reg: Registry, data: map<nat, nat>, heap: set<nat>, badFree: bool)

  datatype Op =
    | New(mem: nat)
    | Construct(obj: nat, mem: nat)
    | Copy(obj: nat, src: nat)
    | Assign(obj: nat, src: nat)
    | Destroy(obj: nat)

  function Init(): State { State(map[], map[], {}, false) }

  /** Allocation returns unused memory; a RefPtr is built at an unused address,
      on NULL or allocated memory; the other operations name live objects. */
  predicate Allowed(s: State, op: Op) {
    match op
    case New(p) => p != 0 && p !in s.heap
    case Construct(o, p) => o != 0 && o !in s.data && (p == 0 || p in s.heap)
    case Copy(o, src) => o != 0 && o !in s.data && src in s.data
    case Assign(o, src) => o in s.data && src in s.data
    case Destroy(o) => o in s.data
  }

  function Delete(s: State, mem: nat): State {
    if mem == 0 then s
    else s.(heap := s.heap - {mem}, badFree := s.badFree || mem !in s.heap)
  }

  function Do(s: State, op: Op): State
    requires Allowed(s, op)
  {
    match op
    case New(p) => s.(heap := s.heap + {p})
    case Construct(o, p) => s.(reg := Added(s.reg, p, o), data := s.data[o := p])
    case Copy(o, src) => s.(reg := Added(s.reg, s.data[src], o), data := s.data[o := s.data[src]])
    case Assign(o, src) =>
      if o == src then s
      else
        s.(reg := Added(Deleted(s.reg, s.data[o], o), s.data[src], o), data := s.data[o := s.data[src]])
    case Destroy(o) =>
      var p := s.data[o];
      var t := s.(reg := Deleted(s.reg, p, o), data := s.data - {o});
      if RefCount(t.reg, p) == 0 then Delete(t, p) else t
  }

  /** The same operations as the code performs them on the shared registry. */
  class Pointers {
    const ref: Ref
    var data: map<nat, nat>
    var heap: set<nat>
    var badFree: bool

    ghost function View(): State
      reads this, ref
    {
      State(ref.refMaps, data, heap, badFree)
    }

    constructor ()
      ensures View() == Init() && fresh(ref)
    {
      ref := new Ref();
      data, heap, badFree := map[], {}, false;
    }

    method MakeFrom(obj: nat, mem: nat)
      requires Allowed(View(), Construct(obj, mem))
      modifies this, ref
      ensures View() == Do(old(View()), Construct(obj, mem))
    {
      data := data[obj := 0];
      if mem != 0 {
        data := data[obj := mem];
        ref.AddRef(mem, obj);
      }
    }

    method MakeCopy(obj: nat, src: nat)
      requires Allowed(View(), Copy(obj, src))
      modifies this, ref
      ensures View() == Do(old(View()), Copy(obj, src))
    {
      data := data[obj := data[src]];
      if data[obj] != 0 {
        ref.AddRef(data[obj], obj);
      }
    }

    method AssignTo(obj: nat, src: nat)
      requires Allowed(View(), Assign(obj, src))
      modifies this, ref
      ensures View() == Do(old(View()), Assign(obj, src))
    {
      if obj == src { return; }
      ref.DelRef(data[obj], obj);
      data := data[obj := 0];
      if data[src] != 0 {
        data := data[obj := data[src]];
        ref.AddRef(data[obj], obj);
      }
    }

    method DestroyAt(obj: nat)
      requires Allowed(View(), Destroy(obj))
      modifies this, ref
      ensures View() == Do(old(View()), Destroy(obj))
    {
      var mem := data[obj];
      ref.DelRef(mem, obj);
      var n := ref.GetRefCount(mem);
      if n == 0 && mem != 0 {
        badFree := badFree || mem !in heap;
        heap := heap - {mem};
      }
      data := data - {obj};
    }
  }

  // ----- every run -----

  predicate IsRun(s: State, ops: seq<Op>)
    decreases |ops|
  {
    ops == [] || (Allowed(s, ops[0]) && IsRun(Do(s, ops[0]), ops[1..]))
  }

  function Exec(s: State, ops: seq<Op>): State
    requires IsRun(s, ops)
    decreases |ops|
  {
    if ops == [] then s else Exec(Do(s, ops[0]), ops[1..])
  }

  /** The live RefPtrs that hold a pointer. */
  function Holding(data: map<nat, nat>, mem: nat): set<nat> {
    set o | o in data && data[o] == mem
  }

  function Holders(s: State, mem: nat): set<nat> { Holding(s.data, mem) }

  function Registered(reg: Registry, mem: nat): set<nat> { if mem in reg then reg[mem] else {} }

  ghost predicate Exact(reg: Registry, data: map<nat, nat>) {
    && (forall p: nat :: p != 0 ==> Registered(reg, p) == Holding(data, p))
    && (forall p :: p in reg ==> p != 0 && reg[p] != {})
  }

  ghost predicate Inv(s: State) {
    && 0 !in s.data
    && Exact(s.reg, s.data)
    && (forall o :: o in s.data && s.data[o] != 0 ==> s.data[o] in s.heap)
    && !s.badFree
  }

  lemma AddExact(reg: Registry, data: map<nat, nat>, obj: nat, mem: nat)
    requires Exact(reg, data) && obj !in data && obj != 0
    ensures Exact(Added(reg, mem, obj), data[obj := mem])
  {
    var reg', data' := Added(reg, mem, obj), data[obj := mem];
    forall p: nat | p != 0 ensures Registered(reg', p) == Holding(data', p) {
      assert Registered(reg, p) == Holding(data, p);
    }
  }

  lemma DelExact(reg: Registry, data: map<nat, nat>, obj: nat)
    requires Exact(reg, data) && obj in data && obj != 0
    ensures Exact(Deleted(reg, data[obj], obj), data - {obj})
    ensures RefCount(Deleted(reg, data[obj], obj), data[obj]) == 0 <==>
              data[obj] == 0 || Holding(data - {obj}, data[obj]) == {}
  {
    var reg', data' := Deleted(reg, data[obj], obj), data - {obj};
    forall p: nat | p != 0 ensures Registered(reg', p) == Holding(data', p) {
      assert Registered(reg, p) == Holding(data, p);
      assert obj in Holding(data, data[obj]);
      assert Holding(data', p) == Holding(data, p) - {obj};
    }
  }

  lemma OpKeepsInv(s: State, op: Op)
    requires Inv(s) && Allowed(s, op)
    ensures Inv(Do(s, op))
  {
    match op
    case New(p) =>
    case Construct(o, p) => AddExact(s.reg, s.data, o, p);
    case Copy(o, src) => AddExact(s.reg, s.data, o, s.data[src]);
    case Assign(o, src) =>
      if o != src {
        DelExact(s.reg, s.data, o);
        AddExact(Deleted(s.reg, s.data[o], o), s.data - {o}, o, s.data[src]);
        assert (s.data - {o})[o := s.data[src]] == s.data[o := s.data[src]];
      }
    case Destroy(o) =>
      DelExact(s.reg, s.data, o);
      var t := Do(s, op);
      forall x | x in t.data && t.data[x] != 0 ensures t.data[x] in t.heap {
        assert x in Holding(t.data, t.data[x]);
      }
  }

  lemma {:induction false} RunKeepsInv(s: State, ops: seq<Op>)
    requires Inv(s) && IsRun(s, ops)
    ensures Inv(Exec(s, ops))
    decreases |ops|
  {
    if ops != [] {
      OpKeepsInv(s, ops[0]);
      RunKeepsInv(Do(s, ops[0]), ops[1..]);
    }
  }

  /** After any sequence of operations the registry's set for a pointer is
      exactly the RefPtrs that hold it, what they hold is allocated, and no
      delete ever hit freed memory. */
  lemma RegistryIsExact(ops: seq<Op>, mem: nat)
    requires IsRun(Init(), ops) && mem != 0
    ensures var s := Exec(Init(), ops);
            && (mem in s.reg <==> Holders(s, mem) != {})
            && (mem in s.reg ==> s.reg[mem] == Holders(s, mem))
            && (Holders(s, mem) != {} ==> mem in s.heap)
            && !s.badFree
  {
    RunKeepsInv(Init(), ops);
    var s := Exec(Init(), ops);
    assert Registered(s.reg, mem) == Holding(s.data, mem);
    if Holders(s, mem) != {} {
      var o :| o in Holders(s, mem);
    }
  }

  /** In any run, an operation frees a pointer exactly when it destroys the only
      RefPtr that holds it, however many times it was wrapped. */
  lemma FreedWithLastHolder(ops: seq<Op>, op: Op, mem: nat)
    requires IsRun(Init(), ops) && Allowed(Exec(Init(), ops), op)
    requires mem in Exec(Init(), ops).heap && mem != 0
    ensures var s := Exec(Init(), ops);
            mem !in Do(s, op).heap <==> op.Destroy? && Holders(s, mem) == {op.obj}
  {
    RunKeepsInv(Init(), ops);
    var s := Exec(Init(), ops);
    if op.Destroy? {
      DelExact(s.reg, s.data, op.obj);
      assert op.obj in Holders(s, s.data[op.obj]);
      assert Holding(s.data - {op.obj}, mem) == Holders(s, mem) - {op.obj};
      if Holders(s, mem) == {op.obj} {
        assert op.obj in Holders(s, mem);
      }
    }
  }

  /** Assignment drops the old pointer without freeing it: it becomes allocated
      memory that no RefPtr holds exactly when the target was its only holder
      and the source holds something else. */
  lemma AssignmentLeaks(ops: seq<Op>, obj: nat, src: nat)
    requires IsRun(Init(), ops) && Allowed(Exec(Init(), ops), Assign(obj, src))
    requires Exec(Init(), ops).data[obj] != 0
    ensures var s := Exec(Init(), ops);
            var p := s.data[obj];
            var t := Do(s, Assign(obj, src));
            && p in t.heap
            && (Holders(t, p) == {} <==> Holders(s, p) == {obj} && s.data[src] != p)
  {
    RunKeepsInv(Init(), ops);
    var s := Exec(Init(), ops);
    var p := s.data[obj];
    var t := Do(s, Assign(obj, src));
    assert obj in Holders(s, p);
    if s.data[src] == p {
      assert obj in Holders(t, p);
    } else {
      assert Holders(t, p) == Holders(s, p) - {obj};
    }
  }

  // ----- what each operation does to the pointers, in every run -----

  /** Pointer o now holds mem; every other pointer that there was, and no other,
      holds what it held. */
  predicate NowHolds(s: State, t: State, o: nat, mem: nat) {
    && t.data.Keys == s.data.Keys + {o} && t.data[o] == mem
    && forall x :: x in s.data && x != o ==> t.data[x] == s.data[x]
  }

  lemma HoldersAfter(s: State, t: State, o: nat, mem: nat, p: nat)
    requires NowHolds(s, t, o, mem)
    ensures Holders(t, p) == if p == mem then Holders(s, p) + {o} else Holders(s, p) - {o}
  {
    forall x ensures x in Holders(t, p) <==> x in (if p == mem then Holders(s, p) + {o} else Holders(s, p) - {o}) {
      assert x in t.data <==> x in s.data || x == o;
    }
  }

  /** A RefPtr built on a raw pointer holds it; the holders of that memory, and
      the count, grow by exactly it. Nothing is freed. */
  lemma ConstructHolds(ops: seq<Op>, o: nat, mem: nat)
    requires IsRun(Init(), ops) && Allowed(Exec(Init(), ops), Construct(o, mem))
    ensures var s := Exec(Init(), ops);
            var t := Do(s, Construct(o, mem));
            && NowHolds(s, t, o, mem) && t.heap == s.heap
            && Holders(t, mem) == Holders(s, mem) + {o} && o !in Holders(s, mem)
            && (mem != 0 ==> RefCount(t.reg, mem) == RefCount(s.reg, mem) + 1)
  {
    var s := Exec(Init(), ops);
    HoldsOneMore(ops, Construct(o, mem), o, mem);
  }

  /** A copy holds what its source holds. */
  lemma CopyHolds(ops: seq<Op>, o: nat, src: nat)
    requires IsRun(Init(), ops) && Allowed(Exec(Init(), ops), Copy(o, src))
    ensures var s := Exec(Init(), ops);
            var t := Do(s, Copy(o, src));
            var mem := s.data[src];
            && NowHolds(s, t, o, mem) && t.heap == s.heap
            && Holders(t, mem) == Holders(s, mem) + {o} && o !in Holders(s, mem)
            && (mem != 0 ==> RefCount(t.reg, mem) == RefCount(s.reg, mem) + 1)
  {
    var s := Exec(Init(), ops);
    HoldsOneMore(ops, Copy(o, src), o, s.data[src]);
  }

  lemma HoldsOneMore(ops: seq<Op>, op: Op, o: nat, mem: nat)
    requires IsRun(Init(), ops) && Allowed(Exec(Init(), ops), op)
    requires NowHolds(Exec(Init(), ops), Do(Exec(Init(), ops), op), o, mem) && o !in Exec(Init(), ops).data
    ensures var s := Exec(Init(), ops);
            var t := Do(s, op);
            && Holders(t, mem) == Holders(s, mem) + {o} && o !in Holders(s, mem)
            && (mem != 0 ==> RefCount(t.reg, mem) == RefCount(s.reg, mem) + 1)
  {
    RunKeepsInv(Init(), ops);
    var s := Exec(Init(), ops);
    var t := Do(s, op);
    OpKeepsInv(s, op);
    HoldersAfter(s, t, o, mem, mem);
    if mem != 0 {
      CountIsHolders(s, mem);
      CountIsHolders(t, mem);
      hide Inv, Exec;
    }
  }

  lemma CountIsHolders(s: State, mem: nat)
    requires Inv(s) && mem != 0
    ensures RefCount(s.reg, mem) == |Holders(s, mem)|
  {
    assert Registered(s.reg, mem) == Holding(s.data, mem);
  }

  /** After an assignment the target holds what the source holds, and left what it
      held before; nothing is freed, and no other pointer changes. */
  lemma AssignHolds(ops: seq<Op>, o: nat, src: nat, p: nat)
    requires IsRun(Init(), ops) && Allowed(Exec(Init(), ops), Assign(o, src))
    ensures var s := Exec(Init(), ops);
            var t := Do(s, Assign(o, src));
            && NowHolds(s, t, o, s.data[src]) && t.heap == s.heap
            && Holders(t, p) == (if p == s.data[src] then Holders(s, p) + {o} else Holders(s, p) - {o})
            && (p != 0 ==> RefCount(t.reg, p) == |Holders(t, p)|)
  {
    RunKeepsInv(Init(), ops);
    var s := Exec(Init(), ops);
    var t := Do(s, Assign(o, src));
    OpKeepsInv(s, Assign(o, src));
    HoldersAfter(s, t, o, s.data[src], p);
    if p != 0 {
      CountIsHolders(t, p);
    }
  }

  /** A destroyed pointer is gone, and no other pointer changes; exactly what it
      alone held is freed. */
  lemma DestroyDrops(ops: seq<Op>, o: nat)
    requires IsRun(Init(), ops) && Allowed(Exec(Init(), ops), Destroy(o))
    ensures var s := Exec(Init(), ops);
            var t := Do(s, Destroy(o));
            && t.data == s.data - {o}
            && t.heap == if Holders(s, s.data[o]) == {o} then s.heap - {s.data[o]} else s.heap
  {
    RunKeepsInv(Init(), ops);
    var s := Exec(Init(), ops);
    NoNullInHeap(ops);
    DelExact(s.reg, s.data, o);
    assert o in Holders(s, s.data[o]);
    assert Holding(s.data - {o}, s.data[o]) == Holders(s, s.data[o]) - {o};
  }

  lemma NoNullInHeap(ops: seq<Op>)
    requires IsRun(Init(), ops)
    ensures 0 !in Exec(Init(), ops).heap
  {
    NoNullFrom(Init(), ops);
  }

  lemma {:induction false} NoNullFrom(s: State, ops: seq<Op>)
    requires IsRun(s, ops) && 0 !in s.heap
    ensures 0 !in Exec(s, ops).heap
    decreases |ops|
  {
    if ops != [] {
      NoNullFrom(Do(s, ops[0]), ops[1..]);
    }
  }
}
