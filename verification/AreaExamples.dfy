/** Short runs on small areas in which the two conditions on Alloc fail, and one
    in which load misses free memory. */
module AreaExamples {
  import opened Options
  import opened Bytes
  import opened AreaTiles
  import opened AreaImage
  import opened AreaBook
  import opened AreaSafety
  import opened StaticAlloc
  import opened AreaRecovery

  const TINY := Layout(4, 25)

  lemma TinyNumbers()
    ensures TINY.Valid() && TINY.Limit() == 0 && TINY.FlagLen() == 0 && TINY.Start() == 24
  {
  }

  lemma TinyBook()
    ensures var b := Book(TINY, [], 0, 0, map[], [], [Range(24, 1)]);
            AllocBook(b, 1) == (b.(rangeSet := []), Some(24))
  {
    TinyNumbers();
    var f := [Range(24, 1)];
    assert FirstFit(f, 1) == 0 && Erase(f, 0) == [];
  }

  /** An area of one usable byte and no record slot: the byte is handed out, but
      recorded nowhere, so it is lost for good. */
  lemma ByteLost()
    ensures TINY.Valid() && TINY.Limit() == 0 && Usable(Format(TINY))
    ensures var (n, a) := Alloc(Format(TINY), 1);
            a == Some(24) && n.recordInfo == [] && n.rangeSet == [] && Usable(n) && Free(n, 24) == n
  {
    TinyNumbers();
    FormatUsable(TINY);
    FormatReads(TINY);
    hide FormatMem, Alloc, AllocBook, BitsIn, CountOf, OffsetOf, Formatted, Layout.Limit, Layout.FlagLen, Inside;
    var s := Format(TINY);
    assert BookOf(s) == Book(TINY, [], 0, 0, map[], [], [Range(24, 1)]);
    TinyBook();
    AllocFollowsBook(s, 1);
    AllocUsable(s, 1);
    UnknownFree(Alloc(s, 1).0, 24);
  }

  // ----- a record written into a live block -----

  const SMALL := Layout(4, 61)

  lemma SmallNumbers()
    ensures SMALL.Valid() && SMALL.Limit() == 4 && SMALL.FlagLen() == 1 && SMALL.RecStart() == 25 && SMALL.Start() == 57
    ensures forall k: nat :: SMALL.Slot(k) == 25 + 8 * k
  {
  }

  function Flags(x: bool, y: bool): seq<bool> { [x, y, false, false, false, false, false, false] }

  lemma ScansOfFlags(x: bool, y: bool)
    ensures ScanFree(Flags(x, y), 0) == if !x then 0 else if !y then 1 else 2
    ensures x && !y ==> ScanUsed(Flags(x, y), 0, 0, 1) == 0
  {
    var b := Flags(x, y);
    assert ScanFree(b, 2) == 2;
    assert ScanFree(b, 1) == if !y then 1 else 2;
  }

  function State(x: bool, y: bool, count: nat, offset: nat, m: map<nat, nat>, live: seq<Range>, free: seq<Range>): Book {
    Book(SMALL, Flags(x, y), count, offset, m, live, free)
  }

  lemma FirstBlock()
    ensures AllocBook(State(false, false, 0, 0, map[], [], [Range(57, 4)]), 4)
            == (State(true, false, 1, 0, map[57 := 0], [Range(57, 4)], []), Some(57))
  {
    SmallNumbers();
    ScansOfFlags(false, false);
    var f := [Range(57, 4)];
    assert FirstFit(f, 4) == 0 && Erase(f, 0) == [];
    assert Flags(false, false)[0 := true] == Flags(true, false);
  }

  lemma SqueezedBlock()
    ensures AllocBook(State(true, false, 1, 0, map[57 := 0], [Range(57, 4)], []), 16)
            == (State(true, true, 2, 16, map[57 := 0, 41 := 1], [Range(41, 16), Range(57, 4)], []), Some(41))
  {
    SmallNumbers();
    ScansOfFlags(true, false);
    assert FirstFit([], 16) == 0;
    assert Flags(true, false)[1 := true] == Flags(true, true);
    assert [Range(41, 16)] + [Range(57, 4)] == [Range(41, 16), Range(57, 4)];
  }

  lemma FirstFreed()
    ensures FreeBook(State(true, true, 2, 16, map[57 := 0, 41 := 1], [Range(41, 16), Range(57, 4)], []), 57)
            == State(false, true, 1, 16, map[41 := 1], [Range(41, 16)], [Range(57, 4)])
  {
    SmallNumbers();
    var live, m := [Range(41, 16), Range(57, 4)], map[57 := 0, 41 := 1];
    assert live[1..] == [Range(57, 4)];
    assert IndexOf(live, 57) == 1 + IndexOf(live[1..], 57);
    assert Erase(live, 1) == [Range(41, 16)];
    assert m - {57} == map[41 := 1];
    assert Insert([], Range(57, 4)) == [Range(57, 4)];
    assert Flags(true, true)[0 := false] == Flags(false, true);
  }

  lemma SmallAgain()
    ensures AllocBook(State(false, true, 1, 16, map[41 := 1], [Range(41, 16)], [Range(57, 4)]), 1)
            == (State(true, true, 2, 16, map[41 := 1, 57 := 0], [Range(41, 16), Range(57, 1)], [Range(58, 3)]), Some(57))
  {
    SmallNumbers();
    ScansOfFlags(false, true);
    var f := [Range(57, 4)];
    assert FirstFit(f, 1) == 0 && Erase(f, 0) == [];
    assert Insert([], Range(58, 3)) == [Range(58, 3)];
    var live := [Range(41, 16)];
    assert live[1..] == [];
    assert Insert(live, Range(57, 1)) == [Range(41, 16)] + Insert([], Range(57, 1));
    assert Flags(false, true)[0 := true] == Flags(true, true);
    var b := State(false, true, 1, 16, map[41 := 1], [Range(41, 16)], [Range(57, 4)]);
    assert Choose(b, 1) == Take(Range(57, 1), [Range(58, 3)], 16);
    assert FreeSlot(b) == 0;
    var n := AllocBook(b, 1).0;
    assert n.recordInfo == [Range(41, 16), Range(57, 1)];
  }

  lemma FormatState()
    ensures SMALL.Valid() && BookOf(Format(SMALL)) == State(false, false, 0, 0, map[], [], [Range(57, 4)])
  {
    hide FormatMem, BitsIn, CountOf, OffsetOf, Formatted;
    SmallNumbers();
    FormatReads(SMALL);
    assert AllClear(8) == Flags(false, false);
  }

  ghost predicate Fine(s: Area) { Healthy(s) && Usable(s) && Image(s) && LowRecords(s) }

  /** A step of a persistent run whose books are known. */
  lemma AllocNext(s: Area, len: nat, t: Area)
    requires Fine(s) && len > 0 && CountOf(s.mem) < s.l.Limit()
    requires AllocBook(BookOf(s), len).1.Some? && t == Alloc(s, len).0
    requires s.l.Slot(FreeSlot(BookOf(s)) + 1) <= Boundary(BookOf(s))
    ensures Fine(t) && Sized(t.mem, t.l) && BookOf(t) == AllocBook(BookOf(s), len).0
    ensures Next(s, AllocOp(len), t, true)
  {
    hide BitsIn, CountOf, OffsetOf, Formatted, Healthy, Image, Alloc, AllocBook, LowRecords, Coherent, NoClash, Choose, FreeSlot;
    HealthyCoherent(s);
    AllocFollowsBook(s, len);
    TookSomething(s, len);
    AllocKeepsLow(s, len);
    AllocImage(s, len);
    AllocHealthyIff(s, len);
  }

  lemma FreeNext(s: Area, a: nat, t: Area)
    requires Fine(s) && t == Free(s, a)
    ensures Fine(t) && BookOf(t) == FreeBook(BookOf(s), a)
    ensures Next(s, FreeOp(a), t, true)
  {
    hide BitsIn, CountOf, OffsetOf, Formatted, Healthy, Image, Free, FreeBook, LowRecords, Coherent;
    HealthyCoherent(s);
    FreeFollowsBook(s, a);
    FreeImage(s, a);
    FreeHealthy(s, a);
    FreeKeepsLow(s, a);
  }

  lemma WriteNext(s: Area, p: nat, v: byte, t: Area)
    requires Fine(s) && Covered(s.recordInfo, p) && p < |s.mem| && t == ClientWrite(s, p, v)
    ensures Fine(t) && BookOf(t) == BookOf(s) && t.mem[p] == v
    ensures Next(s, WriteOp(p, v), t, true)
  {
    hide BitsIn, CountOf, OffsetOf, Formatted, Healthy, Image, Coherent;
    HealthyCoherent(s);
    WriteHealthy(s, p, v);
    HealthyUsable(s);
    WriteFollowsBook(s, p, v);
    WriteImage(s, p, v);
  }

  /** Alloc 4, Alloc 16 (squeezed), Free the first, Alloc 1, and the client of the
      squeezed block stores 7 in its first byte: a persistent run. The next Alloc
      succeeds and writes its record over that block: the client's 7 is now 58,
      and what the client writes next, load will take for a record. */
  lemma RecordOverBlock() returns (tr: seq<Area>, ops: seq<Op>, s: Area)
    ensures Run(SMALL, tr, ops, true) && s == tr[|ops|]
    ensures Usable(s) && Recoverable(s) && Alloc(s, 1).1 == Some(58)
    ensures Range(41, 16) in s.recordInfo && s.mem[41] == 7 && |Alloc(s, 1).0.mem| == 61 && Alloc(s, 1).0.mem[41] == 58
    ensures Sized(Alloc(s, 1).0.mem, Alloc(s, 1).0.l) && !Recoverable(Alloc(s, 1).0)
  {
    hide BitsIn, CountOf, OffsetOf, Formatted, LowRecords, Usable, Recoverable, Alloc, Free, AllocBook, FreeBook, Format, Next, ScanFree, Layout.Limit, Layout.FlagLen, ClientWrite, Image, Healthy;
    SmallNumbers();
    FormatState();
    SmallStart();
    ScansOfFlags(false, false);
    ScansOfFlags(true, false);
    ScansOfFlags(false, true);
    ScansOfFlags(true, true);
    var s0 := Format(SMALL);
    var s1 := Alloc(s0, 4).0;
    FirstBlock();
    AllocNext(s0, 4, s1);
    var s2 := Alloc(s1, 16).0;
    SqueezedBlock();
    AllocNext(s1, 16, s2);
    var s3 := Free(s2, 57);
    FirstFreed();
    FreeNext(s2, 57, s3);
    var s4 := Alloc(s3, 1).0;
    SmallAgain();
    AllocNext(s3, 1, s4);
    assert s4.recordInfo[0] in s4.recordInfo && Contains(s4.recordInfo[0], 41);
    s := ClientWrite(s4, 41, 7);
    WriteNext(s4, 41, 7, s);
    tr, ops := [s0, s1, s2, s3, s4, s], [AllocOp(4), AllocOp(16), FreeOp(57), AllocOp(1), WriteOp(41, 7)];
    assert s.recordInfo[0] in s.recordInfo;
    OverBlock(s);
  }

  lemma SmallStart()
    ensures SMALL.Valid() && Fine(Format(SMALL)) && Usable(Format(SMALL))
  {
    SmallNumbers();
    hide Healthy, Usable, Image, LowRecords, Format;
    FormatHealthy(SMALL);
  }

  /** The last step, from its books. */
  lemma OverBlock(s: Area)
    requires Fine(s) && BookOf(s) == State(true, true, 2, 16, map[41 := 1, 57 := 0], [Range(41, 16), Range(57, 1)], [Range(58, 3)])
    ensures Usable(s) && Recoverable(s) && Alloc(s, 1).1 == Some(58)
    ensures |Alloc(s, 1).0.mem| == 61 && Alloc(s, 1).0.mem[41] == 58
    ensures Sized(Alloc(s, 1).0.mem, Alloc(s, 1).0.l) && !Recoverable(Alloc(s, 1).0)
  {
    SmallNumbers();
    ScansOfFlags(true, true);
    LastFits(s);
    BlockGiven(s, 1);
    hide BitsIn, CountOf, OffsetOf, Formatted, Healthy, Image, Alloc, AllocMem, Choose, ScanFree, Layout.Limit, Layout.FlagLen, Recoverable, Coherent, LoadedTo, Inside;
    HealthyCoherent(s);
    ImageRecoverable(s);
    LowRecoverableIff(s, 1);
    var c := Choose(BookOf(s), 1);
    AllocAreaEffect(s, 1, c, Alloc(s, 1).0);
    AllocRecords(s, c, 2);
    FirstRecordByte(AllocMem(s, c), 2, 58);
  }

  lemma FirstRecordByte(m: seq<byte>, k: nat, v: nat)
    requires Sized(m, SMALL) && k < SMALL.Limit() && RecordAt(m, SMALL, k).start == v < 256
    ensures SMALL.Slot(k) < |m| && m[SMALL.Slot(k)] == v
  {
    SlotFits(SMALL, k);
    var p := SMALL.Slot(k);
    var b := m[p..p + 4];
    assert FromBytes(b) == b[0] + 256 * FromBytes(b[1..]);
  }

  lemma LastFits(s: Area)
    requires Usable(s) && s.rangeSet == [Range(58, 3)]
    ensures Alloc(s, 1).1 == Some(58)
  {
    hide BitsIn, AllocMem;
    assert FirstFit(s.rangeSet, 1) == 0;
  }

  /** After one Alloc of one byte, load rebuilds no free range although three
      bytes are free. */
  lemma TailMissed()
    ensures SMALL.Valid() && Usable(Format(SMALL))
    ensures var s := Alloc(Format(SMALL), 1).0;
            && Sized(s.mem, s.l) && Formatted(s.mem, s.l) && BitsBelowLimit(s.mem, s.l)
            && s.rangeSet == [Range(58, 3)] && Load(s.l, s.mem).rangeSet == []
  {
    hide BitsIn, CountOf, OffsetOf, Formatted, Healthy, Image, Alloc, AllocBook, Format, ScanFree, Layout.Limit, Layout.FlagLen, LoadedTo, BitsBelowLimit, LowRecords;
    SmallNumbers();
    FormatState();
    SmallStart();
    ScansOfFlags(false, false);
    var s := Alloc(Format(SMALL), 1).0;
    OneByte();
    AllocNext(Format(SMALL), 1, s);
    HealthyCoherent(s);
    LoadRecovers(s);
  }

  lemma OneByte()
    ensures AllocBook(State(false, false, 0, 0, map[], [], [Range(57, 4)]), 1)
            == (State(true, false, 1, 0, map[57 := 0], [Range(57, 1)], [Range(58, 3)]), Some(57))
  {
    SmallNumbers();
    ScansOfFlags(false, false);
    var f := [Range(57, 4)];
    assert FirstFit(f, 1) == 0 && Erase(f, 0) == [];
    assert Flags(false, false)[0 := true] == Flags(true, false);
  }
}
