/** The allocator over a self-describing byte area: books and bytes together. */
module StaticAlloc {
  import opened Bytes
  import opened Options
  import opened AreaTiles
  import opened AreaImage
  import opened AreaBook
  import opened AreaSafety

  datatype Area = Area(l: Layout, mem: seq<byte>,
                       recordMap: map<nat, nat>, recordInfo: seq<Range>, rangeSet: seq<Range>)

  /** The books as the bytes and the maps hold them. */
  function BookOf(s: Area): Book
    requires Sized(s.mem, s.l)
  {
    Book(s.l, BitsIn(s.mem, s.l), CountOf(s.mem), OffsetOf(s.mem), s.recordMap, s.recordInfo, s.rangeSet)
  }

  predicate Inside(l: Layout, rs: seq<Range>) {
    forall r :: r in rs ==> l.RecStart() <= r.start && r.End() <= l.total
  }

  /** What the operations need to stay inside the area at all. */
  predicate Usable(s: Area) {
    && Sized(s.mem, s.l) && Formatted(s.mem, s.l)
    && OffsetOf(s.mem) <= s.l.Slots(s.l.Limit())
    && Inside(s.l, s.rangeSet) && Inside(s.l, s.recordInfo)
    && forall a :: a in s.recordMap ==> s.recordMap[a] < s.l.Limit()
  }

  // ----- operations -----

  /** The bytes Alloc writes: offset, flag bit, record, count, zeroed block. */
  function AllocMem(s: Area, c: Choice): seq<byte>
    requires Usable(s) && c.Take? && c.block.End() <= s.l.total
  {
    var b := BookOf(s);
    var k := FreeSlot(b);
    var m0 := if c.offset != b.offset then SetOffset(s.mem, c.offset) else s.mem;
    var m1 := if k < |b.bits| && !b.bits[k] then SetBit(m0, s.l, k, true) else m0;
    var m2 := if k < s.l.Limit() then SetCount(SetRecord(m1, s.l, k, c.block), (b.count + 1) % 65536) else m1;
    Zeroed(m2, c.block)
  }

  lemma ChosenInside(s: Area, len: nat)
    requires Usable(s) && Choose(BookOf(s), len).Take?
    ensures var c := Choose(BookOf(s), len);
            s.l.RecStart() <= c.block.start && c.block.End() <= s.l.total && c.offset <= s.l.Slots(s.l.Limit())
  {
    hide ScanUsed, Layout.Limit, Layout.FlagLen, Insert, Erase;
    LayoutFits(s.l);
    var i := FirstFit(s.rangeSet, len);
    if i < |s.rangeSet| {
      assert s.rangeSet[i] in s.rangeSet;
    }
  }

  function Alloc(s: Area, len: nat): (Area, Option<nat>)
    requires Usable(s)
  {
    var b := BookOf(s);
    var c := Choose(b, len);
    if c.Nothing? then (s, None)
    else
      ChosenInside(s, len);
      var n := Register(b, c);
      (Area(s.l, AllocMem(s, c), n.recordMap, n.recordInfo, n.rangeSet), Some(c.block.start))
  }

  /** The bytes Free writes: flag bit, count, offset. */
  function FreeMem(s: Area, a: nat): seq<byte>
    requires Usable(s) && a in s.recordMap
  {
    LayoutFits(s.l);
    var b := BookOf(s);
    var off := FreeBook(b, a).offset;
    var m := SetCount(SetBit(s.mem, s.l, s.recordMap[a], false), (b.count + 65535) % 65536);
    if off != b.offset then SetOffset(m, off) else m
  }

  function Free(s: Area, a: nat): Area
    requires Usable(s)
  {
    if IndexOf(s.recordInfo, a) == |s.recordInfo| || a !in s.recordMap then s
    else
      var n := FreeBook(BookOf(s), a);
      Area(s.l, FreeMem(s, a), n.recordMap, n.recordInfo, n.rangeSet)
  }

  /** A client stores one byte. */
  function ClientWrite(s: Area, p: nat, v: byte): Area
    requires p < |s.mem|
  {
    s.(mem := Splice(s.mem, p, [v]))
  }

  // ----- the bytes follow the books -----

  /** What a formatted image says. */
  predicate Reads(m: seq<byte>, l: Layout, bits: seq<bool>, count: nat, off: nat) {
    Sized(m, l) && Formatted(m, l) && BitsIn(m, l) == bits && CountOf(m) == count && OffsetOf(m) == off
  }

  lemma ReadsSet(m: seq<byte>, l: Layout, bits: seq<bool>, count: nat, off: nat)
    requires Reads(m, l, bits, count, off)
    ensures forall v :: 0 <= v < 0x1_0000_0000 ==> Reads(SetOffset(m, v), l, bits, count, v)
    ensures forall v :: 0 <= v < 65536 ==> Reads(SetCount(m, v), l, bits, v, off)
    ensures forall k, v :: 0 <= k < 8 * l.FlagLen() ==> Reads(SetBit(m, l, k, v), l, bits[k := v], count, off)
  {
    hide CountOf, OffsetOf, BitsIn, Formatted, SameFixed, SetOffset, SetCount, SetBit, Layout.FlagLen;
    forall v | 0 <= v < 0x1_0000_0000 ensures Reads(SetOffset(m, v), l, bits, count, v) {
      SetOffsetEffect(m, l, v);
      FixedFields(m, SetOffset(m, v), l);
    }
    forall v | 0 <= v < 65536 ensures Reads(SetCount(m, v), l, bits, v, off) {
      SetCountEffect(m, l, v);
      FixedFields(m, SetCount(m, v), l);
    }
    forall k, v | 0 <= k < 8 * l.FlagLen() ensures Reads(SetBit(m, l, k, v), l, bits[k := v], count, off) {
      SetBitEffect(m, l, k, v);
      FixedFields(m, SetBit(m, l, k, v), l);
    }
  }

  /** Writes into records or behind them do not change what the image says. */
  lemma ReadsHigh(m: seq<byte>, l: Layout, bits: seq<bool>, count: nat, off: nat, p: nat, x: seq<byte>)
    requires Reads(m, l, bits, count, off) && l.RecStart() <= p && p + |x| <= |m|
    ensures Reads(Splice(m, p, x), l, bits, count, off)
  {
    hide CountOf, OffsetOf, BitsIn, Formatted, SameFixed, Layout.FlagLen, Splice;
    HighWrite(m, l, p, x);
    FixedFields(m, Splice(m, p, x), l);
  }

  lemma AllocFollowsBook(s: Area, len: nat)
    requires Usable(s)
    ensures var n := Alloc(s, len).0;
            && Sized(n.mem, n.l) && Formatted(n.mem, n.l) && BookOf(n) == AllocBook(BookOf(s), len).0
            && Alloc(s, len).1 == AllocBook(BookOf(s), len).1
  {
    hide Choose, CountOf, OffsetOf, BitsIn, Formatted, AllocMem, Layout.Limit, Layout.FlagLen, Insert, MapInsert, FreeSlot;
    var c := Choose(BookOf(s), len);
    if c.Take? {
      ChosenInside(s, len);
      AllocBytes(s, c);
    }
  }

  lemma AllocBytes(s: Area, c: Choice)
    requires Usable(s) && c.Take? && s.l.RecStart() <= c.block.start && c.block.End() <= s.l.total
    requires c.offset <= s.l.Slots(s.l.Limit())
    ensures var n := Register(BookOf(s), c); Reads(AllocMem(s, c), s.l, n.bits, n.count, c.offset)
  {
    hide CountOf, OffsetOf, BitsIn, Formatted, SetCount, SetOffset, SetBit, SetRecord, Layout.Limit, Layout.FlagLen, Insert, MapInsert, FreeSlot, Zeroed;
    LayoutFits(s.l);
    var b, n := BookOf(s), Register(BookOf(s), c);
    var k := FreeSlot(b);
    var m0 := if c.offset != b.offset then SetOffset(s.mem, c.offset) else s.mem;
    assert Reads(m0, s.l, b.bits, b.count, c.offset) by { ReadsSet(s.mem, s.l, b.bits, b.count, b.offset); }
    var m1 := if k < |b.bits| && !b.bits[k] then SetBit(m0, s.l, k, true) else m0;
    assert Reads(m1, s.l, n.bits, b.count, c.offset) by { ReadsSet(m0, s.l, b.bits, b.count, c.offset); }
    var m2 := if k < s.l.Limit() then SetCount(SetRecord(m1, s.l, k, c.block), (b.count + 1) % 65536) else m1;
    assert Reads(m2, s.l, n.bits, n.count, c.offset) by {
      if k < s.l.Limit() {
        ReadsRecord(m1, s.l, n.bits, b.count, c.offset, k, c.block);
        ReadsSet(SetRecord(m1, s.l, k, c.block), s.l, n.bits, b.count, c.offset);
      }
    }
    ReadsZeroed(m2, s.l, n.bits, n.count, c.offset, c.block);
  }

  lemma ReadsRecord(m: seq<byte>, l: Layout, bits: seq<bool>, count: nat, off: nat, k: nat, r: Range)
    requires Reads(m, l, bits, count, off) && k < l.Limit()
    ensures Reads(SetRecord(m, l, k, r), l, bits, count, off)
  {
    hide Formatted, BitsIn, ToBytes;
    SlotFits(l, k);
    ReadsHigh(m, l, bits, count, off, l.Slot(k), ToBytes(r.start, l.ptr) + ToBytes(r.len, 4));
  }

  lemma ReadsZeroed(m: seq<byte>, l: Layout, bits: seq<bool>, count: nat, off: nat, r: Range)
    requires Reads(m, l, bits, count, off) && l.RecStart() <= r.start && r.End() <= |m|
    ensures Reads(Zeroed(m, r), l, bits, count, off)
  {
    hide Reads;
    ReadsHigh(m, l, bits, count, off, r.start, seq(r.len, _ => 0));
  }

  lemma FreeFollowsBook(s: Area, a: nat)
    requires Usable(s)
    ensures var n := Free(s, a);
            Sized(n.mem, n.l) && Formatted(n.mem, n.l) && BookOf(n) == FreeBook(BookOf(s), a)
  {
    hide CountOf, OffsetOf, BitsIn, Formatted, SetCount, SetOffset, SetBit, Layout.Limit, Layout.FlagLen, IndexOf, Coalesce, Insert, Erase;
    if IndexOf(s.recordInfo, a) < |s.recordInfo| && a in s.recordMap {
      LayoutFits(s.l);
      var b, n, k := BookOf(s), FreeBook(BookOf(s), a), s.recordMap[a];
      var m1 := SetBit(s.mem, s.l, k, false);
      var m2 := SetCount(m1, (b.count + 65535) % 65536);
      assert Reads(m1, s.l, n.bits, b.count, b.offset) by { ReadsSet(s.mem, s.l, b.bits, b.count, b.offset); }
      assert Reads(m2, s.l, n.bits, n.count, b.offset) by { ReadsSet(m1, s.l, n.bits, b.count, b.offset); }
      ReadsSet(m2, s.l, n.bits, n.count, b.offset);
    }
  }

  lemma WriteFollowsBook(s: Area, p: nat, v: byte)
    requires Usable(s) && s.l.RecStart() <= p < s.l.total
    ensures var n := ClientWrite(s, p, v);
            Sized(n.mem, n.l) && Formatted(n.mem, n.l) && BookOf(n) == BookOf(s)
  {
    hide CountOf, OffsetOf, BitsIn, Formatted;
    var b := BookOf(s);
    ReadsHigh(s.mem, s.l, b.bits, b.count, b.offset, p, [v]);
  }

  // ----- usable areas stay usable -----

  lemma {:induction false} InsertWithin(rs: seq<Range>, r: Range)
    ensures forall x :: x in Insert(rs, r) ==> x in rs || x == r
    decreases |rs|
  {
    if rs != [] && r.start > rs[0].start {
      InsertWithin(rs[1..], r);
    }
  }

  lemma {:induction false} CoalesceInside(l: Layout, rs: seq<Range>)
    requires Inside(l, rs)
    ensures Inside(l, Coalesce(rs))
    decreases |rs|
  {
    if |rs| >= 2 {
      assert rs[0] in rs && rs[1] in rs;
      CoalesceInside(l, if rs[0].End() == rs[1].start then [Range(rs[0].start, rs[0].len + rs[1].len)] + rs[2..] else rs[1..]);
    }
  }

  lemma TrimInside(l: Layout, rs: seq<Range>, off: nat)
    requires Inside(l, rs)
    ensures Inside(l, TrimRanges(rs, off, l.Start()).0) && TrimRanges(rs, off, l.Start()).1 <= off
  {
    if rs != [] {
      assert rs[0] in rs;
      InsertWithin(rs[1..], Range(l.Start(), if rs[0].len > off then rs[0].len - off else 0));
    }
  }

  lemma AllocUsable(s: Area, len: nat)
    requires Usable(s)
    ensures Usable(Alloc(s, len).0)
  {
    hide CountOf, OffsetOf, BitsIn, Formatted, AllocMem, Layout.Limit, Layout.FlagLen, ScanUsed, FreeSlot, Insert;
    AllocFollowsBook(s, len);
    var b := BookOf(s);
    var c, i := Choose(b, len), FirstFit(b.rangeSet, len);
    if c.Take? {
      ChosenInside(s, len);
      InsertWithin(s.recordInfo, c.block);
      if i < |b.rangeSet| {
        var r, e := b.rangeSet[i], Erase(b.rangeSet, i);
        assert r in s.rangeSet;
        InsertWithin(e, Range(r.start + len, r.len - len));
      }
    }
  }

  lemma FreeUsable(s: Area, a: nat)
    requires Usable(s)
    ensures Usable(Free(s, a))
  {
    hide CountOf, OffsetOf, BitsIn, Formatted, FreeMem, Layout.Limit, Layout.FlagLen, Insert, Coalesce, TrimRanges;
    FreeFollowsBook(s, a);
    var i := IndexOf(s.recordInfo, a);
    if i < |s.recordInfo| {
      var r := s.recordInfo[i];
      assert r in s.recordInfo;
      InsertWithin(s.rangeSet, r);
      CoalesceInside(s.l, Insert(s.rangeSet, r));
      TrimInside(s.l, Coalesce(Insert(s.rangeSet, r)), OffsetOf(s.mem));
    }
  }

  // ----- healthy areas -----

  ghost predicate Healthy(s: Area) {
    Sized(s.mem, s.l) && Formatted(s.mem, s.l) && Sound(BookOf(s))
  }

  lemma HealthyUsable(s: Area)
    requires Healthy(s)
    ensures Usable(s) && SlotsAgree(BookOf(s))
    ensures s.l.RecStart() <= Boundary(BookOf(s)) <= s.l.Start() < s.l.total
  {
    hide CountOf, OffsetOf, BitsIn, Formatted, Tiled, Only;
    var b := BookOf(s);
    var ts: seq<Tile> :| Books(b, ts);
    RowEnd(b, ts);
  }

  /** A successful Alloc keeps the area healthy exactly when a slot was left;
      a failing one changes nothing. */
  lemma AllocHealthyIff(s: Area, len: nat)
    requires Healthy(s) && len > 0
    ensures Usable(s)
    ensures Alloc(s, len).1.None? ==> Alloc(s, len).0 == s
    ensures Alloc(s, len).1.Some? ==> (Healthy(Alloc(s, len).0) <==> CountOf(s.mem) < s.l.Limit())
  {
    HealthyUsable(s);
    hide Alloc, AllocBook, Sound;
    AllocFollowsBook(s, len);
    if Alloc(s, len).1.Some? {
      AllocSoundIff(BookOf(s), len);
    } else {
      FailedAlloc(s, len);
    }
  }

  lemma FailedAlloc(s: Area, len: nat)
    requires Usable(s) && Alloc(s, len).1.None?
    ensures Alloc(s, len).0 == s
  {
    hide Choose;
  }

  lemma FreeHealthy(s: Area, a: nat)
    requires Healthy(s)
    ensures Usable(s) && Healthy(Free(s, a))
  {
    HealthyUsable(s);
    hide Free, FreeBook, Sound;
    FreeFollowsBook(s, a);
    FreeKeepsBooks(BookOf(s), a);
  }

  lemma WriteHealthy(s: Area, p: nat, v: byte)
    requires Healthy(s) && Covered(s.recordInfo, p)
    ensures p < |s.mem| && Healthy(ClientWrite(s, p, v)) && s.l.RecStart() <= Boundary(BookOf(s)) <= p
  {
    HealthyUsable(s);
    SoundMeans(BookOf(s), p);
    hide ClientWrite, Sound;
    WriteFollowsBook(s, p, v);
  }

  /** Freeing the block just allocated restores flag bits, count, offset and all
      three maps. */
  lemma FreeUndoes(s: Area, len: nat)
    requires Healthy(s) && len > 0 && CountOf(s.mem) < s.l.Limit()
    requires Usable(s) && Alloc(s, len).1.Some?
    ensures var (n, a) := Alloc(s, len);
            Healthy(n) && Usable(n) && Sized(Free(n, a.value).mem, s.l) && BookOf(Free(n, a.value)) == BookOf(s)
  {
    HealthyUsable(s);
    AllocHealthyIff(s, len);
    var n, a := Alloc(s, len).0, Alloc(s, len).1;
    HealthyUsable(n);
    hide Alloc, Free, AllocBook, FreeBook, Sound;
    AllocFollowsBook(s, len);
    FreeFollowsBook(n, a.value);
    FreeUndoesAlloc(BookOf(s), len);
  }

  // ----- coherent areas: healthy, or safe after a reload -----

  ghost predicate Coherent(s: Area) {
    Sized(s.mem, s.l) && Formatted(s.mem, s.l) && Safe(BookOf(s))
  }

  lemma HealthyCoherent(s: Area)
    requires Healthy(s)
    ensures Coherent(s)
  {
    SoundIsSafe(BookOf(s));
  }

  lemma CoherentUsable(s: Area)
    requires Coherent(s)
    ensures Usable(s) && SlotsAgree(BookOf(s))
    ensures s.l.RecStart() <= Boundary(BookOf(s)) <= s.l.Start() < s.l.total
    ensures Sorted(s.recordInfo) && Within(s.recordInfo, Boundary(BookOf(s)), s.l.total)
  {
    hide CountOf, OffsetOf, BitsIn, Formatted, SlotsAgree, Layout.Limit, Layout.FlagLen;
    LayoutFits(s.l);
    var b := BookOf(s);
    assert forall a :: a in s.recordMap ==> s.recordMap[a] < s.l.Limit() by { SlotsBelow(b); }
  }

  lemma SlotsBelow(b: Book)
    requires SlotsAgree(b)
    ensures forall a :: a in b.recordMap ==> b.recordMap[a] < b.l.Limit()
  {
  }

  lemma AllocCoherent(s: Area, len: nat)
    requires Coherent(s) && Usable(s) && len > 0 && (Alloc(s, len).1.Some? ==> CountOf(s.mem) < s.l.Limit())
    ensures Coherent(Alloc(s, len).0)
  {
    hide Alloc, AllocBook, Safe;
    AllocFollowsBook(s, len);
    AllocSafe(BookOf(s), len);
  }

  lemma FreeCoherent(s: Area, a: nat)
    requires Coherent(s) && Usable(s)
    ensures Coherent(Free(s, a))
  {
    hide Free, FreeBook, Safe;
    FreeFollowsBook(s, a);
    FreeSafe(BookOf(s), a);
  }

  lemma WriteCoherent(s: Area, p: nat, v: byte)
    requires Coherent(s) && Covered(s.recordInfo, p)
    ensures p < |s.mem| && Coherent(ClientWrite(s, p, v)) && Boundary(BookOf(s)) <= p
  {
    CoherentUsable(s);
    hide ClientWrite, Safe, BitsIn, CountOf, OffsetOf, Formatted, Usable;
    WriteFollowsBook(s, p, v);
  }

  // ----- the persistent image -----

  /** The bytes a record occupies in its slot; the rest of the slot is padding. */
  predicate RecordByte(l: Layout, k: nat, p: int) { l.Slot(k) <= p < l.Slot(k) + l.ptr + 4 }

  /** No byte of record k is in one of the ranges. */
  ghost predicate Clear(l: Layout, k: nat, rs: seq<Range>) {
    forall p: nat :: RecordByte(l, k, p) ==> !Covered(rs, p)
  }

  /** Every used slot holds its block, outside all live blocks. */
  ghost predicate Image(s: Area)
    requires Usable(s)
  {
    forall a :: a in s.recordMap ==>
      var k := s.recordMap[a];
      && RecordAt(s.mem, s.l, k).start == a && RecordAt(s.mem, s.l, k) in s.recordInfo
      && Clear(s.l, k, s.recordInfo)
  }

  /** The record that Alloc is going to write is clear of the live blocks, and
      the used records and it are clear of the block it is going to hand out. */
  ghost predicate NoClash(s: Area, len: nat)
    requires Sized(s.mem, s.l) && Choose(BookOf(s), len).Take?
  {
    var block := Choose(BookOf(s), len).block;
    && Clear(s.l, FreeSlot(BookOf(s)), s.recordInfo + [block])
    && forall a :: a in s.recordMap ==> Clear(s.l, s.recordMap[a], [block])
  }

  lemma CoveredMore(rs: seq<Range>, n: seq<Range>, block: Range, p: nat)
    requires forall x :: x in n <==> x in rs || x == block
    ensures Covered(n, p) <==> Covered(rs, p) || Contains(block, p)
    ensures Covered(rs + [block], p) <==> Covered(rs, p) || Contains(block, p)
    ensures Covered([block], p) <==> Contains(block, p)
  {
    assert forall x :: x in rs + [block] <==> x in rs || x == block;
    assert block in n && block in rs + [block] && block in [block];
    forall x | x in rs ensures x in n && x in rs + [block] {
    }
  }

  /** A record clear of a block is wholly below it or wholly above it. */
  lemma ClearIsOff(l: Layout, k: nat, block: Range)
    requires l.Valid() && k < l.Limit() && block.len > 0 && Clear(l, k, [block])
    ensures block.End() <= l.Slot(k) || l.Slot(k) + l.ptr + 4 <= block.start
  {
    hide Layout.Limit, Layout.FlagLen;
    var p := if block.start < l.Slot(k) then l.Slot(k) else block.start;
    assert block in [block];
    assert RecordByte(l, k, p) ==> !Covered([block], p);
    assert Contains(block, p) ==> Covered([block], p);
  }

  /** The records after Alloc: the new one in the found slot, and every other
      one that is off the block unchanged. */
  lemma AllocRecords(s: Area, c: Choice, q: nat)
    requires Usable(s) && c.Take? && s.l.RecStart() <= c.block.start && c.block.End() <= s.l.total
    requires c.offset <= s.l.Slots(s.l.Limit())
    requires q < s.l.Limit() && FreeSlot(BookOf(s)) < s.l.Limit()
    requires c.block.End() <= s.l.Slot(q) || s.l.Slot(q) + s.l.ptr + 4 <= c.block.start
    ensures RecordAt(AllocMem(s, c), s.l, q) ==
            if q == FreeSlot(BookOf(s)) then c.block else RecordAt(s.mem, s.l, q)
  {
    hide CountOf, OffsetOf, BitsIn, Formatted, RecordAt, SetCount, SetOffset, SetBit, SetRecord, Layout.Limit, Layout.FlagLen, FreeSlot, Splice, SameFixed, Inside;
    LayoutFits(s.l);
    var b := BookOf(s);
    var k := FreeSlot(b);
    var m0 := if c.offset != b.offset then SetOffset(s.mem, c.offset) else s.mem;
    SetOffsetEffect(s.mem, s.l, c.offset);
    var m1 := if k < |b.bits| && !b.bits[k] then SetBit(m0, s.l, k, true) else m0;
    SetBitEffect(m0, s.l, k, true);
    var m2 := SetRecord(m1, s.l, k, c.block);
    SetRecordEffect(m1, s.l, k, c.block);
    var m3 := SetCount(m2, (b.count + 1) % 65536);
    SetCountEffect(m2, s.l, (b.count + 1) % 65536);
    RecordKept(m3, s.l, c.block.start, seq(c.block.len, _ => 0), q);
  }

  /** What Alloc does to a coherent area with a slot left. */
  lemma AllocAreaEffect(s: Area, len: nat, c: Choice, n: Area)
    requires Coherent(s) && Usable(s) && len > 0 && CountOf(s.mem) < s.l.Limit()
    requires c == Choose(BookOf(s), len) && c.Take? && n == Alloc(s, len).0
    ensures var k := FreeSlot(BookOf(s));
            && k < s.l.Limit() && !Uses(s.recordMap, k)
            && c.block.start !in s.recordMap && n.recordMap == s.recordMap[c.block.start := k]
    ensures forall x :: x in n.recordInfo <==> x in s.recordInfo || x == c.block
    ensures s.l.RecStart() <= c.block.start && c.block.End() <= s.l.total && c.offset <= s.l.Slots(s.l.Limit())
    ensures c.block.len == len && n.l == s.l && n.mem == AllocMem(s, c)
    ensures Coherent(n) && Usable(n)
  {
    AllocCoherent(s, len);
    CoherentUsable(n);
    CoherentUsable(s);
    ChosenInside(s, len);
    hide BitsIn, CountOf, OffsetOf, Formatted, Choose, FreeSlot, AllocMem, Layout.Limit, Layout.FlagLen, Inside, Safe;
    AllocEffect(BookOf(s), len);
    FreeSlotFound(BookOf(s));
  }

  /** Alloc leaves an image exactly when there is no clash. */
  lemma AllocImage(s: Area, len: nat)
    requires Coherent(s) && Usable(s) && Image(s) && len > 0 && CountOf(s.mem) < s.l.Limit() && Alloc(s, len).1.Some?
    ensures Coherent(Alloc(s, len).0) && Usable(Alloc(s, len).0) && Choose(BookOf(s), len).Take?
    ensures Image(Alloc(s, len).0) <==> NoClash(s, len)
  {
    hide BitsIn, CountOf, OffsetOf, Formatted, RecordAt, Choose, FreeSlot, AllocMem, Layout.Limit, Layout.FlagLen, Alloc, Safe, Clear, Covered, Inside;
    TookSomething(s, len);
    var n, c, k := Alloc(s, len).0, Choose(BookOf(s), len), FreeSlot(BookOf(s));
    AllocAreaEffect(s, len, c, n);
    forall q: nat ensures Clear(s.l, q, n.recordInfo) <==> Clear(s.l, q, s.recordInfo) && Clear(s.l, q, [c.block])
      ensures Clear(s.l, q, n.recordInfo) <==> Clear(s.l, q, s.recordInfo + [c.block])
    {
      ClearMore(s.l, q, s.recordInfo, n.recordInfo, c.block);
    }
    if NoClash(s, len) {
      forall a | a in n.recordMap
        ensures var q := n.recordMap[a];
                && RecordAt(n.mem, n.l, q).start == a && RecordAt(n.mem, n.l, q) in n.recordInfo
                && Clear(n.l, q, n.recordInfo)
      {
        var q := n.recordMap[a];
        assert a != c.block.start ==> a in s.recordMap && s.recordMap[a] == q;
        assert Clear(s.l, q, [c.block]);
        ClearIsOff(s.l, q, c.block);
        AllocRecords(s, c, q);
      }
    }
    if Image(n) {
      assert n.recordMap[c.block.start] == k;
      forall a | a in s.recordMap ensures Clear(s.l, s.recordMap[a], [c.block]) {
        assert a in n.recordMap && n.recordMap[a] == s.recordMap[a];
      }
    }
  }

  lemma TookSomething(s: Area, len: nat)
    requires Usable(s)
    ensures Alloc(s, len).1.Some? <==> Choose(BookOf(s), len).Take?
  {
    hide Choose, AllocMem, Register;
  }

  lemma ClearMore(l: Layout, q: nat, rs: seq<Range>, n: seq<Range>, block: Range)
    requires forall x :: x in n <==> x in rs || x == block
    ensures Clear(l, q, n) <==> Clear(l, q, rs) && Clear(l, q, [block])
    ensures Clear(l, q, n) <==> Clear(l, q, rs + [block])
  {
    hide Covered;
    forall p: nat ensures Covered(n, p) <==> Covered(rs, p) || Covered([block], p)
      ensures Covered(n, p) <==> Covered(rs + [block], p)
    {
      CoveredMore(rs, n, block, p);
    }
  }

  predicate LowRecords(s: Area)
    requires Sized(s.mem, s.l)
  {
    Low(BookOf(s))
  }

  /** The record that Alloc is going to write ends below the boundary. */
  predicate RecordBelow(s: Area)
    requires Sized(s.mem, s.l)
  {
    s.l.Slot(FreeSlot(BookOf(s))) + s.l.ptr + 4 <= Boundary(BookOf(s))
  }

  lemma BelowIsClear(s: Area, k: nat, block: Range)
    requires Coherent(s) && Usable(s) && s.l.Slot(k) + s.l.ptr + 4 <= Boundary(BookOf(s))
    requires s.l.Slot(k) + s.l.ptr + 4 <= block.start
    ensures Clear(s.l, k, s.recordInfo + [block]) && Clear(s.l, k, [block])
  {
    CoherentUsable(s);
    hide BitsIn, CountOf, OffsetOf, Formatted, Usable, Coherent;
    forall p: nat | RecordByte(s.l, k, p) ensures !Covered(s.recordInfo + [block], p) && !Covered([block], p) {
    }
  }

  /** A record below the boundary does not clash with anything. */
  lemma BelowNoClash(s: Area, len: nat)
    requires Coherent(s) && Usable(s) && LowRecords(s) && len > 0 && CountOf(s.mem) < s.l.Limit()
    requires Choose(BookOf(s), len).Take? && RecordBelow(s)
    ensures NoClash(s, len)
  {
    CoherentUsable(s);
    hide BitsIn, CountOf, OffsetOf, Formatted, FreeSlot, Layout.Limit, Layout.FlagLen, Clear, Squeeze, Safe, Inside, Choose, Usable;
    var b, c := BookOf(s), Choose(BookOf(s), len);
    AllocEffect(b, len);
    if c.offset != b.offset {
      SqueezeSafe(b, len);
    }
    BelowIsClear(s, FreeSlot(b), c.block);
    forall a | a in s.recordMap ensures Clear(s.l, s.recordMap[a], [c.block]) {
      UsedBit(b, a);
      BelowIsClear(s, s.recordMap[a], c.block);
    }
  }

  lemma UsedBit(b: Book, a: nat)
    requires SlotsAgree(b) && a in b.recordMap
    ensures b.recordMap[a] < |b.bits| && b.bits[b.recordMap[a]]
  {
    LayoutFits(b.l);
    assert Uses(b.recordMap, b.recordMap[a]);
  }

  /** The lowest free slot starts at or below the boundary; if its record does
      not end below it, the record contains the boundary byte, which is live. */
  lemma ReachesBoundary(s: Area)
    requires Healthy(s) && Usable(s) && LowRecords(s) && CountOf(s.mem) < s.l.Limit() && !RecordBelow(s)
    ensures RecordByte(s.l, FreeSlot(BookOf(s)), Boundary(BookOf(s)))
    ensures Covered(s.recordInfo, Boundary(BookOf(s)))
  {
    HealthyUsable(s);
    hide BitsIn, CountOf, OffsetOf, Formatted, FreeSlot, Sound, Layout.Limit, Layout.FlagLen, Covered, Lengths, Usable;
    var b, k := BookOf(s), FreeSlot(BookOf(s));
    FreeSlotFound(b);
    SoundMeans(b, 0);
    if k > 0 {
      assert Uses(s.recordMap, k - 1);
    }
    SlotFits(s.l, k);
  }

  /** While the records are low, there is a clash exactly when the new record
      reaches the boundary; it then contains the first byte of a live block. */
  lemma ClashIff(s: Area, len: nat)
    requires Healthy(s) && Usable(s) && LowRecords(s) && len > 0 && CountOf(s.mem) < s.l.Limit()
    requires Choose(BookOf(s), len).Take?
    ensures NoClash(s, len) <==> RecordBelow(s)
  {
    HealthyCoherent(s);
    hide BitsIn, CountOf, OffsetOf, Formatted, FreeSlot, Choose, Healthy, Coherent, Usable, Clear;
    if RecordBelow(s) {
      BelowNoClash(s, len);
    } else {
      ReachesBoundary(s);
      ClashAt(s, Choose(BookOf(s), len).block, Boundary(BookOf(s)));
    }
  }

  /** While whole slots are written below the boundary, the records stay low. */
  lemma AllocKeepsLow(s: Area, len: nat)
    requires Coherent(s) && Usable(s) && LowRecords(s) && len > 0 && CountOf(s.mem) < s.l.Limit()
    requires Choose(BookOf(s), len).Take? && s.l.Slot(FreeSlot(BookOf(s)) + 1) <= Boundary(BookOf(s))
    ensures NoClash(s, len) && Sized(Alloc(s, len).0.mem, s.l) && LowRecords(Alloc(s, len).0)
  {
    hide BitsIn, CountOf, OffsetOf, Formatted, FreeSlot, Layout.Limit, Layout.FlagLen, Safe, Choose, Alloc, AllocBook, NoClash, Inside, Low;
    AllocLow(BookOf(s), len);
    BelowNoClash(s, len);
    AllocFollowsBook(s, len);
    AllocSameLayout(s, len);
  }

  lemma AllocSameLayout(s: Area, len: nat)
    requires Usable(s)
    ensures Alloc(s, len).0.l == s.l
  {
    hide AllocMem, Choose, Register;
  }

  lemma FreeKeepsLow(s: Area, a: nat)
    requires Coherent(s) && Usable(s) && LowRecords(s)
    ensures Sized(Free(s, a).mem, s.l) && LowRecords(Free(s, a))
  {
    CoherentUsable(s);
    FreeFollowsBook(s, a);
    hide BitsIn, CountOf, OffsetOf, Formatted, Layout.Limit, Layout.FlagLen, Safe, Usable, Free, FreeBook, IndexOf, Starts, Sorted;
    StartNotThere(s.recordInfo, a);
    FreeSameLayout(s, a);
    if a in Starts(s.recordInfo) && a in s.recordMap {
      FreeEffect(BookOf(s), a);
    } else {
      UnknownFree(s, a);
    }
  }

  lemma FreeSameLayout(s: Area, a: nat)
    requires Usable(s)
    ensures Free(s, a).l == s.l
  {
    hide FreeMem, FreeBook;
  }

  lemma UnknownFree(s: Area, a: nat)
    requires Usable(s) && (IndexOf(s.recordInfo, a) == |s.recordInfo| || a !in s.recordMap)
    ensures Free(s, a) == s
  {
  }

  lemma ClashAt(s: Area, block: Range, p: nat)
    requires Sized(s.mem, s.l) && RecordByte(s.l, FreeSlot(BookOf(s)), p) && Covered(s.recordInfo, p)
    ensures !Clear(s.l, FreeSlot(BookOf(s)), s.recordInfo + [block])
  {
    hide BitsIn, FreeSlot;
    var r :| r in s.recordInfo && Contains(r, p);
    assert r in s.recordInfo + [block];
  }

  // ----- clients' bytes -----

  lemma LowWrites(m: seq<byte>, l: Layout, p: nat, v: nat, k: nat, on: bool)
    requires Sized(m, l) && l.RecStart() <= p < l.total
    ensures SetOffset(m, v)[p] == m[p] && SetCount(m, v)[p] == m[p]
    ensures k < 8 * l.FlagLen() ==> SetBit(m, l, k, on)[p] == m[p]
  {
    hide Layout.Limit, ToBytes, OrBit, ClearBit;
  }

  lemma RecordWrite(m: seq<byte>, l: Layout, k: nat, r: Range, p: nat)
    requires Sized(m, l) && k < l.Limit() && p < l.total && !RecordByte(l, k, p)
    ensures SetRecord(m, l, k, r)[p] == m[p]
  {
    hide Layout.Limit, Layout.FlagLen, ToBytes;
  }

  lemma ZeroedAt(m: seq<byte>, r: Range, p: nat)
    requires r.End() <= |m| && p < |m|
    ensures Zeroed(m, r)[p] == if Contains(r, p) then 0 else m[p]
  {
  }

  /** Alloc changes only the block, the found record, and bytes below the records. */
  lemma AllocBytesKept(s: Area, c: Choice, p: nat)
    requires Usable(s) && c.Take? && c.block.End() <= s.l.total && s.l.RecStart() <= p < s.l.total
    ensures Contains(c.block, p) ==> AllocMem(s, c)[p] == 0
    ensures var k := FreeSlot(BookOf(s));
            !Contains(c.block, p) && !RecordByte(s.l, k, p) ==> AllocMem(s, c)[p] == s.mem[p]
  {
    hide CountOf, OffsetOf, BitsIn, Formatted, Layout.Limit, Layout.FlagLen, Layout.Slots, FreeSlot, SetOffset, SetBit, SetCount, SetRecord, Inside, Zeroed, Splice;
    var b := BookOf(s);
    var k := FreeSlot(b);
    var m0 := if c.offset != b.offset then SetOffset(s.mem, c.offset) else s.mem;
    LowWrites(s.mem, s.l, p, c.offset, 0, true);
    var m1 := if k < |b.bits| && !b.bits[k] then SetBit(m0, s.l, k, true) else m0;
    LowWrites(m0, s.l, p, 0, k, true);
    var n := (b.count + 1) % 65536;
    var m2 := if k < s.l.Limit() then SetCount(SetRecord(m1, s.l, k, c.block), n) else m1;
    if k < s.l.Limit() && !RecordByte(s.l, k, p) {
      RecordWrite(m1, s.l, k, c.block, p);
      LowWrites(SetRecord(m1, s.l, k, c.block), s.l, p, n, 0, true);
    }
    ZeroedAt(m2, c.block, p);
  }

  /** The block handed out is all zero, and without a clash no byte of another
      live block changed. */
  lemma AllocRespectsClients(s: Area, len: nat, p: nat)
    requires Coherent(s) && Usable(s) && Alloc(s, len).1.Some? && len > 0
    ensures Choose(BookOf(s), len).Take?
    ensures Contains(Range(Alloc(s, len).1.value, len), p) ==> p < s.l.total && Alloc(s, len).0.mem[p] == 0
    ensures NoClash(s, len) && Covered(s.recordInfo, p) ==> p < s.l.total && Alloc(s, len).0.mem[p] == s.mem[p]
  {
    CoherentUsable(s);
    ChosenInside(s, len);
    TookSomething(s, len);
    BlockGiven(s, len);
    hide BitsIn, CountOf, OffsetOf, Formatted, FreeSlot, AllocMem, Layout.Limit, Layout.FlagLen, Usable, Choose, Alloc, Safe;
    var b, c := BookOf(s), Choose(BookOf(s), len);
    ChosenAway(b, len);
    if s.l.RecStart() <= p < s.l.total {
      AllocBytesKept(s, c, p);
      if Covered(s.recordInfo, p) {
        var r :| r in s.recordInfo && Contains(r, p);
        assert Off(c.block, r);
        assert r in s.recordInfo + [c.block];
        assert Covered(s.recordInfo + [c.block], p);
      }
    }
  }

  lemma BlockGiven(s: Area, len: nat)
    requires Usable(s) && Alloc(s, len).1.Some?
    ensures Choose(BookOf(s), len).Take? && Choose(BookOf(s), len).block == Range(Alloc(s, len).1.value, len)
    ensures Choose(BookOf(s), len).block.End() <= s.l.total && Alloc(s, len).0.mem == AllocMem(s, Choose(BookOf(s), len))
  {
    ChosenInside(s, len);
    hide BitsIn, CountOf, OffsetOf, Formatted, AllocMem, Layout.Limit, Layout.FlagLen, ScanUsed, Insert, Erase, Register;
  }

  lemma FreeRespectsClients(s: Area, a: nat, p: nat)
    requires Usable(s) && s.l.RecStart() <= p < s.l.total
    ensures |Free(s, a).mem| == |s.mem| && Free(s, a).mem[p] == s.mem[p]
  {
    hide CountOf, OffsetOf, BitsIn, Formatted, Layout.Limit, ToBytes, OrBit, ClearBit, FreeBook;
  }

  lemma FreeRecords(s: Area, a: nat, k: nat)
    requires Usable(s) && k < s.l.Limit()
    ensures Sized(Free(s, a).mem, s.l) && RecordAt(Free(s, a).mem, s.l, k) == RecordAt(s.mem, s.l, k)
  {
    hide FromBytes, FreeMem, FreeBook, IndexOf;
    SlotFits(s.l, k);
    var n, p := Free(s, a), s.l.Slot(k);
    forall q | s.l.RecStart() <= q < s.l.total ensures |n.mem| == |s.mem| && n.mem[q] == s.mem[q] {
      FreeRespectsClients(s, a, q);
    }
    assert |n.mem| == |s.mem| by { FreeRespectsClients(s, a, p); }
    assert n.mem[p..p + s.l.ptr] == s.mem[p..p + s.l.ptr];
    assert n.mem[p + s.l.ptr..p + s.l.ptr + 4] == s.mem[p + s.l.ptr..p + s.l.ptr + 4];
  }

  lemma ClearFewer(l: Layout, k: nat, rs: seq<Range>, n: seq<Range>)
    requires Clear(l, k, rs) && forall x :: x in n ==> x in rs
    ensures Clear(l, k, n)
  {
    forall p: nat | RecordByte(l, k, p) ensures !Covered(n, p) {
      assert !Covered(rs, p);
    }
  }

  lemma FreeImage(s: Area, a: nat)
    requires Coherent(s) && Usable(s) && Image(s)
    ensures Coherent(Free(s, a)) && Usable(Free(s, a)) && Image(Free(s, a))
  {
    CoherentUsable(s);
    FreeCoherent(s, a);
    CoherentUsable(Free(s, a));
    hide BitsIn, CountOf, OffsetOf, Formatted, RecordAt, FreeMem, FreeBook, Layout.Limit, Layout.FlagLen, Covered, Sorted, IndexOf, Clear, Coherent, Inside;
    var n, b := Free(s, a), BookOf(s);
    StartNotThere(s.recordInfo, a);
    if a in Starts(s.recordInfo) && a in s.recordMap {
      FreeEffect(b, a);
      forall x | x in n.recordMap
        ensures var k := n.recordMap[x];
                && RecordAt(n.mem, n.l, k).start == x && RecordAt(n.mem, n.l, k) in n.recordInfo
                && Clear(n.l, k, n.recordInfo)
      {
        assert x in s.recordMap && x != a;
        FreeRecords(s, a, s.recordMap[x]);
        ClearFewer(s.l, s.recordMap[x], s.recordInfo, n.recordInfo);
      }
    }
  }

  lemma WriteImage(s: Area, p: nat, v: byte)
    requires Coherent(s) && Usable(s) && Image(s) && Covered(s.recordInfo, p)
    ensures p < |s.mem| && Coherent(ClientWrite(s, p, v)) && Usable(ClientWrite(s, p, v)) && Image(ClientWrite(s, p, v))
  {
    WriteCoherent(s, p, v);
    CoherentUsable(s);
    CoherentUsable(ClientWrite(s, p, v));
    hide BitsIn, CountOf, OffsetOf, Formatted, RecordAt, Layout.Limit, Layout.FlagLen, Splice, Covered, Coherent;
    var n := ClientWrite(s, p, v);
    forall a | a in s.recordMap ensures RecordAt(n.mem, n.l, s.recordMap[a]) == RecordAt(s.mem, s.l, s.recordMap[a]) {
      assert RecordByte(s.l, s.recordMap[a], p) ==> !Covered(s.recordInfo, p);
      RecordKept(s.mem, s.l, p, [v], s.recordMap[a]);
    }
  }
}
