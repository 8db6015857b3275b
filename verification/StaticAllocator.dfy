/** The allocator object: the same operations in place, on the caller's buffer. */
module StaticAllocator {
  import opened Bytes
  import opened Options
  import opened AreaTiles
  import opened AreaImage
  import opened AreaBook
  import opened StaticAlloc
  import opened AreaRecovery

  // ----- stores into a buffer -----

  method Store(m: array<byte>, p: nat, b: seq<byte>)
    requires p + |b| <= m.Length
    modifies m
    ensures m[..] == Splice(old(m[..]), p, b)
  {
    var i := 0;
    while i < |b|
      invariant i <= |b|
      invariant forall k :: 0 <= k < m.Length ==> m[k] == if p <= k < p + i then b[k - p] else old(m[k])
    {
      m[p + i] := b[i];
      i := i + 1;
    }
    assert m[..] == Splice(old(m[..]), p, b);
  }

  method FillZero(m: array<byte>, r: Range)
    requires r.End() <= m.Length
    modifies m
    ensures m[..] == Zeroed(old(m[..]), r)
  {
    var i := 0;
    while i < r.len
      invariant i <= r.len
      invariant forall k :: 0 <= k < m.Length ==> m[k] == if r.start <= k < r.start + i then 0 else old(m[k])
    {
      m[r.start + i] := 0;
      i := i + 1;
    }
    assert m[..] == Zeroed(old(m[..]), r);
  }

  // ----- loops over the flag bits -----

  /** One bit test of the source is one element of the bit sequence. */
  lemma FlagBit(m: seq<byte>, l: Layout, i: nat, j: nat)
    requires Sized(m, l) && i < l.FlagLen() && j < 8
    ensures HEADER + i < |m|
    ensures BitsIn(m, l)[8 * i + j] <==> m[HEADER + i] / Pow2(j) % 2 == 1
  {
    hide Bits, Pow2, Layout.Limit, Layout.FlagLen;
    LayoutFits(l);
    ByteOps(m[HEADER + i], j);
    assert (8 * i + j) / 8 == i && (8 * i + j) % 8 == j;
  }

  /** The scan for the highest used slot. */
  method FindUsed(m: array<byte>, l: Layout, count: nat) returns (index: nat)
    requires Sized(m[..], l)
    ensures index == ScanUsed(BitsIn(m[..], l), 0, 0, count)
  {
    hide Bits, Pow2, Layout.Limit, Layout.FlagLen, BitsIn, Layout.Valid;
    ghost var bits := BitsIn(m[..], l);
    index := 0;
    var i, seen, found := 0, 0, false;
    while i < l.FlagLen() && !found
      invariant i <= l.FlagLen()
      invariant if found then index == ScanUsed(bits, 0, 0, count)
                else index == LastIndex(8 * i) && ScanUsed(bits, 8 * i, seen, count) == ScanUsed(bits, 0, 0, count)
      decreases l.FlagLen() - i, !found
    {
      var j := 0;
      while j < 8 && !found
        invariant j <= 8
        invariant if found then index == ScanUsed(bits, 0, 0, count)
                  else index == LastIndex(8 * i + j) && ScanUsed(bits, 8 * i + j, seen, count) == ScanUsed(bits, 0, 0, count)
      {
        FlagBit(m[..], l, i, j);
        index := 8 * i + j;
        if m[HEADER + i] / Pow2(j) % 2 == 1 {
          seen := seen + 1;
          found := seen == count;
        }
        j := j + 1;
      }
      i := i + 1;
    }
  }

  /** The search for an unused slot; the bit found is set. */
  method TakeSlot(m: array<byte>, l: Layout) returns (index: nat)
    requires Sized(m[..], l)
    modifies m
    ensures var was := old(m[..]);
            var bits := BitsIn(was, l);
            && index == ScanFree(bits, 0)
            && m[..] == if index < |bits| && !bits[index] then SetBit(was, l, index, true) else was
  {
    hide Bits, Pow2, Layout.Limit, Layout.FlagLen, BitsIn, Layout.Valid, OrBit;
    ghost var was := m[..];
    ghost var bits := BitsIn(m[..], l);
    index := 0;
    var i, found := 0, false;
    while i < l.FlagLen() && !found
      invariant i <= l.FlagLen()
      invariant if found
                then index == ScanFree(bits, 0) && index < |bits| && !bits[index] && m[..] == SetBit(was, l, index, true)
                else index == LastIndex(8 * i) && ScanFree(bits, 8 * i) == ScanFree(bits, 0) && m[..] == was
      invariant !found ==> forall k :: 0 <= k < 8 * i ==> bits[k]
    {
      var j := 0;
      while j < 8 && !found
        invariant j <= 8
        invariant if found
                  then index == ScanFree(bits, 0) && index < |bits| && !bits[index] && m[..] == SetBit(was, l, index, true)
                  else index == LastIndex(8 * i + j) && ScanFree(bits, 8 * i + j) == ScanFree(bits, 0) && m[..] == was
        invariant !found ==> forall k :: 0 <= k < 8 * i + j ==> bits[k]
      {
        FlagBit(m[..], l, i, j);
        index := 8 * i + j;
        if m[HEADER + i] / Pow2(j) % 2 == 0 {
          found := true;
          SetFlag(m, l, index);
        }
        j := j + 1;
      }
      i := i + 1;
    }
  }

  method SetFlag(m: array<byte>, l: Layout, k: nat)
    requires Sized(m[..], l) && k < 8 * l.FlagLen()
    modifies m
    ensures m[..] == SetBit(old(m[..]), l, k, true)
  {
    LayoutFits(l);
    StoreBit(FlagsOf(m[..], l), k, true);
    Store(m, HEADER + k / 8, [OrBit(m[HEADER + k / 8], k % 8) as byte]);
  }

  method ResetFlag(m: array<byte>, l: Layout, k: nat)
    requires Sized(m[..], l) && k < 8 * l.FlagLen()
    modifies m
    ensures m[..] == SetBit(old(m[..]), l, k, false)
  {
    LayoutFits(l);
    StoreBit(FlagsOf(m[..], l), k, false);
    Store(m, HEADER + k / 8, [ClearBit(m[HEADER + k / 8], k % 8) as byte]);
  }

  // ----- loops over the ordered maps -----

  method FindFit(rs: seq<Range>, len: nat) returns (i: nat)
    ensures i == FirstFit(rs, len)
  {
    i := 0;
    while i < |rs| && rs[i].len < len
      invariant i <= |rs|
      invariant forall j :: 0 <= j < i ==> rs[j].len < len
    {
      i := i + 1;
    }
  }

  /** The sweep that merges ranges that touch, with the previous entry kept. */
  method Sweep(all: seq<Range>) returns (rs: seq<Range>)
    ensures rs == Coalesce(all)
  {
    hide Coalesce;
    rs := all;
    var it := 0;
    SweepStart(all);
    while it < |rs|
      invariant it <= |rs|
      invariant Swept(rs, it) == Coalesce(all)
      decreases |rs| - it
    {
      SweepStep(rs, it);
      if it == 0 {
        it := 1;
      } else if rs[it - 1].End() == rs[it].start {
        rs := MergeAt(rs, it);
      } else {
        it := it + 1;
      }
    }
    SweepEnd(rs);
  }

  function MergeAt(rs: seq<Range>, it: nat): (r: seq<Range>)
    requires 0 < it < |rs|
    ensures |r| == |rs| - 1
  {
    rs[..it - 1] + [Range(rs[it - 1].start, rs[it - 1].len + rs[it].len)] + rs[it + 1..]
  }

  /** Entries before the previous one are final. */
  function Swept(rs: seq<Range>, it: nat): seq<Range>
    requires it <= |rs|
  {
    if it == 0 then Coalesce(rs) else rs[..it - 1] + Coalesce(rs[it - 1..])
  }

  lemma SweepStart(rs: seq<Range>)
    ensures Swept(rs, 0) == Coalesce(rs)
  {
  }

  lemma SweepEnd(rs: seq<Range>)
    ensures Swept(rs, |rs|) == rs
  {
  }

  lemma SweepStep(rs: seq<Range>, it: nat)
    requires it < |rs|
    ensures it == 0 ==> Swept(rs, 1) == Swept(rs, 0)
    ensures it > 0 && rs[it - 1].End() == rs[it].start ==> Swept(MergeAt(rs, it), it) == Swept(rs, it)
    ensures it > 0 && rs[it - 1].End() != rs[it].start ==> Swept(rs, it + 1) == Swept(rs, it)
  {
    if it == 0 {
      assert rs[..0] == [] && rs[0..] == rs;
    } else {
      var t := rs[it - 1..];
      if rs[it - 1].End() == rs[it].start {
        var n := MergeAt(rs, it);
        assert t[2..] == rs[it + 1..];
        assert n[..it - 1] == rs[..it - 1];
        assert n[it - 1..] == [Range(t[0].start, t[0].len + t[1].len)] + t[2..];
      } else {
        assert t[1..] == rs[it..];
        assert rs[..it] == rs[..it - 1] + [t[0]];
        assert rs[..it - 1] + ([t[0]] + Coalesce(t[1..])) == (rs[..it - 1] + [t[0]]) + Coalesce(t[1..]);
      }
    }
  }

  /** Every start in the ordered map is below p, so an entry at p goes last. */
  lemma InsertLast(rs: seq<Range>, r: Range)
    requires forall x :: x in rs ==> x.start < r.start
    ensures Insert(rs, r) == rs + [r]
  {
    InsertMiddle(rs, r, []);
    assert rs + [] == rs && rs + [r] + [] == rs + [r];
  }

  lemma SetRecordKeepsCount(m: seq<byte>, l: Layout, k: nat, r: Range)
    requires Sized(m, l) && k < l.Limit()
    ensures CountOf(SetRecord(m, l, k, r)) == CountOf(m)
  {
    hide FromBytes, ToBytes, Layout.Limit, Layout.FlagLen, Splice, BitsIn;
    SlotFits(l, k);
    HighWrite(m, l, l.Slot(k), ToBytes(r.start, l.ptr) + ToBytes(r.len, 4));
  }

  /** The image between the stages of Alloc still says the same otherwise. */
  lemma OffsetStage(s: Area, off: nat)
    requires Usable(s) && off < 0x1_0000_0000
    ensures var m := SetOffset(s.mem, off);
            Sized(m, s.l) && Formatted(m, s.l) && BitsIn(m, s.l) == BitsIn(s.mem, s.l) && CountOf(m) == CountOf(s.mem)
  {
    hide SetOffset, BitsIn, CountOf, OffsetOf, Formatted;
    var b := BookOf(s);
    ReadsSet(s.mem, s.l, b.bits, b.count, b.offset);
  }

  lemma BitStage(m: seq<byte>, l: Layout, k: nat)
    requires Sized(m, l) && Formatted(m, l)
    ensures k < 8 * l.FlagLen() ==>
              && Formatted(SetBit(m, l, k, true), l) && CountOf(SetBit(m, l, k, true)) == CountOf(m)
  {
    hide SetBit, BitsIn, CountOf, OffsetOf, Formatted, Layout.FlagLen;
    ReadsSet(m, l, BitsIn(m, l), CountOf(m), OffsetOf(m));
  }

  lemma FreeStages(m: seq<byte>, l: Layout, k: nat)
    requires Sized(m, l) && Formatted(m, l) && k < 8 * l.FlagLen()
    ensures var n := SetBit(m, l, k, false);
            && CountOf(n) == CountOf(m)
            && forall v :: 0 <= v < 65536 ==> OffsetOf(SetCount(n, v)) == OffsetOf(m)
  {
    hide SetBit, SetCount, BitsIn, CountOf, OffsetOf, Formatted, Layout.FlagLen;
    ReadsSet(m, l, BitsIn(m, l), CountOf(m), OffsetOf(m));
    var n := SetBit(m, l, k, false);
    ReadsSet(n, l, BitsIn(n, l), CountOf(n), OffsetOf(n));
  }

  lemma SameOffset(m: seq<byte>)
    requires |m| >= HEADER
    ensures SetOffset(m, OffsetOf(m)) == m
  {
    RoundTripBack(m[20..24]);
  }

  /** The header stores of format, one after the other. */
  lemma HeaderStores(l: Layout, m: seq<byte>)
    requires l.Valid() && |m| == l.total && forall i :: 0 <= i < |m| ==> m[i] == 0
    ensures var m1 := Splice(Splice(m, 0, SYMBOL), 12, ToBytes(l.FlagLen(), 4));
            var m2 := Splice(Splice(m1, 16, ToBytes(l.Slots(l.Limit()), 4)), 20, ToBytes(0, 4));
            Splice(Splice(m2, 8, ToBytes(0, 2)), 10, ToBytes(l.Limit(), 2)) == FormatMem(l)
  {
    hide ToBytes, Layout.Limit, Layout.FlagLen;
  }

  method WriteHeader(m: array<byte>, l: Layout, limit: nat, flagLen: nat, recordLen: nat)
    requires l.Valid() && m.Length == l.total
    requires limit == l.Limit() && flagLen == l.FlagLen() && recordLen == l.Slots(limit)
    modifies m
    ensures m[..] == FormatMem(l)
  {
    hide Splice, ToBytes, FormatMem, Layout.Limit, Layout.FlagLen;
    FillZero(m, Range(0, m.Length));
    HeaderStores(l, m[..]);
    Store(m, 0, SYMBOL);
    Store(m, 12, ToBytes(flagLen, 4));
    Store(m, 16, ToBytes(recordLen, 4));
    Store(m, 20, ToBytes(0, 4));
    Store(m, 8, ToBytes(0, 2));
    Store(m, 10, ToBytes(limit, 2));
  }

  method WriteRecord(m: array<byte>, l: Layout, p: nat, k: nat, r: Range)
    requires Sized(m[..], l) && k < l.Limit() && p == l.Slot(k)
    modifies m
    ensures m[..] == SetRecord(old(m[..]), l, k, r)
  {
    hide Layout.Limit, Layout.FlagLen, ToBytes, Splice;
    SlotFits(l, k);
    Store(m, p, ToBytes(r.start, l.ptr) + ToBytes(r.len, 4));
  }

  /** Insertion of a range behind all others, if it is not empty. */
  method AddRange(rs: seq<Range>, p: nat, q: nat) returns (n: seq<Range>)
    requires p <= q && forall x :: x in rs ==> x.start < p
    ensures n == rs + Gap(p, q)
    ensures forall x :: x in n ==> x.start < q
  {
    n := rs;
    if q - p != 0 {
      InsertLast(rs, Range(p, q - p));
      n := Insert(n, Range(p, q - p));
    } else {
      assert rs + [] == rs;
    }
  }

  lemma GapsStep(rs: seq<Range>, end: nat, info: seq<Range>, it: nat, total: nat)
    requires 0 < it < |info|
    ensures it == |info| - 1 ==>
              rs + GapsAfter(end, info[it..], total)
              == (rs + Gap(info[it].End(), total)) + GapsAfter(info[it].End(), info[it + 1..], total)
    ensures it < |info| - 1 ==>
              rs + GapsAfter(end, info[it..], total)
              == (rs + Gap(end, info[it].start)) + GapsAfter(info[it].End(), info[it + 1..], total)
  {
    var rest, g, h := info[it..], Gap(end, info[it].start), GapsAfter(info[it].End(), info[it + 1..], total);
    assert rest[1..] == info[it + 1..];
    assert rs + (g + h) == (rs + g) + h;
  }

  method RebuildRanges(info: seq<Range>, l: Layout, start: nat) returns (rs: seq<Range>)
    requires start <= l.total && Sorted(info) && Inside(l, info)
    ensures rs == Rebuilt(info, start, l.total)
  {
    hide Insert, Layout.Limit, Layout.FlagLen, Layout.RecStart, Gap, GapsAfter;
    rs := [];
    if info == [] {
      rs := Insert(rs, Range(start, l.total - start));
      InsertLast([], Range(start, l.total - start));
    } else {
      if info[0].start > start {
        rs := AddRange(rs, start, info[0].start);
      } else {
        EmptyGap(start, info[0].start);
      }
      rs := AddRest(rs, info, l);
    }
  }

  /** The loop from the second record on. */
  method AddRest(before: seq<Range>, info: seq<Range>, l: Layout) returns (rs: seq<Range>)
    requires info != [] && Sorted(info) && Inside(l, info)
    requires forall x :: x in before ==> x.start < info[0].End()
    ensures rs == before + GapsAfter(info[0].End(), info[1..], l.total)
  {
    hide Insert, Layout.Limit, Layout.FlagLen, Layout.RecStart, Gap, GapsAfter, Sorted, Inside;
    rs := before;
    var it, end := 1, info[0].End();
    while it < |info|
      invariant 0 < it <= |info|
      invariant it < |info| ==> end == info[it - 1].End() && forall x :: x in rs ==> x.start < end
      invariant rs + GapsAfter(end, info[it..], l.total) == before + GapsAfter(info[0].End(), info[1..], l.total)
    {
      Neighbours(info, l, it);
      GapsStep(rs, end, info, it, l.total);
      if it == |info| - 1 {
        rs := AddRange(rs, info[it].End(), l.total);
      } else {
        rs := AddRange(rs, end, info[it].start);
      }
      end := info[it].End();
      it := it + 1;
    }
    NoGapsLeft(end, l.total);
    assert info[it..] == [];
    assert rs + [] == rs;
  }

  lemma Neighbours(info: seq<Range>, l: Layout, it: nat)
    requires Sorted(info) && Inside(l, info) && 0 < it < |info|
    ensures info[it - 1].End() <= info[it].start && info[it].End() <= l.total
  {
    assert info[it] in info;
  }

  lemma EmptyGap(p: nat, q: nat)
    requires q <= p
    ensures Gap(p, q) == []
  {
  }

  lemma NoGapsLeft(end: nat, total: nat)
    ensures GapsAfter(end, [], total) == []
  {
  }

  class XStaticAlloc {
    const ptr: nat
    var begin: array?<byte>
    var recordStart: nat
    var start: nat
    var recordMap: map<nat, nat>
    var recordInfo: seq<Range>
    var rangeSet: seq<Range>

    ghost function View(): Area
      reads this, begin
      requires begin != null
    {
      Area(Layout(ptr, begin.Length), begin[..], recordMap, recordInfo, rangeSet)
    }

    ghost predicate Valid()
      reads this, begin
    {
      && begin != null && Usable(View())
      && recordStart == View().l.RecStart() && start == View().l.Start()
    }

    constructor (pointerSize: nat)
      ensures begin == null && ptr == pointerSize
      ensures recordMap == map[] && recordInfo == [] && rangeSet == []
    {
      ptr := pointerSize;
      begin, recordStart, start := null, 0, 0;
      recordMap, recordInfo, rangeSet := map[], [], [];
    }

    /** -1: refused, 0: formatted, 1: loaded. */
    method Init(buffer: array?<byte>) returns (ret: int)
      requires buffer != null && buffer.Length > 0 && begin == null ==>
                 var l := Layout(ptr, buffer.Length);
                 l.Valid() && (buffer[0..8] == SYMBOL ==> Loadable(l, buffer[..]))
      modifies this, buffer
      ensures ret == -1 <==> buffer == null || buffer.Length == 0 || old(begin) != null
      ensures ret == -1 ==> unchanged(this) && (buffer != null ==> buffer[..] == old(buffer[..]))
      ensures ret != -1 ==> begin == buffer && Valid()
      ensures ret == 0 ==> old(buffer[0..8]) != SYMBOL && View() == Format(Layout(ptr, buffer.Length))
      ensures ret == 1 ==> old(buffer[0..8]) == SYMBOL && Loadable(Layout(ptr, buffer.Length), old(buffer[..]))
      ensures ret == 1 ==> View() == Load(Layout(ptr, buffer.Length), old(buffer[..]))
      ensures ret == -1 || ret == 0 || ret == 1
    {
      ret := -1;
      if buffer == null || buffer.Length == 0 || begin != null {
        return;
      }
      begin := buffer;
      recordMap, recordInfo, rangeSet := map[], [], [];
      if buffer[0..8] != SYMBOL {
        ret := 0;
        FormatBlockArea();
      } else {
        ret := 1;
        assert buffer[..][0..8] == buffer[0..8];
        LoadBlockArea();
      }
    }

    method FormatBlockArea()
      requires begin != null && Layout(ptr, begin.Length).Valid()
      requires recordMap == map[] && recordInfo == [] && rangeSet == []
      modifies this, begin
      ensures begin == old(begin) && Valid() && View() == Format(Layout(ptr, begin.Length))
    {
      hide FormatMem, Usable, Layout.Limit, Layout.FlagLen, Layout.Slots;
      var l := Layout(ptr, begin.Length);
      LayoutFits(l);
      var limit, flagLen := l.Limit(), l.FlagLen();
      var recordLen := l.Slots(limit);
      WriteHeader(begin, l, limit, flagLen, recordLen);
      recordStart := HEADER + flagLen;
      start := recordStart + recordLen;
      rangeSet := [Range(start, begin.Length - start)];
      FormatUsable(l);
    }

    method LoadBlockArea()
      requires begin != null && Loadable(Layout(ptr, begin.Length), begin[..])
      requires recordMap == map[] && recordInfo == [] && rangeSet == []
      modifies this
      ensures begin == old(begin) && Valid() && View() == Load(Layout(ptr, begin.Length), old(begin[..]))
    {
      hide Formatted, BitsIn, RecordAt, Layout.Limit, Layout.FlagLen, Insert, MapInsert, Pow2, Rebuilt, Usable, Inside, Sorted, OffsetOf;
      var l := Layout(ptr, begin.Length);
      LoadUsable(l, begin[..]);
      LayoutFits(l);
      recordStart := HEADER + l.FlagLen();
      start := recordStart + l.Slots(l.Limit());
      var i := 0;
      while i < l.FlagLen()
        invariant i <= l.FlagLen() && begin == old(begin) && rangeSet == []
        invariant recordStart == l.RecStart() && start == l.Start()
        invariant (recordMap, recordInfo) == LoadedTo(begin[..], l, 8 * i)
      {
        var j := 0;
        while j < 8
          invariant j <= 8 && begin == old(begin) && rangeSet == []
          invariant recordStart == l.RecStart() && start == l.Start()
          invariant (recordMap, recordInfo) == LoadedTo(begin[..], l, 8 * i + j)
        {
          FlagBit(begin[..], l, i, j);
          if begin[HEADER + i] / Pow2(j) % 2 == 1 {
            var r := RecordAt(begin[..], l, 8 * i + j);
            recordMap := MapInsert(recordMap, r.start, 8 * i + j);
            recordInfo := Insert(recordInfo, r);
          }
          j := j + 1;
        }
        i := i + 1;
      }
      rangeSet := RebuildRanges(recordInfo, l, start);
    }

    method Refresh()
      requires Valid() && Loadable(View().l, View().mem)
      modifies this
      ensures begin == old(begin) && Valid() && View() == Load(old(View().l), old(View().mem))
    {
      recordMap, recordInfo, rangeSet := map[], [], [];
      LoadBlockArea();
    }

    /** The largest number of blocks for which records, flag bits and a byte each
        fit behind the header. */
    method GetMgrBlockCountLimit() returns (n: int)
      requires begin != null ==> Valid()
      ensures begin == null ==> n == -1
      ensures begin != null ==> n == View().l.Limit() && forall m: nat :: RoomFor(View().l, m) <==> m <= n
    {
      n := if begin != null then LimitOf(begin[..]) else -1;
      if begin != null {
        forall m: nat ensures RoomFor(View().l, m) <==> m <= n {
          LimitIsLargest(View().l, m);
        }
      }
    }

    /** The stored count; in a healthy area the number of live blocks. */
    method GetUseCount() returns (n: int)
      requires begin != null ==> Valid()
      ensures begin == null ==> n == -1
      ensures begin != null ==> n == CountOf(begin[..]) && (Healthy(View()) ==> n == |recordInfo|)
    {
      n := if begin != null then CountOf(begin[..]) else -1;
      if begin != null && Healthy(View()) {
        HealthyUsable(View());
      }
    }

    /** In a healthy area, the bytes of all live blocks and all free ranges. */
    method GetNormalAvailableSize() returns (n: int)
      requires Valid()
      ensures n == begin.Length - start + OffsetOf(begin[..])
      ensures Healthy(View()) ==> n == Lengths(recordInfo) + Lengths(rangeSet)
    {
      n := begin.Length - start + OffsetOf(begin[..]);
      if Healthy(View()) {
        SoundMeans(BookOf(View()), 0);
      }
    }

    /** First fit, else a squeeze. */
    method ChooseBlock(len: nat) returns (ok: bool, block: Range)
      requires Valid()
      modifies this`rangeSet, begin
      ensures begin == old(begin)
      ensures var c := Choose(BookOf(old(View())), len);
              && ok == c.Take?
              && rangeSet == (if ok then c.rangeSet else old(rangeSet))
              && (ok ==> block == c.block)
              && begin[..] == (if ok && c.offset != OffsetOf(old(begin[..])) then SetOffset(old(begin[..]), c.offset) else old(begin[..]))
    {
      hide Formatted, Layout.Limit, Layout.FlagLen, BitsIn, CountOf, OffsetOf, FirstFit, ScanUsed, Insert;
      ok, block := true, Range(0, len);
      var i := FindFit(rangeSet, len);
      if i < |rangeSet| {
        var r := rangeSet[i];
        block := Range(r.start, len);
        rangeSet := Erase(rangeSet, i);
        if r.len - len > 0 {
          rangeSet := Insert(rangeSet, Range(r.start + len, r.len - len));
        }
      } else {
        var l := Layout(ptr, begin.Length);
        var index := FindUsed(begin, l, CountOf(begin[..]));
        var extBegin := l.Slot(index + 2);
        var end := start - OffsetOf(begin[..]);
        if end - extBegin < len {
          ok := false;
        } else {
          block := Range(end - len, len);
          SameOffset(begin[..]);
          Store(begin, 20, ToBytes(start - block.start, 4));
        }
      }
    }

    /** Record, slot map, length map and count for a block in slot k, if the
        record array has that slot. */
    method RecordBlock(block: Range, k: nat)
      requires begin != null && Sized(begin[..], Layout(ptr, begin.Length)) && Formatted(begin[..], Layout(ptr, begin.Length))
      requires recordStart == Layout(ptr, begin.Length).RecStart()
      modifies this`recordMap, this`recordInfo, begin
      ensures begin == old(begin)
      ensures var l, m := Layout(ptr, begin.Length), old(begin[..]);
              if k < l.Limit()
              then && begin[..] == SetCount(SetRecord(m, l, k, block), (CountOf(m) + 1) % 65536)
                   && recordMap == MapInsert(old(recordMap), block.start, k)
                   && recordInfo == Insert(old(recordInfo), block)
              else begin[..] == m && recordMap == old(recordMap) && recordInfo == old(recordInfo)
    {
      hide Layout.Limit, Layout.FlagLen, FromBytes, ToBytes, Insert, MapInsert, CountOf, SetRecord;
      var l := Layout(ptr, begin.Length);
      if k < LimitOf(begin[..]) {
        SetRecordKeepsCount(begin[..], l, k, block);
        WriteRecord(begin, l, recordStart + l.Slots(k), k, block);
        recordMap := MapInsert(recordMap, block.start, k);
        recordInfo := Insert(recordInfo, block);
        Store(begin, 8, ToBytes((CountOf(begin[..]) + 1) % 65536, 2));
      }
    }

    method Alloc(len: nat) returns (p: Option<nat>)
      requires Valid()
      modifies this, begin
      ensures begin == old(begin) && Valid()
      ensures View() == StaticAlloc.Alloc(old(View()), len).0 && p == StaticAlloc.Alloc(old(View()), len).1
    {
      hide Formatted, Layout.Limit, Layout.FlagLen, BitsIn, CountOf, OffsetOf, SetBit, SetRecord, SetCount, SetOffset, Zeroed, Choose, Insert, MapInsert, ScanFree, Inside;
      ghost var s := View();
      AllocUsable(s, len);
      var l := Layout(ptr, begin.Length);
      var ok, block := ChooseBlock(len);
      if !ok {
        return None;
      }
      ghost var c := Choose(BookOf(s), len);
      ChosenInside(s, len);
      ghost var m0 := begin[..];
      OffsetStage(s, c.offset);
      var k := TakeSlot(begin, l);
      ghost var m1 := begin[..];
      BitStage(m0, l, k);
      RecordBlock(block, k);
      FillZero(begin, block);
      assert begin[..] == AllocMem(s, c);
      p := Some(block.start);
    }

    /** A free range at the squeeze boundary is given back to the record array. */
    method CorrectOffset()
      requires begin != null && begin.Length >= HEADER
      modifies this`rangeSet, begin
      ensures begin == old(begin)
      ensures var (rs, off) := TrimRanges(old(rangeSet), OffsetOf(old(begin[..])), start);
              && rangeSet == rs
              && begin[..] == if off != OffsetOf(old(begin[..])) then SetOffset(old(begin[..]), off) else old(begin[..])
    {
      hide Insert, OffsetOf;
      SameOffset(begin[..]);
      var offset := OffsetOf(begin[..]);
      if |rangeSet| > 0 && offset > 0 {
        var first := rangeSet[0];
        if first.start == start - offset {
          if first.len <= offset {
            Store(begin, 20, ToBytes(offset - first.len, 4));
            rangeSet := rangeSet[1..];
          } else {
            rangeSet := Insert(rangeSet[1..], Range(start, first.len - offset));
            Store(begin, 20, ToBytes(0, 4));
          }
        }
      }
    }

    method Free(a: nat)
      requires Valid()
      modifies this, begin
      ensures begin == old(begin) && Valid() && View() == StaticAlloc.Free(old(View()), a)
    {
      hide Formatted, Layout.Limit, Layout.FlagLen, BitsIn, CountOf, OffsetOf, SetBit, Coalesce, Insert, Inside, IndexOf, TrimRanges, SetOffset;
      ghost var s := View();
      FreeUsable(s, a);
      var l := Layout(ptr, begin.Length);
      var i := IndexOf(recordInfo, a);
      if i == |recordInfo| || a !in recordMap {
        return;
      }
      var k := recordMap[a];
      LayoutFits(l);
      FreeStages(s.mem, l, k);
      ResetFlag(begin, l, k);
      var block := recordInfo[i];
      recordInfo := Erase(recordInfo, i);
      recordMap := recordMap - {a};
      Store(begin, 8, ToBytes((CountOf(begin[..]) + 65535) % 65536, 2));
      rangeSet := Sweep(Insert(rangeSet, block));
      CorrectOffset();
    }
  }
}
