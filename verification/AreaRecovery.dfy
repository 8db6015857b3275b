/** Format, load and whole runs: what a process that opens the area later finds. */
module AreaRecovery {
  import opened Bytes
  import opened Counting
  import opened Options
  import opened AreaTiles
  import opened AreaImage
  import opened AreaBook
  import opened AreaSafety
  import opened StaticAlloc

  // ----- format -----

  function FormatMem(l: Layout): (m: seq<byte>)
    requires l.Valid()
    ensures |m| == l.total
  {
    SYMBOL + ToBytes(0, 2) + ToBytes(l.Limit(), 2) + ToBytes(l.FlagLen(), 4) + ToBytes(l.Slots(l.Limit()), 4)
    + ToBytes(0, 4) + seq(l.total - HEADER, _ => 0)
  }

  function Format(l: Layout): Area
    requires l.Valid()
  {
    LayoutFits(l);
    Area(l, FormatMem(l), map[], [], [Range(l.Start(), l.total - l.Start())])
  }

  function AllClear(n: nat): (r: seq<bool>)
    ensures |r| == n
  {
    seq(n, _ => false)
  }

  lemma {:induction false} ZeroBits(w: nat)
    ensures Bits(0, w) == AllClear(w)
  {
    if w > 0 {
      ZeroBits(w - 1);
    }
  }

  lemma FormatSlices(l: Layout)
    requires l.Valid()
    ensures var m := FormatMem(l);
            && m[0..8] == SYMBOL && m[8..10] == ToBytes(0, 2) && m[10..12] == ToBytes(l.Limit(), 2)
            && m[12..16] == ToBytes(l.FlagLen(), 4) && m[16..20] == ToBytes(l.Slots(l.Limit()), 4)
            && m[20..24] == ToBytes(0, 4)
            && forall i :: HEADER <= i < l.total ==> m[i] == 0
  {
    hide ToBytes, Layout.Limit, Layout.FlagLen, Layout.Slots;
  }

  lemma FormatBits(l: Layout)
    requires l.Valid()
    ensures BitsIn(FormatMem(l), l) == AllClear(8 * l.FlagLen())
  {
    hide ToBytes, FormatMem, Bits, Layout.Limit, Layout.FlagLen;
    LayoutFits(l);
    FormatSlices(l);
    ZeroBits(8);
  }

  lemma FormatReads(l: Layout)
    requires l.Valid()
    ensures Reads(FormatMem(l), l, AllClear(8 * l.FlagLen()), 0, 0)
  {
    hide ToBytes, FromBytes, BitsIn, FormatMem, Layout.Limit, Layout.FlagLen, Pow256;
    LayoutFits(l);
    FormatBits(l);
    FormatSlices(l);
    Pow256Values();
    RoundTrip2(0);
    RoundTrip2(l.Limit());
    RoundTrip(l.FlagLen(), 4);
    RoundTrip(l.Slots(l.Limit()), 4);
    RoundTrip(0, 4);
  }

  lemma FormatHealthy(l: Layout)
    requires l.Valid() && l.total > HEADER
    ensures Healthy(Format(l)) && Usable(Format(l)) && Image(Format(l)) && LowRecords(Format(l))
  {
    hide FormatMem, BitsIn, CountOf, OffsetOf, Formatted, Layout.Limit, Layout.FlagLen;
    LayoutFits(l);
    FormatReads(l);
    var b := BookOf(Format(l));
    var t := Tile(Range(l.Start(), l.total - l.Start()), false);
    ChainOne(t, l.Start());
    OnlyOne(t, true);
    OnlyOne(t, false);
    FreshAgrees(l, [t.range]);
    assert Books(b, [t]);
    HealthyUsable(Format(l));
  }

  lemma FreshAgrees(l: Layout, rs: seq<Range>)
    requires l.Valid()
    ensures SlotsAgree(Book(l, AllClear(8 * l.FlagLen()), 0, 0, map[], [], rs))
  {
    hide Layout.Limit, Layout.FlagLen;
    CountBound(AllClear(8 * l.FlagLen()), IsSet);
  }

  lemma HeaderNumbers(l: Layout)
    requires l.Valid() && l.total == HEADER
    ensures l.Limit() == 0 && l.FlagLen() == 0 && l.Start() == HEADER
  {
  }

  lemma HeaderBook(l: Layout)
    requires l.Valid() && l.total == HEADER
    ensures BookOf(Format(l)) == Book(l, AllClear(8 * l.FlagLen()), 0, 0, map[], [], [Range(HEADER, 0)])
  {
    hide FormatMem, BitsIn, CountOf, OffsetOf, Formatted, Layout.Limit, Layout.FlagLen;
    HeaderNumbers(l);
    FormatReads(l);
  }

  lemma HeaderRefuses(b: Book, len: nat)
    requires SlotsAgree(b) && b.count == 0 && b.rangeSet == [Range(HEADER, 0)] && len > 0
    ensures AllocBook(b, len).1.None?
  {
    hide SlotsAgree, AllocBook;
    AllocFailsIff(b, len, 0);
  }

  /** An area that is only a header serves no request at all. */
  lemma HeaderOnly(l: Layout, len: nat, a: nat)
    requires l.Valid() && l.total == HEADER && len > 0
    ensures Usable(Format(l))
    ensures Alloc(Format(l), len) == (Format(l), None) && Free(Format(l), a) == Format(l)
  {
    hide BookOf, AllocBook, Alloc, Free, Usable, SlotsAgree, FormatMem, Layout.Valid, Layout.FlagLen;
    FormatUsable(l);
    HeaderBook(l);
    FreshAgrees(l, [Range(HEADER, 0)]);
    HeaderRefuses(BookOf(Format(l)), len);
    AllocFollowsBook(Format(l), len);
    FailedAlloc(Format(l), len);
    UnknownFree(Format(l), a);
  }

  // ----- load -----

  /** No flag bit without a record slot. */
  predicate BitsBelowLimit(m: seq<byte>, l: Layout)
    requires Sized(m, l)
  {
    forall k :: l.Limit() <= k < 8 * l.FlagLen() ==> !BitsIn(m, l)[k]
  }

  /** The two record maps after the first k flag bits. */
  function LoadedTo(m: seq<byte>, l: Layout, k: nat): (map<nat, nat>, seq<Range>)
    requires Sized(m, l) && BitsBelowLimit(m, l) && k <= 8 * l.FlagLen()
  {
    if k == 0 then (map[], [])
    else
      var (index, info) := LoadedTo(m, l, k - 1);
      if BitsIn(m, l)[k - 1] then
        var r := RecordAt(m, l, k - 1);
        (MapInsert(index, r.start, k - 1), Insert(info, r))
      else (index, info)
  }

  function Gap(p: nat, q: nat): seq<Range> { if p < q then [Range(p, q - p)] else [] }

  /** The free ranges that load finds after the first record: a gap before each
      record but the last, and the tail behind the last. */
  function GapsAfter(end: nat, info: seq<Range>, total: nat): seq<Range>
    decreases |info|
  {
    if info == [] then []
    else if |info| == 1 then Gap(info[0].End(), total)
    else Gap(end, info[0].start) + GapsAfter(info[0].End(), info[1..], total)
  }

  function Rebuilt(info: seq<Range>, start: nat, total: nat): seq<Range>
    requires start <= total
  {
    if info == [] then [Range(start, total - start)]
    else Gap(start, info[0].start) + GapsAfter(info[0].End(), info[1..], total)
  }

  function Load(l: Layout, m: seq<byte>): Area
    requires Sized(m, l) && Formatted(m, l) && BitsBelowLimit(m, l)
  {
    LayoutFits(l);
    var (index, info) := LoadedTo(m, l, 8 * l.FlagLen());
    Area(l, m, index, info, Rebuilt(info, l.Start(), l.total))
  }

  /** What load needs of an image: it is one that the allocator left. */
  predicate Loadable(l: Layout, m: seq<byte>) {
    && Sized(m, l) && Formatted(m, l) && BitsBelowLimit(m, l)
    && OffsetOf(m) <= l.Slots(l.Limit())
    && var info := LoadedTo(m, l, 8 * l.FlagLen()).1; Sorted(info) && Inside(l, info)
  }

  lemma {:induction false} LoadedIndex(m: seq<byte>, l: Layout, k: nat)
    requires Sized(m, l) && BitsBelowLimit(m, l) && k <= 8 * l.FlagLen()
    ensures forall a :: a in LoadedTo(m, l, k).0 ==> LoadedTo(m, l, k).0[a] < l.Limit()
    decreases k
  {
    hide BitsIn, RecordAt, Insert, Layout.Limit, Layout.FlagLen;
    if k > 0 {
      LoadedIndex(m, l, k - 1);
    }
  }

  lemma {:induction false} GapsInside(l: Layout, end: nat, info: seq<Range>)
    requires Inside(l, info) && l.RecStart() <= end
    ensures Inside(l, GapsAfter(end, info, l.total))
    decreases |info|
  {
    if info != [] {
      assert info[0] in info;
      GapsInside(l, info[0].End(), info[1..]);
    }
  }

  lemma LoadUsable(l: Layout, m: seq<byte>)
    requires Loadable(l, m)
    ensures Usable(Load(l, m))
  {
    hide BitsIn, CountOf, OffsetOf, Formatted, LoadedTo, Layout.Limit, Layout.FlagLen;
    LayoutFits(l);
    LoadedIndex(m, l, 8 * l.FlagLen());
    var info := Load(l, m).recordInfo;
    if info != [] {
      assert info[0] in info;
      GapsInside(l, info[0].End(), info[1..]);
    }
  }

  lemma FormatUsable(l: Layout)
    requires l.Valid()
    ensures Usable(Format(l))
  {
    hide FormatMem, BitsIn, CountOf, OffsetOf, Formatted, Layout.Limit, Layout.FlagLen;
    FormatReads(l);
    LayoutFits(l);
  }

  // ----- load recovers the records -----

  predicate StartSorted(rs: seq<Range>) {
    forall i, j :: 0 <= i < j < |rs| ==> rs[i].start < rs[j].start
  }

  lemma {:induction false} InsertSorted(rs: seq<Range>, r: Range)
    requires StartSorted(rs) && r.start !in Starts(rs)
    ensures StartSorted(Insert(rs, r))
    decreases |rs|
  {
    if rs != [] && r.start > rs[0].start {
      var t := rs[1..];
      assert forall x :: x in t ==> x in rs;
      InsertSorted(t, r);
      InsertNew(t, r);
      var n := Insert(t, r);
      assert forall j :: 0 <= j < |n| ==> n[j] in n;
      assert forall x :: x in t ==> rs[0].start < x.start;
      StartSortedCons(rs[0], n);
    } else if rs != [] {
      assert rs[0] in rs;
      StartSortedCons(r, rs);
    }
  }

  lemma StartSortedCons(r: Range, rs: seq<Range>)
    requires StartSorted(rs) && forall j :: 0 <= j < |rs| ==> r.start < rs[j].start
    ensures StartSorted([r] + rs)
  {
  }

  /** Ordered maps with the same entries are the same sequence. */
  lemma {:induction false} SameEntries(a: seq<Range>, b: seq<Range>)
    requires StartSorted(a) && StartSorted(b) && forall x :: x in a <==> x in b
    ensures a == b
    decreases |a|
  {
    if b != [] {
      assert b[0] in a;
    }
    if a != [] {
      assert a[0] in b;
      assert a[0] == b[0];
      assert forall x :: x in a[1..] <==> x in a && x != a[0];
      assert forall x :: x in b[1..] <==> x in b && x != b[0];
      SameEntries(a[1..], b[1..]);
    }
  }

  /** The entries of the blocks whose slots are below k, and no others. */
  ghost predicate KnownBelow(s: Area, k: nat, index: map<nat, nat>, info: seq<Range>) {
    && (forall a :: a in index <==> a in s.recordMap && s.recordMap[a] < k)
    && (forall a :: a in index ==> index[a] == s.recordMap[a])
    && StartSorted(info)
    && (forall r :: r in info <==> r in s.recordInfo && r.start in index)
  }

  /** What a flag bit says in an area whose image is intact. */
  lemma BitMeans(s: Area, k: nat)
    requires Coherent(s) && Usable(s) && Image(s) && k < 8 * s.l.FlagLen()
    ensures Injective(s.recordMap) && Sorted(s.recordInfo) && Positive(s.recordInfo)
    ensures if BitsIn(s.mem, s.l)[k]
            then k < s.l.Limit() && var r := RecordAt(s.mem, s.l, k);
                 r in s.recordInfo && r.start in s.recordMap && s.recordMap[r.start] == k
            else !Uses(s.recordMap, k)
  {
    CoherentUsable(s);
    hide BitsIn, CountOf, OffsetOf, Formatted, RecordAt, Layout.Limit, Layout.FlagLen, Covered, Sorted, Coherent, Clear;
    assert BookOf(s).bits[k] <==> Uses(s.recordMap, k);
  }

  lemma {:induction false} LoadedPrefix(s: Area, k: nat)
    requires Coherent(s) && Usable(s) && Image(s) && BitsBelowLimit(s.mem, s.l) && k <= 8 * s.l.FlagLen()
    ensures var (index, info) := LoadedTo(s.mem, s.l, k); KnownBelow(s, k, index, info)
    decreases k
  {
    hide Coherent, Formatted, Image, BitsIn, RecordAt, Layout.Limit, Layout.FlagLen, Insert, MapInsert, Sorted, Injective, Positive, Uses;
    if k > 0 {
      LoadedPrefix(s, k - 1);
      BitMeans(s, k - 1);
      var (index, info) := LoadedTo(s.mem, s.l, k - 1);
      hide KnownBelow;
      if BitsIn(s.mem, s.l)[k - 1] {
        KnowOneMore(s, k, index, info, RecordAt(s.mem, s.l, k - 1));
      } else {
        KnowNoMore(s, k, index, info);
      }
    }
  }

  lemma KnowNoMore(s: Area, k: nat, index: map<nat, nat>, info: seq<Range>)
    requires k > 0 && KnownBelow(s, k - 1, index, info) && !Uses(s.recordMap, k - 1)
    ensures KnownBelow(s, k, index, info)
  {
  }

  lemma KnowOneMore(s: Area, k: nat, index: map<nat, nat>, info: seq<Range>, r: Range)
    requires k > 0 && KnownBelow(s, k - 1, index, info) && Injective(s.recordMap)
    requires Sorted(s.recordInfo) && Positive(s.recordInfo)
    requires r in s.recordInfo && r.start in s.recordMap && s.recordMap[r.start] == k - 1
    ensures KnownBelow(s, k, MapInsert(index, r.start, k - 1), Insert(info, r))
  {
    hide Sorted, Positive, StartSorted, Insert;
    InsertSorted(info, r);
    InsertNew(info, r);
    forall x | x in s.recordInfo && x.start == r.start ensures x == r {
      SameStart(s.recordInfo, x, r);
    }
  }

  /** Knowing every slot is knowing both maps. */
  lemma KnowAll(s: Area, k: nat, index: map<nat, nat>, info: seq<Range>)
    requires KnownBelow(s, k, index, info) && Sorted(s.recordInfo) && Positive(s.recordInfo)
    requires forall a :: a in s.recordMap ==> s.recordMap[a] < k
    requires forall r :: r in s.recordInfo ==> r.start in s.recordMap
    ensures index == s.recordMap && info == s.recordInfo
  {
    assert forall i :: 0 <= i < |s.recordInfo| ==> s.recordInfo[i] in s.recordInfo;
    assert StartSorted(s.recordInfo);
    SameEntries(info, s.recordInfo);
  }

  /** Load recovers the live blocks and their slots exactly. */
  lemma LoadRecovers(s: Area)
    requires Coherent(s) && Usable(s) && Image(s)
    ensures BitsBelowLimit(s.mem, s.l) && Loadable(s.l, s.mem)
    ensures LoadedTo(s.mem, s.l, 8 * s.l.FlagLen()) == (s.recordMap, s.recordInfo)
    ensures Load(s.l, s.mem).recordMap == s.recordMap && Load(s.l, s.mem).recordInfo == s.recordInfo
  {
    CoherentUsable(s);
    hide BitsIn, CountOf, OffsetOf, Formatted, Image, Layout.Limit, Layout.FlagLen, LoadedTo, Covered, Sorted, Count, KnownBelow, Uses, Coherent, Inside;
    var b, n := BookOf(s), 8 * s.l.FlagLen();
    CountAtMostLimit(b);
    LoadedPrefix(s, n);
    var (index, info) := LoadedTo(s.mem, s.l, n);
    assert forall r :: r in s.recordInfo ==> r.start in s.recordMap;
    KnowAll(s, n, index, info);
  }

  // ----- recoverable: whatever clients write into their blocks -----

  /** What clients can have made of the memory by writing into live blocks. */
  ghost predicate Agrees(s: Area, m: seq<byte>) {
    |m| == |s.mem| && forall p: nat :: p < |m| && !Covered(s.recordInfo, p) ==> m[p] == s.mem[p]
  }

  /** Whatever they write, load returns the live blocks and their slots. */
  ghost predicate Recoverable(s: Area)
    requires Sized(s.mem, s.l)
  {
    forall m :: Agrees(s, m) ==>
      && Formatted(m, s.l) && BitsBelowLimit(m, s.l)
      && LoadedTo(m, s.l, 8 * s.l.FlagLen()) == (s.recordMap, s.recordInfo)
  }

  lemma AgreedSlice(s: Area, m: seq<byte>, x: nat, y: nat)
    requires Agrees(s, m) && x <= y <= |m| && forall p: nat :: x <= p < y ==> !Covered(s.recordInfo, p)
    ensures m[x..y] == s.mem[x..y]
  {
    forall i | 0 <= i < y - x ensures m[x..y][i] == s.mem[x..y][i] {
      assert !Covered(s.recordInfo, x + i);
    }
  }

  /** Header, flags and clear records are out of the clients' reach. */
  lemma AgreedCoherent(s: Area, m: seq<byte>)
    requires Coherent(s) && Usable(s) && Agrees(s, m)
    ensures Sized(m, s.l) && Formatted(m, s.l) && BookOf(s.(mem := m)) == BookOf(s)
  {
    CoherentUsable(s);
    hide Covered, FromBytes, BitsOf, Sorted;
    forall p: nat | p < s.l.RecStart() ensures !Covered(s.recordInfo, p) {
      NotBelow(s.recordInfo, Boundary(BookOf(s)), s.l.total, p);
    }
    AgreedSlice(s, m, 0, 8);
    AgreedSlice(s, m, 8, 10);
    AgreedSlice(s, m, 10, 20);
    AgreedSlice(s, m, 20, 24);
    AgreedSlice(s, m, HEADER, s.l.RecStart());
    FixedFields(s.mem, m, s.l);
  }

  lemma NotBelow(rs: seq<Range>, lo: int, hi: int, p: nat)
    requires Within(rs, lo, hi) && p < lo
    ensures !Covered(rs, p)
  {
  }

  lemma AgreedRecord(s: Area, m: seq<byte>, k: nat)
    requires Sized(s.mem, s.l) && Agrees(s, m) && k < s.l.Limit() && Clear(s.l, k, s.recordInfo)
    ensures RecordAt(m, s.l, k) == RecordAt(s.mem, s.l, k)
  {
    hide Covered, FromBytes;
    SlotFits(s.l, k);
    var p := s.l.Slot(k);
    assert forall q: nat :: p <= q < p + s.l.ptr + 4 ==> RecordByte(s.l, k, q);
    AgreedSlice(s, m, p, p + s.l.ptr);
    AgreedSlice(s, m, p + s.l.ptr, p + s.l.ptr + 4);
  }

  lemma ImageRecoverable(s: Area)
    requires Coherent(s) && Usable(s) && Image(s)
    ensures Recoverable(s)
  {
    hide BitsIn, CountOf, OffsetOf, Formatted, RecordAt, Layout.Limit, Layout.FlagLen, Clear, Agrees, LoadedTo, BitsBelowLimit;
    forall m | Agrees(s, m)
      ensures Sized(m, s.l) && Formatted(m, s.l) && BitsBelowLimit(m, s.l)
      ensures LoadedTo(m, s.l, 8 * s.l.FlagLen()) == (s.recordMap, s.recordInfo)
    {
      AgreedCoherent(s, m);
      var t := s.(mem := m);
      CoherentUsable(t);
      forall a | a in s.recordMap ensures RecordAt(m, s.l, s.recordMap[a]) == RecordAt(s.mem, s.l, s.recordMap[a]) {
        AgreedRecord(s, m, s.recordMap[a]);
      }
      assert Image(t);
      LoadRecovers(t);
    }
  }

  // ----- and only then -----

  /** What the loaded maps say about the records they came from. */
  ghost predicate FromRecords(m: seq<byte>, l: Layout, k: nat, index: map<nat, nat>, info: seq<Range>)
    requires Sized(m, l)
  {
    && StartSorted(info) && Starts(info) == index.Keys
    && forall a :: a in index ==>
         index[a] < k && index[a] < l.Limit() && RecordAt(m, l, index[a]).start == a && RecordAt(m, l, index[a]) in info
  }

  lemma {:induction false} InsertThere(rs: seq<Range>, r: Range)
    requires StartSorted(rs) && r.start in Starts(rs)
    ensures Insert(rs, r) == rs
    decreases |rs|
  {
    var k :| 0 <= k < |rs| && rs[k].start == r.start;
    if k > 0 {
      assert rs[0].start < rs[k].start;
      var t := rs[1..];
      assert t[k - 1] == rs[k] && t[k - 1] in t;
      InsertThere(t, r);
    }
  }

  lemma {:induction false} LoadedFromRecords(m: seq<byte>, l: Layout, k: nat)
    requires Sized(m, l) && BitsBelowLimit(m, l) && k <= 8 * l.FlagLen()
    ensures var (index, info) := LoadedTo(m, l, k); FromRecords(m, l, k, index, info)
    decreases k
  {
    hide BitsIn, RecordAt, Layout.Limit, Layout.FlagLen, Insert, Starts, StartSorted;
    if k > 0 {
      LoadedFromRecords(m, l, k - 1);
      var (index, info) := LoadedTo(m, l, k - 1);
      if BitsIn(m, l)[k - 1] {
        var r := RecordAt(m, l, k - 1);
        if r.start in index {
          InsertThere(info, r);
        } else {
          InsertSorted(info, r);
          InsertNew(info, r);
        }
      }
    } else {
      NothingLoaded();
    }
  }

  lemma NothingLoaded()
    ensures StartSorted([]) && Starts([]) == {}
  {
  }

  /** Numbers of the same width are the same only in the same bytes. */
  lemma BytesDiffer(x: seq<byte>, y: seq<byte>)
    requires |x| == |y| && FromBytes(x) == FromBytes(y)
    ensures x == y
  {
    RoundTripBack(x);
    RoundTripBack(y);
  }

  /** A changed record byte changes the record. */
  lemma RecordDiffers(m: seq<byte>, n: seq<byte>, l: Layout, k: nat, p: nat)
    requires Sized(m, l) && Sized(n, l) && k < l.Limit() && RecordByte(l, k, p) && RecordAt(m, l, k) == RecordAt(n, l, k)
    ensures p < |m| && m[p] == n[p]
  {
    hide FromBytes, Layout.Limit, Layout.FlagLen;
    SlotFits(l, k);
    var q := l.Slot(k);
    BytesDiffer(m[q..q + l.ptr], n[q..q + l.ptr]);
    BytesDiffer(m[q + l.ptr..q + l.ptr + 4], n[q + l.ptr..q + l.ptr + 4]);
    if p < q + l.ptr {
      assert m[q..q + l.ptr][p - q] == n[q..q + l.ptr][p - q];
    } else {
      assert m[q + l.ptr..q + l.ptr + 4][p - q - l.ptr] == n[q + l.ptr..q + l.ptr + 4][p - q - l.ptr];
    }
  }

  /** The records behind maps that load returns. */
  lemma RecoveredRecord(s: Area, m: seq<byte>, a: nat)
    requires Sized(s.mem, s.l) && Recoverable(s) && Agrees(s, m) && a in s.recordMap
    ensures Sized(m, s.l) && s.recordMap[a] < s.l.Limit()
    ensures RecordAt(m, s.l, s.recordMap[a]).start == a && RecordAt(m, s.l, s.recordMap[a]) in s.recordInfo
  {
    hide Agrees, LoadedTo, Formatted, RecordAt, Layout.Limit, Layout.FlagLen, BitsBelowLimit, StartSorted, Starts;
    AgreesSize(s, m);
    LoadedFromRecords(m, s.l, 8 * s.l.FlagLen());
  }

  lemma AgreesSize(s: Area, m: seq<byte>)
    requires Agrees(s, m)
    ensures |m| == |s.mem|
  {
  }

  /** A recoverable area has its image: else some client write would change what
      load returns. */
  lemma RecoverableImage(s: Area)
    requires Coherent(s) && Usable(s) && Recoverable(s)
    ensures Image(s)
  {
    CoherentUsable(s);
    hide BitsIn, CountOf, OffsetOf, Formatted, RecordAt, Layout.Limit, Layout.FlagLen, Recoverable, Sorted, Coherent, Inside;
    forall a | a in s.recordMap
      ensures var k := s.recordMap[a];
              && RecordAt(s.mem, s.l, k).start == a && RecordAt(s.mem, s.l, k) in s.recordInfo
              && Clear(s.l, k, s.recordInfo)
    {
      var k := s.recordMap[a];
      RecoveredRecord(s, s.mem, a);
      SlotFits(s.l, k);
      forall p: nat | RecordByte(s.l, k, p) ensures !Covered(s.recordInfo, p) {
        var m := s.mem[p := if s.mem[p] == 0 then 1 else 0];
        if Covered(s.recordInfo, p) {
          assert Agrees(s, m);
          RecoveredRecord(s, m, a);
          SameStart(s.recordInfo, RecordAt(s.mem, s.l, k), RecordAt(m, s.l, k));
          RecordDiffers(s.mem, m, s.l, k, p);
          assert false;
        }
      }
    }
  }

  lemma RecoverableIff(s: Area)
    requires Coherent(s) && Usable(s)
    ensures Recoverable(s) <==> Image(s)
  {
    hide Recoverable, Image, Coherent, Formatted, Inside;
    if Image(s) {
      ImageRecoverable(s);
    }
    if Recoverable(s) {
      RecoverableImage(s);
    }
  }

  /** From a recoverable area, Alloc leads to a recoverable one exactly when there
      is no clash; and then no byte of a live block has changed. */
  lemma AllocRecoverableIff(s: Area, len: nat)
    requires Coherent(s) && Usable(s) && Recoverable(s) && len > 0 && CountOf(s.mem) < s.l.Limit() && Alloc(s, len).1.Some?
    ensures Choose(BookOf(s), len).Take? && Sized(Alloc(s, len).0.mem, s.l) && Alloc(s, len).0.l == s.l
    ensures Recoverable(Alloc(s, len).0) <==> NoClash(s, len)
    ensures NoClash(s, len) ==> BlocksKept(s, Alloc(s, len).0)
  {
    hide Recoverable, Image, Coherent, Alloc, NoClash, CountOf, Formatted, Inside, Choose, BlocksKept;
    AllocSameLayout(s, len);
    AllocFollowsBook(s, len);
    RecoverableIff(s);
    AllocImage(s, len);
    RecoverableIff(Alloc(s, len).0);
    if NoClash(s, len) {
      AllocKeepsBlocks(s, len);
    }
  }

  /** No byte of a live block of s is different in t. */
  ghost predicate BlocksKept(s: Area, t: Area) {
    forall p: nat :: Covered(s.recordInfo, p) ==> p < |s.mem| && p < |t.mem| && t.mem[p] == s.mem[p]
  }

  lemma AllocKeepsBlocks(s: Area, len: nat)
    requires Coherent(s) && Usable(s) && Alloc(s, len).1.Some? && len > 0
    requires Choose(BookOf(s), len).Take? && NoClash(s, len)
    ensures BlocksKept(s, Alloc(s, len).0)
  {
    hide Coherent, Alloc, NoClash, CountOf, Formatted, Inside, Choose, Covered;
    AllocFollowsBook(s, len);
    AllocSameLayout(s, len);
    forall p: nat | Covered(s.recordInfo, p)
      ensures p < |s.mem| && p < |Alloc(s, len).0.mem| && Alloc(s, len).0.mem[p] == s.mem[p]
    {
      AllocRespectsClients(s, len, p);
    }
  }

  /** While every used slot ends below the squeeze boundary, that is exactly when
      the record to be written ends below it too. */
  lemma LowRecoverableIff(s: Area, len: nat)
    requires Healthy(s) && Usable(s) && Recoverable(s) && LowRecords(s)
    requires len > 0 && CountOf(s.mem) < s.l.Limit() && Alloc(s, len).1.Some?
    ensures Sized(Alloc(s, len).0.mem, s.l) && Alloc(s, len).0.l == s.l
    ensures Recoverable(Alloc(s, len).0) <==> RecordBelow(s)
  {
    hide Recoverable, Coherent, Alloc, NoClash, CountOf, Formatted, Inside, Choose, Healthy, Usable, LowRecords, RecordBelow;
    HealthyCoherent(s);
    AllocRecoverableIff(s, len);
    ClashIff(s, len);
  }

  // ----- the free ranges load rebuilds -----

  /** All gaps between the blocks of a span. */
  function AllGaps(info: seq<Range>, lo: nat, hi: nat): seq<Range>
    decreases |info|
  {
    if info == [] then Gap(lo, hi)
    else Gap(lo, info[0].start) + AllGaps(info[1..], info[0].End(), hi)
  }

  /** In a row without two free neighbours the free tiles are the gaps. */
  lemma {:induction false} FreeTilesAreGaps(ts: seq<Tile>, lo: nat)
    requires Chain(ts, lo) && NoFreePair(ts)
    ensures Only(ts, false) == AllGaps(Only(ts, true), lo, lo + Total(ts))
    decreases |ts|
  {
    if ts != [] {
      var t, rest := ts[0], ts[1..];
      assert ts == [t] + rest;
      TailNoFreePair(ts);
      FreeTilesAreGaps(rest, t.range.End());
      OnlyCons(t, rest, true);
      OnlyCons(t, rest, false);
      var live, free := Only(rest, true), Only(rest, false);
      if t.live {
        assert ([t.range] + live)[1..] == live;
        assert [] + free == free;
      } else {
        assert [] + live == live;
        if rest == [] {
          assert [t.range] + [] == [t.range];
        } else {
          assert ts[0].live || ts[1].live;
          assert live[0] == rest[0].range;
          assert free == [] + AllGaps(live[1..], live[0].End(), lo + Total(ts));
        }
      }
    }
  }

  function EndBeforeLast(end: nat, info: seq<Range>): nat {
    if |info| < 2 then end else info[|info| - 2].End()
  }

  lemma SameFront(g: seq<Range>, a: seq<Range>, b: seq<Range>)
    requires forall r :: r in a ==> r in b
    ensures forall r :: r in g + a ==> r in g + b
  {
  }

  /** Load's gaps are among all gaps, and are all of them exactly when the gap
      before the last record is empty. */
  lemma {:induction false} GapsCompared(end: nat, info: seq<Range>, total: nat)
    requires info != []
    ensures var some, all := GapsAfter(end, info, total), AllGaps(info, end, total);
            && (forall r :: r in some ==> r in all)
            && |all| == |some| + |Gap(EndBeforeLast(end, info), info[|info| - 1].start)|
            && (|all| == |some| ==> all == some)
    decreases |info|
  {
    hide Gap;
    var x, t := info[0], info[1..];
    if t == [] {
      var g := Gap(x.End(), total);
      assert AllGaps(info, end, total) == Gap(end, x.start) + g;
      assert Gap(end, x.start) == [] ==> [] + g == g;
    } else {
      GapsCompared(x.End(), t, total);
      SameFront(Gap(end, x.start), GapsAfter(x.End(), t, total), AllGaps(t, x.End(), total));
      assert info[|info| - 1] == t[|t| - 1];
      assert EndBeforeLast(end, info) == EndBeforeLast(x.End(), t);
    }
  }

  /** The records leave no gap that load would miss. */
  predicate NothingMissed(info: seq<Range>, total: nat) {
    && (|info| == 1 ==> info[0].End() == total)
    && (|info| >= 2 ==> info[|info| - 2].End() == info[|info| - 1].start)
  }

  lemma RowIsGaps(b: Book, ts: seq<Tile>)
    requires Rowed(b, ts)
    ensures b.rangeSet == AllGaps(b.recordInfo, b.l.Start() - b.offset, b.l.total)
    ensures b.offset > 0 ==> b.recordInfo != [] && b.recordInfo[0].start == b.l.Start() - b.offset
  {
    FreeTilesAreGaps(ts, b.l.Start() - b.offset);
  }

  lemma AppendSame(g: seq<Range>, a: seq<Range>, b: seq<Range>)
    ensures g + a == g + b <==> a == b
  {
    if g + a == g + b {
      assert a == (g + a)[|g|..] == (g + b)[|g|..] == b;
    }
  }

  /** Every free range load rebuilds is a free range; it rebuilds all of them
      exactly when no gap is missed. */
  lemma RebuiltCompared(b: Book, ts: seq<Tile>)
    requires Rowed(b, ts)
    ensures b.l.Start() <= b.l.total
    ensures var some := Rebuilt(b.recordInfo, b.l.Start(), b.l.total);
            && (forall r :: r in some ==> r in b.rangeSet)
            && (some == b.rangeSet <==> NothingMissed(b.recordInfo, b.l.total))
  {
    hide Only, Tiled, NoFreePair, Layout.Limit, Layout.FlagLen;
    RowEnd(b, ts);
    RowIsGaps(b, ts);
    var hi, info := b.l.total, b.recordInfo;
    if info != [] {
      assert info[0] in info && info[|info| - 1] in info;
      var g, end, rest := Gap(b.l.Start(), info[0].start), info[0].End(), info[1..];
      assert b.rangeSet == g + AllGaps(rest, end, hi);
      AppendSame(g, GapsAfter(end, rest, hi), AllGaps(rest, end, hi));
      if rest != [] {
        GapsCompared(end, rest, hi);
        assert info[|info| - 2].End() <= info[|info| - 1].start;
        assert EndBeforeLast(end, rest) == info[|info| - 2].End();
      }
    }
  }

  /** What load finds in a healthy area with its image: the live blocks and slots
      exactly; only true free ranges, none overlapping a block; and all of them
      exactly when no gap is missed. */
  lemma LoadFinds(s: Area, p: nat)
    requires Healthy(s) && Usable(s) && Image(s)
    ensures Loadable(s.l, s.mem)
    ensures var n := Load(s.l, s.mem);
            && n.recordMap == s.recordMap && n.recordInfo == s.recordInfo && n.mem == s.mem
            && (forall r :: r in n.rangeSet ==> r in s.rangeSet)
            && !(Covered(n.rangeSet, p) && Covered(s.recordInfo, p))
            && (n.rangeSet == s.rangeSet <==> NothingMissed(s.recordInfo, s.l.total))
  {
    hide BitsIn, CountOf, OffsetOf, Formatted, LoadedTo, Rowed, SlotsAgree, BitsBelowLimit, Image, Layout.Limit, Layout.FlagLen, Coherent;
    HealthyCoherent(s);
    LoadRecovers(s);
    var b := BookOf(s);
    var ts :| Books(b, ts);
    RebuiltCompared(b, ts);
    SoundMeans(b, p);
  }

  // ----- an area that is loaded and used on -----

  lemma AwayCons(ys: seq<Range>, g: Range, rest: seq<Range>)
    requires AllAway(ys, rest) && forall y :: y in ys ==> Off(y, g)
    ensures AllAway(ys, [g] + rest)
  {
  }

  lemma AwayFirst(x: Range, t: seq<Range>, rs: seq<Range>)
    requires Away(x, rs) && AllAway(t, rs)
    ensures AllAway([x] + t, rs)
  {
  }

  lemma WithinCons(g: Range, rest: seq<Range>, lo: int, hi: int)
    requires Within(rest, lo, hi) && g.len > 0 && lo <= g.start && g.End() <= hi
    ensures Within([g] + rest, lo, hi)
  {
  }

  /** A gap before block x, put in front of gaps behind it. */
  lemma GapCons(end: nat, x: Range, t: seq<Range>, rest: seq<Range>, lo: int, hi: nat)
    requires x.len > 0 && lo <= end && lo <= x.start && x.End() <= hi
    requires Within(t, x.End(), hi) && Sorted(rest) && Within(rest, x.End(), hi) && AllAway(t, rest)
    ensures var all := Gap(end, x.start) + rest;
            Sorted(all) && Within(all, lo, hi) && AllAway([x] + t, all)
  {
    hide Sorted, AllAway;
    assert Within(rest, lo, hi) && Away(x, rest);
    AwayFirst(x, t, rest);
    if end < x.start {
      var g := Range(end, x.start - end);
      assert Gap(end, x.start) + rest == [g] + rest;
      assert forall j :: 0 <= j < |rest| ==> rest[j] in rest;
      SortedCons(g, rest);
      WithinCons(g, rest, lo, hi);
      forall y | y in [x] + t ensures Off(y, g) {
        assert y == x || y in t;
      }
      AwayCons([x] + t, g, rest);
    } else {
      assert Gap(end, x.start) + rest == rest;
    }
  }

  lemma TailWithin(info: seq<Range>, lo: int, hi: nat)
    requires Sorted(info) && Within(info, lo, hi) && info != []
    ensures Sorted(info[1..]) && Within(info[1..], info[0].End(), hi)
    ensures info[0].len > 0 && lo <= info[0].start && info[0].End() <= hi && info == [info[0]] + info[1..]
  {
    assert info[0] in info;
    assert forall y :: y in info[1..] ==> y in info;
  }

  /** The gaps behind a block are sorted, not empty, inside, and off all blocks. */
  lemma {:induction false} GapsSpread(end: nat, info: seq<Range>, hi: nat)
    requires Sorted(info) && Within(info, end, hi) && end <= hi
    ensures Sorted(GapsAfter(end, info, hi)) && Within(GapsAfter(end, info, hi), end, hi)
    ensures AllAway(info, GapsAfter(end, info, hi))
    decreases |info|
  {
    hide Gap, Sorted, Within, AllAway;
    if info != [] {
      var x, t := info[0], info[1..];
      TailWithin(info, end, hi);
      if t == [] {
        assert info == [x];
        TailGap(x, end, hi);
      } else {
        GapsSpread(x.End(), t, hi);
        GapCons(end, x, t, GapsAfter(x.End(), t, hi), end, hi);
      }
    } else {
      NoGaps(end, hi);
    }
  }

  lemma TailGap(x: Range, end: nat, hi: nat)
    requires end <= x.start && x.End() <= hi
    ensures Sorted(Gap(x.End(), hi)) && Within(Gap(x.End(), hi), end, hi) && AllAway([x], Gap(x.End(), hi))
  {
  }

  lemma NoGaps(end: int, hi: int)
    ensures Sorted([]) && Within([], end, hi) && AllAway([], [])
  {
  }

  lemma RebuiltSpread(info: seq<Range>, lo: int, start: nat, hi: nat)
    requires Sorted(info) && Within(info, lo, hi) && lo <= start < hi
    ensures Spread(info, Rebuilt(info, start, hi), lo, hi)
  {
    hide GapsAfter, Gap;
    if info != [] {
      var x, t := info[0], info[1..];
      TailWithin(info, lo, hi);
      hide Sorted, Within, AllAway;
      GapsSpread(x.End(), t, hi);
      GapCons(start, x, t, GapsAfter(x.End(), t, hi), lo, hi);
    }
  }

  /** A load of a coherent area with its image gives such an area again. */
  lemma LoadCoherent(s: Area)
    requires Coherent(s) && Usable(s) && Image(s)
    ensures Loadable(s.l, s.mem)
    ensures var n := Load(s.l, s.mem);
            && n.l == s.l && n.mem == s.mem && n.recordMap == s.recordMap && n.recordInfo == s.recordInfo
            && Coherent(n) && Usable(n) && Image(n)
  {
    CoherentUsable(s);
    LoadRecovers(s);
    hide BitsIn, CountOf, OffsetOf, Formatted, LoadedTo, BitsBelowLimit, RecordAt, Layout.Limit, Layout.FlagLen, Rebuilt, Sorted, Clear, Covered, Safe, SlotsAgree, Inside;
    var n, b := Load(s.l, s.mem), BookOf(s);
    RebuiltSpread(s.recordInfo, Boundary(b), s.l.Start(), s.l.total);
    assert BookOf(n) == b.(rangeSet := n.rangeSet);
    SafeWith(b, n.rangeSet);
    CoherentUsable(n);
  }

  // ----- whole runs -----

  datatype Op = AllocOp(len: nat) | FreeOp(a: nat) | WriteOp(p: nat, v: byte) | RefreshOp

  /** One step of the allocator or of a client that keeps to its own blocks. A
      successful Alloc needs a slot left and, in a persistent run, no clash;
      only there may the area be loaded again. */
  ghost predicate Next(s: Area, op: Op, t: Area, persistent: bool) {
    && Usable(s)
    && match op
       case AllocOp(len) =>
         && len > 0 && t == Alloc(s, len).0
         && (Alloc(s, len).1.Some? ==> CountOf(s.mem) < s.l.Limit())
         && (persistent && Choose(BookOf(s), len).Take? ==> NoClash(s, len))
       case FreeOp(a) => t == Free(s, a)
       case WriteOp(p, v) => Covered(s.recordInfo, p) && p < |s.mem| && t == ClientWrite(s, p, v)
       case RefreshOp => persistent && Loadable(s.l, s.mem) && t == Load(s.l, s.mem)
  }

  ghost predicate Run(l: Layout, tr: seq<Area>, ops: seq<Op>, persistent: bool) {
    && l.Valid() && l.total > HEADER
    && |tr| == |ops| + 1 && tr[0] == Format(l)
    && forall i, j :: 0 <= i < |ops| && j == i + 1 ==> Next(tr[i], ops[i], tr[j], persistent)
  }

  lemma NextHealthy(s: Area, op: Op, t: Area, persistent: bool)
    requires Healthy(s) && Next(s, op, t, persistent) && !op.RefreshOp?
    ensures t.l == s.l && Healthy(t)
  {
    hide Formatted, Sound, CountOf, Usable, NoClash;
    match op {
      case AllocOp(len) => AllocHealthyIff(s, len);
      case FreeOp(a) => FreeHealthy(s, a);
      case WriteOp(p, v) => WriteHealthy(s, p, v);
    }
  }

  lemma NextImage(s: Area, op: Op, t: Area)
    requires Coherent(s) && Usable(s) && Image(s) && Next(s, op, t, true)
    ensures t.l == s.l && Coherent(t) && Usable(t) && Image(t)
  {
    hide Formatted, Safe, CountOf, Usable, NoClash, Image, Choose;
    match op {
      case AllocOp(len) =>
        if Alloc(s, len).1.Some? {
          AllocImage(s, len);
        } else {
          FailedAlloc(s, len);
        }
      case FreeOp(a) => FreeImage(s, a);
      case WriteOp(p, v) => WriteImage(s, p, v);
      case RefreshOp => LoadCoherent(s);
    }
  }

  predicate NoRefresh(ops: seq<Op>) { forall i :: 0 <= i < |ops| ==> !ops[i].RefreshOp? }

  lemma {:induction false} RunHealthy(l: Layout, tr: seq<Area>, ops: seq<Op>, persistent: bool, i: nat)
    requires Run(l, tr, ops, persistent) && NoRefresh(ops) && i < |tr|
    ensures tr[i].l == l && Healthy(tr[i])
    decreases i
  {
    hide Next, Healthy, Format;
    if i == 0 {
      FormatHealthy(l);
      FormatLayout(l);
    } else {
      RunHealthy(l, tr, ops, persistent, i - 1);
      NextHealthy(tr[i - 1], ops[i - 1], tr[i], persistent);
    }
  }

  lemma {:induction false} RunImage(l: Layout, tr: seq<Area>, ops: seq<Op>, i: nat)
    requires Run(l, tr, ops, true) && i < |tr|
    ensures tr[i].l == l && Coherent(tr[i]) && Usable(tr[i]) && Image(tr[i])
    decreases i
  {
    hide Next, Coherent, Usable, Image, Format;
    if i == 0 {
      FormatHealthy(l);
      FormatLayout(l);
      HealthyCoherent(Format(l));
    } else {
      RunImage(l, tr, ops, i - 1);
      NextImage(tr[i - 1], ops[i - 1], tr[i]);
    }
  }

  lemma FormatLayout(l: Layout)
    requires l.Valid()
    ensures Format(l).l == l
  {
  }

  /** In every state of every run without a reload, live blocks and free ranges
      partition the managed memory, free ranges never touch, the lengths add up
      to the available size and the squeeze boundary is live. */
  lemma RunPartition(l: Layout, tr: seq<Area>, ops: seq<Op>, persistent: bool, i: nat, p: nat)
    requires Run(l, tr, ops, persistent) && NoRefresh(ops) && i < |tr|
    ensures Sized(tr[i].mem, l) && OffsetOf(tr[i].mem) <= l.Start()
    ensures var s, lo := tr[i], l.Start() - OffsetOf(tr[i].mem);
            && (lo <= p < l.total <==> Covered(s.recordInfo, p) || Covered(s.rangeSet, p))
            && !(Covered(s.recordInfo, p) && Covered(s.rangeSet, p))
            && Lengths(s.recordInfo) + Lengths(s.rangeSet) == l.total - lo
            && Sorted(s.recordInfo) && Apart(s.rangeSet)
            && (OffsetOf(s.mem) > 0 ==> Covered(s.recordInfo, lo))
  {
    hide Run, Usable, Formatted, Sound, Covered, Lengths, Sorted, Apart;
    RunHealthy(l, tr, ops, persistent, i);
    HealthyUsable(tr[i]);
    SoundMeans(BookOf(tr[i]), p);
  }

  /** In every state of every persistent run, reloads included: no byte is in two
      blocks or in a block and a free range, all of them are managed memory; bit
      count, stored count and maps agree; and a process that loads the area gets
      the live blocks and their slots exactly, whatever clients write meanwhile. */
  lemma RunSafe(l: Layout, tr: seq<Area>, ops: seq<Op>, i: nat, p: nat, x: Range, y: Range)
    requires Run(l, tr, ops, true) && i < |tr|
    ensures Sized(tr[i].mem, l) && tr[i].l == l && Recoverable(tr[i])
    ensures CountOf(tr[i].mem) == Count(BitsIn(tr[i].mem, l), IsSet) == |tr[i].recordInfo|
    ensures var s := tr[i];
            && (Covered(s.recordInfo, p) || Covered(s.rangeSet, p) ==> l.Start() - OffsetOf(s.mem) <= p < l.total)
            && !(Covered(s.recordInfo, p) && Covered(s.rangeSet, p))
            && (x in s.recordInfo && y in s.recordInfo && Contains(x, p) && Contains(y, p) ==> x == y)
  {
    hide Run, Formatted, Covered, Recoverable, Image, Usable, Safe, BitsIn, CountOf, OffsetOf;
    RunImage(l, tr, ops, i);
    ImageRecoverable(tr[i]);
    CoherentUsable(tr[i]);
    SafeMeans(BookOf(tr[i]), p, x, y);
  }

  /** In persistent runs without a reload, load moreover finds only true free
      ranges, and all of them exactly when no gap is missed. */
  lemma RunRecovers(l: Layout, tr: seq<Area>, ops: seq<Op>, i: nat, p: nat)
    requires Run(l, tr, ops, true) && NoRefresh(ops) && i < |tr|
    ensures Loadable(l, tr[i].mem)
    ensures var s, n := tr[i], Load(l, tr[i].mem);
            && n.recordMap == s.recordMap && n.recordInfo == s.recordInfo
            && (forall r :: r in n.rangeSet ==> r in s.rangeSet)
            && !(Covered(n.rangeSet, p) && Covered(s.recordInfo, p))
            && (n.rangeSet == s.rangeSet <==> NothingMissed(s.recordInfo, l.total))
  {
    hide Run, Formatted, Sound, Covered, Load, BitsBelowLimit, Image, NothingMissed, LoadedTo, Coherent, Healthy, Loadable;
    RunHealthy(l, tr, ops, true, i);
    RunImage(l, tr, ops, i);
    LoadFinds(tr[i], p);
  }
}
