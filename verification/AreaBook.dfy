/** The allocator's books: flag bits, stored count, squeeze offset and the three
    maps, apart from the bytes that hold the first three. */
module AreaBook {
  import opened Counting
  import opened AreaTiles
  import opened AreaImage
  import opened Options

  /** recordMap takes a block's address to its record slot; recordInfo and
      rangeSet are ordered maps from address to length, kept as sorted
      sequences. Addresses are offsets from the begin of the area. */
  datatype Book = Book(l: Layout, bits: seq<bool>, count: nat, offset: nat,
                       recordMap: map<nat, nat>, recordInfo: seq<Range>, rangeSet: seq<Range>)

  // ----- Alloc -----

  /** Where a block comes from, and the free ranges and offset that remain. */
  datatype Choice = Nothing | Take(block: Range, rangeSet: seq<Range>, offset: nat)

  function Choose(b: Book, len: nat): Choice {
    var i := FirstFit(b.rangeSet, len);
    if i < |b.rangeSet| then TakeRange(b, i, len) else Squeeze(b, len)
  }

  function TakeRange(b: Book, i: nat, len: nat): Choice
    requires i < |b.rangeSet| && len <= b.rangeSet[i].len
  {
    var r, rest := b.rangeSet[i], Erase(b.rangeSet, i);
    Take(Range(r.start, len),
         if r.len > len then Insert(rest, Range(r.start + len, r.len - len)) else rest,
         b.offset)
  }

  /** A block from the tail of the record array, above the protected slots. */
  function Squeeze(b: Book, len: nat): Choice {
    var ext := b.l.Slot(ScanUsed(b.bits, 0, 0, b.count) + 2);
    var end := b.l.Start() - b.offset;
    if end - ext < len then Nothing
    else Take(Range(end - len, len), b.rangeSet, b.l.Start() - (end - len))
  }

  /** The slot search; it ends on the last bit when every bit is set. */
  function FreeSlot(b: Book): nat { ScanFree(b.bits, 0) }

  function MapInsert(m: map<nat, nat>, a: nat, k: nat): map<nat, nat> {
    if a in m then m else m[a := k]
  }

  function Register(b: Book, c: Choice): Book
    requires c.Take?
  {
    var k := FreeSlot(b);
    var bits := if k < |b.bits| && !b.bits[k] then b.bits[k := true] else b.bits;
    if k < b.l.Limit() then
      Book(b.l, bits, (b.count + 1) % 65536, c.offset,
           MapInsert(b.recordMap, c.block.start, k), Insert(b.recordInfo, c.block), c.rangeSet)
    else
      Book(b.l, bits, b.count, c.offset, b.recordMap, b.recordInfo, c.rangeSet)
  }

  function AllocBook(b: Book, len: nat): (Book, Option<nat>) {
    var c := Choose(b, len);
    if c.Nothing? then (b, None) else (Register(b, c), Some(c.block.start))
  }

  // ----- Free -----

  function FreeBook(b: Book, a: nat): Book {
    var i := IndexOf(b.recordInfo, a);
    if i == |b.recordInfo| || a !in b.recordMap then b
    else
      var k := b.recordMap[a];
      var bits := if k < |b.bits| then b.bits[k := false] else b.bits;
      var (rs, off) := TrimRanges(Coalesce(Insert(b.rangeSet, b.recordInfo[i])), b.offset, b.l.Start());
      Book(b.l, bits, (b.count + 65535) % 65536, off, b.recordMap - {a}, Erase(b.recordInfo, i), rs)
  }

  // ----- the invariant -----

  function Starts(rs: seq<Range>): set<nat> { set r | r in rs :: r.start }

  ghost predicate Uses(m: map<nat, nat>, k: nat) { exists a :: a in m && m[a] == k }

  predicate Injective(m: map<nat, nat>) {
    forall a, b :: a in m && b in m && m[a] == m[b] ==> a == b
  }

  /** Flag bits, stored count, slot map and length map agree. */
  ghost predicate SlotsAgree(b: Book) {
    && b.l.Valid()
    && |b.bits| == 8 * b.l.FlagLen()
    && b.count == Count(b.bits, IsSet) == |b.recordInfo|
    && (forall k :: 0 <= k < |b.bits| ==> (b.bits[k] <==> Uses(b.recordMap, k)))
    && (forall a :: a in b.recordMap ==> b.recordMap[a] < b.l.Limit())
    && Injective(b.recordMap)
    && b.recordMap.Keys == Starts(b.recordInfo)
  }

  /** The row ts covers the managed memory from the squeeze boundary to the end
      of the area; the two length maps are its live and its free tiles. */
  ghost predicate Rowed(b: Book, ts: seq<Tile>) {
    && b.l.Valid() && b.l.total > HEADER
    && b.offset <= b.l.Slots(b.l.Limit())
    && Tiled(ts, b.l.Start() - b.offset, b.l.total) && NoFreePair(ts)
    && (b.offset > 0 ==> ts != [] && ts[0].live)
    && b.rangeSet == Only(ts, false) && b.recordInfo == Only(ts, true)
  }

  ghost predicate Books(b: Book, ts: seq<Tile>) { Rowed(b, ts) && SlotsAgree(b) }

  ghost predicate Sound(b: Book) { exists ts :: Books(b, ts) }

  function Boundary(b: Book): int { b.l.Start() - b.offset }

  /** What soundness means for the memory: the managed bytes, and no others, are
      in a live block or in a free range, never in both; the lengths add up to
      the available size; blocks do not overlap and free ranges do not touch;
      below the regular start the first managed byte is live. */
  lemma SoundMeans(b: Book, p: nat)
    requires Sound(b)
    ensures Boundary(b) <= p < b.l.total <==> Covered(b.recordInfo, p) || Covered(b.rangeSet, p)
    ensures !(Covered(b.recordInfo, p) && Covered(b.rangeSet, p))
    ensures Lengths(b.recordInfo) + Lengths(b.rangeSet) == b.l.total - b.l.Start() + b.offset
    ensures Sorted(b.recordInfo) && Apart(b.rangeSet)
    ensures forall r: Range :: r in b.recordInfo || r in b.rangeSet ==>
              r.len > 0 && Boundary(b) <= r.start && r.End() <= b.l.total
    ensures b.offset > 0 ==> Covered(b.recordInfo, Boundary(b))
  {
    var ts: seq<Tile> :| Books(b, ts);
    LayoutFits(b.l);
    var lo := b.l.Start() - b.offset;
    TilesPartition(ts, lo, p);
    LengthsAddUp(ts);
    OnlySorted(ts, lo, true);
    FreeRangesApart(ts, lo);
    InSpan(ts, lo, true);
    InSpan(ts, lo, false);
    if b.offset > 0 {
      assert Only(ts, true)[0] == ts[0].range;
      assert ts[0].range in b.recordInfo && Contains(ts[0].range, lo);
    }
  }

  // ----- ordered maps -----

  lemma {:induction false} InsertNew(rs: seq<Range>, r: Range)
    requires r.start !in Starts(rs)
    ensures |Insert(rs, r)| == |rs| + 1
    ensures forall x :: x in Insert(rs, r) <==> x in rs || x == r
    ensures Starts(Insert(rs, r)) == Starts(rs) + {r.start}
    decreases |rs|
  {
    if rs != [] {
      assert rs[0] in rs;
      if r.start > rs[0].start {
        assert forall x :: x in rs[1..] ==> x in rs;
        InsertNew(rs[1..], r);
        assert forall x :: x in rs <==> x == rs[0] || x in rs[1..];
        var n := Insert(rs[1..], r);
        assert Insert(rs, r) == [rs[0]] + n;
      }
    }
    assert forall x :: x in Insert(rs, r) <==> x in rs || x == r;
  }

  predicate Positive(rs: seq<Range>) { forall r :: r in rs ==> r.len > 0 }

  lemma EraseStarts(rs: seq<Range>, i: nat)
    requires i < |rs| && Sorted(rs) && Positive(rs)
    ensures |Erase(rs, i)| == |rs| - 1 && Starts(Erase(rs, i)) == Starts(rs) - {rs[i].start}
    ensures forall x :: x in Erase(rs, i) <==> x in rs && x.start != rs[i].start
  {
    forall x ensures x in Erase(rs, i) <==> x in rs && x.start != rs[i].start {
      EraseMember(rs, i, x);
    }
  }

  lemma EraseMember(rs: seq<Range>, i: nat, x: Range)
    requires i < |rs| && Sorted(rs) && Positive(rs)
    ensures x in Erase(rs, i) <==> x in rs && x.start != rs[i].start
  {
    var a, c := rs[..i], rs[i + 1..];
    assert rs == a + [rs[i]] + c && Erase(rs, i) == a + c;
    assert rs[i] in rs;
    assert forall y :: y in a ==> y in rs && y.start < rs[i].start;
    assert forall y :: y in c ==> y in rs && rs[i].start < y.start;
  }

  lemma SameStart(rs: seq<Range>, x: Range, y: Range)
    requires Sorted(rs) && Positive(rs) && x in rs && y in rs && x.start == y.start
    ensures x == y
  {
    var i :| 0 <= i < |rs| && rs[i] == x;
    var j :| 0 <= j < |rs| && rs[j] == y;
  }

  /** In a sorted sequence a key is where the ranges before it end. */
  lemma IndexBehind(a: seq<Range>, r: Range, c: seq<Range>)
    requires forall x :: x in a ==> x.start < r.start
    ensures IndexOf(a + [r] + c, r.start) == |a|
    ensures Erase(a + [r] + c, |a|) == a + c
  {
    var rs := a + [r] + c;
    assert rs[|a|] == r;
    assert forall j :: 0 <= j < |a| ==> rs[j] == a[j] && a[j] in a;
  }

  lemma StartNotThere(rs: seq<Range>, a: nat)
    ensures IndexOf(rs, a) == |rs| <==> a !in Starts(rs)
  {
    var i := IndexOf(rs, a);
    if i < |rs| {
      assert rs[i] in rs;
    }
  }

  // ----- slots -----

  /** With room left the search finds the lowest clear bit, below the limit. */
  lemma FreeSlotFound(b: Book)
    requires SlotsAgree(b) && b.count < b.l.Limit()
    ensures var k := FreeSlot(b);
            && k < b.l.Limit() <= |b.bits| && !b.bits[k] && !Uses(b.recordMap, k)
            && (k > 0 ==> b.bits[k - 1])
            && forall j :: 0 <= j < k ==> b.bits[j]
  {
    LayoutFits(b.l);
    var n := b.l.Limit();
    if forall j :: 0 <= j < n ==> b.bits[j] {
      CountBound(b.bits[..n], IsSet);
      CountPrefix(b.bits, n);
      assert false;
    }
    ScanFreeFinds(b.bits, 0);
  }

  lemma RegisterKeeps(b: Book, c: Choice)
    requires SlotsAgree(b) && b.count < b.l.Limit() && c.Take? && c.block.start !in Starts(b.recordInfo)
    ensures SlotsAgree(Register(b, c)) && Register(b, c).count == b.count + 1
    ensures Register(b, c).bits == b.bits[FreeSlot(b) := true]
    ensures Register(b, c).recordMap == b.recordMap[c.block.start := FreeSlot(b)]
  {
    hide FreeSlot, Count, Insert, Starts, Uses;
    FreeSlotFound(b);
    var a, k := c.block.start, FreeSlot(b);
    InsertNew(b.recordInfo, c.block);
    BitUsed(b.bits, b.recordMap, a, k);
    assert b.recordMap[a := k].Keys == b.recordMap.Keys + {a};
  }

  lemma BitUsed(bits: seq<bool>, m: map<nat, nat>, a: nat, k: nat)
    requires a !in m && k < |bits| && !bits[k] && Injective(m)
    requires forall j :: 0 <= j < |bits| ==> (bits[j] <==> Uses(m, j))
    ensures var bits', m' := bits[k := true], m[a := k];
            && (forall j :: 0 <= j < |bits| ==> (bits'[j] <==> Uses(m', j)))
            && Count(bits', IsSet) == Count(bits, IsSet) + 1
            && Injective(m')
  {
    hide Count;
    var m' := m[a := k];
    assert a in m' && m'[a] == k;
    assert !Uses(m, k);
    CountUpdate(bits, k, true, IsSet);
    forall j | 0 <= j < |bits| ensures bits[k := true][j] <==> Uses(m', j) {
      if j != k && Uses(m, j) {
        var x :| x in m && m[x] == j;
        assert x in m' && m'[x] == j;
      }
    }
  }

  lemma UnregisterKeeps(b: Book, a: nat)
    requires SlotsAgree(b) && a in b.recordMap && Sorted(b.recordInfo) && Positive(b.recordInfo)
    ensures SlotsAgree(FreeBook(b, a))
  {
    hide TrimRanges, Coalesce, Insert, Erase, Starts, Count, Sorted, Positive, Uses, Layout.Limit, Layout.FlagLen;
    CountAtMostLimit(b);
    StartNotThere(b.recordInfo, a);
    var i, k, n := IndexOf(b.recordInfo, a), b.recordMap[a], FreeBook(b, a);
    EraseStarts(b.recordInfo, i);
    BitUnused(b.bits, b.recordMap, a);
    assert n.recordMap.Keys == b.recordMap.Keys - {a};
  }

  lemma BitUnused(bits: seq<bool>, m: map<nat, nat>, a: nat)
    requires a in m && m[a] < |bits| && Injective(m)
    requires forall k :: 0 <= k < |bits| ==> (bits[k] <==> Uses(m, k))
    ensures var bits', m' := bits[m[a] := false], m - {a};
            && (forall k :: 0 <= k < |bits| ==> (bits'[k] <==> Uses(m', k)))
            && Count(bits', IsSet) == Count(bits, IsSet) - 1
  {
    hide Count;
    var k, m' := m[a], m - {a};
    assert Uses(m, k);
    CountUpdate(bits, k, false, IsSet);
    forall j | 0 <= j < |bits| ensures bits[k := false][j] <==> Uses(m', j) {
      if j != k && Uses(m, j) {
        var x :| x in m && m[x] == j;
        assert x in m' && m'[x] == j;
      }
    }
  }

  /** Bits at or above the limit are clear, so the count stays within it. */
  lemma CountAtMostLimit(b: Book)
    requires SlotsAgree(b)
    ensures b.l.Limit() <= |b.bits|
    ensures forall k :: b.l.Limit() <= k < |b.bits| ==> !b.bits[k]
    ensures b.count == Count(b.bits[..b.l.Limit()], IsSet) <= b.l.Limit()
  {
    LayoutFits(b.l);
    var n := b.l.Limit();
    forall k | n <= k < |b.bits| ensures !b.bits[k] {
      assert b.bits[k] ==> Uses(b.recordMap, k);
    }
    CountTailClear(b.bits, n);
    CountBound(b.bits[..n], IsSet);
  }

  lemma {:induction false} CountTailClear(bits: seq<bool>, n: nat)
    requires n <= |bits| && forall k :: n <= k < |bits| ==> !bits[k]
    ensures Count(bits[..n], IsSet) == Count(bits, IsSet)
    decreases |bits|
  {
    if n < |bits| {
      var t := bits[..|bits| - 1];
      assert t[..n] == bits[..n];
      CountTailClear(t, n);
    } else {
      assert bits[..n] == bits;
    }
  }

  // ----- Alloc keeps the books -----

  lemma RowEnd(b: Book, ts: seq<Tile>)
    requires Rowed(b, ts)
    ensures ts != [] && b.l.RecStart() <= Boundary(b) <= b.l.Start() < b.l.total
    ensures Sorted(b.recordInfo) && Positive(b.recordInfo) && Positive(b.rangeSet)
    ensures forall r: Range :: r in b.recordInfo || r in b.rangeSet ==> Boundary(b) <= r.start && r.End() <= b.l.total
  {
    LayoutFits(b.l);
    var lo := b.l.Start() - b.offset;
    OnlySorted(ts, lo, true);
    InSpan(ts, lo, true);
    InSpan(ts, lo, false);
  }

  /** A free range's first byte is not the start of a live block. */
  lemma FreeStartNotLive(b: Book, ts: seq<Tile>, r: Range)
    requires Rowed(b, ts) && r in b.rangeSet
    ensures r.start !in Starts(b.recordInfo)
  {
    RowEnd(b, ts);
    TilesPartition(ts, b.l.Start() - b.offset, r.start);
    assert Contains(r, r.start);
    assert forall x :: x in b.recordInfo ==> Contains(x, x.start);
  }

  /** The row after a block is taken from the i-th free range. */
  lemma TakeRangeRow(b: Book, ts: seq<Tile>, i: nat, len: nat) returns (pre: seq<Tile>, post: seq<Tile>)
    requires Rowed(b, ts) && i < |b.rangeSet| && 0 < len <= b.rangeSet[i].len
    ensures ts == pre + [Tile(b.rangeSet[i], false)] + post
    ensures var c, ts' := TakeRange(b, i, len), TakeTiles(pre, b.rangeSet[i], len, post);
            && Rowed(b.(rangeSet := c.rangeSet, recordInfo := Insert(b.recordInfo, c.block)), ts')
            && c.block.start !in Starts(b.recordInfo)
  {
    hide Only, Chain, Total, Insert, NoFreePair;
    RowEnd(b, ts);
    pre, post := Locate(ts, false, i);
    var r, lo := b.rangeSet[i], b.l.Start() - b.offset;
    FreeStartNotLive(b, ts, r);
    TakeKeeps(pre, r, len, post, lo, b.l.total);
    var p, q := Only(pre, false), Only(post, false);
    assert Erase(b.rangeSet, i) == p + q;
    if len < r.len {
      AroundMiddle(pre, [Tile(r, false)], post, lo, false);
      MiddleStart(pre, Tile(r, false), post, lo);
      InsertMiddle(p, Range(r.start + len, r.len - len), q);
    } else {
      assert p + [] + q == p + q;
    }
  }

  lemma MiddleStart(pre: seq<Tile>, t: Tile, post: seq<Tile>, lo: nat)
    requires Chain(pre + [t] + post, lo)
    ensures t.range.start == lo + Total(pre) && t.range.len > 0 && Total([t]) == t.range.len
  {
    Concat3(pre, [t], post, lo);
    ChainOne(t, lo + Total(pre));
    OnlyOne(t, true);
  }

  lemma PrependRow(t: Tile, ts: seq<Tile>, hi: nat)
    requires t.live && t.range.len > 0 && Tiled(ts, t.range.End(), hi) && NoFreePair(ts)
    ensures var n := [t] + ts;
            && Tiled(n, t.range.start, hi) && NoFreePair(n) && n[0].live
            && Only(n, false) == Only(ts, false)
            && Only(n, true) == [t.range] + Only(ts, true) == Insert(Only(ts, true), t.range)
  {
    var n := [t] + ts;
    assert n[1..] == ts;
    forall i, j | 0 <= i < |n| && j == i + 1 < |n| ensures n[i].live || n[j].live {
      if i > 0 {
        assert ts[i - 1].live || ts[j - 1].live;
      }
    }
    assert [] + Only(ts, false) == Only(ts, false);
    InSpan(ts, t.range.End(), true);
    var live := Only(ts, true);
    if live != [] {
      assert live[0] in live;
    }
  }

  /** The row after a block is squeezed out of the record array. */
  lemma SqueezeRow(b: Book, ts: seq<Tile>, len: nat)
    requires Rowed(b, ts) && len > 0 && Squeeze(b, len).Take?
    ensures var c := Squeeze(b, len);
            && Rowed(b.(offset := c.offset, recordInfo := Insert(b.recordInfo, c.block)), [Tile(c.block, true)] + ts)
            && c.block.start !in Starts(b.recordInfo)
            && c.offset == b.offset + len && c.block == Range(Boundary(b) - len, len)
  {
    hide Only, Chain, Total, Insert, NoFreePair;
    RowEnd(b, ts);
    var c := Squeeze(b, len);
    assert b.l.RecStart() <= c.block.start;
    PrependRow(Tile(c.block, true), ts, b.l.total);
  }

  lemma AllocKeepsBooks(b: Book, ts: seq<Tile>, len: nat)
    requires Books(b, ts) && len > 0 && b.count < b.l.Limit()
    ensures Sound(AllocBook(b, len).0)
  {
    hide Only, Tiled, Insert, NoFreePair, FirstFit, Erase, ScanUsed, ScanFree, Count, Starts;
    var c, i := Choose(b, len), FirstFit(b.rangeSet, len);
    if i < |b.rangeSet| {
      var pre, post := TakeRangeRow(b, ts, i, len);
      RegisterKeeps(b, c);
      FreeSlotFound(b);
      assert Books(Register(b, c), TakeTiles(pre, b.rangeSet[i], len, post));
    } else if c.Take? {
      SqueezeRow(b, ts, len);
      RegisterKeeps(b, c);
      FreeSlotFound(b);
      assert Books(Register(b, c), [Tile(c.block, true)] + ts);
    } else {
      assert Books(b, ts);
    }
  }

  // ----- Free keeps the books -----

  /** Releasing the block between pre and post and merging free neighbours. */
  lemma MergedRow(pre: seq<Tile>, r: Range, post: seq<Tile>, lo: nat, hi: nat)
    requires Tiled(pre + [Tile(r, true)] + post, lo, hi)
    ensures var old_, m := pre + [Tile(r, true)] + post, Merge(pre + [Tile(r, false)] + post);
            && Tiled(m, lo, hi) && NoFreePair(m)
            && Coalesce(Insert(Only(old_, false), r)) == Only(m, false)
            && Only(m, true) == Only(pre, true) + Only(post, true)
            && IndexOf(Only(old_, true), r.start) < |Only(old_, true)|
            && Only(old_, true)[IndexOf(Only(old_, true), r.start)] == r
            && Erase(Only(old_, true), IndexOf(Only(old_, true), r.start)) == Only(m, true)
  {
    hide Only, Chain, Total, Insert, NoFreePair, Coalesce, Merge, IndexOf, Erase;
    var mid := pre + [Tile(r, false)] + post;
    ReleaseRanges(pre, r, post, lo);
    AroundMiddle(pre, [Tile(r, true)], post, lo, true);
    MiddleStart(pre, Tile(r, true), post, lo);
    IndexBehind(Only(pre, true), r, Only(post, true));
    SweepIsMerge(mid, lo);
    MergeKeeps(mid, lo);
    MergeNoFreePair(mid);
  }

  /** Free of the block that a row shows between pre and post: its tile is turned
      free, free neighbours merge, and the boundary is trimmed. */
  lemma FreeRow(b: Book, pre: seq<Tile>, r: Range, post: seq<Tile>)
    requires Rowed(b, pre + [Tile(r, true)] + post) && r.start in b.recordMap
    ensures var m, n, lo := Merge(pre + [Tile(r, false)] + post), FreeBook(b, r.start), b.l.Start() - b.offset;
            && Chain(m, lo) && Rowed(n, TrimTiles(m, lo, b.l.Start()))
            && n.rangeSet == TrimRanges(Only(m, false), b.offset, b.l.Start()).0
            && n.offset == TrimRanges(Only(m, false), b.offset, b.l.Start()).1
            && n.recordInfo == Only(pre, true) + Only(post, true)
  {
    hide Only, Chain, Total, Insert, NoFreePair, Coalesce, Merge, TrimRanges, TrimTiles, IndexOf, Erase;
    var lo := b.l.Start() - b.offset;
    RowEnd(b, pre + [Tile(r, true)] + post);
    MergedRow(pre, r, post, lo, b.l.total);
    TrimKeeps(Merge(pre + [Tile(r, false)] + post), lo, b.l.total, b.l.Start());
  }

  lemma FreeKeepsBooks(b: Book, a: nat)
    requires Sound(b)
    ensures Sound(FreeBook(b, a))
  {
    hide Only, Tiled, Insert, NoFreePair, Coalesce, Merge, TrimRanges, TrimTiles, Count, Starts, Erase;
    var ts :| Books(b, ts);
    var i := IndexOf(b.recordInfo, a);
    if i < |b.recordInfo| && a in b.recordMap {
      RowEnd(b, ts);
      var pre, post := Locate(ts, true, i);
      var r := b.recordInfo[i];
      FreeRow(b, pre, r, post);
      UnregisterKeeps(b, a);
      var m := Merge(pre + [Tile(r, false)] + post);
      assert Books(FreeBook(b, a), TrimTiles(m, b.l.Start() - b.offset, b.l.Start()));
    }
  }

  // ----- a full record array -----

  /** With every slot in use nothing can be squeezed out and no slot is found. */
  lemma FullBook(b: Book, len: nat)
    requires SlotsAgree(b) && b.count == b.l.Limit() && len > 0
    ensures Squeeze(b, len).Nothing?
    ensures forall k :: 0 <= k < b.l.Limit() ==> k < |b.bits| && b.bits[k]
  {
    hide Layout.Limit, Layout.FlagLen, ScanUsed;
    CountAtMostLimit(b);
    var n := b.l.Limit();
    CountBound(b.bits[..n], IsSet);
    assert forall k :: 0 <= k < n ==> b.bits[..n][k] == b.bits[k];
    var h := ScanUsed(b.bits, 0, 0, b.count);
    if n == 0 {
      ScanUsedNone(b.bits, 0, 0);
    } else {
      assert b.bits[..0] == [];
      ScanFindsHighest(b.bits, 0, b.count);
    }
    assert h + 1 >= n;
  }

  lemma {:induction false} InsertLengths(rs: seq<Range>, r: Range)
    requires r.start !in Starts(rs)
    ensures Lengths(Insert(rs, r)) == Lengths(rs) + r.len
    decreases |rs|
  {
    var n := Insert(rs, r);
    if rs == [] || r.start < rs[0].start {
      assert n[1..] == rs;
    } else {
      assert rs[0] in rs;
      assert forall x :: x in rs[1..] ==> x in rs;
      InsertLengths(rs[1..], r);
      assert n[1..] == Insert(rs[1..], r);
    }
  }

  /** Alloc into a full record array breaks the books: the block is recorded
      nowhere, or in a slot that is already in use. */
  lemma FullAllocUnsound(b: Book, ts: seq<Tile>, len: nat)
    requires Books(b, ts) && len > 0 && b.count == b.l.Limit() && AllocBook(b, len).1.Some?
    ensures !Sound(AllocBook(b, len).0)
  {
    hide Only, Tiled, Insert, NoFreePair, FirstFit, Erase, ScanUsed, ScanFree, Count, Starts, Lengths;
    FullBook(b, len);
    var c, i, n := Choose(b, len), FirstFit(b.rangeSet, len), AllocBook(b, len).0;
    if Sound(n) {
      SoundMeans(n, 0);
      assert FreeSlot(b) >= b.l.Limit();
      var pre, post := TakeRangeRow(b, ts, i, len);
      RowLengths(b.(rangeSet := c.rangeSet, recordInfo := Insert(b.recordInfo, c.block)),
                 TakeTiles(pre, b.rangeSet[i], len, post));
      InsertLengths(b.recordInfo, c.block);
      assert false;
    }
  }

  lemma RowLengths(b: Book, ts: seq<Tile>)
    requires Rowed(b, ts)
    ensures Lengths(b.recordInfo) + Lengths(b.rangeSet) == b.l.total - b.l.Start() + b.offset
  {
    LengthsAddUp(ts);
    RowEnd(b, ts);
  }

  /** A successful Alloc leaves sound books exactly when a slot was left. */
  lemma AllocSoundIff(b: Book, len: nat)
    requires Sound(b) && len > 0 && AllocBook(b, len).1.Some?
    ensures Sound(AllocBook(b, len).0) <==> b.count < b.l.Limit()
  {
    var ts :| Books(b, ts);
    CountAtMostLimit(b);
    if b.count < b.l.Limit() {
      AllocKeepsBooks(b, ts, len);
    } else {
      FullAllocUnsound(b, ts, len);
    }
  }

  // ----- which block Alloc takes -----

  ghost predicate HighestUsed(b: Book, h: nat) {
    h < |b.bits| && b.bits[h] && forall k :: h < k < |b.bits| ==> !b.bits[k]
  }

  lemma ScanIsHighest(b: Book)
    requires SlotsAgree(b)
    ensures b.count > 0 ==> HighestUsed(b, ScanUsed(b.bits, 0, 0, b.count))
    ensures b.count == 0 ==> b.l.Limit() <= ScanUsed(b.bits, 0, 0, b.count) + 1
  {
    LayoutFits(b.l);
    if b.count > 0 {
      assert b.bits[..0] == [];
      ScanFindsHighest(b.bits, 0, b.count);
    } else {
      ScanUsedNone(b.bits, 0, 0);
    }
  }

  /** Alloc fails exactly when no free range is long enough and the gap above the
      highest used slot and one spare slot is shorter than the request; with no
      slot in use there is no such gap. */
  lemma AllocFailsIff(b: Book, len: nat, h: nat)
    requires SlotsAgree(b) && len > 0 && (b.count > 0 ==> HighestUsed(b, h))
    ensures AllocBook(b, len).1.None? <==>
            && (forall r :: r in b.rangeSet ==> r.len < len)
            && (b.count > 0 ==> Boundary(b) - b.l.Slot(h + 2) < len)
  {
    hide ScanUsed;
    ScanIsHighest(b);
    var i, g := FirstFit(b.rangeSet, len), ScanUsed(b.bits, 0, 0, b.count);
    if i < |b.rangeSet| {
      assert b.rangeSet[i] in b.rangeSet;
    } else if b.count > 0 {
      assert h == g;
    }
  }

  lemma FirstFitLowest(rs: seq<Range>, len: nat, r: Range)
    requires Apart(rs) && r in rs && len <= r.len
    ensures var i := FirstFit(rs, len); i < |rs| && rs[i] in rs && rs[i].start <= r.start
  {
    hide FirstFit;
    var j :| 0 <= j < |rs| && rs[j] == r;
  }

  /** When a free range is long enough, the block is the front of the lowest one. */
  lemma AllocLowest(b: Book, len: nat, r: Range)
    requires Sound(b) && r in b.rangeSet && len <= r.len
    ensures AllocBook(b, len).1.Some? && AllocBook(b, len).0.offset == b.offset
    ensures AllocBook(b, len).1.value <= r.start
    ensures exists x :: x in b.rangeSet && x.start == AllocBook(b, len).1.value && len <= x.len
  {
    hide FreeSlot, Insert, Erase, Sound, FirstFit, Apart, Sorted, Lengths, Covered, ScanUsed, Layout.Limit, MapInsert;
    SoundMeans(b, 0);
    FirstFitLowest(b.rangeSet, len, r);
  }

  /** A squeezed block lies above every used slot and above the slot that the
      same call then writes. */
  lemma SqueezeSafe(b: Book, len: nat)
    requires SlotsAgree(b) && len > 0 && Squeeze(b, len).Take?
    ensures var p := Squeeze(b, len).block.start;
            && (forall k :: 0 <= k < |b.bits| && b.bits[k] ==> b.l.Slot(k + 1) <= p)
            && b.l.Slot(FreeSlot(b) + 1) <= p && b.count < b.l.Limit()
  {
    hide ScanUsed, ScanFree, Layout.Limit, Layout.FlagLen, Count;
    ScanIsHighest(b);
    CountAtMostLimit(b);
    if b.count == b.l.Limit() {
      FullBook(b, len);
      assert false;
    }
    var h := ScanUsed(b.bits, 0, 0, b.count);
    FreeSlotFound(b);
  }

  // ----- Free undoes Alloc -----

  lemma TrimIdle(b: Book, ts: seq<Tile>)
    requires Rowed(b, ts)
    ensures TrimRanges(b.rangeSet, b.offset, b.l.Start()) == (b.rangeSet, b.offset)
  {
    if b.offset > 0 {
      RowEnd(b, ts);
      NextFreeLater(ts, b.l.Start() - b.offset);
      if b.rangeSet != [] {
        assert b.rangeSet[0] in b.rangeSet;
      }
    }
  }

  /** Turning a taken tile free again and merging restores the row. */
  lemma TakeMergesBack(pre: seq<Tile>, r: Range, len: nat, post: seq<Tile>)
    requires NoFreePair(pre + [Tile(r, false)] + post) && len <= r.len
    ensures Merge(pre + [Tile(Range(r.start, len), false)] + (Rest(r, len) + post)) == pre + [Tile(r, false)] + post
  {
    hide Merge;
    var a := Tile(Range(r.start, len), false);
    if len < r.len {
      var c := Tile(Range(r.start + len, r.len - len), false);
      assert pre + [a] + ([c] + post) == pre + [a, c] + post;
      assert Joined(a, c) == Tile(r, false);
      MergeRejoins(pre, a, c, post);
    } else {
      assert pre + [a] + ([] + post) == pre + [Tile(r, false)] + post;
      MergeIdle(pre + [Tile(r, false)] + post);
    }
  }

  lemma OnlyRest(r: Range, len: nat, post: seq<Tile>)
    requires len <= r.len
    ensures Only(Rest(r, len) + post, true) == Only(post, true)
  {
    OnlyAppend(Rest(r, len), post, true);
    if len < r.len {
      OnlyOne(Rest(r, len)[0], true);
    }
    assert [] + Only(post, true) == Only(post, true);
  }

  /** The slot side of undoing: bit, count and slot map come back. */
  lemma SlotUndone(b: Book, c: Choice)
    requires SlotsAgree(b) && b.count < b.l.Limit() && c.Take? && c.block.start !in Starts(b.recordInfo)
    ensures var n := FreeBook(Register(b, c), c.block.start);
            n.l == b.l && n.bits == b.bits && n.count == b.count && n.recordMap == b.recordMap
  {
    hide TrimRanges, Coalesce, Insert, Erase, Starts, Count, FreeSlot, Uses, Layout.Limit, Layout.FlagLen;
    FreeSlotFound(b);
    RegisterKeeps(b, c);
    var b', k, a := Register(b, c), FreeSlot(b), c.block.start;
    CountAtMostLimit(b');
    StartNotThere(b'.recordInfo, a);
    assert b.bits[k := true][k := false] == b.bits;
    assert b.recordMap[a := k] - {a} == b.recordMap;
  }

  lemma UndoTake(b: Book, ts: seq<Tile>, i: nat, len: nat)
    requires Books(b, ts) && b.count < b.l.Limit()
    requires i < |b.rangeSet| && 0 < len <= b.rangeSet[i].len
    ensures var c := TakeRange(b, i, len); FreeBook(Register(b, c), c.block.start) == b
  {
    hide Only, Tiled, Insert, NoFreePair, Erase, ScanFree, Count, Starts, TrimRanges, TrimTiles, Coalesce, Merge, FreeBook, IndexOf;
    var c, r := TakeRange(b, i, len), b.rangeSet[i];
    var pre, post := TakeRangeRow(b, ts, i, len);
    RegisterKeeps(b, c);
    FreeSlotFound(b);
    SlotUndone(b, c);
    var b', rest := Register(b, c), Rest(r, len) + post;
    assert TakeTiles(pre, r, len, post) == pre + [Tile(c.block, true)] + rest;
    FreeRow(b', pre, c.block, rest);
    TakeMergesBack(pre, r, len, post);
    TrimIdle(b, ts);
    OnlyRest(r, len, post);
    LiveAround(pre, r, post);
  }

  lemma LiveAround(pre: seq<Tile>, r: Range, post: seq<Tile>)
    ensures Only(pre + [Tile(r, false)] + post, true) == Only(pre, true) + Only(post, true)
  {
    Concat3(pre, [Tile(r, false)], post, 0);
    OnlyOne(Tile(r, false), true);
    assert Only(pre, true) + [] == Only(pre, true);
  }

  lemma MergeBeforeLive(t: Tile, ts: seq<Tile>)
    requires ts != [] && ts[0].live && NoFreePair(ts)
    ensures Merge([t] + ts) == [t] + ts
  {
    MergeIdle(ts);
    assert ([t] + ts)[1..] == ts;
  }

  lemma MergeBeforeFree(t: Tile, s: Tile, rest: seq<Tile>)
    requires !t.live && !s.live && NoFreePair([s] + rest)
    ensures Merge([t] + ([s] + rest)) == [Joined(t, s)] + rest
  {
    var j := [Joined(t, s)] + rest;
    forall i, k | 0 <= i < |j| && k == i + 1 < |j| ensures j[i].live || j[k].live {
      assert ([s] + rest)[i].live || ([s] + rest)[k].live;
    }
    assert [] + [t, s] + rest == [t] + ([s] + rest);
    assert [] + [Joined(t, s)] + rest == j;
    MergeRejoins([], t, s, rest);
  }

  /** The free block merged with a free range at the regular start is cut there. */
  lemma TrimCutsBack(block: Range, s: Tile, rest: seq<Tile>, start: nat)
    requires !s.live && Chain([s] + rest, start) && block.len > 0 && block.End() == start
    ensures TrimRanges(Only([Joined(Tile(block, false), s)] + rest, false), block.len, start)
            == (Only([s] + rest, false), 0)
  {
    hide Only, Insert;
    var f, j := Only(rest, false), Joined(Tile(block, false), s);
    assert ([s] + rest)[1..] == rest;
    OnlyCons(s, rest, false);
    OnlyCons(j, rest, false);
    assert ([j.range] + f)[1..] == f;
    InSpan(rest, s.range.End(), false);
    InsertMiddle([], s.range, f);
    assert [] + f == f && [] + [s.range] + f == [s.range] + f;
  }

  /** A squeezed block freed at once: merged with a free range at the regular
      start or not, trimming gives the old ranges and the old offset. */
  lemma SqueezeTrimsBack(b: Book, ts: seq<Tile>, block: Range)
    requires Rowed(b, ts) && block.len > 0 && block.End() == Boundary(b)
    ensures TrimRanges(Only(Merge([Tile(block, false)] + ts), false), b.offset + block.len, b.l.Start())
            == (b.rangeSet, b.offset)
  {
    hide Only, Merge, NoFreePair, Insert, Chain, Layout.Limit, Layout.FlagLen;
    RowEnd(b, ts);
    var t := Tile(block, false);
    if ts[0].live {
      MergeBeforeLive(t, ts);
      OnlyCons(t, ts, false);
      assert ([block] + b.rangeSet)[1..] == b.rangeSet;
    } else {
      hide TrimRanges;
      var s, rest := ts[0], ts[1..];
      assert ts == [s] + rest;
      MergeBeforeFree(t, s, rest);
      TrimCutsBack(block, s, rest, b.l.Start());
    }
  }

  lemma UndoSqueeze(b: Book, ts: seq<Tile>, len: nat)
    requires Books(b, ts) && b.count < b.l.Limit() && len > 0 && Squeeze(b, len).Take?
    ensures var c := Squeeze(b, len); FreeBook(Register(b, c), c.block.start) == b
  {
    hide Only, Tiled, Insert, NoFreePair, Erase, ScanFree, ScanUsed, Count, Starts, TrimRanges, TrimTiles, Coalesce, Merge, FreeBook, IndexOf;
    var c := Squeeze(b, len);
    SqueezeRow(b, ts, len);
    RegisterKeeps(b, c);
    FreeSlotFound(b);
    SlotUndone(b, c);
    var b' := Register(b, c);
    assert [Tile(c.block, true)] + ts == [] + [Tile(c.block, true)] + ts;
    FreeRow(b', [], c.block, ts);
    assert [Tile(c.block, false)] + ts == [] + [Tile(c.block, false)] + ts;
    SqueezeTrimsBack(b, ts, c.block);
    OnlyNone(true);
    assert [] + Only(ts, true) == Only(ts, true);
  }

  /** Freeing the block just allocated restores the books exactly. */
  lemma FreeUndoesAlloc(b: Book, len: nat)
    requires Sound(b) && len > 0 && b.count < b.l.Limit() && AllocBook(b, len).1.Some?
    ensures FreeBook(AllocBook(b, len).0, AllocBook(b, len).1.value) == b
  {
    hide Rowed, SlotsAgree, Register, FreeBook, Insert, Erase, ScanUsed;
    var ts :| Books(b, ts);
    var i := FirstFit(b.rangeSet, len);
    if i < |b.rangeSet| {
      UndoTake(b, ts, i, len);
    } else {
      UndoSqueeze(b, ts, len);
    }
  }

  lemma FreeEffect(b: Book, a: nat)
    requires Sorted(b.recordInfo) && Positive(b.recordInfo) && a in b.recordMap && a in Starts(b.recordInfo)
    ensures var n := FreeBook(b, a);
            && n.recordMap == b.recordMap - {a} && n.offset <= b.offset
            && forall x :: x in n.recordInfo <==> x in b.recordInfo && x.start != a
  {
    hide Coalesce, Insert, Erase, Sorted, Positive, Starts;
    StartNotThere(b.recordInfo, a);
    EraseStarts(b.recordInfo, IndexOf(b.recordInfo, a));
  }
}
