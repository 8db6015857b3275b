/** Books that are only safe: blocks and free ranges inside the managed memory
    and apart from each other, but not necessarily all of it. Reloading an area
    can lose free ranges, so this is what its books keep from then on. */
module AreaSafety {
  import opened Options
  import opened AreaTiles
  import opened AreaImage
  import opened AreaBook

  predicate Off(x: Range, y: Range) { x.End() <= y.start || y.End() <= x.start }

  predicate Away(r: Range, rs: seq<Range>) { forall x :: x in rs ==> Off(r, x) }

  predicate AllAway(a: seq<Range>, b: seq<Range>) { forall x :: x in a ==> Away(x, b) }

  predicate Within(rs: seq<Range>, lo: int, hi: int) {
    forall r :: r in rs ==> r.len > 0 && lo <= r.start && r.End() <= hi
  }

  /** The two length maps of the books. */
  ghost predicate Spread(live: seq<Range>, free: seq<Range>, lo: int, hi: int) {
    && Sorted(live) && Sorted(free) && Within(live, lo, hi) && Within(free, lo, hi) && AllAway(live, free)
  }

  ghost predicate Safe(b: Book) {
    && b.l.Valid() && b.l.total > HEADER && b.offset <= b.l.Slots(b.l.Limit())
    && Spread(b.recordInfo, b.rangeSet, Boundary(b), b.l.total)
    && SlotsAgree(b)
  }

  /** In bytes: no byte belongs to two blocks, or to a block and a free range,
      and every one of them is managed memory. */
  lemma SafeMeans(b: Book, p: nat, x: Range, y: Range)
    requires Safe(b)
    ensures Covered(b.recordInfo, p) || Covered(b.rangeSet, p) ==> Boundary(b) <= p < b.l.total
    ensures !(Covered(b.recordInfo, p) && Covered(b.rangeSet, p))
    ensures x in b.recordInfo && y in b.recordInfo && Contains(x, p) && Contains(y, p) ==> x == y
  {
    if x in b.recordInfo && y in b.recordInfo {
      var i :| 0 <= i < |b.recordInfo| && b.recordInfo[i] == x;
      var j :| 0 <= j < |b.recordInfo| && b.recordInfo[j] == y;
    }
    forall r, f | r in b.recordInfo && f in b.rangeSet ensures Off(r, f) {
      assert Away(r, b.rangeSet);
    }
  }

  lemma SoundIsSafe(b: Book)
    requires Sound(b)
    ensures Safe(b)
  {
    hide Lengths, SlotsAgree;
    var ts: seq<Tile> :| Books(b, ts);
    SoundMeans(b, 0);
    assert Sorted(b.rangeSet);
    forall x, y | x in b.recordInfo && y in b.rangeSet ensures Off(x, y) {
      var p := if x.start < y.start then y.start else x.start;
      SoundMeans(b, p);
      assert Contains(x, p) ==> Covered(b.recordInfo, p);
      assert Contains(y, p) ==> Covered(b.rangeSet, p);
    }
  }

  // ----- insertion and erasure -----

  lemma SortedTail(rs: seq<Range>)
    requires Sorted(rs) && rs != []
    ensures Sorted(rs[1..]) && forall x :: x in rs[1..] ==> x in rs && rs[0].End() <= x.start
  {
  }

  lemma SortedOne(r: Range)
    ensures Sorted([r])
  {
  }

  lemma StartsAway(rs: seq<Range>, r: Range)
    requires Positive(rs) && r.len > 0 && Away(r, rs)
    ensures r.start !in Starts(rs)
  {
    forall x | x in rs ensures x.start != r.start {
      assert Off(r, x);
    }
  }

  lemma {:induction false} InsertSpread(rs: seq<Range>, r: Range)
    requires Sorted(rs) && Positive(rs) && r.len > 0 && Away(r, rs)
    ensures Sorted(Insert(rs, r)) && r.start !in Starts(rs)
    ensures forall x :: x in Insert(rs, r) <==> x in rs || x == r
    decreases |rs|
  {
    hide Sorted, Starts;
    StartsAway(rs, r);
    InsertNew(rs, r);
    if rs == [] {
      SortedOne(r);
    } else {
      SortedTail(rs);
      assert rs[0] in rs && Off(r, rs[0]);
      var t := rs[1..];
      if r.start < rs[0].start {
        forall j | 0 <= j < |rs| ensures r.End() <= rs[j].start {
          assert rs[j] == rs[0] || rs[j] in t;
        }
        SortedCons(r, rs);
      } else {
        InsertSpread(t, r);
        var n := Insert(t, r);
        forall j | 0 <= j < |n| ensures rs[0].End() <= n[j].start {
          assert n[j] in n;
        }
        SortedCons(rs[0], n);
      }
    }
  }

  lemma EraseSpread(rs: seq<Range>, i: nat)
    requires Sorted(rs) && Positive(rs) && i < |rs|
    ensures Sorted(Erase(rs, i)) && Away(rs[i], Erase(rs, i))
    ensures forall x :: x in Erase(rs, i) ==> x in rs
  {
    var e := Erase(rs, i);
    assert forall j :: 0 <= j < |e| ==> e[j] == rs[if j < i then j else j + 1];
    forall x | x in e ensures x in rs && Off(rs[i], x) {
      var j :| 0 <= j < |e| && e[j] == x;
    }
  }

  // ----- Alloc -----

  lemma TakeSpread(b: Book, i: nat, len: nat)
    requires Safe(b) && i < |b.rangeSet| && 0 < len <= b.rangeSet[i].len
    ensures var c := TakeRange(b, i, len);
            && Spread(Insert(b.recordInfo, c.block), c.rangeSet, Boundary(b), b.l.total)
            && c.block.start !in Starts(b.recordInfo)
  {
    hide SlotsAgree, Insert, Erase;
    var c, r, e := TakeRange(b, i, len), b.rangeSet[i], Erase(b.rangeSet, i);
    assert r in b.rangeSet;
    EraseSpread(b.rangeSet, i);
    forall x | x in b.recordInfo ensures Off(c.block, x) && Off(x, r) {
      assert Away(x, b.rangeSet);
    }
    InsertSpread(b.recordInfo, c.block);
    if len < r.len {
      InsertSpread(e, Range(r.start + len, r.len - len));
    }
    forall x, y | x in Insert(b.recordInfo, c.block) && y in c.rangeSet ensures Off(x, y) {
      assert y in e ==> Off(r, y) && (x in b.recordInfo ==> Away(x, b.rangeSet));
    }
  }

  lemma SqueezeSpread(b: Book, len: nat)
    requires Safe(b) && len > 0 && Squeeze(b, len).Take?
    ensures var c := Squeeze(b, len);
            && Spread(Insert(b.recordInfo, c.block), c.rangeSet, c.block.start, b.l.total)
            && c.block.start !in Starts(b.recordInfo)
            && c.offset == b.offset + len <= b.l.Slots(b.l.Limit()) && c.block.End() == Boundary(b)
            && c.block.start == b.l.Start() - c.offset
  {
    hide SlotsAgree, Insert, Layout.Limit, Layout.FlagLen, ScanUsed;
    LayoutFits(b.l);
    var c := Squeeze(b, len);
    InsertSpread(b.recordInfo, c.block);
    forall x, y | x in Insert(b.recordInfo, c.block) && y in c.rangeSet ensures Off(x, y) {
      assert x in b.recordInfo ==> Away(x, b.rangeSet);
    }
  }

  /** Everything a successful Alloc with a slot left does to safe books. */
  lemma AllocEffect(b: Book, len: nat)
    requires Safe(b) && len > 0 && b.count < b.l.Limit() && Choose(b, len).Take?
    ensures var c, k, n := Choose(b, len), FreeSlot(b), AllocBook(b, len).0;
            && k < |b.bits| && n.bits == b.bits[k := true] && n.count == b.count + 1 && n.offset == c.offset
            && c.block.start !in b.recordMap && n.recordMap == b.recordMap[c.block.start := k]
            && (forall x :: x in n.recordInfo <==> x in b.recordInfo || x == c.block)
            && c.block.len == len && Away(c.block, b.recordInfo)
            && ( || (c.offset == b.offset && Boundary(b) <= c.block.start)
                 || (c.offset == b.offset + len && c.block.End() == Boundary(b) && c == Squeeze(b, len)))
    ensures Safe(AllocBook(b, len).0)
  {
    hide Sorted, Insert, FirstFit, Erase, ScanUsed, ScanFree, Starts, Layout.Limit, Layout.FlagLen, Away;
    var c, i := Choose(b, len), FirstFit(b.rangeSet, len);
    assert Positive(b.recordInfo);
    if i < |b.rangeSet| {
      assert b.rangeSet[i] in b.rangeSet;
      TakeSpread(b, i, len);
      TakenAway(b, i, len);
    } else {
      SqueezeSpread(b, len);
      SqueezedAway(b, c.block);
    }
    FreeSlotFound(b);
    RegisterKeeps(b, c);
    InsertNew(b.recordInfo, c.block);
  }

  lemma TakenAway(b: Book, i: nat, len: nat)
    requires Safe(b) && i < |b.rangeSet| && len <= b.rangeSet[i].len
    ensures Away(TakeRange(b, i, len).block, b.recordInfo)
  {
    hide SlotsAgree;
    assert b.rangeSet[i] in b.rangeSet;
    forall x | x in b.recordInfo ensures Off(TakeRange(b, i, len).block, x) {
      assert Away(x, b.rangeSet) && Off(x, b.rangeSet[i]);
    }
  }

  lemma SqueezedAway(b: Book, block: Range)
    requires Safe(b) && block.End() <= Boundary(b)
    ensures Away(block, b.recordInfo)
  {
    hide SlotsAgree;
  }

  lemma ChosenAway(b: Book, len: nat)
    requires Safe(b) && Choose(b, len).Take?
    ensures Away(Choose(b, len).block, b.recordInfo)
  {
    hide Safe, Insert, Erase, ScanUsed, Layout.Limit, Layout.FlagLen;
    var i := FirstFit(b.rangeSet, len);
    if i < |b.rangeSet| {
      TakenAway(b, i, len);
    } else {
      SqueezedAway(b, Choose(b, len).block);
    }
  }

  lemma SafeWith(b: Book, rs: seq<Range>)
    requires Safe(b) && Spread(b.recordInfo, rs, Boundary(b), b.l.total)
    ensures Safe(b.(rangeSet := rs))
  {
    hide Spread, Layout.Limit, Layout.FlagLen, Starts;
  }

  lemma AllocSafe(b: Book, len: nat)
    requires Safe(b) && len > 0 && (AllocBook(b, len).1.Some? ==> b.count < b.l.Limit())
    ensures Safe(AllocBook(b, len).0)
  {
    hide Safe, Register, Squeeze;
    if Choose(b, len).Take? {
      AllocEffect(b, len);
    }
  }

  /** Every used slot ends below the boundary. */
  predicate Low(b: Book) {
    forall a :: a in b.recordMap ==> b.l.Slot(b.recordMap[a] + 1) <= Boundary(b)
  }

  /** Writing a slot that ends below the boundary keeps them low, also when the
      boundary moves down for a squeezed block. */
  lemma AllocLow(b: Book, len: nat)
    requires Safe(b) && Low(b) && len > 0 && b.count < b.l.Limit() && Choose(b, len).Take?
    requires b.l.Slot(FreeSlot(b) + 1) <= Boundary(b)
    ensures Low(AllocBook(b, len).0)
  {
    AllocEffect(b, len);
    hide Safe, Choose, FreeSlot, Squeeze, Layout.Limit, Layout.FlagLen, AllocBook, Away;
    var c, n := Choose(b, len), AllocBook(b, len).0;
    if c.offset != b.offset {
      AllSlotsAbove(b, len);
    }
    assert n.l == b.l by { SameLayout(b, len); }
  }

  lemma SameLayout(b: Book, len: nat)
    ensures AllocBook(b, len).0.l == b.l
  {
    hide Choose;
  }

  lemma AllSlotsAbove(b: Book, len: nat)
    requires Safe(b) && len > 0 && Squeeze(b, len).Take?
    ensures var p := Squeeze(b, len).block.start;
            && p == b.l.Start() - Squeeze(b, len).offset
            && b.l.Slot(FreeSlot(b) + 1) <= p
            && forall a :: a in b.recordMap ==> b.l.Slot(b.recordMap[a] + 1) <= p
  {
    SqueezeSafe(b, len);
    LayoutFits(b.l);
    hide Squeeze, Layout.Limit, Layout.FlagLen, FreeSlot, Spread;
    forall a | a in b.recordMap ensures b.l.Slot(b.recordMap[a] + 1) <= Squeeze(b, len).block.start {
      assert Uses(b.recordMap, b.recordMap[a]);
    }
    SqueezeSpread(b, len);
  }

  // ----- Free -----

  lemma {:induction false} CoalesceSpread(rs: seq<Range>, lo: int, hi: int)
    requires Sorted(rs) && Within(rs, lo, hi)
    ensures Sorted(Coalesce(rs)) && Within(Coalesce(rs), lo, hi)
    ensures forall x :: x in Coalesce(rs) ==> rs != [] && rs[0].start <= x.start
    decreases |rs|
  {
    if |rs| >= 2 {
      assert rs[0] in rs && rs[1] in rs;
      if rs[0].End() == rs[1].start {
        CoalesceSpread([Range(rs[0].start, rs[0].len + rs[1].len)] + rs[2..], lo, hi);
      } else {
        var c := Coalesce(rs[1..]);
        CoalesceSpread(rs[1..], lo, hi);
        assert forall j :: 0 <= j < |c| ==> c[j] in c;
        SortedCons(rs[0], c);
      }
    }
  }

  lemma {:induction false} CoalesceAway(rs: seq<Range>, y: Range)
    requires Away(y, rs) && y.len > 0
    ensures Away(y, Coalesce(rs))
    decreases |rs|
  {
    if |rs| >= 2 {
      assert Off(y, rs[0]) && Off(y, rs[1]);
      if rs[0].End() == rs[1].start {
        CoalesceAway([Range(rs[0].start, rs[0].len + rs[1].len)] + rs[2..], y);
      } else {
        CoalesceAway(rs[1..], y);
      }
    }
  }

  lemma TrimSpread(live: seq<Range>, rs: seq<Range>, off: nat, start: nat, hi: nat)
    requires Spread(live, rs, start - off, hi)
    ensures var (n, o) := TrimRanges(rs, off, start); o <= off && Spread(live, n, start - o, hi)
  {
    hide Insert;
    if rs != [] && off > 0 && rs[0].start + off == start {
      var first, t := rs[0], rs[1..];
      assert first in rs;
      assert forall x :: x in t ==> x in rs && first.End() <= x.start;
      forall x | x in live ensures first.End() <= x.start && Away(x, t) {
        assert Away(x, rs) && Off(x, first);
      }
      if first.len > off {
        var cut := Range(start, first.len - off);
        InsertSpread(t, cut);
        assert forall x :: x in live ==> Off(x, cut);
      }
    }
  }

  lemma FreeSafe(b: Book, a: nat)
    requires Safe(b)
    ensures Safe(FreeBook(b, a))
  {
    hide Insert, Erase, Coalesce, TrimRanges, SlotsAgree, Sorted, Layout.Limit, Layout.FlagLen, IndexOf;
    var i := IndexOf(b.recordInfo, a);
    if i < |b.recordInfo| && a in b.recordMap {
      ReleaseSpread(b, i);
      var rs := Coalesce(Insert(b.rangeSet, b.recordInfo[i]));
      LayoutFits(b.l);
      TrimSpread(Erase(b.recordInfo, i), rs, b.offset, b.l.Start(), b.l.total);
      UnregisterKeeps(b, a) by { assert Positive(b.recordInfo); }
    }
  }

  lemma ReleaseSpread(b: Book, i: nat)
    requires Safe(b) && i < |b.recordInfo|
    ensures Spread(Erase(b.recordInfo, i), Coalesce(Insert(b.rangeSet, b.recordInfo[i])), Boundary(b), b.l.total)
  {
    hide Insert, Erase, Coalesce, SlotsAgree;
    var r, e := b.recordInfo[i], Erase(b.recordInfo, i);
    assert r in b.recordInfo && Away(r, b.rangeSet);
    EraseSpread(b.recordInfo, i);
    InsertSpread(b.rangeSet, r);
    var rs := Insert(b.rangeSet, r);
    CoalesceSpread(rs, Boundary(b), b.l.total);
    forall x | x in e ensures Away(x, Coalesce(rs)) {
      assert Off(r, x) && Away(x, b.rangeSet);
      CoalesceAway(rs, x);
    }
  }
}
