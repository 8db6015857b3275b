/** The managed part of the area as a row of tiles, live or free, and the range
    set operations of the allocator seen on that row. */
module AreaTiles {

  datatype Range = Range(start: nat, len: nat) {
    function End(): nat { start + len }
  }

  datatype Tile = Tile(range: Range, live: bool)

  /** The tiles follow one another from lo on, none of them empty. */
  predicate Chain(ts: seq<Tile>, lo: nat)
    decreases |ts|
  {
    ts == [] || (ts[0].range.start == lo && ts[0].range.len > 0 && Chain(ts[1..], ts[0].range.End()))
  }

  function Total(ts: seq<Tile>): nat {
    if ts == [] then 0 else ts[0].range.len + Total(ts[1..])
  }

  predicate Tiled(ts: seq<Tile>, lo: nat, hi: nat) { Chain(ts, lo) && lo + Total(ts) == hi }

  predicate NoFreePair(ts: seq<Tile>) {
    forall i, j :: 0 <= i < |ts| && j == i + 1 < |ts| ==> ts[i].live || ts[j].live
  }

  function Only(ts: seq<Tile>, live: bool): seq<Range> {
    if ts == [] then []
    else (if ts[0].live == live then [ts[0].range] else []) + Only(ts[1..], live)
  }

  function Lengths(rs: seq<Range>): nat {
    if rs == [] then 0 else rs[0].len + Lengths(rs[1..])
  }

  // ----- concatenation -----

  lemma {:induction false} ChainAppend(a: seq<Tile>, b: seq<Tile>, lo: nat)
    ensures Chain(a + b, lo) <==> Chain(a, lo) && Chain(b, lo + Total(a))
    ensures Total(a + b) == Total(a) + Total(b)
    decreases |a|
  {
    if a == [] {
      assert a + b == b;
    } else {
      assert (a + b)[0] == a[0] && (a + b)[1..] == a[1..] + b;
      ChainAppend(a[1..], b, a[0].range.End());
    }
  }

  lemma {:induction false} OnlyAppend(a: seq<Tile>, b: seq<Tile>, live: bool)
    ensures Only(a + b, live) == Only(a, live) + Only(b, live)
    decreases |a|
  {
    if a == [] {
      assert a + b == b;
      assert [] + Only(b, live) == Only(b, live);
    } else {
      assert (a + b)[0] == a[0] && (a + b)[1..] == a[1..] + b;
      OnlyAppend(a[1..], b, live);
      var h := if a[0].live == live then [a[0].range] else [];
      assert h + (Only(a[1..], live) + Only(b, live)) == (h + Only(a[1..], live)) + Only(b, live);
    }
  }

  lemma OnlyOne(t: Tile, live: bool)
    ensures Only([t], live) == if t.live == live then [t.range] else []
    ensures Total([t]) == t.range.len
  {
    assert [t][1..] == [];
  }

  lemma ChainOne(t: Tile, lo: nat)
    ensures Chain([t], lo) <==> t.range.start == lo && t.range.len > 0
  {
    assert [t][1..] == [];
  }

  // ----- what a tiling means -----

  predicate Contains(r: Range, b: nat) { r.start <= b < r.End() }

  lemma {:induction false} InSpan(ts: seq<Tile>, lo: nat, live: bool)
    requires Chain(ts, lo)
    ensures forall r :: r in Only(ts, live) ==> r.len > 0 && lo <= r.start && r.End() <= lo + Total(ts)
    decreases |ts|
  {
    if ts != [] {
      InSpan(ts[1..], ts[0].range.End(), live);
    }
  }

  predicate Sorted(rs: seq<Range>) {
    forall i, j :: 0 <= i < j < |rs| ==> rs[i].End() <= rs[j].start
  }

  lemma {:induction false} OnlySorted(ts: seq<Tile>, lo: nat, live: bool)
    requires Chain(ts, lo)
    ensures Sorted(Only(ts, live))
    decreases |ts|
  {
    if ts != [] {
      var mid := ts[0].range.End();
      OnlySorted(ts[1..], mid, live);
      InSpan(ts[1..], mid, live);
      var rest := Only(ts[1..], live);
      assert forall j :: 0 <= j < |rest| ==> rest[j] in rest;
      SortedCons(ts[0].range, rest);
      assert [] + rest == rest;
    }
  }

  lemma SortedCons(r: Range, rs: seq<Range>)
    requires Sorted(rs) && forall j :: 0 <= j < |rs| ==> r.End() <= rs[j].start
    ensures Sorted([r] + rs)
  {
  }

  ghost predicate Covered(rs: seq<Range>, b: nat) { exists r :: r in rs && Contains(r, b) }

  /** Every byte of the span is in a live range or in a free range, and not in
      both; no range leaves the span. */
  lemma {:induction false} TilesPartition(ts: seq<Tile>, lo: nat, b: nat)
    requires Chain(ts, lo)
    ensures lo <= b < lo + Total(ts) <==> Covered(Only(ts, true), b) || Covered(Only(ts, false), b)
    ensures !(Covered(Only(ts, true), b) && Covered(Only(ts, false), b))
    decreases |ts|
  {
    if ts != [] {
      var t, rest := ts[0], ts[1..];
      TilesPartition(rest, t.range.End(), b);
      CoveredHead(ts, true, b);
      CoveredHead(ts, false, b);
      InSpan(rest, t.range.End(), true);
      InSpan(rest, t.range.End(), false);
    }
  }

  lemma CoveredHead(ts: seq<Tile>, live: bool, b: nat)
    requires ts != []
    ensures Covered(Only(ts, live), b) <==>
            (ts[0].live == live && Contains(ts[0].range, b)) || Covered(Only(ts[1..], live), b)
  {
    var rest, all := Only(ts[1..], live), Only(ts, live);
    if Covered(rest, b) {
      var r :| r in rest && Contains(r, b);
      assert r in all;
    }
    if ts[0].live == live {
      assert all[0] == ts[0].range;
      assert ts[0].range in all;
    }
    if Covered(all, b) {
      var r :| r in all && Contains(r, b);
      assert r in rest || (ts[0].live == live && r == ts[0].range);
    }
  }

  /** The lengths of both kinds add up to the span. */
  lemma {:induction false} LengthsAddUp(ts: seq<Tile>)
    ensures Lengths(Only(ts, true)) + Lengths(Only(ts, false)) == Total(ts)
    decreases |ts|
  {
    if ts != [] {
      LengthsAddUp(ts[1..]);
      var t := ts[0];
      var same := [t.range] + Only(ts[1..], t.live);
      assert same[1..] == Only(ts[1..], t.live);
      assert Only(ts, t.live) == same;
      assert Only(ts, !t.live) == Only(ts[1..], !t.live);
    }
  }

  predicate Apart(rs: seq<Range>) {
    forall i, j :: 0 <= i < j < |rs| ==> rs[i].End() < rs[j].start
  }

  lemma ApartCons(r: Range, rs: seq<Range>)
    requires Apart(rs) && forall x :: x in rs ==> r.End() < x.start
    ensures Apart([r] + rs)
  {
    var all := [r] + rs;
    forall i, j | 0 <= i < j < |all| ensures all[i].End() < all[j].start {
      assert all[j] == rs[j - 1] && rs[j - 1] in rs;
      assert i > 0 ==> all[i] == rs[i - 1];
    }
  }

  /** No two free ranges touch. */
  lemma {:induction false} FreeRangesApart(ts: seq<Tile>, lo: nat)
    requires Chain(ts, lo) && NoFreePair(ts)
    ensures Apart(Only(ts, false))
    decreases |ts|
  {
    if ts != [] {
      var t, rest := ts[0], ts[1..];
      TailNoFreePair(ts);
      FreeRangesApart(rest, t.range.End());
      if t.live {
        assert Only(ts, false) == [] + Only(rest, false);
      } else if rest != [] {
        assert ts[0].live || ts[1].live;
        NextFreeLater(rest, t.range.End());
        ApartCons(t.range, Only(rest, false));
      }
    }
  }

  /** After a live tile the next free range starts strictly later. */
  lemma NextFreeLater(ts: seq<Tile>, lo: nat)
    requires ts != [] && ts[0].live && Chain(ts, lo)
    ensures forall r :: r in Only(ts, false) ==> lo < r.start
    ensures Only(ts, false) == Only(ts[1..], false)
  {
    InSpan(ts[1..], ts[0].range.End(), false);
  }

  // ----- merging neighbours -----

  /** The sweep over the sorted range set that merges ranges that touch. */
  function Coalesce(rs: seq<Range>): seq<Range>
    decreases |rs|
  {
    if |rs| < 2 then rs
    else if rs[0].End() == rs[1].start
    then Coalesce([Range(rs[0].start, rs[0].len + rs[1].len)] + rs[2..])
    else [rs[0]] + Coalesce(rs[1..])
  }

  /** The same on tiles: neighbouring free tiles become one. */
  function Merge(ts: seq<Tile>): seq<Tile>
    decreases |ts|
  {
    if |ts| < 2 then ts
    else if !ts[0].live && !ts[1].live
    then Merge([Joined(ts[0], ts[1])] + ts[2..])
    else [ts[0]] + Merge(ts[1..])
  }

  function Joined(a: Tile, b: Tile): Tile {
    Tile(Range(a.range.start, a.range.len + b.range.len), false)
  }

  /** Merging keeps the span, the live ranges and the first tile's start. */
  lemma {:induction false} MergeKeeps(ts: seq<Tile>, lo: nat)
    requires Chain(ts, lo)
    ensures Chain(Merge(ts), lo) && Total(Merge(ts)) == Total(ts)
    ensures Only(Merge(ts), true) == Only(ts, true)
    ensures ts != [] ==> Merge(ts) != [] && Merge(ts)[0].live == ts[0].live
    decreases |ts|
  {
    if |ts| >= 2 {
      if !ts[0].live && !ts[1].live {
        var next := [Joined(ts[0], ts[1])] + ts[2..];
        assert next[1..] == ts[2..] == ts[1..][1..];
        MergeKeeps(next, lo);
      } else {
        MergeKeeps(ts[1..], ts[0].range.End());
        assert Merge(ts)[1..] == Merge(ts[1..]);
      }
    }
  }

  lemma {:induction false} MergeNoFreePair(ts: seq<Tile>)
    ensures NoFreePair(Merge(ts))
    ensures ts != [] ==> Merge(ts) != [] && Merge(ts)[0].live == ts[0].live
    decreases |ts|
  {
    if |ts| >= 2 {
      if !ts[0].live && !ts[1].live {
        MergeNoFreePair([Joined(ts[0], ts[1])] + ts[2..]);
      } else {
        MergeNoFreePair(ts[1..]);
        var m, r := Merge(ts), Merge(ts[1..]);
        forall i, j | 0 <= i < |m| && j == i + 1 < |m| ensures m[i].live || m[j].live {
          if i > 0 {
            assert m[i] == r[i - 1] && m[j] == r[j - 1];
          }
        }
      }
    }
  }

  /** The sweep over the free ranges computes the free ranges of the merged row. */
  lemma {:induction false} SweepIsMerge(ts: seq<Tile>, lo: nat)
    requires Chain(ts, lo)
    ensures Coalesce(Only(ts, false)) == Only(Merge(ts), false)
    decreases |ts|
  {
    if |ts| == 1 {
      assert ts == [ts[0]];
      OnlyOne(ts[0], false);
    } else if |ts| >= 2 {
      if !ts[0].live && !ts[1].live {
        SweepIsMerge([Joined(ts[0], ts[1])] + ts[2..], lo) by { JoinKeepsChain(ts, lo); }
        assert ts == [ts[0], ts[1]] + ts[2..];
        SweepJoin(ts[0], ts[1], ts[2..]);
      } else {
        SweepIsMerge(ts[1..], ts[0].range.End());
        SweepSkip(ts, lo);
      }
    }
  }

  lemma JoinKeepsChain(ts: seq<Tile>, lo: nat)
    requires Chain(ts, lo) && |ts| >= 2
    ensures Chain([Joined(ts[0], ts[1])] + ts[2..], lo)
  {
    var next := [Joined(ts[0], ts[1])] + ts[2..];
    assert next[1..] == ts[2..] == ts[1..][1..];
  }

  lemma CoalesceJoin(a: Range, b: Range, g: seq<Range>)
    requires a.End() == b.start
    ensures Coalesce([a, b] + g) == Coalesce([Range(a.start, a.len + b.len)] + g)
  {
    assert ([a, b] + g)[2..] == g;
  }

  lemma OnlyCons(t: Tile, rest: seq<Tile>, live: bool)
    ensures Only([t] + rest, live) == (if t.live == live then [t.range] else []) + Only(rest, live)
  {
    assert ([t] + rest)[1..] == rest;
  }

  /** Two free tiles in front: the sweep merges them first. */
  lemma SweepJoin(a: Tile, b: Tile, rest: seq<Tile>)
    requires !a.live && !b.live && a.range.End() == b.range.start
    ensures Coalesce(Only([a, b] + rest, false)) == Coalesce(Only([Joined(a, b)] + rest, false))
  {
    hide Only, Coalesce;
    var g := Only(rest, false);
    assert [a, b] + rest == [a] + ([b] + rest);
    OnlyCons(a, [b] + rest, false);
    OnlyCons(b, rest, false);
    OnlyCons(Joined(a, b), rest, false);
    assert [a.range] + ([b.range] + g) == [a.range, b.range] + g;
    CoalesceJoin(a.range, b.range, g);
  }

  /** A live tile in front, or behind the first one: the sweep moves on. */
  lemma SweepSkip(ts: seq<Tile>, lo: nat)
    requires |ts| >= 2 && Chain(ts, lo) && (ts[0].live || ts[1].live)
    requires Coalesce(Only(ts[1..], false)) == Only(Merge(ts[1..]), false)
    ensures Coalesce(Only(ts, false)) == Only(Merge(ts), false)
  {
    var t, rest := ts[0], ts[1..];
    var f := Only(rest, false);
    assert Merge(ts)[0] == t && Merge(ts)[1..] == Merge(rest);
    if t.live {
      assert Only(Merge(ts), false) == [] + Only(Merge(rest), false) == Only(Merge(rest), false);
      assert Only(ts, false) == [] + f == f;
    } else {
      NextFreeLater(rest, t.range.End());
      assert Only(ts, false) == [t.range] + f;
      assert Only(ts, false)[1..] == f;
      if f != [] {
        assert f[0] in f;
      }
    }
  }

  lemma {:induction false} MergeIdle(ts: seq<Tile>)
    requires NoFreePair(ts)
    ensures Merge(ts) == ts
    decreases |ts|
  {
    if |ts| >= 2 {
      assert ts[0].live || ts[1].live;
      TailNoFreePair(ts);
      MergeIdle(ts[1..]);
    }
  }

  lemma TailNoFreePair(ts: seq<Tile>)
    requires NoFreePair(ts) && ts != []
    ensures NoFreePair(ts[1..])
  {
    var r := ts[1..];
    forall i, j | 0 <= i < |r| && j == i + 1 < |r| ensures r[i].live || r[j].live {
      assert ts[i + 1].live || ts[j + 1].live;
    }
  }

  /** Splitting a free tile of a merged row in two and merging restores it. */
  lemma {:induction false} MergeRejoins(pre: seq<Tile>, a: Tile, b: Tile, post: seq<Tile>)
    requires !a.live && !b.live
    requires NoFreePair(pre + [Joined(a, b)] + post)
    ensures Merge(pre + [a, b] + post) == pre + [Joined(a, b)] + post
    decreases |pre|
  {
    var ts, goal := pre + [a, b] + post, pre + [Joined(a, b)] + post;
    if pre == [] {
      assert ts[2..] == post && ts[0] == a && ts[1] == b;
      assert goal == [Joined(a, b)] + post;
      MergeIdle(goal);
    } else {
      var p := pre[1..];
      assert ts[0] == pre[0] && ts[1..] == p + [a, b] + post;
      assert goal[0] == pre[0] && goal[1..] == p + [Joined(a, b)] + post;
      TailNoFreePair(goal);
      MergeRejoins(p, a, b, post);
      assert goal[0].live || goal[1].live;
      assert ts[1].live == goal[1].live by {
        if p != [] {
          assert ts[1] == p[0] == goal[1];
        }
      }
    }
  }

  // ----- a sorted range sequence as an ordered map from start to length -----

  /** Insertion by start; an existing key is left alone. */
  function Insert(rs: seq<Range>, r: Range): seq<Range> {
    if rs == [] then [r]
    else if r.start < rs[0].start then [r] + rs
    else if r.start == rs[0].start then rs
    else [rs[0]] + Insert(rs[1..], r)
  }

  function Erase(rs: seq<Range>, i: nat): seq<Range>
    requires i < |rs|
  {
    rs[..i] + rs[i + 1..]
  }

  /** The index of a key, or the length. */
  function IndexOf(rs: seq<Range>, a: nat): (i: nat)
    ensures i <= |rs| && (i < |rs| ==> rs[i].start == a)
    ensures forall j :: 0 <= j < i ==> rs[j].start != a
  {
    if rs == [] then 0 else if rs[0].start == a then 0 else 1 + IndexOf(rs[1..], a)
  }

  /** The first range that is long enough, or the length. */
  function FirstFit(rs: seq<Range>, len: nat): (i: nat)
    ensures i <= |rs| && (i < |rs| ==> rs[i].len >= len)
    ensures forall j :: 0 <= j < i ==> rs[j].len < len
  {
    if rs == [] then 0 else if rs[0].len >= len then 0 else 1 + FirstFit(rs[1..], len)
  }

  lemma {:induction false} InsertMiddle(a: seq<Range>, r: Range, b: seq<Range>)
    requires forall x :: x in a ==> x.start < r.start
    requires forall x :: x in b ==> r.start < x.start
    ensures Insert(a + b, r) == a + [r] + b
    decreases |a|
  {
    if a == [] {
      assert a + b == b && a + [r] + b == [r] + b;
      if b != [] {
        assert b[0] in b;
      }
    } else {
      assert a[0] in a;
      assert forall x :: x in a[1..] ==> x in a;
      InsertMiddle(a[1..], r, b);
      assert (a + b)[0] == a[0] && (a + b)[1..] == a[1..] + b;
      assert [a[0]] + (a[1..] + [r] + b) == a + [r] + b;
    }
  }

  /** The tile of the i-th range of a kind. */
  lemma {:induction false} Locate(ts: seq<Tile>, live: bool, i: nat) returns (pre: seq<Tile>, post: seq<Tile>)
    requires i < |Only(ts, live)|
    ensures ts == pre + [Tile(Only(ts, live)[i], live)] + post
    ensures Only(pre, live) == Only(ts, live)[..i]
    ensures Only(post, live) == Only(ts, live)[i + 1..]
    decreases |ts|
  {
    hide Only;
    assert ts != [] by { OnlyNone(live); }
    var t, rest := ts[0], ts[1..];
    assert ts == [t] + rest;
    OnlyCons(t, rest, live);
    var r := Only(rest, live);
    if t.live == live && i == 0 {
      OnlyNone(live);
      pre, post := [], rest;
      assert ts == [] + [t] + rest;
    } else {
      var k := if t.live == live then i - 1 else i;
      var p;
      p, post := Locate(rest, live, k);
      pre := [t] + p;
      OnlyCons(t, p, live);
      LocateCons(t, rest, p, r[k], live, post);
      if t.live == live {
        LocateStep(t.range, r, k);
      } else {
        assert [] + r == r && [] + Only(p, live) == Only(p, live);
      }
    }
  }

  lemma OnlyNone(live: bool)
    ensures Only([], live) == []
  {
  }

  lemma LocateCons(t: Tile, rest: seq<Tile>, p: seq<Tile>, x: Range, live: bool, post: seq<Tile>)
    requires rest == p + [Tile(x, live)] + post
    ensures [t] + rest == ([t] + p) + [Tile(x, live)] + post
  {
  }

  lemma LocateStep(x: Range, r: seq<Range>, k: nat)
    requires k < |r|
    ensures var all := [x] + r;
            all[k + 1] == r[k] && all[..k + 1] == [x] + r[..k] && all[k + 2..] == r[k + 1..]
  {
  }

  // ----- allocation on the row -----

  /** A free tile r gives up its first len bytes. */
  function TakeTiles(pre: seq<Tile>, r: Range, len: nat, post: seq<Tile>): seq<Tile>
    requires len <= r.len
  {
    pre + [Tile(Range(r.start, len), true)] + Rest(r, len) + post
  }

  function Rest(r: Range, len: nat): seq<Tile>
    requires len <= r.len
  {
    if len < r.len then [Tile(Range(r.start + len, r.len - len), false)] else []
  }

  function RestRange(r: Range, len: nat): seq<Range>
    requires len <= r.len
  {
    if len < r.len then [Range(r.start + len, r.len - len)] else []
  }

  lemma Concat3(a: seq<Tile>, b: seq<Tile>, c: seq<Tile>, lo: nat)
    ensures Chain(a + b + c, lo) <==> Chain(a, lo) && Chain(b, lo + Total(a)) && Chain(c, lo + Total(a) + Total(b))
    ensures Total(a + b + c) == Total(a) + Total(b) + Total(c)
    ensures forall k :: Only(a + b + c, k) == Only(a, k) + Only(b, k) + Only(c, k)
  {
    ChainAppend(a, b, lo);
    ChainAppend(a + b, c, lo);
    forall k ensures Only(a + b + c, k) == Only(a, k) + Only(b, k) + Only(c, k) {
      OnlyAppend(a, b, k);
      OnlyAppend(a + b, c, k);
    }
  }

  /** The taken tile and what is left of it, as a row of their own. */
  lemma TakenChain(r: Range, len: nat, lo: nat)
    requires 0 < len <= r.len && r.start == lo
    ensures var m := [Tile(Range(r.start, len), true)] + Rest(r, len);
            && Chain(m, lo) && Total(m) == r.len
            && Only(m, true) == [Range(r.start, len)] && Only(m, false) == RestRange(r, len)
  {
    var a, b := [Tile(Range(r.start, len), true)], Rest(r, len);
    ChainOne(a[0], lo);
    OnlyOne(a[0], true);
    OnlyOne(a[0], false);
    if len < r.len {
      ChainOne(b[0], lo + len);
      OnlyOne(b[0], true);
      OnlyOne(b[0], false);
    }
    ChainAppend(a, b, lo);
    OnlyAppend(a, b, true);
    OnlyAppend(a, b, false);
  }

  /** Everything in pre starts before, everything in post after, a middle row. */
  lemma AroundMiddle(pre: seq<Tile>, mid: seq<Tile>, post: seq<Tile>, lo: nat, live: bool)
    requires Chain(pre + mid + post, lo)
    ensures forall x :: x in Only(pre, live) ==> x.len > 0 && x.End() <= lo + Total(pre)
    ensures forall x :: x in Only(post, live) ==> lo + Total(pre) + Total(mid) <= x.start
  {
    Concat3(pre, mid, post, lo);
    InSpan(pre, lo, live);
    InSpan(post, lo + Total(pre) + Total(mid), live);
  }

  lemma TakeKeeps(pre: seq<Tile>, r: Range, len: nat, post: seq<Tile>, lo: nat, hi: nat)
    requires Tiled(pre + [Tile(r, false)] + post, lo, hi) && NoFreePair(pre + [Tile(r, false)] + post)
    requires 0 < len <= r.len
    ensures var old_, new_ := pre + [Tile(r, false)] + post, TakeTiles(pre, r, len, post);
            && Tiled(new_, lo, hi) && NoFreePair(new_)
            && Only(new_, false) == Only(pre, false) + RestRange(r, len) + Only(post, false)
            && Only(new_, true) == Insert(Only(old_, true), Range(r.start, len))
            && new_ != [] && (old_[0].live ==> new_[0].live)
  {
    hide Only, Chain, Total, Insert;
    var one := [Tile(r, false)];
    var mid := [Tile(Range(r.start, len), true)] + Rest(r, len);
    Concat3(pre, one, post, lo);
    ChainOne(one[0], lo + Total(pre));
    OnlyOne(one[0], true);
    OnlyOne(one[0], false);
    TakenChain(r, len, lo + Total(pre));
    Concat3(pre, mid, post, lo);
    var new_ := TakeTiles(pre, r, len, post);
    assert new_ == pre + mid + post;
    TakeNoFreePair(pre, r, len, post);
    AroundMiddle(pre, mid, post, lo, true);
    InsertMiddle(Only(pre, true), Range(r.start, len), Only(post, true));
    assert Only(pre, true) + [] + Only(post, true) == Only(pre, true) + Only(post, true);
    if pre != [] {
      assert new_[0] == pre[0];
    }
  }

  lemma TakeNoFreePair(pre: seq<Tile>, r: Range, len: nat, post: seq<Tile>)
    requires NoFreePair(pre + [Tile(r, false)] + post) && len <= r.len
    ensures NoFreePair(TakeTiles(pre, r, len, post))
  {
    var o, n := pre + [Tile(r, false)] + post, TakeTiles(pre, r, len, post);
    var p, d := |pre|, |Rest(r, len)|;
    forall i, j | 0 <= i < |n| && j == i + 1 < |n| ensures n[i].live || n[j].live {
      if j < p {
        assert n[i] == o[i] && n[j] == o[j];
      } else if i > p {
        assert n[j] == o[j - d];
        assert o[j - d - 1].live || o[j - d].live;
        if i > p + d {
          assert n[i] == o[i - d];
        }
      }
    }
  }

  // ----- release on the row -----

  lemma ReleaseRanges(pre: seq<Tile>, r: Range, post: seq<Tile>, lo: nat)
    requires Chain(pre + [Tile(r, true)] + post, lo)
    ensures var old_, new_ := pre + [Tile(r, true)] + post, pre + [Tile(r, false)] + post;
            && Chain(new_, lo) && Total(new_) == Total(old_)
            && Only(new_, false) == Insert(Only(old_, false), r)
            && Only(new_, true) == Only(pre, true) + Only(post, true)
            && Only(old_, true) == Only(pre, true) + [r] + Only(post, true)
  {
    hide Only, Chain, Total, Insert;
    var a, b := [Tile(r, true)], [Tile(r, false)];
    Concat3(pre, a, post, lo);
    Concat3(pre, b, post, lo);
    ChainOne(a[0], lo + Total(pre));
    ChainOne(b[0], lo + Total(pre));
    OnlyOne(a[0], true);
    OnlyOne(a[0], false);
    OnlyOne(b[0], true);
    OnlyOne(b[0], false);
    AroundMiddle(pre, a, post, lo, false);
    InsertMiddle(Only(pre, false), r, Only(post, false));
    assert Only(pre, false) + [] + Only(post, false) == Only(pre, false) + Only(post, false);
    assert Only(pre, true) + [] + Only(post, true) == Only(pre, true) + Only(post, true);
  }

  /** The correction of the squeeze offset: a free range at the boundary, below
      the regular start, is given back; a range that reaches over the start is
      cut there. */
  function TrimRanges(rs: seq<Range>, off: nat, start: nat): (seq<Range>, nat) {
    if rs != [] && off > 0 && rs[0].start + off == start then
      if rs[0].len <= off then (rs[1..], off - rs[0].len)
      else (Insert(rs[1..], Range(start, rs[0].len - off)), 0)
    else (rs, off)
  }

  function TrimTiles(ts: seq<Tile>, lo: nat, start: nat): seq<Tile>
    requires Chain(ts, lo)
  {
    if ts != [] && lo < start && !ts[0].live then
      if ts[0].range.len <= start - lo then ts[1..]
      else [Tile(Range(start, ts[0].range.len - (start - lo)), false)] + ts[1..]
    else ts
  }

  /** Trimming keeps the row tiled up to hi, keeps the live ranges, and leaves a
      live tile at a boundary below the start. */
  lemma TrimKeeps(ts: seq<Tile>, lo: nat, hi: nat, start: nat)
    requires Tiled(ts, lo, hi) && NoFreePair(ts) && lo <= start < hi
    ensures var (rs, off) := TrimRanges(Only(ts, false), start - lo, start);
            var t := TrimTiles(ts, lo, start);
            && off <= start - lo
            && Tiled(t, start - off, hi) && NoFreePair(t)
            && Only(t, false) == rs && Only(t, true) == Only(ts, true)
            && (off > 0 ==> t != [] && t[0].live)
  {
    var f := Only(ts, false);
    assert ts != [];
    if ts[0].live {
      NextFreeLater(ts, lo);
      if f != [] {
        assert f[0] in f;
      }
    } else {
      var rest := ts[1..];
      assert f == [ts[0].range] + Only(rest, false);
      assert f[1..] == Only(rest, false);
      assert Only(ts, true) == [] + Only(rest, true) == Only(rest, true);
      if lo < start {
        TailNoFreePair(ts);
        assert rest != [] ==> ts[0].live || ts[1].live;
        if ts[0].range.len > start - lo {
          TrimCut(ts, lo, start);
        }
      }
    }
  }

  lemma TrimCut(ts: seq<Tile>, lo: nat, start: nat)
    requires Chain(ts, lo) && ts != [] && !ts[0].live && NoFreePair(ts)
    requires lo < start < ts[0].range.End()
    ensures var cut := Range(start, ts[0].range.End() - start);
            var t := [Tile(cut, false)] + ts[1..];
            && Chain(t, start) && start + Total(t) == lo + Total(ts) && NoFreePair(t)
            && Only(t, false) == Insert(Only(ts[1..], false), cut)
            && Only(t, true) == Only(ts[1..], true)
  {
    var cut := Range(start, ts[0].range.End() - start);
    var t := [Tile(cut, false)] + ts[1..];
    assert t[1..] == ts[1..];
    forall i, j | 0 <= i < |t| && j == i + 1 < |t| ensures t[i].live || t[j].live {
      assert ts[i].live || ts[j].live;
    }
    InSpan(ts[1..], ts[0].range.End(), false);
    InsertMiddle([], cut, Only(ts[1..], false));
    assert [] + Only(ts[1..], false) == Only(ts[1..], false);
    assert [] + [cut] + Only(ts[1..], false) == [cut] + Only(ts[1..], false);
    assert Only(t, true) == [] + Only(ts[1..], true) == Only(ts[1..], true);
  }
}
