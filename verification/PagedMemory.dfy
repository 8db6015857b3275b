/** MemMgr: units of a fixed size handed out from pages of 4096 bytes, with one
    '0' or '1' character per unit in a flag string at the head of each page. */
module PagedMemory {
  import opened Options
  import opened Bytes
  import opened Arith

  const PAGE := 4096

  // ----- FindAvailable -----

  /** n consecutive free units from index i on. */
  predicate FreeRun(flags: string, i: int, n: int) {
    0 <= i && 0 <= n && i + n <= |flags| && forall k :: i <= k < i + n ==> flags[k] == '0'
  }

  /** The plain search: the least start of n free units at or after i, or -1. */
  function Search(flags: string, n: nat, i: nat): int
    decreases |flags| - i
  {
    if i + n > |flags| then -1
    else if FreeRun(flags, i, n) then i
    else Search(flags, n, i + 1)
  }

  function Find(flags: string, n: int): int { if n < 1 then -1 else Search(flags, n, 0) }

  lemma {:induction false} SearchFinds(flags: string, n: nat, i: nat)
    requires n >= 1
    ensures var r := Search(flags, n, i);
            if r == -1 then forall k :: i <= k ==> !FreeRun(flags, k, n)
            else i <= r && FreeRun(flags, r, n) && forall k :: i <= k < r ==> !FreeRun(flags, k, n)
    decreases |flags| - i
  {
    if i + n <= |flags| && !FreeRun(flags, i, n) {
      SearchFinds(flags, n, i + 1);
    }
  }

  lemma FindIsLeast(flags: string, n: int, r: int)
    requires n >= 1
    requires if r == -1 then forall k :: !FreeRun(flags, k, n)
             else FreeRun(flags, r, n) && forall k :: 0 <= k < r ==> !FreeRun(flags, k, n)
    ensures r == Find(flags, n)
  {
    SearchFinds(flags, n, 0);
    var q := Find(flags, n);
    assert r >= 0 && q >= 0 ==> r == q;
  }

  /** strchr(p + from, '0') as an index, -1 for NULL. */
  function Strchr(s: string, from: nat): (r: int)
    requires from <= |s|
    ensures r == -1 ==> forall k :: from <= k < |s| ==> s[k] != '0'
    ensures r != -1 ==> from <= r < |s| && s[r] == '0' && forall k :: from <= k < r ==> s[k] != '0'
    decreases |s| - from
  {
    if from == |s| then -1 else if s[from] == '0' then from else Strchr(s, from + 1)
  }

  /** The pointer loop, with pointers as indices. It refines the plain search. */
  method FindAvailable(p: string, n: int) returns (r: int)
    ensures r == Find(p, n)
    ensures n >= 1 ==> (r == -1 <==> forall k :: !FreeRun(p, k, n))
    ensures r != -1 ==> FreeRun(p, r, n) && forall k :: 0 <= k < r ==> !FreeRun(p, k, n)
  {
    r := FindLoop(p, n);
    if n >= 1 {
      FindIsLeast(p, n, r);
    }
  }

  method FindLoop(p: string, n: int) returns (r: int)
    ensures n < 1 ==> r == -1
    ensures n >= 1 ==> if r == -1 then forall k :: !FreeRun(p, k, n)
                       else FreeRun(p, r, n) && forall k :: 0 <= k < r ==> !FreeRun(p, k, n)
  {
    var pStart := Strchr(p, 0);
    var pBegin, pTmp := pStart, pStart;
    if pStart == -1 {
      if n >= 1 {
        NoFreeRun(p, n);
      }
      return -1;
    }
    forall k | 0 <= k < pStart ensures n >= 1 ==> !FreeRun(p, k, n) {
      assert p[k] != '0';
    }
    if n == 1 {
      return pStart;
    }
    var count, bFlag := 1, false;
    var pTag := Strchr(p, pStart + 1);
    while pTag != -1
      invariant 0 <= pStart < |p| && pTmp == pStart && p[pStart] == '0'
      invariant pTag == Strchr(p, pStart + 1)
      invariant 1 <= count && (n >= 1 ==> count < n)
      invariant n < 1 || n >= 2
      invariant bFlag <==> count > 1
      invariant bFlag ==> pBegin == pStart + 1 - count
      invariant count <= pStart + 1
      invariant forall k :: pStart + 1 - count <= k <= pStart ==> p[k] == '0'
      invariant n >= 2 ==> forall k :: 0 <= k < pStart + 1 - count ==> !FreeRun(p, k, n)
      decreases |p| - pStart
    {
      if pTag - 1 == pTmp {
        if !bFlag {
          pBegin, bFlag := pStart, true;
        }
        count := count + 1;
        if n == count {
          return pBegin;
        }
        pStart := pStart + 1;
      } else {
        GapBlocks(p, n, pStart + 1 - count, count, pTag);
        pStart, count, bFlag := pTag, 1, false;
      }
      pTmp := pTag;
      pTag := Strchr(p, pStart + 1);
    }
    if n >= 2 {
      EndBlocks(p, n, pStart + 1 - count, count);
    }
    return -1;
  }

  lemma NoFreeRun(p: string, n: int)
    requires n >= 1 && forall k :: 0 <= k < |p| ==> p[k] != '0'
    ensures forall k :: !FreeRun(p, k, n)
  {
    forall k ensures !FreeRun(p, k, n) {
      if 0 <= k < |p| {
        assert p[k] != '0';
      }
    }
  }

  /** A run of fewer than n units that ends before a '1' starts no run of n, and
      neither does anything up to the next free unit. */
  lemma GapBlocks(p: string, n: int, begin: int, count: nat, next: int)
    requires 0 <= begin && begin + count < next < |p|
    requires n >= 1 ==> 1 <= count < n
    requires forall k :: begin + count <= k < next ==> p[k] != '0'
    ensures n >= 2 ==> forall k :: begin <= k < next ==> !FreeRun(p, k, n)
  {
    if n >= 2 {
      forall k | begin <= k < next ensures !FreeRun(p, k, n) {
        assert p[if k < begin + count then begin + count else k] != '0';
      }
    }
  }

  lemma EndBlocks(p: string, n: int, begin: int, count: nat)
    requires 0 <= begin && 1 <= count < n && begin + count <= |p|
    requires forall k :: begin + count <= k < |p| ==> p[k] != '0'
    requires forall k :: 0 <= k < begin ==> !FreeRun(p, k, n)
    ensures forall k :: !FreeRun(p, k, n)
  {
    forall k ensures !FreeRun(p, k, n) {
      var j := if k < begin + count then begin + count else k;
      if begin <= k && j < |p| {
        assert p[j] != '0';
      }
    }
  }

  // ----- pages -----

  /** One page: EleNode at `base`, its flag string, and the data area, which
      ends with the page and is kept here unit by unit. */
  datatype Page = Page(base: nat, hint: nat, flags: string, units: seq<seq<byte>>) {
    function Count(): nat { |flags| }
  }

  /** `node` is sizeof(EleNode), `unit` the size given to Init. */
  datatype Config = Config(node: nat, unit: nat)

  predicate ValidConfig(c: Config) { c.unit >= 1 && c.node + 1 <= PAGE }

  /** The number of units that Expend fits into a page. */
  function Capacity(c: Config): nat
    requires ValidConfig(c)
  {
    (PAGE - c.node - 1) / (c.unit + 1)
  }

  function DataStart(c: Config, p: Page): int { p.base + PAGE - p.Count() * c.unit }

  function DataEnd(c: Config, p: Page): int { DataStart(c, p) + p.Count() * c.unit }

  function Address(c: Config, p: Page, i: nat): int { DataStart(c, p) + i * c.unit }

  function Zeros(n: nat): seq<byte> { seq(n, _ => 0) }

  function NewPage(c: Config, base: nat): Page
    requires ValidConfig(c)
  {
    var x := Capacity(c);
    Page(base, 0, seq(x, _ => '0'), seq(x, _ => Zeros(c.unit)))
  }

  /** The flag string and its terminator end before the data area begins, and
      the data area ends exactly with the page. */
  lemma LayoutFits(c: Config, p: Page)
    requires ValidConfig(c) && p.Count() == Capacity(c)
    ensures p.base + c.node + p.Count() + 1 <= DataStart(c, p)
    ensures DataEnd(c, p) == p.base + PAGE
  {
    var x := p.Count();
    assert x * (c.unit + 1) <= PAGE - c.node - 1;
    assert x * (c.unit + 1) == x * c.unit + x;
  }

  /** A page holds as many units as fit behind the node with one flag each and the
      terminator, and no more. */
  lemma CapacityIsLargest(c: Config, x: nat)
    requires ValidConfig(c)
    ensures c.node + x * 1 + 1 + x * c.unit <= PAGE <==> x <= Capacity(c)
  {
    var d, q := c.unit + 1, Capacity(c);
    var room := PAGE - c.node - 1;
    Affine(x, 1, c.unit, 1);
    assert x * (c.unit * 1 + 1) == x * d;
    assert q * d <= room < q * d + d;
    NextTimes(q, d);
    if x <= q {
      MulMono(x, q, d);
    } else {
      MulMono(q + 1, x, d);
    }
  }

  // ----- the manager's state and operations, on values -----

  datatype Mgr = Mgr(config: Config, pages: seq<Page>)

  function Fill(flags: string, i: nat, n: nat, c: char): string
    requires i + n <= |flags|
  {
    flags[..i] + seq(n, _ => c) + flags[i + n..]
  }

  lemma FillStep(flags: string, i: nat, n: nat, c: char)
    requires i + n < |flags|
    ensures Fill(flags, i, n, c)[i + n := c] == Fill(flags, i, n + 1, c)
  {
  }

  function ZeroUnits(units: seq<seq<byte>>, i: nat, n: nat, size: nat): seq<seq<byte>>
    requires i + n <= |units|
  {
    units[..i] + seq(n, _ => Zeros(size)) + units[i + n..]
  }

  lemma ZeroStep(units: seq<seq<byte>>, i: nat, n: nat, size: nat)
    requires i + n < |units|
    ensures ZeroUnits(units, i, n, size)[i + n := Zeros(size)] == ZeroUnits(units, i, n + 1, size)
  {
  }

  /** The first page that can serve n units. */
  function FirstPage(pages: seq<Page>, n: int, from: nat): (k: nat)
    requires from <= |pages|
    ensures from <= k <= |pages|
    ensures k < |pages| ==> Find(pages[k].flags, n) != -1
    ensures forall j :: from <= j < k ==> Find(pages[j].flags, n) == -1
    decreases |pages| - from
  {
    if from == |pages| then from
    else if Find(pages[from].flags, n) != -1 then from
    else FirstPage(pages, n, from + 1)
  }

  /** A block handed out: n units from index i of page k. */
  datatype Block = Block(page: nat, i: nat, n: nat)

  /** The hint only ever goes down. */
  function Lower(hint: nat, i: nat): nat { if i < hint then i else hint }

  function Mark(m: Mgr, b: Block): Mgr
    requires b.page < |m.pages| && b.i + b.n <= m.pages[b.page].Count()
  {
    var p := m.pages[b.page];
    m.(pages := m.pages[b.page := p.(flags := Fill(p.flags, b.i, b.n, '1'),
                                     hint := if b.n == 0 then p.hint else Lower(p.hint, b.i))])
  }

  lemma FindFits(flags: string, n: int)
    ensures Find(flags, n) != -1 ==> n >= 1 && 0 <= Find(flags, n) && Find(flags, n) + n <= |flags| &&
                                     FreeRun(flags, Find(flags, n), n)
  {
    if n >= 1 {
      SearchFinds(flags, n, 0);
    }
  }

  /** Alloc of n units; `given` is what the system allocator would return for a
      new page. A page is added also when a request can never fit one. */
  function AllocFrom(m: Mgr, n: int, given: Option<nat>): (r: (Mgr, Option<Block>))
    requires ValidConfig(m.config)
    ensures r.1.Some? ==> r.1.value.page < |r.0.pages|
  {
    var k := FirstPage(m.pages, n, 0);
    if k < |m.pages| then
      FindFits(m.pages[k].flags, n);
      var b := Block(k, Find(m.pages[k].flags, n), n);
      (Mark(m, b), Some(b))
    else
      match given
      case None => (m, None)
      case Some(base) =>
        var m' := m.(pages := m.pages + [NewPage(m.config, base)]);
        var i := Find(m'.pages[k].flags, n);
        FindFits(m'.pages[k].flags, n);
        if i == -1 then (m', None) else (Mark(m', Block(k, i, n)), Some(Block(k, i, n)))
  }

  /** The page that Free picks for an address: the first one whose data area
      contains it, the end included. */
  function OwnerPage(m: Mgr, a: int, from: nat): (k: nat)
    requires from <= |m.pages|
    ensures from <= k <= |m.pages|
    ensures k < |m.pages| ==> DataStart(m.config, m.pages[k]) <= a <= DataEnd(m.config, m.pages[k])
    ensures forall j :: from <= j < k ==>
              !(DataStart(m.config, m.pages[j]) <= a <= DataEnd(m.config, m.pages[j]))
    decreases |m.pages| - from
  {
    if from == |m.pages| then from
    else if DataStart(m.config, m.pages[from]) <= a <= DataEnd(m.config, m.pages[from]) then from
    else OwnerPage(m, a, from + 1)
  }

  function Release(m: Mgr, b: Block): Mgr
    requires b.page < |m.pages| && b.i + b.n <= m.pages[b.page].Count() == |m.pages[b.page].units|
  {
    var p := m.pages[b.page];
    m.(pages := m.pages[b.page := p.(flags := Fill(p.flags, b.i, b.n, '0'),
                                     hint := Lower(p.hint, b.i),
                                     units := ZeroUnits(p.units, b.i, b.n, m.config.unit))])
  }

  /** The block that Free takes an address for. */
  function BlockAt(m: Mgr, a: int, n: nat): Block
    requires ValidConfig(m.config) && OwnerPage(m, a, 0) < |m.pages|
  {
    var k := OwnerPage(m, a, 0);
    Block(k, (a - DataStart(m.config, m.pages[k])) / m.config.unit, n)
  }

  /** Free of n units at an address; None when no page contains it (the exception)
      or the units run past the page. */
  function FreeAt(m: Mgr, a: int, n: nat): Option<Mgr>
    requires ValidConfig(m.config)
  {
    if OwnerPage(m, a, 0) == |m.pages| then None
    else
      var b := BlockAt(m, a, n);
      if b.i + n <= m.pages[b.page].Count() == |m.pages[b.page].units| then Some(Release(m, b)) else None
  }

  /** A client writes byte `v` at offset `o` of unit `j` of its block. */
  function Write(m: Mgr, b: Block, j: nat, o: nat, v: byte): Mgr
    requires b.page < |m.pages| && b.i <= j < b.i + b.n <= |m.pages[b.page].units|
    requires o < |m.pages[b.page].units[j]|
  {
    var p := m.pages[b.page];
    var u: seq<byte> := p.units[j][o := v];
    m.(pages := m.pages[b.page := p.(units := p.units[j := u])])
  }

  // ----- the invariant -----

  ghost predicate PageOk(c: Config, p: Page)
    requires ValidConfig(c)
  {
    && p.Count() == Capacity(c) && p.hint == 0
    && |p.units| == p.Count()
    && (forall j :: 0 <= j < |p.units| ==> |p.units[j]| == c.unit)
    && (forall j :: 0 <= j < |p.flags| ==> p.flags[j] == '0' || p.flags[j] == '1')
    && (forall j :: 0 <= j < |p.flags| && p.flags[j] == '0' ==> p.units[j] == Zeros(c.unit))
  }

  predicate Apart(p: Page, q: Page) { p.base + PAGE <= q.base || q.base + PAGE <= p.base }

  predicate Covers(b: Block, k: nat, j: nat) { b.page == k && b.i <= j < b.i + b.n }

  ghost predicate Owned(live: set<Block>, k: nat, j: nat) { exists b :: b in live && Covers(b, k, j) }

  /** The flags are '1' exactly on the union of the live blocks. */
  ghost predicate FlagsOk(pages: seq<Page>, live: set<Block>) {
    forall k: nat, j: nat :: k < |pages| && j < |pages[k].flags| ==>
      (pages[k].flags[j] == '1' <==> Owned(live, k, j))
  }

  ghost predicate Disjoint(live: set<Block>) {
    forall b, d, k: nat, j: nat :: b in live && d in live && Covers(b, k, j) && Covers(d, k, j) ==> b == d
  }

  ghost predicate Inside(pages: seq<Page>, live: set<Block>) {
    forall b :: b in live ==> b.n >= 1 && b.page < |pages| && b.i + b.n <= pages[b.page].Count()
  }

  ghost predicate Inv(m: Mgr, live: set<Block>) {
    && ValidConfig(m.config)
    && (forall k :: 0 <= k < |m.pages| ==> PageOk(m.config, m.pages[k]))
    && (forall k, q :: 0 <= k < q < |m.pages| ==> Apart(m.pages[k], m.pages[q]))
    && Inside(m.pages, live)
    && Disjoint(live)
    && FlagsOk(m.pages, live)
  }

  // ----- every operation keeps it -----

  /** A page added by Expend is all free and zero, and apart from the others. */
  lemma ExpendKeepsInv(m: Mgr, live: set<Block>, base: nat)
    requires Inv(m, live)
    requires forall k :: 0 <= k < |m.pages| ==> Apart(m.pages[k], NewPage(m.config, base))
    ensures Inv(m.(pages := m.pages + [NewPage(m.config, base)]), live)
  {
    var m' := m.(pages := m.pages + [NewPage(m.config, base)]);
    forall k | 0 <= k < |m'.pages| ensures PageOk(m'.config, m'.pages[k]) {
      if k < |m.pages| {
        assert PageOk(m.config, m.pages[k]);
      }
    }
    forall k: nat, j: nat | k < |m'.pages| && j < |m'.pages[k].flags|
      ensures m'.pages[k].flags[j] == '1' <==> Owned(live, k, j)
    {
      if k < |m.pages| {
        assert m.pages[k].flags[j] == '1' <==> Owned(live, k, j);
      }
    }
  }

  lemma MarkKeepsPages(m: Mgr, b: Block)
    requires ValidConfig(m.config) && b.page < |m.pages| && PageOk(m.config, m.pages[b.page])
    requires b.i + b.n <= m.pages[b.page].Count()
    ensures PageOk(m.config, Mark(m, b).pages[b.page])
  {
  }

  /** Marking a free run makes it a new block, disjoint from every other, whose
      units are all zero. */
  lemma MarkKeepsInv(m: Mgr, live: set<Block>, b: Block)
    requires Inv(m, live) && b.n >= 1 && b.page < |m.pages|
    requires FreeRun(m.pages[b.page].flags, b.i, b.n)
    ensures Inv(Mark(m, b), live + {b})
    ensures b !in live
    ensures forall j :: b.i <= j < b.i + b.n ==> Mark(m, b).pages[b.page].units[j] == Zeros(m.config.unit)
  {
    var m' := Mark(m, b);
    var live' := live + {b};
    assert PageOk(m.config, m.pages[b.page]);
    RunIsUnowned(m, live, b);
    MarkKeepsPages(m, b);
    forall k: nat, j: nat | k < |m'.pages| && j < |m'.pages[k].flags|
      ensures m'.pages[k].flags[j] == '1' <==> Owned(live', k, j)
    {
      assert m.pages[k].flags[j] == '1' <==> Owned(live, k, j);
      OwnedAdd(live, b, k, j);
    }
  }

  lemma RunIsUnowned(m: Mgr, live: set<Block>, b: Block)
    requires FlagsOk(m.pages, live) && b.n >= 1 && b.page < |m.pages|
    requires FreeRun(m.pages[b.page].flags, b.i, b.n)
    ensures b !in live
    ensures forall d, k: nat, j: nat :: d in live && Covers(d, k, j) ==> !Covers(b, k, j)
  {
    forall j: nat | b.i <= j < b.i + b.n ensures !Owned(live, b.page, j) {
      assert m.pages[b.page].flags[j] == '0';
    }
    forall d, k: nat, j: nat | d in live && Covers(d, k, j) ensures !Covers(b, k, j) {
      assert Owned(live, k, j);
    }
    if b in live {
      assert Covers(b, b.page, b.i);
    }
  }

  lemma OwnedAdd(live: set<Block>, b: Block, k: nat, j: nat)
    ensures Owned(live + {b}, k, j) <==> Owned(live, k, j) || Covers(b, k, j)
  {
    if Owned(live, k, j) {
      var d :| d in live && Covers(d, k, j);
      assert d in live + {b};
    }
    if Covers(b, k, j) {
      assert b in live + {b};
    }
  }

  lemma OwnedRemove(live: set<Block>, b: Block, k: nat, j: nat)
    requires Disjoint(live) && b in live
    ensures Owned(live - {b}, k, j) <==> Owned(live, k, j) && !Covers(b, k, j)
  {
    if Owned(live, k, j) && !Covers(b, k, j) {
      var d :| d in live && Covers(d, k, j);
      assert d in live - {b};
    }
  }

  lemma ReleaseKeepsPages(m: Mgr, b: Block)
    requires ValidConfig(m.config) && b.page < |m.pages| && PageOk(m.config, m.pages[b.page])
    requires b.i + b.n <= m.pages[b.page].Count()
    ensures PageOk(m.config, Release(m, b).pages[b.page])
  {
  }

  lemma ReleaseKeepsInv(m: Mgr, live: set<Block>, b: Block)
    requires Inv(m, live) && b in live
    requires |m.pages[b.page].units| == m.pages[b.page].Count()
    ensures Inv(Release(m, b), live - {b})
  {
    var m' := Release(m, b);
    var live' := live - {b};
    ReleaseKeepsPages(m, b);
    forall k: nat, j: nat | k < |m'.pages| && j < |m'.pages[k].flags|
      ensures m'.pages[k].flags[j] == '1' <==> Owned(live', k, j)
    {
      assert m.pages[k].flags[j] == '1' <==> Owned(live, k, j);
      OwnedRemove(live, b, k, j);
    }
  }

  /** Freeing the block just handed out restores the pages exactly. */
  lemma ReleaseUndoesMark(m: Mgr, live: set<Block>, b: Block)
    requires Inv(m, live) && b.n >= 1 && b.page < |m.pages| && FreeRun(m.pages[b.page].flags, b.i, b.n)
    ensures |Mark(m, b).pages[b.page].units| == Mark(m, b).pages[b.page].Count()
    ensures Release(Mark(m, b), b) == m
  {
    hide FlagsOk, Disjoint, Inside;
    var p := m.pages[b.page];
    assert PageOk(m.config, p);
    assert Fill(Fill(p.flags, b.i, b.n, '1'), b.i, b.n, '0') == p.flags;
    assert ZeroUnits(p.units, b.i, b.n, m.config.unit) == p.units;
    assert Release(Mark(m, b), b).pages == m.pages;
  }

  /** A client that writes only its own block disturbs nothing. */
  lemma WriteKeepsInv(m: Mgr, live: set<Block>, b: Block, j: nat, o: nat, v: byte)
    requires Inv(m, live) && b in live && b.i <= j < b.i + b.n <= |m.pages[b.page].units|
    requires o < |m.pages[b.page].units[j]|
    ensures Inv(Write(m, b, j, o, v), live)
  {
    var m' := Write(m, b, j, o, v);
    assert Covers(b, b.page, j) && Owned(live, b.page, j);
    assert PageOk(m.config, m.pages[b.page]);
    forall k | 0 <= k < |m'.pages| ensures PageOk(m'.config, m'.pages[k]) {
      assert PageOk(m.config, m.pages[k]);
    }
    forall k: nat, q: nat | k < |m'.pages| && q < |m'.pages[k].flags|
      ensures m'.pages[k].flags[q] == '1' <==> Owned(live, k, q)
    {
      assert m.pages[k].flags[q] == '1' <==> Owned(live, k, q);
    }
  }

  /** Free's inclusive upper bound still picks the page that owns the block,
      and the division recovers its index. */
  lemma FreeFindsOwner(m: Mgr, live: set<Block>, b: Block)
    requires Inv(m, live) && b in live
    ensures var a := Address(m.config, m.pages[b.page], b.i);
            && OwnerPage(m, a, 0) == b.page
            && (a - DataStart(m.config, m.pages[b.page])) / m.config.unit == b.i
  {
    var c := m.config;
    var p := m.pages[b.page];
    var a := Address(c, p, b.i);
    assert PageOk(c, p);
    LayoutFits(c, p);
    InArea(c.unit, b.i, p.Count());
    assert DataStart(c, p) <= a < DataEnd(c, p);
    forall j | 0 <= j < b.page ensures !(DataStart(c, m.pages[j]) <= a <= DataEnd(c, m.pages[j])) {
      assert PageOk(c, m.pages[j]);
      LayoutFits(c, m.pages[j]);
      assert Apart(m.pages[j], p);
    }
    var k := OwnerPage(m, a, 0);
    assert k == b.page;
  }

  lemma InArea(unit: nat, i: nat, count: nat)
    requires unit >= 1 && i < count
    ensures 0 <= i * unit < count * unit
    ensures (i * unit) / unit == i
  {
    MulMono(i + 1, count, unit);
    var q := (i * unit) / unit;
    if q < i {
      MulMono(q + 1, i, unit);
      assert false;
    }
    if q > i {
      MulMono(i + 1, q, unit);
      assert false;
    }
  }

  // ----- runs of matched Alloc and Free -----

  /** Grow is the page that Init asks for. */
  datatype Op =
    | Grow(base: nat)
    | Alloc(n: int, given: Option<nat>)
    | Free(a: int, size: nat)
    | Store(b: Block, j: nat, o: nat, v: byte)

  datatype World = World(mgr: Mgr, live: set<Block>)

  /** Address and unit count of a block, as Alloc returned and was given them. */
  predicate HandedOut(m: Mgr, b: Block, a: int, n: nat) {
    b.page < |m.pages| && a == Address(m.config, m.pages[b.page], b.i) && n == b.n
  }

  /** A page from the system allocator overlaps none in use; Free names the address
      of a live block with its unit count, and writes stay inside one. */
  ghost predicate Allowed(w: World, op: Op) {
    && ValidConfig(w.mgr.config)
    && match op
       case Grow(base) => forall k :: 0 <= k < |w.mgr.pages| ==> Apart(w.mgr.pages[k], NewPage(w.mgr.config, base))
       case Alloc(_, given) =>
         given.Some? ==> forall k :: 0 <= k < |w.mgr.pages| ==> Apart(w.mgr.pages[k], NewPage(w.mgr.config, given.value))
       case Free(a, n) => exists b :: b in w.live && HandedOut(w.mgr, b, a, n)
       case Store(b, j, o, _) =>
         b in w.live && b.page < |w.mgr.pages| && b.i <= j < b.i + b.n <= |w.mgr.pages[b.page].units| &&
         o < |w.mgr.pages[b.page].units[j]|
  }

  ghost function Do(w: World, op: Op): World
    requires Allowed(w, op)
  {
    match op
    case Grow(base) => World(w.mgr.(pages := w.mgr.pages + [NewPage(w.mgr.config, base)]), w.live)
    case Alloc(n, given) =>
      var (m, r) := AllocFrom(w.mgr, n, given);
      World(m, match r case None => w.live case Some(b) => w.live + {b})
    case Free(a, n) =>
      (match FreeAt(w.mgr, a, n)
       case None => w
       case Some(m) => World(m, w.live - {BlockAt(w.mgr, a, n)}))
    case Store(b, j, o, v) => World(Write(w.mgr, b, j, o, v), w.live)
  }

  ghost predicate IsRun(w: World, ops: seq<Op>)
    decreases |ops|
  {
    ops == [] || (Allowed(w, ops[0]) && IsRun(Do(w, ops[0]), ops[1..]))
  }

  ghost function Exec(w: World, ops: seq<Op>): World
    requires IsRun(w, ops)
    decreases |ops|
  {
    if ops == [] then w else Exec(Do(w, ops[0]), ops[1..])
  }

  /** What Alloc gives: a run of n units that was free everywhere, zero, and
      apart from every live block; or nothing, and then no page had room. */
  lemma AllocKeepsInv(w: World, n: int, given: Option<nat>)
    requires Inv(w.mgr, w.live) && Allowed(w, Alloc(n, given))
    ensures var (m, r) := AllocFrom(w.mgr, n, given);
            && Inv(m, Do(w, Alloc(n, given)).live)
            && match r
               case None =>
                 && m.pages[..|w.mgr.pages|] == w.mgr.pages
                 && (n >= 1 ==> forall k, i :: 0 <= k < |m.pages| ==> !FreeRun(m.pages[k].flags, i, n))
               case Some(b) =>
                 && b !in w.live && b.n == n >= 1 && b.page < |m.pages|
                 && b.i + n <= |m.pages[b.page].units|
                 && forall j :: b.i <= j < b.i + n ==> m.pages[b.page].units[j] == Zeros(m.config.unit)
  {
    var k := FirstPage(w.mgr.pages, n, 0);
    var (m, r) := AllocFrom(w.mgr, n, given);
    if k < |w.mgr.pages| {
      FindFits(w.mgr.pages[k].flags, n);
      MarkKeepsInv(w.mgr, w.live, r.value);
      assert PageOk(w.mgr.config, w.mgr.pages[k]);
    } else {
      if given.Some? {
        ExpendKeepsInv(w.mgr, w.live, given.value);
        var m' := w.mgr.(pages := w.mgr.pages + [NewPage(w.mgr.config, given.value)]);
        FindFits(m'.pages[k].flags, n);
        if r.Some? {
          MarkKeepsInv(m', w.live, r.value);
          assert PageOk(m'.config, m'.pages[k]);
        }
      }
      if r.None? && n >= 1 {
        forall q, i | 0 <= q < |m.pages| ensures !FreeRun(m.pages[q].flags, i, n) {
          SearchFinds(m.pages[q].flags, n, 0);
          assert Find(m.pages[q].flags, n) == -1;
        }
      }
    }
  }

  lemma FreeIsRelease(m: Mgr, live: set<Block>, b: Block, a: int, n: nat)
    requires Inv(m, live) && b in live && HandedOut(m, b, a, n)
    ensures OwnerPage(m, a, 0) == b.page && BlockAt(m, a, n) == b
    ensures b.i + b.n <= m.pages[b.page].Count() == |m.pages[b.page].units|
    ensures FreeAt(m, a, n) == Some(Release(m, b))
  {
    FreeFindsOwner(m, live, b);
    assert PageOk(m.config, m.pages[b.page]);
    hide OwnerPage, Release, FlagsOk, Disjoint, DataStart;
  }

  /** Free by address releases exactly the block that was handed out there. */
  lemma FreeKeepsInv(w: World, a: int, n: nat)
    requires Inv(w.mgr, w.live) && Allowed(w, Free(a, n))
    ensures exists b :: b in w.live && HandedOut(w.mgr, b, a, n) && Do(w, Free(a, n)).live == w.live - {b}
    ensures Inv(Do(w, Free(a, n)).mgr, Do(w, Free(a, n)).live)
  {
    var b :| b in w.live && HandedOut(w.mgr, b, a, n);
    FreeIsRelease(w.mgr, w.live, b, a, n);
    ReleaseKeepsInv(w.mgr, w.live, b);
    hide Inv, OwnerPage, Release, FreeAt, BlockAt;
  }

  /** Alloc takes the least run in the first page that has one, and adds a page
      exactly when none has and the system gives one. */
  lemma AllocTakesLeast(m: Mgr, n: int, given: Option<nat>)
    requires ValidConfig(m.config) && n >= 1
    ensures var (m', r) := AllocFrom(m, n, given);
            var room := exists k, i :: 0 <= k < |m.pages| && FreeRun(m.pages[k].flags, i, n);
            && |m'.pages| == |m.pages| + (if !room && given.Some? then 1 else 0)
            && (forall k :: 0 <= k < |m'.pages| ==>
                  m'.pages[k].base == if k < |m.pages| then m.pages[k].base else given.value)
            && (r.Some? ==>
                  var b := r.value;
                  && b.n == n && b.page < |m'.pages|
                  && (forall k, i :: 0 <= k < |m.pages| && k < b.page ==> !FreeRun(m.pages[k].flags, i, n))
                  && (b.page < |m.pages| ==>
                        FreeRun(m.pages[b.page].flags, b.i, n) &&
                        forall i :: 0 <= i < b.i ==> !FreeRun(m.pages[b.page].flags, i, n))
                  && (b.page == |m.pages| ==> b.i == 0))
            && (r.None? ==> !room && (given.Some? ==> n > Capacity(m.config)))
  {
    hide Capacity;
    var k := FirstPage(m.pages, n, 0);
    forall j | 0 <= j < |m.pages| ensures Find(m.pages[j].flags, n) == -1 <==> forall i :: !FreeRun(m.pages[j].flags, i, n) {
      SearchFinds(m.pages[j].flags, n, 0);
    }
    if k < |m.pages| {
      SearchFinds(m.pages[k].flags, n, 0);
      FindFits(m.pages[k].flags, n);
      assert FreeRun(m.pages[k].flags, Find(m.pages[k].flags, n), n);
    } else if given.Some? {
      FreshPage(m.config, given.value, n);
      FindFits(NewPage(m.config, given.value).flags, n);
    }
  }

  /** A new page serves a request from its first unit, if it is large enough. */
  lemma FreshPage(c: Config, base: nat, n: nat)
    requires ValidConfig(c) && n >= 1
    ensures Find(NewPage(c, base).flags, n) == if n <= Capacity(c) then 0 else -1
  {
    hide Capacity;
    var flags := NewPage(c, base).flags;
    SearchFinds(flags, n, 0);
    assert n <= |flags| ==> FreeRun(flags, 0, n);
  }

  /** Where the bytes of a unit are after an operation. */
  predicate UnitKept(m: Mgr, m': Mgr, k: nat, j: nat) {
    && k < |m.pages| && k < |m'.pages| && j < |m.pages[k].units| && j < |m'.pages[k].units|
    && m'.pages[k].units[j] == m.pages[k].units[j]
  }

  lemma LiveUnit(m: Mgr, live: set<Block>, d: Block, j: nat)
    requires Inv(m, live) && d in live && Covers(d, d.page, j)
    ensures d.page < |m.pages| && j < |m.pages[d.page].units|
  {
    assert PageOk(m.config, m.pages[d.page]);
  }

  /** Alloc and Free change no byte of any other live block. */
  lemma OthersKept(w: World, op: Op, d: Block, j: nat)
    requires Inv(w.mgr, w.live) && Allowed(w, op) && !op.Store?
    requires d in w.live && d in Do(w, op).live && Covers(d, d.page, j)
    ensures UnitKept(w.mgr, Do(w, op).mgr, d.page, j)
  {
    LiveUnit(w.mgr, w.live, d, j);
    match op
    case Grow(base) =>
    case Alloc(n, given) => AllocKeepsUnits(w.mgr, n, given, d.page, j);
    case Free(a, n) => FreeKeepsOther(w, a, n, d, j);
  }

  lemma FreeKeepsOther(w: World, a: int, n: nat, d: Block, j: nat)
    requires Inv(w.mgr, w.live) && Allowed(w, Free(a, n))
    requires d in w.live && d in Do(w, Free(a, n)).live && Covers(d, d.page, j)
    ensures UnitKept(w.mgr, Do(w, Free(a, n)).mgr, d.page, j)
  {
    var b :| b in w.live && HandedOut(w.mgr, b, a, n);
    FreeIsRelease(w.mgr, w.live, b, a, n);
    LiveUnit(w.mgr, w.live, d, j);
    assert !Covers(b, d.page, j);
    ReleaseKeepsUnits(w.mgr, b, d.page, j);
    hide Inv, OwnerPage, Release, FreeAt, BlockAt, UnitKept;
  }

  lemma ReleaseKeepsUnits(m: Mgr, b: Block, k: nat, j: nat)
    requires b.page < |m.pages| && b.i + b.n <= m.pages[b.page].Count() == |m.pages[b.page].units|
    requires k < |m.pages| && j < |m.pages[k].units| && !Covers(b, k, j)
    ensures UnitKept(m, Release(m, b), k, j)
  {
  }

  lemma AllocKeepsUnits(m: Mgr, n: int, given: Option<nat>, k: nat, j: nat)
    requires ValidConfig(m.config) && k < |m.pages| && j < |m.pages[k].units|
    ensures UnitKept(m, AllocFrom(m, n, given).0, k, j)
  {
    hide Find, Capacity, Fill, FirstPage;
  }

  lemma {:induction false} RunKeepsInv(w: World, ops: seq<Op>)
    requires Inv(w.mgr, w.live) && IsRun(w, ops)
    ensures Inv(Exec(w, ops).mgr, Exec(w, ops).live)
    decreases |ops|
  {
    if ops != [] {
      match ops[0] {
        case Grow(base) => ExpendKeepsInv(w.mgr, w.live, base);
        case Alloc(n, given) => AllocKeepsInv(w, n, given);
        case Free(a, n) => FreeKeepsInv(w, a, n);
        case Store(b, j, o, v) => WriteKeepsInv(w.mgr, w.live, b, j, o, v);
      }
      RunKeepsInv(Do(w, ops[0]), ops[1..]);
    }
  }

  function Fresh(c: Config): World { World(Mgr(c, []), {}) }

  /** In every run: live blocks are pairwise disjoint and inside their page,
      and the flags are '1' exactly on their union. */
  lemma BlocksAreDisjoint(c: Config, ops: seq<Op>)
    requires ValidConfig(c) && IsRun(Fresh(c), ops)
    ensures var w := Exec(Fresh(c), ops);
            && Inside(w.mgr.pages, w.live)
            && Disjoint(w.live)
            && FlagsOk(w.mgr.pages, w.live)
  {
    RunKeepsInv(Fresh(c), ops);
  }

  /** The bytes of a block. */
  function FirstByte(m: Mgr, b: Block): int
    requires b.page < |m.pages|
  {
    Address(m.config, m.pages[b.page], b.i)
  }

  function PastByte(m: Mgr, b: Block): int
    requires b.page < |m.pages|
  {
    Address(m.config, m.pages[b.page], b.i + b.n)
  }

  /** A block lies behind its page's flag string and inside the page. */
  lemma BlockInPage(m: Mgr, live: set<Block>, b: Block)
    requires Inv(m, live) && b in live
    ensures var p := m.pages[b.page];
            p.base + m.config.node + p.Count() + 1 <= FirstByte(m, b) < PastByte(m, b) <= p.base + PAGE
  {
    var c, p := m.config, m.pages[b.page];
    assert PageOk(c, p);
    LayoutFits(c, p);
    hide FlagsOk, Disjoint;
    MulMono(0, b.i, c.unit);
    MulMono(b.i + 1, b.i + b.n, c.unit);
    NextTimes(b.i, c.unit);
    MulMono(b.i + b.n, p.Count(), c.unit);
  }

  lemma UnitsApart(m: Mgr, b: Block, d: Block)
    requires b.page == d.page < |m.pages| && b.i + b.n <= d.i
    ensures PastByte(m, b) <= FirstByte(m, d)
  {
    MulMono(b.i + b.n, d.i, m.config.unit);
  }

  /** Two live blocks have no unit in common, so they are apart in their page. */
  lemma SamePageApart(live: set<Block>, b: Block, d: Block)
    requires Disjoint(live) && b in live && d in live && b != d && b.page == d.page && b.n >= 1 && d.n >= 1
    ensures b.i + b.n <= d.i || d.i + d.n <= b.i
  {
    var j := if b.i < d.i then d.i else b.i;
    assert Covers(b, b.page, j) ==> !Covers(d, d.page, j);
  }

  /** In every run the bytes of live blocks lie in their page's data area, behind
      the flag string and its terminator, and no two blocks share a byte. */
  lemma BytesAreDisjoint(c: Config, ops: seq<Op>, b: Block, d: Block)
    requires ValidConfig(c) && IsRun(Fresh(c), ops)
    requires b in Exec(Fresh(c), ops).live && d in Exec(Fresh(c), ops).live && b != d
    ensures var m := Exec(Fresh(c), ops).mgr;
            && b.page < |m.pages| && d.page < |m.pages|
            && (var p := m.pages[b.page];
                p.base + m.config.node + p.Count() + 1 <= FirstByte(m, b) < PastByte(m, b) <= p.base + PAGE)
            && (PastByte(m, b) <= FirstByte(m, d) || PastByte(m, d) <= FirstByte(m, b))
  {
    RunKeepsInv(Fresh(c), ops);
    var w := Exec(Fresh(c), ops);
    BlockInPage(w.mgr, w.live, b);
    BlockInPage(w.mgr, w.live, d);
    hide FirstByte, PastByte, FlagsOk, PageOk, IsRun, Exec;
    if b.page == d.page {
      SamePageApart(w.live, b, d);
      if b.i + b.n <= d.i {
        UnitsApart(w.mgr, b, d);
      } else {
        UnitsApart(w.mgr, d, b);
      }
    } else {
      assert Apart(w.mgr.pages[b.page], w.mgr.pages[d.page]) by {
        if b.page > d.page {
          assert Apart(w.mgr.pages[d.page], w.mgr.pages[b.page]);
        }
      }
    }
  }

  /** In every run each block handed out is all zero, if clients write only
      their own blocks. */
  lemma HandedOutZeroed(c: Config, ops: seq<Op>, n: int, given: Option<nat>)
    requires ValidConfig(c) && IsRun(Fresh(c), ops) && Allowed(Exec(Fresh(c), ops), Alloc(n, given))
    ensures var w := Exec(Fresh(c), ops);
            var (m, r) := AllocFrom(w.mgr, n, given);
            r.Some? ==>
              && r.value !in w.live && r.value.page < |m.pages|
              && r.value.i + n <= |m.pages[r.value.page].units|
              && forall j :: r.value.i <= j < r.value.i + n ==> m.pages[r.value.page].units[j] == Zeros(m.config.unit)
  {
    RunKeepsInv(Fresh(c), ops);
    AllocKeepsInv(Exec(Fresh(c), ops), n, given);
  }

  // ----- the code, in place -----

  class MemMgr {
    var config: Config
    var pages: seq<Page>

    ghost function View(): Mgr
      reads this
    {
      Mgr(config, pages)
    }

    constructor (node: nat, blockSize: nat)
      requires ValidConfig(Config(node, blockSize))
      ensures View() == Fresh(Config(node, blockSize)).mgr
    {
      config := Config(node, blockSize);
      pages := [];
    }

    method Expend(base: nat)
      requires ValidConfig(config)
      modifies this`pages
      ensures pages == old(pages) + [NewPage(config, base)]
    {
      var unit := config.unit;
      var x := (PAGE - config.node - 1) / (unit + 1);
      var flags: string := [];
      for i := 0 to x
        invariant flags == seq(i, _ => '0')
      {
        flags := flags + ['0'];
      }
      var page := Page(base, 0, flags, seq(x, _ => Zeros(unit)));
      assert page == NewPage(config, base);
      pages := pages + [page];
    }

    /** The address returned is 0 for NULL. `given` is what the system
        allocator answers if a page is asked for. */
    method Alloc(n: int, given: Option<nat>) returns (a: int)
      requires ValidConfig(config)
      modifies this`pages
      ensures View() == AllocFrom(old(View()), n, given).0
      ensures a == match AllocFrom(old(View()), n, given).1
                   case None => 0
                   case Some(b) => Address(config, AllocFrom(old(View()), n, given).0.pages[b.page], b.i)
    {
      var k, index := 0, -1;
      while k < |pages|
        invariant k <= |pages| && pages == old(pages)
        invariant FirstPage(pages, n, 0) == FirstPage(pages, n, k)
        invariant index == -1
      {
        index := FindAvailable(pages[k].flags, n);
        if index != -1 { break; }
        k := k + 1;
      }
      assert k == FirstPage(pages, n, 0);
      if index == -1 {
        if given.None? { return 0; }
        Expend(given.value);
        index := FindAvailable(pages[k].flags, n);
        if index == -1 { return 0; }
      }
      FindFits(pages[k].flags, n);
      a := DataStart(config, pages[k]) + index * config.unit;
      SetUnits(k, index, n);
    }

    /** The flag loop of Alloc. */
    method SetUnits(k: nat, index: nat, n: nat)
      requires k < |pages| && index + n <= |pages[k].flags|
      modifies this`pages
      ensures View() == Mark(old(View()), Block(k, index, n))
    {
      ghost var flags := pages[k].flags;
      var p := pages[k];
      var i := 0;
      assert Fill(flags, index, 0, '1') == flags;
      while i < n
        invariant 0 <= i <= n && pages == old(pages)
        invariant p == pages[k].(flags := Fill(flags, index, i, '1'),
                                 hint := if i == 0 then pages[k].hint else Lower(pages[k].hint, index + n - i))
      {
        FillStep(flags, index, i, '1');
        p := p.(flags := p.flags[index + i := '1']);
        i := i + 1;
        if index + (n - i) < p.hint {
          p := p.(hint := index + (n - i));
        }
      }
      pages := pages[k := p];
    }

    method ClearUnits(k: nat, index: nat, n: nat)
      requires k < |pages| && index + n <= |pages[k].flags| == |pages[k].units|
      modifies this`pages
      ensures pages == old(pages)[k := Release(old(View()), Block(k, index, n)).pages[k].(hint := old(pages)[k].hint)]
    {
      ghost var was := pages[k];
      var unit := config.unit;
      var p := pages[k];
      var i := 0;
      assert Fill(was.flags, index, 0, '0') == was.flags;
      assert ZeroUnits(was.units, index, 0, unit) == was.units;
      while i < n
        invariant 0 <= i <= n && pages == old(pages)
        invariant p == was.(flags := Fill(was.flags, index, i, '0'),
                            units := ZeroUnits(was.units, index, i, unit))
      {
        FillStep(was.flags, index, i, '0');
        ZeroStep(was.units, index, i, unit);
        p := p.(flags := p.flags[index + i := '0'], units := p.units[index + i := Zeros(unit)]);
        i := i + 1;
      }
      pages := pages[k := p];
    }

    /** Free of n units at an address; false stands for the exception thrown
        when no page contains it. */
    method Free(a: int, n: nat) returns (ok: bool)
      requires ValidConfig(config)
      requires forall k :: 0 <= k < |pages| ==> |pages[k].units| == |pages[k].flags|
      requires var k := OwnerPage(View(), a, 0);
               k < |pages| ==> (a - DataStart(config, pages[k])) / config.unit + n <= |pages[k].flags|
      modifies this`pages
      ensures var k := OwnerPage(old(View()), a, 0);
              if k == |old(pages)| then !ok && pages == old(pages)
              else
                && ok
                && FreeAt(old(View()), a, n) == Some(View())
    {
      hide Fill, ZeroUnits, DataStart, DataEnd;
      ghost var m := View();
      var k := 0;
      while k < |pages| && !(DataStart(config, pages[k]) <= a <= DataEnd(config, pages[k]))
        invariant k <= |pages| && pages == old(pages)
        invariant OwnerPage(View(), a, 0) == OwnerPage(View(), a, k)
      {
        k := k + 1;
      }
      if k == |pages| { return false; }
      var index := (a - DataStart(config, pages[k])) / config.unit;
      assert BlockAt(m, a, n) == Block(k, index, n);
      ClearUnits(k, index, n);
      assert FreeAt(m, a, n) == Some(Release(m, Block(k, index, n)));
      if index < pages[k].hint {
        pages := pages[k := pages[k].(hint := index)];
      }
      assert pages == Release(m, Block(k, index, n)).pages;
      ok := true;
    }
  }
}
