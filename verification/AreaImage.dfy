/** The managed byte area: [identifier 8][count 2, limit 2][flag length 4]
    [record length 4][squeeze offset 4][flag bits][records][usable memory]. */
module AreaImage {
  import opened Bytes
  import opened Counting
  import opened Arith
  import opened AreaTiles

  const HEADER := 24
  const SYMBOL: seq<byte> := [77, 101, 109, 65, 108, 108, 111, 99] // "MemAlloc"

  // ----- bits of a flag byte -----

  function Pow2(j: nat): (r: nat)
    ensures r >= 1
  {
    if j == 0 then 1 else 2 * Pow2(j - 1)
  }

  function Bits(b: nat, w: nat): (r: seq<bool>)
    ensures |r| == w
  {
    if w == 0 then [] else [b % 2 == 1] + Bits(b / 2, w - 1)
  }

  /** b | (1 << j) and b & ~(1 << j). */
  function OrBit(b: nat, j: nat): nat { if b / Pow2(j) % 2 == 1 then b else b + Pow2(j) }

  function ClearBit(b: nat, j: nat): nat { if b / Pow2(j) % 2 == 1 && Pow2(j) <= b then b - Pow2(j) else b }

  /** (b & (1 << j)) != 0 is bit j. */
  lemma {:induction false} BitAt(b: nat, w: nat, j: nat)
    requires j < w
    ensures Bits(b, w)[j] <==> b / Pow2(j) % 2 == 1
  {
    if j > 0 {
      BitAt(b / 2, w - 1, j - 1);
      DivTwice(b, j - 1);
    }
  }

  lemma DivTwice(b: nat, j: nat)
    ensures b / 2 / Pow2(j) == b / Pow2(j + 1)
  {
    var p, q := Pow2(j), b / 2 / Pow2(j);
    assert p * q <= b / 2 < p * q + p;
    assert (2 * p) * q <= b < (2 * p) * q + 2 * p;
    DivUnique(b, 2 * p, q);
  }

  lemma DivUnique(x: nat, d: nat, q: nat)
    requires d >= 1 && d * q <= x < d * q + d
    ensures x / d == q
  {
    var e := x / d;
    assert d * e <= x < d * e + d;
    if e < q {
      MulMono(e + 1, q, d);
      assert false;
    } else if e > q {
      MulMono(q + 1, e, d);
      assert false;
    }
  }

  /** Adding a power of two whose bit is clear sets that bit and no other. */
  lemma {:induction false} AddBit(b: nat, w: nat, j: nat)
    requires j < w && !Bits(b, w)[j]
    ensures Bits(b + Pow2(j), w) == Bits(b, w)[j := true]
  {
    if j > 0 {
      AddBit(b / 2, w - 1, j - 1);
      assert (b + Pow2(j)) / 2 == b / 2 + Pow2(j - 1);
      assert (b + Pow2(j)) % 2 == b % 2;
    }
  }

  /** Subtracting it again clears it. */
  lemma {:induction false} SubBit(b: nat, w: nat, j: nat)
    requires j < w && Bits(b, w)[j]
    ensures Pow2(j) <= b && Bits(b - Pow2(j), w) == Bits(b, w)[j := false]
  {
    if j > 0 {
      SubBit(b / 2, w - 1, j - 1);
      assert (b - Pow2(j)) / 2 == b / 2 - Pow2(j - 1);
      assert (b - Pow2(j)) % 2 == b % 2;
    }
  }

  lemma {:induction false} BitsBound(b: nat, w: nat, j: nat)
    requires j < w && b < Pow2(w) && !Bits(b, w)[j]
    ensures b + Pow2(j) < Pow2(w)
  {
    if j > 0 {
      BitsBound(b / 2, w - 1, j - 1);
    }
  }

  lemma Pow2Of8()
    ensures Pow2(8) == 256
  {
    assert Pow2(2) == 4;
    assert Pow2(4) == 4 * Pow2(2);
    assert Pow2(6) == 4 * Pow2(4);
    assert Pow2(8) == 4 * Pow2(6);
  }

  lemma ByteOps(b: byte, j: nat)
    requires j < 8
    ensures OrBit(b, j) < 256 && Bits(OrBit(b, j), 8) == Bits(b, 8)[j := true]
    ensures ClearBit(b, j) < 256 && Bits(ClearBit(b, j), 8) == Bits(b, 8)[j := false]
    ensures Bits(b, 8)[j] <==> b / Pow2(j) % 2 == 1
  {
    hide Bits, Pow2;
    BitAt(b, 8, j);
    Pow2Of8();
    if Bits(b, 8)[j] {
      SubBit(b, 8, j);
      assert Bits(b, 8)[j := true] == Bits(b, 8);
    } else {
      AddBit(b, 8, j);
      BitsBound(b, 8, j);
      assert Bits(b, 8)[j := false] == Bits(b, 8);
    }
  }

  /** All flag bits in order. */
  function BitsOf(flags: seq<byte>): (r: seq<bool>)
    ensures |r| == 8 * |flags|
  {
    seq(8 * |flags|, k requires 0 <= k < 8 * |flags| => Bits(flags[k / 8], 8)[k % 8])
  }

  lemma StoreBit(flags: seq<byte>, k: nat, v: bool)
    requires k < 8 * |flags|
    ensures var b := flags[k / 8];
            var b' := if v then OrBit(b, k % 8) else ClearBit(b, k % 8);
            b' < 256 && BitsOf(flags[k / 8 := b' as byte]) == BitsOf(flags)[k := v]
  {
    var b := flags[k / 8];
    ByteOps(b, k % 8);
    var b' := if v then OrBit(b, k % 8) else ClearBit(b, k % 8);
    var f' := flags[k / 8 := b' as byte];
    hide OrBit, ClearBit, Bits;
    forall i | 0 <= i < 8 * |flags| ensures BitsOf(f')[i] == BitsOf(flags)[k := v][i] {
      if i / 8 == k / 8 {
        assert BitsOf(f')[i] == Bits(b', 8)[i % 8];
        assert i % 8 == k % 8 ==> i == k;
      }
    }
  }

  // ----- the two scans over the flag bits -----

  predicate IsSet(b: bool) { b }

  function LastIndex(n: nat): nat { if n == 0 then 0 else n - 1 }

  /** Where the squeeze scan stops: at the c-th set bit, or at the end. */
  function ScanUsed(bits: seq<bool>, i: nat, seen: nat, c: nat): nat
    requires i <= |bits|
    decreases |bits| - i
  {
    if i == |bits| then LastIndex(|bits|)
    else if bits[i] && seen + 1 == c then i
    else ScanUsed(bits, i + 1, if bits[i] then seen + 1 else seen, c)
  }

  /** Where the slot search stops: at the first clear bit, or at the end. */
  function ScanFree(bits: seq<bool>, i: nat): nat
    requires i <= |bits|
    decreases |bits| - i
  {
    if i == |bits| then LastIndex(|bits|)
    else if !bits[i] then i
    else ScanFree(bits, i + 1)
  }

  /** Counting up to the number of set bits finds the highest one. */
  lemma {:induction false} ScanFindsHighest(bits: seq<bool>, i: nat, c: nat)
    requires i <= |bits| && Count(bits, IsSet) == c && Count(bits[..i], IsSet) < c
    ensures var r := ScanUsed(bits, i, Count(bits[..i], IsSet), c);
            r < |bits| && bits[r] && forall k :: r < k < |bits| ==> !bits[k]
    decreases |bits| - i
  {
    assert bits[..|bits|] == bits;
    if i < |bits| {
      var next := bits[..i + 1];
      assert next[..i] == bits[..i] && next[|next| - 1] == bits[i];
      if Count(next, IsSet) == c {
        CountRest(bits, i + 1);
      } else {
        ScanFindsHighest(bits, i + 1, c);
      }
    }
  }

  /** If a prefix has all the set bits, the rest are clear. */
  lemma {:induction false} CountRest(bits: seq<bool>, i: nat)
    requires i <= |bits| && Count(bits[..i], IsSet) == Count(bits, IsSet)
    ensures forall k :: i <= k < |bits| ==> !bits[k]
    decreases |bits|
  {
    if i < |bits| {
      var b := bits[..|bits| - 1];
      assert b[..i] == bits[..i];
      CountPrefix(b, i);
      CountRest(b, i);
    }
  }

  lemma {:induction false} CountPrefix(bits: seq<bool>, i: nat)
    requires i <= |bits|
    ensures Count(bits[..i], IsSet) <= Count(bits, IsSet)
    decreases |bits|
  {
    if i < |bits| {
      var b := bits[..|bits| - 1];
      assert b[..i] == bits[..i];
      CountPrefix(b, i);
    } else {
      assert bits[..i] == bits;
    }
  }

  lemma {:induction false} ScanUsedNone(bits: seq<bool>, i: nat, seen: nat)
    requires i <= |bits|
    ensures ScanUsed(bits, i, seen, 0) == LastIndex(|bits|)
    decreases |bits| - i
  {
    if i < |bits| {
      ScanUsedNone(bits, i + 1, if bits[i] then seen + 1 else seen);
    }
  }

  lemma {:induction false} ScanFreeFinds(bits: seq<bool>, i: nat)
    requires i <= |bits|
    ensures var r := ScanFree(bits, i);
            if exists k :: i <= k < |bits| && !bits[k]
            then i <= r < |bits| && !bits[r] && forall k :: i <= k < r ==> bits[k]
            else r == LastIndex(|bits|)
    decreases |bits| - i
  {
    if i < |bits| && bits[i] {
      ScanFreeFinds(bits, i + 1);
    }
  }

  // ----- layout -----

  /** `ptr` is the size of a pointer, 4 or 8; a RangeInfo is a pointer and an
      unsigned int, padded to two pointers. */
  datatype Layout = Layout(ptr: nat, total: nat) {
    predicate Valid() {
      && (ptr == 4 || ptr == 8)
      && HEADER <= total < 0x8000_0000
      && Limit() < 65536
    }

    /** k * sizeof(RangeInfo) */
    function Slots(k: nat): nat { if ptr == 4 then 8 * k else 16 * k }

    /** floor((total - 24) / (sizeof(RangeInfo) + 1 + 1/8)) */
    function Limit(): nat {
      if total < HEADER then 0
      else if ptr == 4 then 8 * (total - HEADER) / 73 else 8 * (total - HEADER) / 137
    }

    function FlagLen(): nat { if Limit() % 8 != 0 then Limit() / 8 + 1 else Limit() / 8 }

    function RecStart(): nat { HEADER + FlagLen() }

    function Slot(k: nat): nat { RecStart() + Slots(k) }

    function Start(): nat { Slot(Limit()) }
  }

  /** The usable memory begins inside the area, and is not empty unless the area
      is just the header. */
  lemma LayoutFits(l: Layout)
    requires l.Valid()
    ensures l.Start() <= l.total
    ensures l.total > HEADER ==> l.Start() < l.total
    ensures l.Limit() <= 8 * l.FlagLen() < l.Limit() + 8
  {
  }

  /** n records, n flag bits and n usable bytes fit behind the header; counted in
      bits. */
  predicate RoomFor(l: Layout, n: nat) {
    8 * (n * (2 * l.ptr)) + n + 8 * n <= 8 * (l.total - HEADER)
  }

  /** A record takes two pointers, and there are as many as fit together with a
      flag bit and one usable byte each, and no more. */
  lemma LimitIsLargest(l: Layout, n: nat)
    requires l.Valid()
    ensures l.Slots(n) == n * (2 * l.ptr)
    ensures RoomFor(l, n) <==> n <= l.Limit()
  {
    if l.ptr == 4 {
      assert n * (2 * 4) == 8 * n;
    } else {
      assert n * (2 * 8) == 16 * n;
    }
  }

  /** Where each part of the area begins. */
  lemma LayoutParts(l: Layout, k: nat)
    requires l.Valid()
    ensures l.RecStart() == 24 + (l.Limit() + 7) / 8
    ensures l.Slot(k) == l.RecStart() + k * (2 * l.ptr)
    ensures l.Start() == l.Slot(l.Limit())
  {
    LimitIsLargest(l, k);
  }

  // ----- reading and writing the image -----

  predicate Sized(mem: seq<byte>, l: Layout) { l.Valid() && |mem| == l.total }

  function CountOf(mem: seq<byte>): nat requires |mem| >= HEADER { FromBytes(mem[8..10]) }
  function LimitOf(mem: seq<byte>): nat requires |mem| >= HEADER { FromBytes(mem[10..12]) }
  function FlagLenOf(mem: seq<byte>): nat requires |mem| >= HEADER { FromBytes(mem[12..16]) }
  function RecordLenOf(mem: seq<byte>): nat requires |mem| >= HEADER { FromBytes(mem[16..20]) }
  function OffsetOf(mem: seq<byte>): nat requires |mem| >= HEADER { FromBytes(mem[20..24]) }

  function FlagsOf(mem: seq<byte>, l: Layout): seq<byte>
    requires Sized(mem, l)
  {
    LayoutFits(l);
    mem[HEADER..l.RecStart()]
  }

  function BitsIn(mem: seq<byte>, l: Layout): (r: seq<bool>)
    requires Sized(mem, l)
    ensures |r| == 8 * l.FlagLen()
  {
    BitsOf(FlagsOf(mem, l))
  }

  /** Record k: a pointer-sized offset and a length. */
  function RecordAt(mem: seq<byte>, l: Layout, k: nat): Range
    requires Sized(mem, l) && k < l.Limit()
  {
    SlotFits(l, k);
    var p := l.Slot(k);
    Range(FromBytes(mem[p..p + l.ptr]), FromBytes(mem[p + l.ptr..p + l.ptr + 4]))
  }

  /** Two bytes as an unsigned short, and four as an unsigned int. */
  function Short(mem: seq<byte>, p: nat): nat
    requires p + 2 <= |mem|
  {
    var low: nat, high: nat := mem[p], mem[p + 1];
    low + 0x100 * high
  }

  function Word(mem: seq<byte>, p: nat): nat
    requires p + 4 <= |mem|
  {
    Short(mem, p) + 0x1_0000 * Short(mem, p + 2)
  }

  lemma WordIs(mem: seq<byte>, p: nat)
    requires p + 4 <= |mem|
    ensures FromBytes(mem[p..p + 4]) == Word(mem, p)
  {
    var b := mem[p..p + 4];
    FourBytes(b);
    assert b[..2] == mem[p..p + 2] && b[2..] == mem[p + 2..p + 4];
    ShortIs(mem, p);
    ShortIs(mem, p + 2);
  }

  lemma ShortIs(mem: seq<byte>, p: nat)
    requires p + 2 <= |mem|
    ensures FromBytes(mem[p..p + 2]) == Short(mem, p)
  {
    var b := mem[p..p + 2];
    assert b[1..][1..] == [];
    assert FromBytes(b[1..]) == b[1];
  }

  /** The words of the header and of a record, byte by byte. */
  lemma WordsInPlace(mem: seq<byte>, l: Layout, k: nat)
    requires Sized(mem, l) && k < l.Limit()
    ensures CountOf(mem) == Short(mem, 8) && LimitOf(mem) == Short(mem, 10)
    ensures FlagLenOf(mem) == Word(mem, 12) && RecordLenOf(mem) == Word(mem, 16) && OffsetOf(mem) == Word(mem, 20)
    ensures l.Slot(k) + 12 <= |mem| || l.ptr == 4
    ensures l.Slot(k) + 8 <= |mem|
    ensures var p := l.Slot(k);
            RecordAt(mem, l, k) ==
            if l.ptr == 4 then Range(Word(mem, p), Word(mem, p + 4))
            else Range(Word(mem, p) + 0x1_0000_0000 * Word(mem, p + 4), Word(mem, p + 8))
  {
    hide FromBytes, Layout.Limit, Layout.FlagLen, Word;
    ShortIs(mem, 8);
    ShortIs(mem, 10);
    WordIs(mem, 12);
    WordIs(mem, 16);
    WordIs(mem, 20);
    SlotFits(l, k);
    var p := l.Slot(k);
    WordIs(mem, p);
    WordIs(mem, p + 4);
    if l.ptr == 8 {
      WordIs(mem, p + 8);
      EightBytes(mem, p);
    }
  }

  lemma EightBytes(mem: seq<byte>, p: nat)
    requires p + 8 <= |mem|
    ensures FromBytes(mem[p..p + 8]) == FromBytes(mem[p..p + 4]) + 0x1_0000_0000 * FromBytes(mem[p + 4..p + 8])
  {
    assert mem[p..p + 8] == mem[p..p + 4] + mem[p + 4..p + 8];
    FourThenMore(mem[p..p + 4], mem[p + 4..p + 8]);
  }

  /** The identifier is the eight characters of its name. */
  lemma SymbolSpells()
    ensures |SYMBOL| == 8 && forall i :: 0 <= i < 8 ==> SYMBOL[i] == "MemAlloc"[i] as int
  {
  }

  lemma SlotFits(l: Layout, k: nat)
    requires l.Valid() && k < l.Limit()
    ensures l.RecStart() <= l.Slot(k) && l.Slot(k) + l.ptr + 4 <= l.Slot(k + 1) <= l.Start() <= l.total
  {
    LayoutFits(l);
  }

  /** The header words that format writes once. */
  predicate Formatted(mem: seq<byte>, l: Layout)
    requires Sized(mem, l)
  {
    && mem[0..8] == SYMBOL
    && LimitOf(mem) == l.Limit()
    && FlagLenOf(mem) == l.FlagLen()
    && RecordLenOf(mem) == l.Slots(l.Limit())
  }

  function SetCount(mem: seq<byte>, v: nat): (r: seq<byte>)
    requires |mem| >= HEADER
    ensures |r| == |mem|
  {
    Splice(mem, 8, ToBytes(v, 2))
  }

  function SetOffset(mem: seq<byte>, v: nat): (r: seq<byte>)
    requires |mem| >= HEADER
    ensures |r| == |mem|
  {
    Splice(mem, 20, ToBytes(v, 4))
  }

  function SetBit(mem: seq<byte>, l: Layout, k: nat, v: bool): (r: seq<byte>)
    requires Sized(mem, l) && k < 8 * l.FlagLen()
    ensures |r| == |mem|
  {
    LayoutFits(l);
    StoreBit(FlagsOf(mem, l), k, v);
    var b := mem[HEADER + k / 8];
    Splice(mem, HEADER + k / 8, [(if v then OrBit(b, k % 8) else ClearBit(b, k % 8)) as byte])
  }

  function SetRecord(mem: seq<byte>, l: Layout, k: nat, r: Range): (m: seq<byte>)
    requires Sized(mem, l) && k < l.Limit()
    ensures |m| == |mem|
  {
    SlotFits(l, k);
    Splice(mem, l.Slot(k), ToBytes(r.start, l.ptr) + ToBytes(r.len, 4))
  }

  function Zeroed(mem: seq<byte>, r: Range): (m: seq<byte>)
    requires r.End() <= |mem|
    ensures |m| == |mem|
  {
    Splice(mem, r.start, seq(r.len, _ => 0))
  }

  // ----- what each write leaves alone -----

  /** A write between a and a + |b| leaves every slice outside it. */
  lemma SliceKept(mem: seq<byte>, a: nat, b: seq<byte>, x: nat, y: nat)
    requires a + |b| <= |mem| && x <= y <= |mem| && (y <= a || a + |b| <= x)
    ensures Splice(mem, a, b)[x..y] == mem[x..y]
  {
  }

  lemma SliceWritten(mem: seq<byte>, a: nat, b: seq<byte>)
    requires a + |b| <= |mem|
    ensures Splice(mem, a, b)[a..a + |b|] == b
  {
  }

  /** Two images agree on the header words fixed by format. */
  predicate SameFixed(m: seq<byte>, n: seq<byte>)
    requires |m| >= HEADER && |n| >= HEADER
  {
    m[0..8] == n[0..8] && m[10..20] == n[10..20]
  }

  lemma FixedFields(m: seq<byte>, n: seq<byte>, l: Layout)
    requires Sized(m, l) && Sized(n, l) && SameFixed(m, n) && Formatted(m, l)
    ensures Formatted(n, l)
  {
    hide FromBytes;
    SubSlice(m, n, 10, 20, 10, 12);
    SubSlice(m, n, 10, 20, 12, 16);
    SubSlice(m, n, 10, 20, 16, 20);
  }

  lemma SubSlice(m: seq<byte>, n: seq<byte>, a: nat, b: nat, c: nat, d: nat)
    requires a <= c <= d <= b <= |m| && b <= |n| && m[a..b] == n[a..b]
    ensures m[c..d] == n[c..d]
  {
    forall i | c <= i < d ensures m[i] == n[i] {
      assert m[a..b][i - a] == n[a..b][i - a];
    }
  }

  lemma SetCountEffect(mem: seq<byte>, l: Layout, v: nat)
    requires Sized(mem, l) && v < 65536
    ensures var m := SetCount(mem, v);
            && SameFixed(mem, m) && CountOf(m) == v && OffsetOf(m) == OffsetOf(mem)
            && BitsIn(m, l) == BitsIn(mem, l)
            && forall k :: 0 <= k < l.Limit() ==> RecordAt(m, l, k) == RecordAt(mem, l, k)
  {
    hide FromBytes, ToBytes, BitsOf, Splice;
    LayoutFits(l);
    RoundTrip2(v);
    var b := ToBytes(v, 2);
    SliceWritten(mem, 8, b);
    SliceKept(mem, 8, b, 0, 8);
    SliceKept(mem, 8, b, 10, 20);
    SliceKept(mem, 8, b, 20, 24);
    SliceKept(mem, 8, b, HEADER, l.RecStart());
    RecordsKept(mem, l, 8, b);
  }

  lemma SetOffsetEffect(mem: seq<byte>, l: Layout, v: nat)
    requires Sized(mem, l) && v < 0x1_0000_0000
    ensures var m := SetOffset(mem, v);
            && SameFixed(mem, m) && CountOf(m) == CountOf(mem) && OffsetOf(m) == v
            && BitsIn(m, l) == BitsIn(mem, l)
            && forall k :: 0 <= k < l.Limit() ==> RecordAt(m, l, k) == RecordAt(mem, l, k)
  {
    hide FromBytes, ToBytes, BitsOf, Splice, Pow256;
    LayoutFits(l);
    Pow256Values();
    RoundTrip(v, 4);
    var b := ToBytes(v, 4);
    SliceWritten(mem, 20, b);
    SliceKept(mem, 20, b, 0, 8);
    SliceKept(mem, 20, b, 8, 10);
    SliceKept(mem, 20, b, 10, 20);
    SliceKept(mem, 20, b, HEADER, l.RecStart());
    RecordsKept(mem, l, 20, b);
  }

  /** A write below the record array leaves all records. */
  lemma RecordsKept(mem: seq<byte>, l: Layout, a: nat, b: seq<byte>)
    requires Sized(mem, l) && a + |b| <= l.RecStart() <= |mem|
    ensures forall k :: 0 <= k < l.Limit() ==> RecordAt(Splice(mem, a, b), l, k) == RecordAt(mem, l, k)
  {
    forall k | 0 <= k < l.Limit() ensures RecordAt(Splice(mem, a, b), l, k) == RecordAt(mem, l, k) {
      RecordKept(mem, l, a, b, k);
    }
  }

  lemma RecordKept(mem: seq<byte>, l: Layout, a: nat, b: seq<byte>, k: nat)
    requires Sized(mem, l) && a + |b| <= |mem| && k < l.Limit()
    requires a + |b| <= l.Slot(k) || l.Slot(k) + l.ptr + 4 <= a
    ensures RecordAt(Splice(mem, a, b), l, k) == RecordAt(mem, l, k)
  {
    hide FromBytes, Splice;
    SlotFits(l, k);
    var p := l.Slot(k);
    SliceKept(mem, a, b, p, p + l.ptr);
    SliceKept(mem, a, b, p + l.ptr, p + l.ptr + 4);
  }

  lemma SetBitEffect(mem: seq<byte>, l: Layout, k: nat, v: bool)
    requires Sized(mem, l) && k < 8 * l.FlagLen()
    ensures var m := SetBit(mem, l, k, v);
            && SameFixed(mem, m) && CountOf(m) == CountOf(mem) && OffsetOf(m) == OffsetOf(mem)
            && BitsIn(m, l) == BitsIn(mem, l)[k := v]
            && forall q :: 0 <= q < l.Limit() ==> RecordAt(m, l, q) == RecordAt(mem, l, q)
  {
    hide FromBytes, BitsOf, OrBit, ClearBit, Splice;
    LayoutFits(l);
    var f := FlagsOf(mem, l);
    StoreBit(f, k, v);
    var a := HEADER + k / 8;
    var b': byte := (if v then OrBit(f[k / 8], k % 8) else ClearBit(f[k / 8], k % 8)) as byte;
    var m := SetBit(mem, l, k, v);
    SliceKept(mem, a, [b'], 0, 8);
    SliceKept(mem, a, [b'], 8, 10);
    SliceKept(mem, a, [b'], 10, 20);
    SliceKept(mem, a, [b'], 20, 24);
    FlagByteStored(mem, l, k / 8, b');
    RecordsKept(mem, l, a, [b']);
  }

  lemma FlagByteStored(mem: seq<byte>, l: Layout, i: nat, b: byte)
    requires Sized(mem, l) && i < l.FlagLen() && l.RecStart() <= |mem|
    ensures FlagsOf(Splice(mem, HEADER + i, [b]), l) == FlagsOf(mem, l)[i := b]
  {
  }

  /** A write into the record array or behind it leaves the header and the bits. */
  lemma HighWrite(mem: seq<byte>, l: Layout, a: nat, b: seq<byte>)
    requires Sized(mem, l) && l.RecStart() <= a && a + |b| <= |mem|
    ensures var m := Splice(mem, a, b);
            && SameFixed(mem, m) && CountOf(m) == CountOf(mem) && OffsetOf(m) == OffsetOf(mem)
            && BitsIn(m, l) == BitsIn(mem, l)
  {
    hide FromBytes, BitsOf, Splice;
    LayoutFits(l);
    SliceKept(mem, a, b, 0, 8);
    SliceKept(mem, a, b, 8, 10);
    SliceKept(mem, a, b, 10, 20);
    SliceKept(mem, a, b, 20, 24);
    SliceKept(mem, a, b, HEADER, l.RecStart());
  }

  lemma SetRecordEffect(mem: seq<byte>, l: Layout, k: nat, r: Range)
    requires Sized(mem, l) && k < l.Limit() && r.start < 0x1_0000_0000 && r.len < 0x1_0000_0000
    ensures var m := SetRecord(mem, l, k, r);
            && SameFixed(mem, m) && CountOf(m) == CountOf(mem) && OffsetOf(m) == OffsetOf(mem)
            && BitsIn(m, l) == BitsIn(mem, l)
            && RecordAt(m, l, k) == r
            && forall q :: 0 <= q < l.Limit() && q != k ==> RecordAt(m, l, q) == RecordAt(mem, l, q)
  {
    hide FromBytes, ToBytes, BitsOf, Splice, Pow256;
    SlotFits(l, k);
    Pow256Values();
    RoundTrip(r.start, l.ptr);
    RoundTrip(r.len, 4);
    var a, s, t := l.Slot(k), ToBytes(r.start, l.ptr), ToBytes(r.len, 4);
    HighWrite(mem, l, a, s + t);
    SliceWritten(mem, a, s + t);
    var m := Splice(mem, a, s + t);
    assert m[a..a + l.ptr] == m[a..a + |s + t|][..l.ptr] == s;
    assert m[a + l.ptr..a + l.ptr + 4] == m[a..a + |s + t|][l.ptr..] == t;
    forall q | 0 <= q < l.Limit() && q != k ensures RecordAt(m, l, q) == RecordAt(mem, l, q) {
      RecordKept(mem, l, a, s + t, q);
    }
  }
}
