/** PackageProxy: packages are cut into frames of a header and at most 1000
    bytes, and the frames are laid end to end over a list of send buffers. */
module PackageFraming {
  import opened Bytes
  import opened Options

  const TRANSFRAME := 1024
  const HEAD := 24
  const MAXDATA := TRANSFRAME - HEAD

  // ----- the header on the wire -----

  /** MsgHead; `lens` fields are filled in when the frame is written. */
  datatype Head = Head(
    tFrames: nat, nFrames: nat, nVerifyLen: nat, nProtoType: nat, nReserved: nat, nRetState: nat,
    nDataLen: nat, tSrcLen: nat, tDataLen: nat, nFrameLen: nat, nUserProto: nat, ntimestamp: nat)

  predicate HeadOk(h: Head) {
    && h.tFrames < 256 && h.nFrames < 256 && h.nVerifyLen < 256
    && h.nProtoType < 256 && h.nReserved < 256 && h.nRetState < 256
    && h.nDataLen < 65536 && h.tSrcLen < 65536 && h.tDataLen < 65536
    && h.nFrameLen < 65536 && h.nUserProto < 65536 && h.ntimestamp < 0x1_0000_0000_0000_0000
  }

  function Encode(h: Head): (r: seq<byte>)
    ensures |r| == HEAD
  {
    ToBytes(h.tFrames, 1) + ToBytes(h.nFrames, 1) + ToBytes(h.nVerifyLen, 1)
    + ToBytes(h.nProtoType, 1) + ToBytes(h.nReserved, 1) + ToBytes(h.nRetState, 1)
    + ToBytes(h.nDataLen, 2) + ToBytes(h.tSrcLen, 2) + ToBytes(h.tDataLen, 2)
    + ToBytes(h.nFrameLen, 2) + ToBytes(h.nUserProto, 2) + ToBytes(h.ntimestamp, 8)
  }

  function Decode(b: seq<byte>): Head
    requires |b| == HEAD
  {
    Head(FromBytes(b[0..1]), FromBytes(b[1..2]), FromBytes(b[2..3]),
         FromBytes(b[3..4]), FromBytes(b[4..5]), FromBytes(b[5..6]),
         FromBytes(b[6..8]), FromBytes(b[8..10]), FromBytes(b[10..12]),
         FromBytes(b[12..14]), FromBytes(b[14..16]), FromBytes(b[16..24]))
  }

  lemma HeadSlices(h: Head)
    ensures var b := Encode(h);
            && b[0..1] == ToBytes(h.tFrames, 1) && b[1..2] == ToBytes(h.nFrames, 1)
            && b[2..3] == ToBytes(h.nVerifyLen, 1) && b[3..4] == ToBytes(h.nProtoType, 1)
            && b[4..5] == ToBytes(h.nReserved, 1) && b[5..6] == ToBytes(h.nRetState, 1)
            && b[6..8] == ToBytes(h.nDataLen, 2) && b[8..10] == ToBytes(h.tSrcLen, 2)
            && b[10..12] == ToBytes(h.tDataLen, 2) && b[12..14] == ToBytes(h.nFrameLen, 2)
            && b[14..16] == ToBytes(h.nUserProto, 2) && b[16..24] == ToBytes(h.ntimestamp, 8)
  {
    var b := Encode(h);
    assert b == b[..16] + ToBytes(h.ntimestamp, 8);
    assert b[14..16] == ToBytes(h.nUserProto, 2);
  }

  lemma HeadRoundTrip(h: Head)
    requires HeadOk(h)
    ensures Decode(Encode(h)) == h
  {
    HeadSlices(h);
    Pow256Values();
    RoundTrip(h.tFrames, 1);
    RoundTrip(h.nFrames, 1);
    RoundTrip(h.nVerifyLen, 1);
    RoundTrip(h.nProtoType, 1);
    RoundTrip(h.nReserved, 1);
    RoundTrip(h.nRetState, 1);
    RoundTrip(h.nDataLen, 2);
    RoundTrip(h.tSrcLen, 2);
    RoundTrip(h.tDataLen, 2);
    RoundTrip(h.nFrameLen, 2);
    RoundTrip(h.nUserProto, 2);
    RoundTrip(h.ntimestamp, 8);
  }

  // ----- frames and their stream -----

  datatype Frame = Frame(head: Head, payload: seq<byte>)

  /** The header as it ends up on the wire. */
  function Final(h: Head, len: nat): Head { h.(nDataLen := len, nFrameLen := HEAD + len) }

  function FrameBytes(f: Frame): seq<byte> { Encode(Final(f.head, |f.payload|)) + f.payload }

  function StreamWith(enc: Frame -> seq<byte>, fs: seq<Frame>): seq<byte> {
    if fs == [] then [] else StreamWith(enc, fs[..|fs| - 1]) + enc(fs[|fs| - 1])
  }

  function StreamOf(fs: seq<Frame>): seq<byte> { StreamWith(FrameBytes, fs) }

  /** Reading a stream frame by frame, by the data length in each header. */
  function Parse(b: seq<byte>): Option<seq<Frame>>
    decreases |b|
  {
    if b == [] then Some([])
    else if |b| < HEAD then None
    else
      var h := Decode(b[..HEAD]);
      if |b| < HEAD + h.nDataLen then None
      else
        Prepend([Frame(h, b[HEAD..HEAD + h.nDataLen])], Parse(b[HEAD + h.nDataLen..]))
  }

  function Prepend(fs: seq<Frame>, o: Option<seq<Frame>>): Option<seq<Frame>> {
    match o
    case None => None
    case Some(rest) => Some(fs + rest)
  }

  predicate FrameOk(f: Frame) { HeadOk(f.head) && |f.payload| <= MAXDATA }

  function OnWire(f: Frame): Frame { Frame(Final(f.head, |f.payload|), f.payload) }

  lemma ParseOne(f: Frame, rest: seq<byte>)
    requires FrameOk(f)
    ensures Parse(FrameBytes(f) + rest) == Prepend([OnWire(f)], Parse(rest))
  {
    var b := FrameBytes(f) + rest;
    var h := Final(f.head, |f.payload|);
    assert b[..HEAD] == Encode(h);
    HeadRoundTrip(h);
    assert b[HEAD..HEAD + h.nDataLen] == f.payload;
    assert b[HEAD + h.nDataLen..] == rest;
  }

  function Wired(fs: seq<Frame>): (r: seq<Frame>)
    ensures |r| == |fs|
  {
    seq(|fs|, i requires 0 <= i < |fs| => OnWire(fs[i]))
  }

  lemma PrependTwice(fs: seq<Frame>, f: Frame, o: Option<seq<Frame>>)
    ensures Prepend(Wired(fs), Prepend([OnWire(f)], o)) == Prepend(Wired(fs + [f]), o)
  {
    if o.Some? {
      assert Wired(fs) + ([OnWire(f)] + o.value) == Wired(fs + [f]) + o.value;
    }
  }

  lemma {:induction false} ParseStreamThen(fs: seq<Frame>, rest: seq<byte>)
    requires forall i :: 0 <= i < |fs| ==> FrameOk(fs[i])
    ensures Parse(StreamOf(fs) + rest) == Prepend(Wired(fs), Parse(rest))
    decreases |fs|
  {
    hide Encode, Decode;
    if fs == [] {
      assert StreamOf(fs) + rest == rest;
      if Parse(rest).Some? {
        assert Wired(fs) + Parse(rest).value == Parse(rest).value;
      }
    } else {
      var k := |fs| - 1;
      var more := FrameBytes(fs[k]) + rest;
      calc {
        Parse(StreamOf(fs) + rest);
        { assert StreamOf(fs) + rest == StreamOf(fs[..k]) + more; }
        Parse(StreamOf(fs[..k]) + more);
        { ParseStreamThen(fs[..k], more); }
        Prepend(Wired(fs[..k]), Parse(more));
        { ParseOne(fs[k], rest); }
        Prepend(Wired(fs[..k]), Prepend([OnWire(fs[k])], Parse(rest)));
        { PrependTwice(fs[..k], fs[k], Parse(rest)); assert fs[..k] + [fs[k]] == fs; }
        Prepend(Wired(fs), Parse(rest));
      }
    }
  }

  /** A receiver that follows the headers gets back exactly the frames. */
  lemma ParseStream(fs: seq<Frame>)
    requires forall i :: 0 <= i < |fs| ==> FrameOk(fs[i])
    ensures Parse(StreamOf(fs)) == Some(Wired(fs))
  {
    ParseStreamThen(fs, []);
    assert StreamOf(fs) + [] == StreamOf(fs);
    assert Wired(fs) + [] == Wired(fs);
  }

  // ----- send buffers and BuildPackage -----

  /** A buffer of fixed capacity and the length of its valid prefix. */
  datatype Buffer = Buffer(bytes: seq<byte>, valid: nat) {
    function Cap(): nat { |bytes| }
  }

  /** `pos` is the write pointer, as an offset into the current buffer, and
      `nOffset` what the code believes to be in use there. */
  datatype Sender = Sender(frames: seq<Buffer>, fIndex: nat, pos: nat, nOffset: nat)

  /** Thrown: the exception; Overrun: an access past a buffer or the list. */
  datatype Outcome = Ok(s: Sender) | Thrown | Overrun

  function Put(b: Buffer, at: nat, data: seq<byte>, valid: nat): Buffer
    requires at + |data| <= b.Cap()
  {
    Buffer(Splice(b.bytes, at, data), valid)
  }

  /** Where the code writes byte i of the four length bytes (frame length low
      and high, data length low and high) when a header is split after `avail`
      bytes: behind the write pointer, or in the next buffer. */
  datatype Place = Here(at: nat) | There(at: nat)

  const FRAMELEN := 12
  const DATALEN := 6

  function LengthPlaces(avail: nat): seq<Place> {
    if avail >= FRAMELEN + 1 then
      [Here(FRAMELEN), Here(FRAMELEN + 1), Here(DATALEN), Here(DATALEN + 1)]
    else if avail == FRAMELEN then
      [Here(FRAMELEN), There(0), Here(DATALEN), Here(DATALEN + 1)]
    else if avail >= DATALEN + 1 then
      [There(FRAMELEN - avail), There(FRAMELEN + 1 - avail), Here(DATALEN), Here(DATALEN + 1)]
    else if avail == DATALEN then
      [There(FRAMELEN - avail), There(FRAMELEN + 1 - avail), Here(DATALEN), There(0)]
    else
      [There(FRAMELEN - avail), There(FRAMELEN + 1 - avail), There(DATALEN - avail), There(DATALEN + 1 - avail)]
  }

  /** Where header byte i is when the header is split after `avail` bytes. */
  function HeadPlace(avail: nat, i: nat): Place { if i < avail then Here(i) else There(i - avail) }

  predicate PlacesRight(avail: nat) {
    LengthPlaces(avail) ==
      [HeadPlace(avail, FRAMELEN), HeadPlace(avail, FRAMELEN + 1),
       HeadPlace(avail, DATALEN), HeadPlace(avail, DATALEN + 1)]
  }

  /** The table is right except when the split falls before either byte of a
      length, and then it writes a byte past the end of the first buffer. */
  lemma TableExact(avail: nat)
    requires avail < HEAD
    ensures PlacesRight(avail) <==> avail !in {DATALEN, DATALEN + 1, FRAMELEN, FRAMELEN + 1}
    ensures PlacesRight(avail) <==> forall k :: 0 <= k < 4 && LengthPlaces(avail)[k].Here? ==> LengthPlaces(avail)[k].at < avail
  {
    var t := LengthPlaces(avail);
    assert avail == DATALEN ==> t[2] == Here(avail);
    assert avail == DATALEN + 1 ==> t[3] == Here(avail);
    assert avail == FRAMELEN ==> t[0] == Here(avail);
    assert avail == FRAMELEN + 1 ==> t[1] == Here(avail);
  }

  /** One frame, in the three ways the code has: whole, payload split over two
      buffers, header split over two buffers. */
  function Build(s: Sender, f: Frame): Outcome {
    if s.fIndex >= |s.frames| then Overrun else BuildIn(s, f)
  }

  function BuildIn(s: Sender, f: Frame): Outcome
    requires s.fIndex < |s.frames|
  {
    var k := s.fIndex;
    var b := s.frames[k];
    var avail := b.Cap() - s.nOffset;
    var len := |f.payload|;
    var head := Encode(Final(f.head, len));
    if len + HEAD <= avail then
      if s.pos + HEAD + len > b.Cap() then Overrun
      else
        var frames := s.frames[k := Put(b, s.pos, head + f.payload, s.nOffset + HEAD + len)];
        if len + HEAD < avail then Ok(Sender(frames, k, s.pos + HEAD + len, s.nOffset + HEAD + len))
        else if k + 1 >= |s.frames| then Overrun
        else Ok(Sender(frames, k + 1, 0, 0))
    else if HEAD <= avail then
      if k + 1 >= |s.frames| then Thrown
      else
        var tmp := avail - HEAD;
        var next := s.frames[k + 1];
        if s.pos + avail > b.Cap() || len - tmp > next.Cap() then Overrun
        else
          Ok(Sender(s.frames[k := Put(b, s.pos, head + f.payload[..tmp], b.Cap())]
                            [k + 1 := Put(next, 0, f.payload[tmp..], len - tmp)],
                    k + 1, len - tmp, len - tmp))
    else if avail < 0 || k + 1 >= |s.frames| || !PlacesRight(avail) then Overrun
    else
      var next := s.frames[k + 1];
      if s.pos + avail > b.Cap() || HEAD - avail + len > next.Cap() then Overrun
      else
        Ok(Sender(s.frames[k := Put(b, s.pos, head[..avail], b.Cap())]
                          [k + 1 := Put(next, 0, head[avail..] + f.payload, len + HEAD - avail)],
                  k + 1, HEAD - avail + len, len))
  }

  // ----- BuildPackage, in place -----

  /** The header positions of the length bytes, and their values, in the order
      the code writes them. */
  const LENGTHBYTES: seq<nat> := [FRAMELEN, FRAMELEN + 1, DATALEN, DATALEN + 1]

  function LengthValues(len: nat): seq<byte> { ToBytes(HEAD + len, 2) + ToBytes(len, 2) }

  /** Header bytes with the first j length bytes written. */
  function Patched(e: seq<byte>, len: nat, j: nat): (r: seq<byte>)
    requires |e| == HEAD && j <= 4
    ensures |r| == HEAD
  {
    if j == 0 then e else Patched(e, len, j - 1)[LENGTHBYTES[j - 1] := LengthValues(len)[j - 1]]
  }

  lemma PatchedIs(e: seq<byte>, len: nat)
    requires |e| == HEAD
    ensures var v := LengthValues(len);
            |v| == 4 && Patched(e, len, 4) == e[12 := v[0]][13 := v[1]][6 := v[2]][7 := v[3]]
  {
    var v := LengthValues(len);
    assert Patched(e, len, 1) == Patched(e, len, 0)[12 := v[0]];
    assert Patched(e, len, 2) == Patched(e, len, 1)[13 := v[1]];
    assert Patched(e, len, 3) == Patched(e, len, 2)[6 := v[2]];
  }

  lemma FourStores(e: seq<byte>, v: seq<byte>)
    requires |e| == HEAD && |v| == 4
    ensures var p := e[12 := v[0]][13 := v[1]][6 := v[2]][7 := v[3]];
            && p[..6] == e[..6] && p[6..8] == [v[2], v[3]] && p[8..12] == e[8..12]
            && p[12..14] == [v[0], v[1]] && p[14..] == e[14..]
  {
  }

  lemma SamePieces(a: seq<byte>, b: seq<byte>)
    requires |a| == |b| == HEAD && a[..6] == b[..6] && a[6..8] == b[6..8] && a[8..12] == b[8..12]
    requires a[12..14] == b[12..14] && a[14..] == b[14..]
    ensures a == b
  {
    assert a == a[..6] + a[6..8] + a[8..12] + a[12..14] + a[14..];
    assert b == b[..6] + b[6..8] + b[8..12] + b[12..14] + b[14..];
  }

  /** Outside the two lengths the final header is the header. */
  lemma FinalPieces(h: Head, len: nat)
    ensures var e, f := Encode(h), Encode(Final(h, len));
            && e[..6] == f[..6] && e[8..12] == f[8..12] && e[14..] == f[14..]
            && f[6..8] == ToBytes(len, 2) && f[12..14] == ToBytes(HEAD + len, 2)
  {
    HeadSlices(h);
    HeadSlices(Final(h, len));
    hide Encode, ToBytes;
    var e, f := Encode(h), Encode(Final(h, len));
    FirstSix(e);
    FirstSix(f);
    assert e[8..12] == e[8..10] + e[10..12] && f[8..12] == f[8..10] + f[10..12];
    assert e[14..] == e[14..16] + e[16..24] && f[14..] == f[14..16] + f[16..24];
  }

  lemma FirstSix(e: seq<byte>)
    requires |e| == HEAD
    ensures e[..6] == e[0..1] + e[1..2] + e[2..3] + e[3..4] + e[4..5] + e[5..6]
  {
  }

  lemma TwoPairs(len: nat)
    ensures var v := LengthValues(len);
            |v| == 4 && [v[0], v[1]] == ToBytes(HEAD + len, 2) && [v[2], v[3]] == ToBytes(len, 2)
  {
    hide ToBytes;
  }

  lemma PatchIsFinal(h: Head, len: nat)
    ensures Patched(Encode(h), len, 4) == Encode(Final(h, len))
  {
    hide Encode, Patched, LengthValues, ToBytes;
    var e, v := Encode(h), LengthValues(len);
    PatchedIs(e, len);
    FourStores(e, v);
    FinalPieces(h, len);
    TwoPairs(len);
    SamePieces(Patched(e, len, 4), Encode(Final(h, len)));
  }

  lemma SpliceUpdate(mem: seq<byte>, a: nat, d: seq<byte>, i: nat, v: byte)
    requires a + |d| <= |mem| && i < |d|
    ensures Splice(mem, a, d)[a + i := v] == Splice(mem, a, d[i := v])
  {
  }

  lemma TableShape(avail: nat)
    requires avail < HEAD
    ensures var t := LengthPlaces(avail);
            && |t| == 4
            && (PlacesRight(avail) ==> forall k :: 0 <= k < 4 ==> t[k] == HeadPlace(avail, LENGTHBYTES[k]))
            && forall k :: 0 <= k < 4 && t[k].There? ==> t[k].at < HEAD - avail
  {
  }

  /** Storing one length byte keeps the split image of the header in step. */
  lemma StoreOne(mem: seq<byte>, pos: nat, next: seq<byte>, e: seq<byte>, payload: seq<byte>, avail: nat, i: nat, v: byte)
    requires |e| == HEAD && avail < HEAD && i < HEAD
    requires pos + avail <= |mem| && HEAD - avail + |payload| <= |next|
    ensures var e' := e[i := v];
            var here, there := Splice(mem, pos, e[..avail]), Splice(next, 0, e[avail..] + payload);
            var here', there' := Splice(mem, pos, e'[..avail]), Splice(next, 0, e'[avail..] + payload);
            match HeadPlace(avail, i)
            case Here(at) => pos + at < |here| && here' == here[pos + at := v] && there' == there
            case There(at) => at < |there| && here' == here && there' == there[at := v]
  {
    var e' := e[i := v];
    if i < avail {
      assert e'[..avail] == e[..avail][i := v] && e'[avail..] == e[avail..];
      SpliceUpdate(mem, pos, e[..avail], i, v);
    } else {
      assert e'[..avail] == e[..avail] && e'[avail..] == e[avail..][i - avail := v];
      assert (e[avail..] + payload)[i - avail := v] == e'[avail..] + payload;
      SpliceUpdate(next, 0, e[avail..] + payload, i - avail, v);
    }
  }

  /** The stores through the table. They stay inside the two buffers exactly
      when every place is right, and then give the final header. */
  method StoreLengths(mem: seq<byte>, pos: nat, next: seq<byte>, head: seq<byte>, payload: seq<byte>, avail: nat, len: nat)
    returns (ok: bool, here: seq<byte>, there: seq<byte>)
    requires |head| == HEAD && avail < HEAD && pos + avail == |mem| && HEAD - avail + |payload| <= |next|
    ensures ok <==> PlacesRight(avail)
    ensures ok ==> here == Splice(mem, pos, Patched(head, len, 4)[..avail]) &&
                   there == Splice(next, 0, Patched(head, len, 4)[avail..] + payload)
  {
    hide LengthPlaces, PlacesRight, Splice;
    TableExact(avail);
    TableShape(avail);
    var v, places := LengthValues(len), LengthPlaces(avail);
    here, there := Splice(mem, pos, head[..avail]), Splice(next, 0, head[avail..] + payload);
    ghost var right := PlacesRight(avail);
    for j := 0 to 4
      invariant forall k :: 0 <= k < j && places[k].Here? ==> places[k].at < avail
      invariant |here| == |mem| && |there| == |next|
      invariant right ==> here == Splice(mem, pos, Patched(head, len, j)[..avail])
      invariant right ==> there == Splice(next, 0, Patched(head, len, j)[avail..] + payload)
    {
      if right {
        StoreOne(mem, pos, next, Patched(head, len, j), payload, avail, LENGTHBYTES[j], v[j]);
      }
      match places[j] {
        case Here(at) =>
          if pos + at >= |mem| { return false, here, there; }
          here := here[pos + at := v[j]];
        case There(at) =>
          there := there[at := v[j]];
      }
    }
    ok := true;
  }

  /** Header and first part of the payload in one buffer, then the lengths. */
  method StoreInOne(h: Head, part: seq<byte>, mem: seq<byte>, pos: nat, total: nat) returns (bytes: seq<byte>)
    requires pos + HEAD + |part| <= |mem|
    ensures bytes == Splice(mem, pos, Encode(Final(h, total)) + part)
  {
    hide Encode;
    PatchIsFinal(h, total);
    var head, v := Encode(h), LengthValues(total);
    bytes := Splice(mem, pos, head);
    bytes := Splice(bytes, pos + HEAD, part);
    assert bytes == Splice(mem, pos, head + part);
    for j := 0 to 4
      invariant bytes == Splice(mem, pos, Patched(head, total, j) + part)
    {
      var e := Patched(head, total, j);
      SpliceUpdate(mem, pos, e + part, LENGTHBYTES[j], v[j]);
      assert (e + part)[LENGTHBYTES[j] := v[j]] == e[LENGTHBYTES[j] := v[j]] + part;
      bytes := bytes[pos + LENGTHBYTES[j] := v[j]];
    }
  }

  datatype Status = Done | Threw | OverrunAt

  class Proxy {
    var frames: seq<Buffer>
    var fIndex: nat
    var pos: nat
    var nOffset: nat

    ghost function View(): Sender
      reads this
    {
      Sender(frames, fIndex, pos, nOffset)
    }

    constructor (buffers: seq<Buffer>)
      ensures View() == Start(buffers)
    {
      frames, fIndex, pos, nOffset := buffers, 0, 0, 0;
    }

    /** The header is written first, with its two lengths zero, and the length
        bytes are stored into it afterwards; in the header-split path through
        the table of places. */
    method BuildPackage(f: Frame) returns (r: Status)
      requires fIndex < |frames| && nOffset <= pos
      requires f.head.nDataLen == 0 && f.head.nFrameLen == 0
      modifies this
      ensures match Build(old(View()), f)
              case Ok(t) => r == Done && View() == t && nOffset <= pos
              case Thrown => r == Threw
              case Overrun => r == OverrunAt
    {
      hide Encode;
      var len := |f.payload|;
      var avail := frames[fIndex].Cap() - nOffset;
      if len + HEAD <= avail {
        r := Whole(f);
      } else if HEAD <= avail {
        r := SplitInPayload(f);
      } else {
        r := SplitInHeader(f);
      }
    }

    method Whole(f: Frame) returns (r: Status)
      requires fIndex < |frames| && nOffset <= pos
      requires |f.payload| + HEAD <= frames[fIndex].Cap() - nOffset
      modifies this
      ensures match Build(old(View()), f)
              case Ok(t) => r == Done && View() == t && nOffset <= pos
              case Thrown => r == Threw
              case Overrun => r == OverrunAt
    {
      hide Encode;
      var len := |f.payload|;
      var b := frames[fIndex];
      var avail := b.Cap() - nOffset;
      if pos + HEAD + len > b.Cap() { return OverrunAt; }
      var bytes := Splice(b.bytes, pos, Encode(f.head.(nDataLen := len, nFrameLen := HEAD + len)));
      bytes := Splice(bytes, pos + HEAD, f.payload);
      assert bytes == Splice(b.bytes, pos, Encode(Final(f.head, len)) + f.payload);
      pos, nOffset := pos + HEAD + len, nOffset + HEAD + len;
      frames := frames[fIndex := Buffer(bytes, nOffset)];
      if len + HEAD == avail {
        if fIndex + 1 >= |frames| { return OverrunAt; }
        fIndex, pos, nOffset := fIndex + 1, 0, 0;
      }
      r := Done;
    }

    method SplitInPayload(f: Frame) returns (r: Status)
      requires fIndex < |frames| && nOffset <= pos
      requires f.head.nDataLen == 0 && f.head.nFrameLen == 0
      requires HEAD <= frames[fIndex].Cap() - nOffset < |f.payload| + HEAD
      modifies this
      ensures match Build(old(View()), f)
              case Ok(t) => r == Done && View() == t && nOffset <= pos
              case Thrown => r == Threw
              case Overrun => r == OverrunAt
    {
      var b := frames[fIndex];
      var avail := b.Cap() - nOffset;
      if fIndex == |frames| - 1 { return Threw; }
      var next := frames[fIndex + 1];
      var tmpOffset := avail - HEAD;
      var lastLen := |f.payload| - tmpOffset;
      if pos + avail > b.Cap() || lastLen > next.Cap() { return OverrunAt; }
      var bytes := StoreInOne(f.head, f.payload[..tmpOffset], b.bytes, pos, tmpOffset + lastLen);
      hide Encode;
      frames := frames[fIndex := Buffer(bytes, b.Cap())];
      frames := frames[fIndex + 1 := Buffer(Splice(next.bytes, 0, f.payload[tmpOffset..]), lastLen)];
      fIndex, pos, nOffset := fIndex + 1, lastLen, lastLen;
      r := Done;
    }

    method SplitInHeader(f: Frame) returns (r: Status)
      requires fIndex < |frames| && nOffset <= pos
      requires f.head.nDataLen == 0 && f.head.nFrameLen == 0
      requires frames[fIndex].Cap() - nOffset < HEAD && frames[fIndex].Cap() - nOffset < |f.payload| + HEAD
      modifies this
      ensures match Build(old(View()), f)
              case Ok(t) => r == Done && View() == t && nOffset <= pos
              case Thrown => r == Threw
              case Overrun => r == OverrunAt
    {
      var len := |f.payload|;
      var b := frames[fIndex];
      var avail := b.Cap() - nOffset;
      if avail < 0 || fIndex + 1 >= |frames| { return OverrunAt; }
      var next := frames[fIndex + 1];
      if pos + avail > b.Cap() || HEAD - avail + len > next.Cap() { return OverrunAt; }
      PatchIsFinal(f.head, len);
      var head := Encode(f.head);
      hide Encode;
      var ok, here, there := StoreLengths(b.bytes, pos, next.bytes, head, f.payload, avail, len);
      if !ok { return OverrunAt; }
      frames := frames[fIndex := Buffer(here, b.Cap())];
      frames := frames[fIndex + 1 := Buffer(there, len + HEAD - avail)];
      fIndex, pos, nOffset := fIndex + 1, HEAD - avail + len, len;
      r := Done;
    }
  }

  // ----- the stream in the buffers -----

  function SentUpTo(frames: seq<Buffer>, n: nat): seq<byte>
    requires n <= |frames|
    requires forall i :: 0 <= i < n ==> frames[i].valid <= |frames[i].bytes|
  {
    if n == 0 then [] else SentUpTo(frames, n - 1) + frames[n - 1].bytes[..frames[n - 1].valid]
  }

  predicate Sane(s: Sender) {
    s.fIndex < |s.frames| && forall i :: 0 <= i < |s.frames| ==> s.frames[i].valid <= s.frames[i].Cap()
  }

  /** The books are right: the write pointer, the offset and the valid length
      of the current buffer agree, and the buffers behind it are empty. */
  predicate Good(s: Sender) {
    && Sane(s)
    && s.pos == s.nOffset == s.frames[s.fIndex].valid
    && (forall i :: s.fIndex < i < |s.frames| ==> s.frames[i].valid == 0)
  }

  /** The valid prefixes of the buffers in use, end to end. */
  function Sent(s: Sender): seq<byte>
    requires Sane(s)
  {
    SentUpTo(s.frames, s.fIndex + 1)
  }

  lemma {:induction false} SentSame(a: seq<Buffer>, b: seq<Buffer>, n: nat)
    requires n <= |a| && n <= |b|
    requires forall i :: 0 <= i < n ==> a[i] == b[i] && a[i].valid <= |a[i].bytes|
    ensures SentUpTo(a, n) == SentUpTo(b, n)
  {
    if n > 0 {
      SentSame(a, b, n - 1);
    }
  }

  /** Whether and where a frame of len bytes fits without splitting a header:
      the next buffer index and offset. It looks at capacities only. */
  function Room(caps: seq<nat>, k: nat, o: nat, len: nat): Option<(nat, nat)>
    requires k < |caps|
  {
    var avail := caps[k] - o;
    if len + HEAD < avail then Some((k, o + HEAD + len))
    else if k + 1 >= |caps| then None
    else if len + HEAD == avail then Some((k + 1, 0))
    else if HEAD <= avail && len - (avail - HEAD) <= caps[k + 1] then Some((k + 1, len - (avail - HEAD)))
    else None
  }

  function Caps(frames: seq<Buffer>): (r: seq<nat>)
    ensures |r| == |frames|
  {
    seq(|frames|, i requires 0 <= i < |frames| => frames[i].Cap())
  }

  lemma PutAppends(b: Buffer, at: nat, data: seq<byte>, valid: nat)
    requires at + |data| <= b.Cap()
    ensures Put(b, at, data, valid).bytes[..at + |data|] == b.bytes[..at] + data
    ensures Put(b, at, data, valid).Cap() == b.Cap()
  {
  }

  /** Replacing buffer k appends to what was sent up to it. */
  lemma SentReplaced(frames: seq<Buffer>, k: nat, b: Buffer, more: seq<byte>)
    requires k < |frames| && b.valid <= |b.bytes|
    requires forall i :: 0 <= i < |frames| ==> frames[i].valid <= |frames[i].bytes|
    requires b.bytes[..b.valid] == frames[k].bytes[..frames[k].valid] + more
    ensures SentUpTo(frames[k := b], k + 1) == SentUpTo(frames, k + 1) + more
  {
    SentSame(frames, frames[k := b], k);
  }

  lemma WholeFrame(s: Sender, f: Frame)
    requires Good(s) && |f.payload| + HEAD <= s.frames[s.fIndex].Cap() - s.nOffset
    requires Build(s, f).Ok?
    ensures var t := Build(s, f).s; Good(t) && Sent(t) == Sent(s) + FrameBytes(f) && Caps(t.frames) == Caps(s.frames)
  {
    var t := Build(s, f).s;
    var k := s.fIndex;
    PutAppends(s.frames[k], s.pos, FrameBytes(f), s.nOffset + HEAD + |f.payload|);
    SentReplaced(s.frames, k, t.frames[k], FrameBytes(f));
    if t.fIndex == k + 1 {
      assert t.frames[k + 1].bytes[..0] == [];
      assert SentUpTo(t.frames, k + 2) == SentUpTo(t.frames, k + 1) + [];
    }
  }

  /** Two buffers in a row: what fills the first, then the start of the next. */
  lemma SentTwo(frames: seq<Buffer>, t: seq<Buffer>, k: nat, first: seq<byte>, second: seq<byte>)
    requires k + 1 < |frames| == |t|
    requires forall i :: 0 <= i < |frames| ==> frames[i].valid <= |frames[i].bytes|
    requires forall i :: 0 <= i < |t| ==> t[i].valid <= |t[i].bytes|
    requires forall i :: 0 <= i < k ==> t[i] == frames[i]
    requires t[k].bytes[..t[k].valid] == frames[k].bytes[..frames[k].valid] + first
    requires t[k + 1].bytes[..t[k + 1].valid] == second
    ensures SentUpTo(t, k + 2) == SentUpTo(frames, k + 1) + (first + second)
  {
    SentSame(frames, t, k);
    var pre, mid := SentUpTo(frames, k), frames[k].bytes[..frames[k].valid];
    assert SentUpTo(t, k + 2) == (pre + (mid + first)) + second;
    assert SentUpTo(frames, k + 1) == pre + mid;
    assert (pre + (mid + first)) + second == (pre + mid) + (first + second);
  }

  /** What the split of a payload leaves in the two buffers. */
  lemma SplitShape(s: Sender, f: Frame)
    requires Good(s)
    requires HEAD <= s.frames[s.fIndex].Cap() - s.nOffset < |f.payload| + HEAD
    requires Build(s, f).Ok?
    ensures var k := s.fIndex;
            var tmp := s.frames[k].Cap() - s.nOffset - HEAD;
            var t := Build(s, f).s;
            && k + 1 < |s.frames| == |t.frames|
            && t.frames == s.frames[k := t.frames[k]][k + 1 := t.frames[k + 1]]
            && t.frames[k].Cap() == s.frames[k].Cap() == t.frames[k].valid
            && t.frames[k].bytes == s.frames[k].bytes[..s.nOffset] + (Encode(Final(f.head, |f.payload|)) + f.payload[..tmp])
            && t.frames[k + 1].Cap() == s.frames[k + 1].Cap()
            && t.fIndex == k + 1 && t.pos == t.nOffset == t.frames[k + 1].valid == |f.payload| - tmp <= t.frames[k + 1].Cap()
            && t.frames[k + 1].bytes[..t.nOffset] == f.payload[tmp..]
  {
    hide Encode;
    var k := s.fIndex;
    var b, next := s.frames[k], s.frames[k + 1];
    var tmp := b.Cap() - s.nOffset - HEAD;
    var first, second := Encode(Final(f.head, |f.payload|)) + f.payload[..tmp], f.payload[tmp..];
    PutAppends(b, s.pos, first, b.Cap());
    PutAppends(next, 0, second, |second|);
    assert next.bytes[..0] + second == second;
    assert Put(b, s.pos, first, b.Cap()).bytes[..b.Cap()] == Put(b, s.pos, first, b.Cap()).bytes;
  }

  lemma SplitPayload(s: Sender, f: Frame)
    requires Good(s)
    requires HEAD <= s.frames[s.fIndex].Cap() - s.nOffset < |f.payload| + HEAD
    requires Build(s, f).Ok?
    ensures var t := Build(s, f).s; Good(t) && Sent(t) == Sent(s) + FrameBytes(f) && Caps(t.frames) == Caps(s.frames)
  {
    hide Encode, Build, SentUpTo;
    SplitShape(s, f);
    var t := Build(s, f).s;
    var k := s.fIndex;
    var tmp := s.frames[k].Cap() - s.nOffset - HEAD;
    var first := Encode(Final(f.head, |f.payload|)) + f.payload[..tmp];
    assert t.frames[k].bytes[..t.frames[k].valid] == t.frames[k].bytes;
    SentTwo(s.frames, t.frames, k, first, f.payload[tmp..]);
    assert first + f.payload[tmp..] == FrameBytes(f);
  }

  /** A frame is laid out with the books right exactly when Room finds a place;
      then it is appended to the stream, and Room says where the next one goes. */
  lemma BuildExact(s: Sender, f: Frame)
    requires Good(s)
    ensures var o := Build(s, f);
            var r := Room(Caps(s.frames), s.fIndex, s.nOffset, |f.payload|);
            && (o.Ok? && Good(o.s) <==> r.Some?)
            && (r.Some? ==>
                  && (o.s.fIndex, o.s.nOffset) == r.value
                  && Caps(o.s.frames) == Caps(s.frames)
                  && Sent(o.s) == Sent(s) + FrameBytes(f))
  {
    var avail := s.frames[s.fIndex].Cap() - s.nOffset;
    if Build(s, f).Ok? {
      if |f.payload| + HEAD <= avail {
        WholeFrame(s, f);
      } else if HEAD <= avail {
        SplitPayload(s, f);
      }
    }
  }

  // ----- all the frames of a call -----

  /** Frame after frame, until one fails. */
  function RunAll(step: (Sender, Frame) -> Outcome, s: Sender, fs: seq<Frame>): Outcome
    decreases |fs|
  {
    if fs == [] then Ok(s)
    else
      match RunAll(step, s, fs[..|fs| - 1])
      case Ok(t) => step(t, fs[|fs| - 1])
      case o => o
  }

  lemma {:induction false} RunAppend(step: (Sender, Frame) -> Outcome, s: Sender, a: seq<Frame>, b: seq<Frame>)
    ensures RunAll(step, s, a + b) ==
            match RunAll(step, s, a)
            case Ok(t) => RunAll(step, t, b)
            case o => o
    decreases |b|
  {
    if b == [] {
      assert a + b == a;
    } else {
      var n := |b| - 1;
      assert (a + b)[..|a| + n] == a + b[..n] && (a + b)[|a| + n] == b[n];
      RunAppend(step, s, a, b[..n]);
    }
  }

  function BuildAll(s: Sender, fs: seq<Frame>): Outcome { RunAll(Build, s, fs) }

  /** Where the buffers stand after frames that all fit without splitting a
      header; a caller can compute it from the capacities and the lengths. */
  function Landing(caps: seq<nat>, k: nat, o: nat, fs: seq<Frame>): (r: Option<(nat, nat)>)
    requires k < |caps|
    ensures r.Some? ==> r.value.0 < |caps|
    decreases |fs|
  {
    if fs == [] then Some((k, o))
    else
      match Room(caps, k, o, |fs[0].payload|)
      case None => None
      case Some(p) => Landing(caps, p.0, p.1, fs[1..])
  }

  predicate AllFit(caps: seq<nat>, k: nat, o: nat, fs: seq<Frame>)
    requires k < |caps|
  {
    Landing(caps, k, o, fs).Some?
  }

  lemma RunCons(step: (Sender, Frame) -> Outcome, s: Sender, fs: seq<Frame>)
    requires fs != [] && step(s, fs[0]).Ok?
    ensures RunAll(step, s, fs) == RunAll(step, step(s, fs[0]).s, fs[1..])
  {
    assert fs == [fs[0]] + fs[1..];
    RunAppend(step, s, [fs[0]], fs[1..]);
    RunOne(step, s, fs[0]);
  }

  lemma RunOne(step: (Sender, Frame) -> Outcome, s: Sender, f: Frame)
    ensures RunAll(step, s, [f]) == step(s, f)
  {
    assert [f][..0] == [];
  }

  lemma {:induction false} StreamAppend(enc: Frame -> seq<byte>, a: seq<Frame>, b: seq<Frame>)
    ensures StreamWith(enc, a + b) == StreamWith(enc, a) + StreamWith(enc, b)
    decreases |b|
  {
    if b == [] {
      assert a + b == a;
    } else {
      var n := |b| - 1;
      assert (a + b)[..|a| + n] == a + b[..n];
      StreamAppend(enc, a, b[..n]);
    }
  }

  lemma StreamHead(enc: Frame -> seq<byte>, fs: seq<Frame>)
    requires fs != []
    ensures StreamWith(enc, fs) == enc(fs[0]) + StreamWith(enc, fs[1..])
  {
    assert fs == [fs[0]] + fs[1..];
    StreamAppend(enc, [fs[0]], fs[1..]);
    assert [fs[0]][..0] == [];
    assert StreamWith(enc, [fs[0]]) == [] + enc(fs[0]);
  }

  // ----- packages -----

  /** A package after coding and compression, with its original length. */
  datatype Package = Package(data: seq<byte>, srcLen: nat, verify: nat, proto: nat, user: nat, stamp: nat)

  function TotalFrames(len: nat): nat {
    len / MAXDATA + (if len - len / MAXDATA * MAXDATA > 0 then 1 else 0)
  }

  function Chunks(data: seq<byte>): seq<seq<byte>> {
    if data == [] then []
    else if |data| <= MAXDATA then [data]
    else [data[..MAXDATA]] + Chunks(data[MAXDATA..])
  }

  function Joined(parts: seq<seq<byte>>): seq<byte> {
    if parts == [] then [] else parts[0] + Joined(parts[1..])
  }

  lemma OneFrameMore(len: nat)
    requires len > MAXDATA
    ensures TotalFrames(len) == 1 + TotalFrames(len - MAXDATA)
  {
    assert len / MAXDATA == (len - MAXDATA) / MAXDATA + 1;
  }

  lemma OneFrame(len: nat)
    requires len <= MAXDATA
    ensures TotalFrames(len) == if len == 0 then 0 else 1
  {
  }

  /** The pieces are never empty and never too long, there are as many as the
      header announces, and joining them gives the data back. */
  lemma {:induction false} ChunksJoin(data: seq<byte>)
    ensures Joined(Chunks(data)) == data
    ensures |Chunks(data)| == TotalFrames(|data|)
    ensures forall k :: 0 <= k < |Chunks(data)| ==> 1 <= |Chunks(data)[k]| <= MAXDATA
    decreases |data|
  {
    hide TotalFrames;
    if |data| <= MAXDATA {
      OneFrame(|data|);
    }
    if data != [] && |data| <= MAXDATA {
      assert [data][1..] == [];
      assert Joined([data]) == data + [];
    } else if data != [] {
      var rest := data[MAXDATA..];
      ChunksJoin(rest);
      OneFrameMore(|data|);
      assert Chunks(data) == [data[..MAXDATA]] + Chunks(rest);
      assert Chunks(data)[1..] == Chunks(rest);
      assert data[..MAXDATA] + rest == data;
    }
  }

  lemma {:induction false} ChunkAt(data: seq<byte>, k: nat)
    requires k < |Chunks(data)|
    ensures k * MAXDATA < |data|
    ensures Chunks(data)[k] ==
            if (k + 1) * MAXDATA < |data| then data[k * MAXDATA..(k + 1) * MAXDATA] else data[k * MAXDATA..]
    decreases |data|
  {
    if |data| > MAXDATA && k > 0 {
      var rest := data[MAXDATA..];
      ChunkAt(rest, k - 1);
      assert Chunks(data)[k] == Chunks(rest)[k - 1];
      if (k + 1) * MAXDATA < |data| {
        assert rest[(k - 1) * MAXDATA..k * MAXDATA] == data[k * MAXDATA..(k + 1) * MAXDATA];
      } else {
        assert rest[(k - 1) * MAXDATA..] == data[k * MAXDATA..];
      }
    }
  }

  /** The code's loop over frame numbers cuts the same pieces. */
  method CutFrames(data: seq<byte>) returns (bufs: seq<seq<byte>>)
    ensures bufs == Chunks(data)
  {
    hide Chunks, Joined;
    var len := |data|;
    ChunksJoin(data);
    var totalFrames := len / MAXDATA + (if len - len / MAXDATA * MAXDATA > 0 then 1 else 0);
    bufs := [];
    for ci := 1 to totalFrames + 1
      invariant bufs == Chunks(data)[..ci - 1]
    {
      ChunkAt(data, ci - 1);
      assert Chunks(data)[..ci] == Chunks(data)[..ci - 1] + [Chunks(data)[ci - 1]];
      if ci * MAXDATA < len {
        bufs := bufs + [data[(ci - 1) * MAXDATA..(ci - 1) * MAXDATA + MAXDATA]];
      } else {
        bufs := bufs + [data[(ci - 1) * MAXDATA..]];
      }
    }
  }

  /** The header fields are as wide as MsgHead declares them. */
  function MakeHead(p: Package, no: nat, total: nat, srcLen: nat): Head {
    Head(total % 256, no % 256, p.verify % 256, p.proto % 256, 0, 0, 0,
         srcLen % 65536, srcLen % 65536, 0, p.user % 65536, p.stamp)
  }

  function FramesOf(p: Package): seq<Frame> {
    if p.data == [] then [Frame(MakeHead(p, 0, 1, 0), [])]
    else
      var c := Chunks(p.data);
      seq(|c|, k requires 0 <= k < |c| => Frame(MakeHead(p, k, |c|, p.srcLen), c[k]))
  }

  function Payloads(fs: seq<Frame>): (r: seq<seq<byte>>)
    ensures |r| == |fs|
  {
    seq(|fs|, i requires 0 <= i < |fs| => fs[i].payload)
  }

  lemma FramesCarryData(p: Package)
    requires p.stamp < 0x1_0000_0000_0000_0000
    ensures Joined(Payloads(FramesOf(p))) == p.data
    ensures forall k :: 0 <= k < |FramesOf(p)| ==> FrameOk(FramesOf(p)[k])
  {
    if p.data == [] {
      assert Payloads(FramesOf(p)) == [[]];
      assert [[]][1..] == [] == Payloads([]);
      assert Joined([[]]) == [] + Joined([]);
    } else {
      ChunksJoin(p.data);
      assert Payloads(FramesOf(p)) == Chunks(p.data);
    }
  }

  /** What the header of frame k out of `frames` of a package says on the wire. */
  predicate Announces(h: Head, p: Package, k: nat, frames: nat, len: nat) {
    && h.tFrames == frames % 256 && h.nFrames == k % 256
    && h.nVerifyLen == p.verify % 256 && h.nProtoType == p.proto % 256
    && h.nReserved == 0 && h.nRetState == 0
    && h.nDataLen == len && h.nFrameLen == HEAD + len
    && h.tSrcLen == h.tDataLen == (if p.data == [] then 0 else p.srcLen % 65536)
    && h.nUserProto == p.user % 65536 && h.ntimestamp == p.stamp
  }

  /** Bytes 1000k up to 1000(k + 1) of the data, or what there is of them. */
  function Piece(data: seq<byte>, k: nat): seq<byte>
    requires 1000 * k <= |data|
  {
    if 1000 * k + 1000 < |data| then data[1000 * k..1000 * k + 1000] else data[1000 * k..]
  }

  /** A package becomes one frame per 1000 bytes begun, and one if it is empty; each
      carries its piece of the data and announces it. */
  lemma FramesAnnounce(p: Package, k: nat)
    ensures |FramesOf(p)| == if p.data == [] then 1 else (|p.data| + 999) / 1000
    ensures k < |FramesOf(p)| ==>
              && 1000 * k <= |p.data|
              && FramesOf(p)[k].payload == Piece(p.data, k)
              && Announces(OnWire(FramesOf(p)[k]).head, p, k, |FramesOf(p)|, |Piece(p.data, k)|)
  {
    hide Chunks, Joined;
    if p.data != [] {
      ChunksJoin(p.data);
      FramesBegun(|p.data|);
      if k < |FramesOf(p)| {
        ChunkAt(p.data, k);
      }
    }
  }

  lemma FramesBegun(len: nat)
    ensures TotalFrames(len) == (len + 999) / 1000
  {
    var q := len / MAXDATA;
    assert len == q * MAXDATA + len % MAXDATA;
  }

  // ----- Packaging -----

  /** How many packages pass the capacity check, from package i on, when the
      ones before it carry `total` bytes. */
  function Admitted(queue: seq<Package>, cap: nat, i: nat, total: nat): (n: nat)
    requires i <= |queue|
    ensures i <= n <= |queue|
    decreases |queue| - i
  {
    if i == |queue| then i
    else if total + |queue[i].data| + (i + 1) * HEAD > cap then i
    else Admitted(queue, cap, i + 1, total + |queue[i].data|)
  }

  function FlatMap(g: Package -> seq<Frame>, queue: seq<Package>): seq<Frame> {
    if queue == [] then [] else FlatMap(g, queue[..|queue| - 1]) + g(queue[|queue| - 1])
  }

  /** The frames of all packages, in order. */
  function AllFrames(queue: seq<Package>): seq<Frame> { FlatMap(FramesOf, queue) }

  function TotalCap(frames: seq<Buffer>): nat {
    if frames == [] then 0 else TotalCap(frames[..|frames| - 1]) + frames[|frames| - 1].Cap()
  }

  datatype Packed = Packed(s: Sender, count: nat) | Failed(o: Outcome)

  function Start(frames: seq<Buffer>): Sender { Sender(frames, 0, 0, 0) }

  /** What stopping at the capacity check does to the current buffer. */
  function Settle(s: Sender): Sender {
    if s.fIndex < |s.frames| && s.nOffset > 0 then s.(frames := s.frames[s.fIndex := s.frames[s.fIndex].(valid := s.nOffset)]) else s
  }

  /** One pass over the queue; None is the jump back to the summation. */
  function Pass(frames: seq<Buffer>, queue: seq<Package>): Option<Packed>
    requires frames != []
  {
    var n := Admitted(queue, TotalCap(frames), 0, 0);
    if n == 0 && queue != [] then None
    else Some(Finish(BuildAll(Start(frames), AllFrames(queue[..n])), n, n < |queue|))
  }

  function Finish(o: Outcome, n: nat, stopped: bool): Packed {
    match o
    case Ok(t) => Packed(if stopped then Settle(t) else t, n)
    case _ => Failed(o)
  }

  /** A new MsgFrame is all zero: no buffer, capacity zero. */
  const NOBUFFER := Buffer([], 0)

  /** The call, for as many passes as `passes`; each retry has one more buffer.
      None: it has not returned yet. */
  function PackWithin(frames: seq<Buffer>, queue: seq<Package>, passes: nat): Option<Packed>
    requires frames != []
    decreases passes
  {
    if passes == 0 then None
    else
      match Pass(frames, queue)
      case Some(r) => Some(r)
      case None => PackWithin(frames + [NOBUFFER], queue, passes - 1)
  }

  method SumCapacity(frames: seq<Buffer>) returns (total: nat)
    ensures total == TotalCap(frames)
  {
    total := 0;
    for i := 0 to |frames|
      invariant total == TotalCap(frames[..i])
    {
      assert frames[..i + 1][..i] == frames[..i];
      total := total + frames[i].Cap();
    }
    assert frames[..|frames|] == frames;
  }

  /** The inner loop over the frames of one package. */
  method BuildFrames(
    ghost step: (Sender, Frame) -> Outcome, ghost g: Package -> seq<Frame>, s: Sender, p: Package)
    returns (o: Outcome)
    requires step == Build && g == FramesOf
    ensures o == RunAll(step, s, g(p))
  {
    ghost var fs := FramesOf(p);
    if p.data == [] {
      o := Build(s, Frame(MakeHead(p, 0, 1, 0), []));
      RunOne(Build, s, fs[0]);
      assert fs == [fs[0]];
      return;
    }
    var bufs := CutFrames(p.data);
    var t, fc := s, 0;
    while fc < |bufs|
      invariant 0 <= fc <= |bufs| == |fs|
      invariant BuildAll(s, fs[..fc]) == Ok(t)
    {
      o := Build(t, Frame(MakeHead(p, fc, |bufs|, p.srcLen), bufs[fc]));
      RunSnoc(Build, s, fs, fc);
      match o {
        case Ok(u) => t := u;
        case _ => return;
      }
      fc := fc + 1;
    }
    assert fs[..fc] == fs;
    o := Ok(t);
  }

  /** One more frame after those built so far; a failure stays. */
  lemma RunSnoc(step: (Sender, Frame) -> Outcome, s: Sender, fs: seq<Frame>, k: nat)
    requires k < |fs| && RunAll(step, s, fs[..k]).Ok?
    ensures var o := step(RunAll(step, s, fs[..k]).s, fs[k]);
            && RunAll(step, s, fs[..k + 1]) == o
            && (!o.Ok? ==> RunAll(step, s, fs) == o)
  {
    assert fs[..k + 1][..k] == fs[..k];
    assert fs == fs[..k + 1] + fs[k + 1..];
    RunAppend(step, s, fs[..k + 1], fs[k + 1..]);
  }

  /** The outcome after i packages. */
  ghost function After(
    step: (Sender, Frame) -> Outcome, g: Package -> seq<Frame>, s0: Sender, queue: seq<Package>, i: nat): Outcome
    requires i <= |queue|
  {
    if i == 0 then Ok(s0)
    else
      match After(step, g, s0, queue, i - 1)
      case Ok(s) => RunAll(step, s, g(queue[i - 1]))
      case o => o
  }

  lemma {:induction false} FailureStays(
    step: (Sender, Frame) -> Outcome, g: Package -> seq<Frame>, s0: Sender, queue: seq<Package>, i: nat, n: nat)
    requires i <= n <= |queue| && !After(step, g, s0, queue, i).Ok?
    ensures After(step, g, s0, queue, n) == After(step, g, s0, queue, i)
    decreases n
  {
    if i < n {
      FailureStays(step, g, s0, queue, i, n - 1);
    }
  }

  lemma {:induction false} AfterIsRun(
    step: (Sender, Frame) -> Outcome, g: Package -> seq<Frame>, s0: Sender, queue: seq<Package>, i: nat)
    requires i <= |queue|
    ensures After(step, g, s0, queue, i) == RunAll(step, s0, FlatMap(g, queue[..i]))
  {
    if i > 0 {
      AfterIsRun(step, g, s0, queue, i - 1);
      FlatSnoc(g, queue, i - 1);
      RunAppend(step, s0, FlatMap(g, queue[..i - 1]), g(queue[i - 1]));
    }
  }

  /** The outer loop: check, cut, build, package by package, until a package
      does not pass the check or a frame fails. */
  method PackLoop(
    ghost step: (Sender, Frame) -> Outcome, ghost g: Package -> seq<Frame>,
    s0: Sender, queue: seq<Package>, totalCapacity: nat)
    returns (o: Outcome, i: nat)
    requires step == Build && g == FramesOf
    ensures var n := Admitted(queue, totalCapacity, 0, 0);
            o == After(step, g, s0, queue, n) && (o.Ok? ==> i == n)
  {
    hide Build, FramesOf;
    var totalSend: nat := 0;
    o, i := Ok(s0), 0;
    ghost var n := Admitted(queue, totalCapacity, 0, 0);
    while i < |queue|
      invariant 0 <= i <= n <= |queue| && o.Ok?
      invariant n == Admitted(queue, totalCapacity, i, totalSend)
      invariant After(step, g, s0, queue, i) == o
    {
      if totalSend + |queue[i].data| + (i + 1) * HEAD > totalCapacity {
        return;
      }
      assert i < n;
      o := BuildFrames(step, g, o.s, queue[i]);
      assert o == After(step, g, s0, queue, i + 1);
      if !o.Ok? {
        FailureStays(step, g, s0, queue, i + 1, n);
        return;
      }
      totalSend, i := totalSend + |queue[i].data|, i + 1;
    }
  }

  /** One pass: sum the capacities, then loop over the packages. */
  method OnePass(frames: seq<Buffer>, queue: seq<Package>) returns (r: Option<Packed>)
    requires frames != []
    ensures r == Pass(frames, queue)
  {
    var totalCapacity := SumCapacity(frames);
    var o, i := PackLoop(Build, FramesOf, Start(frames), queue, totalCapacity);
    AfterIsRun(Build, FramesOf, Start(frames), queue, Admitted(queue, totalCapacity, 0, 0));
    if !o.Ok? {
      r := Some(Failed(o));
    } else if i == 0 && queue != [] {
      r := None;
    } else {
      r := Some(Finish(o, i, i < |queue|));
    }
  }

  /** The jump as a loop, followed for at most `passes` passes. */
  method Packaging(frames: seq<Buffer>, queue: seq<Package>, passes: nat) returns (r: Option<Packed>)
    requires frames != []
    ensures r == PackWithin(frames, queue, passes)
  {
    hide Pass;
    var bufs, left := frames, passes;
    r := None;
    while left > 0
      invariant bufs != []
      invariant PackWithin(frames, queue, passes) == PackWithin(bufs, queue, left)
      invariant r.None?
    {
      r := OnePass(bufs, queue);
      if r.Some? { return; }
      bufs, left := bufs + [NOBUFFER], left - 1;
    }
  }

  lemma FlatSnoc(g: Package -> seq<Frame>, queue: seq<Package>, i: nat)
    requires i < |queue|
    ensures FlatMap(g, queue[..i + 1]) == FlatMap(g, queue[..i]) + g(queue[i])
  {
    var q := queue[..i + 1];
    assert q[..|q| - 1] == queue[..i] && q[|q| - 1] == queue[i];
  }

  // ----- the receiver's side -----

  /** setMsgFrames: joins the payloads of the first `count` frames into a buffer
      of m_len bytes; None is the exception. */
  method SetMsgFrames(msgs: seq<Frame>, count: nat, mLen: nat) returns (r: Option<seq<byte>>)
    requires count <= |msgs|
    requires forall i :: 0 <= i < count ==> msgs[i].head.nDataLen == |msgs[i].payload|
    ensures var all := Joined(Payloads(msgs[..count]));
            r == if |all| <= mLen then Some(all) else None
  {
    var buf: seq<byte> := [];
    ghost var all := Joined(Payloads(msgs[..count]));
    assert msgs[..count] == msgs[0..count];
    for i := 0 to count
      invariant |buf| <= mLen
      invariant all == buf + Joined(Payloads(msgs[i..count]))
    {
      ghost var rest := Payloads(msgs[i..count]);
      assert rest[0] == msgs[i].payload && rest[1..] == Payloads(msgs[i + 1..count]);
      assert all == (buf + msgs[i].payload) + Joined(rest[1..]);
      if |buf| > mLen || |buf| + msgs[i].head.nDataLen > mLen {
        return None;
      }
      buf := buf + msgs[i].payload;
    }
    assert Payloads(msgs[count..count]) == [];
    assert all == buf;
    r := Some(buf);
  }
}
