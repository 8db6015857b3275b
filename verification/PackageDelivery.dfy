/** What a receiver gets from a call of Packaging: the exact conditions under
    which the buffers carry the frames, and what is lost otherwise. */
module PackageDelivery {
  import opened Options
  import opened Bytes
  import opened PackageFraming

  // ----- a header split over two buffers -----

  /** A header may be split after avail bytes, and what is left of it goes with
      the payload into the next buffer. */
  predicate SplitOk(caps: seq<nat>, k: nat, o: nat, len: nat)
    requires k < |caps|
  {
    var avail := caps[k] - o;
    && 0 <= avail < HEAD && avail !in {DATALEN, DATALEN + 1, FRAMELEN, FRAMELEN + 1}
    && k + 1 < |caps| && HEAD - avail + len <= caps[k + 1]
  }

  /** The bytes are all written, the write pointer stands behind them, but the
      offset lags d bytes behind the pointer. */
  ghost predicate Lagging(t: Sender, d: nat, all: seq<byte>) {
    && Sane(t) && 0 < d && t.pos == t.nOffset + d && t.pos <= t.frames[t.fIndex].Cap()
    && SentUpTo(t.frames, t.fIndex) + t.frames[t.fIndex].bytes[..t.pos] == all
  }

  /** What the split of a header leaves in the two buffers. */
  lemma HeaderSplitShape(s: Sender, f: Frame)
    requires Good(s) && s.frames[s.fIndex].Cap() - s.nOffset < HEAD && Build(s, f).Ok?
    ensures var k, avail := s.fIndex, s.frames[s.fIndex].Cap() - s.nOffset;
            var t, head := Build(s, f).s, Encode(Final(f.head, |f.payload|));
            && 0 <= avail && k + 1 < |s.frames| == |t.frames|
            && t.frames == s.frames[k := t.frames[k]][k + 1 := t.frames[k + 1]]
            && t.frames[k].Cap() == s.frames[k].Cap() == t.frames[k].valid
            && t.frames[k].bytes == s.frames[k].bytes[..s.nOffset] + head[..avail]
            && t.fIndex == k + 1 && t.nOffset == |f.payload|
            && t.pos == t.frames[k + 1].valid == HEAD - avail + |f.payload| <= t.frames[k + 1].Cap()
            && t.frames[k + 1].bytes[..t.pos] == head[avail..] + f.payload
  {
    hide Encode;
    var k := s.fIndex;
    var b, next := s.frames[k], s.frames[k + 1];
    var avail := b.Cap() - s.nOffset;
    var head := Encode(Final(f.head, |f.payload|));
    PutAppends(b, s.pos, head[..avail], b.Cap());
    PutAppends(next, 0, head[avail..] + f.payload, |f.payload| + HEAD - avail);
    var second := head[avail..] + f.payload;
    assert next.bytes[..0] + second == second;
    assert Put(b, s.pos, head[..avail], b.Cap()).bytes[..b.Cap()] == Put(b, s.pos, head[..avail], b.Cap()).bytes;
  }

  /** A header split appends its frame to the stream, and leaves the offset
      behind by the part of the header that went into the next buffer. */
  lemma HeaderSplitSends(s: Sender, f: Frame)
    requires Good(s) && s.frames[s.fIndex].Cap() - s.nOffset < HEAD && Build(s, f).Ok?
    ensures var t := Build(s, f).s;
            && Sane(t) && Sent(t) == Sent(s) + FrameBytes(f)
            && Lagging(t, HEAD - (s.frames[s.fIndex].Cap() - s.nOffset), Sent(t))
            && t.nOffset == |f.payload|
  {
    hide Encode, Build, SentUpTo;
    HeaderSplitShape(s, f);
    var k, t := s.fIndex, Build(s, f).s;
    var avail := s.frames[k].Cap() - s.nOffset;
    var head := Encode(Final(f.head, |f.payload|));
    assert t.frames[k].bytes[..t.frames[k].valid] == t.frames[k].bytes;
    SentTwo(s.frames, t.frames, k, head[..avail], head[avail..] + f.payload);
    assert head[..avail] + (head[avail..] + f.payload) == FrameBytes(f);
    SentLast(t.frames, t.fIndex);
  }

  lemma SentLast(frames: seq<Buffer>, k: nat)
    requires k < |frames| && forall i :: 0 <= i < |frames| ==> frames[i].valid <= |frames[i].bytes|
    ensures SentUpTo(frames, k + 1) == SentUpTo(frames, k) + frames[k].bytes[..frames[k].valid]
  {
  }

  /** Whether a header split goes through, from the capacities alone. */
  lemma HeaderSplitIff(s: Sender, f: Frame)
    requires Good(s) && s.frames[s.fIndex].Cap() - s.nOffset < HEAD
    ensures Build(s, f).Ok? <==> SplitOk(Caps(s.frames), s.fIndex, s.nOffset, |f.payload|)
  {
    hide Encode;
    var avail := s.frames[s.fIndex].Cap() - s.nOffset;
    assert avail >= 0;
    TableExact(avail);
  }

  // ----- every frame after a header split -----

  /** A frame behind a lagging offset is either not laid out at all, or it stays
      in the same buffer, and the valid prefix then ends d bytes too early. */
  lemma LagStep(t: Sender, d: nat, all: seq<byte>, g: Frame)
    requires Lagging(t, d, all) && Build(t, g).Ok?
    ensures var u := Build(t, g).s;
            && Lagging(u, d, all + FrameBytes(g)) && u.frames[u.fIndex].valid == u.nOffset > 0
  {
    hide Encode;
    var k, b := t.fIndex, t.frames[t.fIndex];
    assert |FrameBytes(g)| == HEAD + |g.payload|;
    var u := Build(t, g).s;
    assert u.fIndex == k && u.frames == t.frames[k := Put(b, t.pos, FrameBytes(g), t.nOffset + HEAD + |g.payload|)];
    PutAppends(b, t.pos, FrameBytes(g), t.nOffset + HEAD + |g.payload|);
    SentSame(t.frames, u.frames, k);
    LagSum(SentUpTo(t.frames, k), b.bytes[..t.pos], FrameBytes(g));
  }

  lemma LagSum(a: seq<byte>, b: seq<byte>, c: seq<byte>)
    ensures a + (b + c) == (a + b) + c
  {
  }

  lemma {:induction false} LagRun(t: Sender, d: nat, all: seq<byte>, fs: seq<Frame>)
    requires Lagging(t, d, all) && fs != [] && BuildAll(t, fs).Ok?
    ensures var u := BuildAll(t, fs).s;
            && Lagging(u, d, all + StreamOf(fs)) && u.frames[u.fIndex].valid == u.nOffset > 0
    decreases |fs|
  {
    hide Build, FrameBytes, Lagging;
    var n := |fs| - 1;
    var last := fs[n];
    if n == 0 {
      assert fs == [last];
      RunOne(Build, t, last);
      LagStep(t, d, all, last);
      StreamOne(FrameBytes, last);
    } else {
      LagRun(t, d, all, fs[..n]);
      LagStep(BuildAll(t, fs[..n]).s, d, all + StreamOf(fs[..n]), last);
      LagSum(all, StreamOf(fs[..n]), FrameBytes(last));
    }
  }

  lemma StreamOne(enc: Frame -> seq<byte>, f: Frame)
    ensures StreamWith(enc, [f]) == enc(f)
  {
    assert [f][..0] == [];
    assert StreamWith(enc, [f]) == [] + enc(f);
  }

  /** The valid prefixes then are the stream without its last d bytes. */
  lemma LagTruncates(u: Sender, d: nat, all: seq<byte>)
    requires Lagging(u, d, all) && u.frames[u.fIndex].valid == u.nOffset
    ensures d <= |all| && Sent(u) == all[..|all| - d]
  {
    var k := u.fIndex;
    SentLast(u.frames, k);
    var pre, b := SentUpTo(u.frames, k), u.frames[k].bytes;
    assert |all| == |pre| + u.pos;
    assert (pre + b[..u.pos])[..|pre| + u.nOffset] == pre + b[..u.nOffset];
  }

  // ----- the exact condition for the stream -----

  /** All frames but the last fit without splitting a header, and the last one
      splits its header where that works. */
  predicate LastSplits(caps: seq<nat>, k: nat, o: nat, fs: seq<Frame>)
    requires k < |caps|
  {
    && fs != []
    && match Landing(caps, k, o, fs[..|fs| - 1])
       case None => false
       case Some(p) => SplitOk(caps, p.0, p.1, |fs[|fs| - 1].payload|)
  }

  predicate Delivers(caps: seq<nat>, k: nat, o: nat, fs: seq<Frame>)
    requires k < |caps|
  {
    AllFit(caps, k, o, fs) || LastSplits(caps, k, o, fs)
  }

  /** The valid prefixes lack the last d bytes, between 1 and 24 of them. */
  predicate Misses(t: Sender, right: seq<byte>, d: nat) {
    Sane(t) && 0 < d <= HEAD && d <= |right| && Sent(t) == right[..|right| - d]
  }

  ghost predicate Short(t: Sender, right: seq<byte>) { exists d: nat :: Misses(t, right, d) }

  predicate Settled(t: Sender) { t.fIndex < |t.frames| && t.frames[t.fIndex].valid == t.nOffset }

  predicate Right(o: Outcome, right: seq<byte>) { o.Ok? && Sane(o.s) && Sent(o.s) == right }

  lemma LandingCons(caps: seq<nat>, k: nat, o: nat, fs: seq<Frame>)
    requires k < |caps| && fs != []
    ensures match Room(caps, k, o, |fs[0].payload|)
            case None =>
              && !AllFit(caps, k, o, fs)
              && (LastSplits(caps, k, o, fs) <==> |fs| == 1 && SplitOk(caps, k, o, |fs[0].payload|))
            case Some(p) =>
              && Delivers(caps, k, o, fs) == Delivers(caps, p.0, p.1, fs[1..])
              && AllFit(caps, k, o, fs) == AllFit(caps, p.0, p.1, fs[1..])
  {
    hide Room, SplitOk;
    var rest := fs[1..];
    if rest != [] {
      assert fs[..|fs| - 1][1..] == rest[..|rest| - 1];
      assert fs[..|fs| - 1][0] == fs[0];
      assert fs[|fs| - 1] == rest[|rest| - 1];
    } else {
      assert fs[..|fs| - 1] == [];
    }
  }

  /** The first frame that does not fit: laid out by a header split, or not at
      all; and what the frames behind it do. */
  lemma FirstMisfit(s: Sender, fs: seq<Frame>)
    requires Good(s) && fs != [] && Room(Caps(s.frames), s.fIndex, s.nOffset, |fs[0].payload|).None?
    ensures var o, right := BuildAll(s, fs), Sent(s) + StreamOf(fs);
            var avail := s.frames[s.fIndex].Cap() - s.nOffset;
            if |fs| == 1 && SplitOk(Caps(s.frames), s.fIndex, s.nOffset, |fs[0].payload|)
            then avail < HEAD && Right(o, right) && Lagging(o.s, HEAD - avail, right) && o.s.nOffset == |fs[0].payload|
            else o.Ok? ==> avail < HEAD && Misses(o.s, right, HEAD - avail) && Settled(o.s)
  {
    hide Build, Lagging, FrameBytes, SentUpTo;
    var f, rest := fs[0], fs[1..];
    StreamHead(FrameBytes, fs);
    assert fs == [f] + rest;
    if Build(s, f).Ok? {
      MisfitSplits(s, f);
      HeaderSplitIff(s, f);
      HeaderSplitSends(s, f);
      RunCons(Build, s, fs);
      var t, d := Build(s, f).s, HEAD - (s.frames[s.fIndex].Cap() - s.nOffset);
      LagSum(Sent(s), FrameBytes(f), StreamOf(rest));
      if rest == [] {
        assert StreamOf(rest) == [] && Sent(t) + [] == Sent(t);
        assert Lagging(t, d, Sent(s) + StreamOf(fs));
      } else if BuildAll(t, rest).Ok? {
        LagRun(t, d, Sent(t), rest);
        var u := BuildAll(t, rest).s;
        LagTruncates(u, d, Sent(t) + StreamOf(rest));
        assert Misses(u, Sent(t) + StreamOf(rest), d) by { LagSane(u, d, Sent(t) + StreamOf(rest)); }
      }
    } else {
      RunAppend(Build, s, [f], rest);
      RunOne(Build, s, f);
      assert !SplitOk(Caps(s.frames), s.fIndex, s.nOffset, |f.payload|) by {
        if s.frames[s.fIndex].Cap() - s.nOffset < HEAD {
          HeaderSplitIff(s, f);
        }
      }
    }
  }

  lemma LagSane(u: Sender, d: nat, all: seq<byte>)
    requires Lagging(u, d, all)
    ensures Sane(u)
  {
  }

  /** A frame that finds no room but is laid out has split its header. */
  lemma MisfitSplits(s: Sender, f: Frame)
    requires Good(s) && Room(Caps(s.frames), s.fIndex, s.nOffset, |f.payload|).None? && Build(s, f).Ok?
    ensures s.frames[s.fIndex].Cap() - s.nOffset < HEAD
  {
    hide Encode;
  }

  /** The buffers carry what they held and the stream of the frames if and only
      if every frame fits without splitting a header, or all but the last do and
      the last one's header splits where that works. Otherwise the call fails,
      or up to 24 bytes at the end are missing. */
  lemma {:induction false} StreamExact(s: Sender, fs: seq<Frame>)
    requires Good(s)
    ensures var o, right := BuildAll(s, fs), Sent(s) + StreamOf(fs);
            && (Right(o, right) <==> Delivers(Caps(s.frames), s.fIndex, s.nOffset, fs))
            && (AllFit(Caps(s.frames), s.fIndex, s.nOffset, fs) ==> o.Ok? && Good(o.s))
            && (!AllFit(Caps(s.frames), s.fIndex, s.nOffset, fs) && o.Ok? ==>
                  if Right(o, right)
                  then (exists d: nat :: d <= HEAD && Lagging(o.s, d, right)) && o.s.nOffset == |fs[|fs| - 1].payload|
                  else Short(o.s, right) && Settled(o.s))
    decreases |fs|
  {
    hide Build, Lagging, FrameBytes, SentUpTo, Room, SplitOk;
    var o, right := BuildAll(s, fs), Sent(s) + StreamOf(fs);
    if fs == [] {
      assert Sent(s) + [] == Sent(s);
    } else {
      var f, rest := fs[0], fs[1..];
      LandingCons(Caps(s.frames), s.fIndex, s.nOffset, fs);
      BuildExact(s, f);
      if Room(Caps(s.frames), s.fIndex, s.nOffset, |f.payload|).Some? {
        var t := Build(s, f).s;
        StreamExact(t, rest);
        RunCons(Build, s, fs);
        StreamHead(FrameBytes, fs);
        LagSum(Sent(s), FrameBytes(f), StreamOf(rest));
        assert right == Sent(t) + StreamOf(rest);
        if rest != [] {
          assert fs[|fs| - 1] == rest[|rest| - 1];
        }
      } else {
        FirstMisfit(s, fs);
        if o.Ok? && Short(o.s, right) {
          ShortWrong(o.s, right);
        }
        if Right(o, right) {
          assert Lagging(o.s, HEAD - (s.frames[s.fIndex].Cap() - s.nOffset), right);
        }
      }
    }
  }

  lemma ShortWrong(t: Sender, right: seq<byte>)
    requires Short(t, right)
    ensures Sent(t) != right
  {
  }

  // ----- what the receiver makes of it -----

  /** A frame that is cut short parses to nothing, or not at all. */
  lemma ParseCut(f: Frame, c: nat)
    requires FrameOk(f) && c < |FrameBytes(f)|
    ensures Parse(FrameBytes(f)[..c]) == if c == 0 then Some([]) else None
  {
    hide Encode, Decode;
    var b, h := FrameBytes(f)[..c], Final(f.head, |f.payload|);
    if c >= HEAD {
      assert b[..HEAD] == Encode(h);
      HeadRoundTrip(h);
    }
  }

  /** A receiver of a stream with up to 24 bytes missing does not get the frames. */
  lemma ShortParse(fs: seq<Frame>, d: nat)
    requires fs != [] && 0 < d <= HEAD && forall i :: 0 <= i < |fs| ==> FrameOk(fs[i])
    ensures d <= |StreamOf(fs)|
    ensures Parse(StreamOf(fs)[..|StreamOf(fs)| - d]) != Some(Wired(fs))
  {
    hide Encode, Decode, Parse, FrameBytes;
    var n := |fs| - 1;
    var a, b := StreamOf(fs[..n]), FrameBytes(fs[n]);
    assert StreamOf(fs) == a + b;
    FrameLength(fs[n]);
    var c := |b| - d;
    assert (a + b)[..|a + b| - d] == a + b[..c];
    ParseStreamThen(fs[..n], b[..c]);
    ParseCut(fs[n], c);
    assert c == 0 ==> Wired(fs[..n]) + [] == Wired(fs[..n]);
  }

  lemma FrameLength(f: Frame)
    ensures |FrameBytes(f)| == HEAD + |f.payload|
  {
    hide Encode;
  }

  // ----- the retry -----

  /** The first package passes the capacity check. */
  predicate FirstPasses(frames: seq<Buffer>, queue: seq<Package>) {
    queue == [] || |queue[0].data| + HEAD <= TotalCap(frames)
  }

  lemma PassIff(frames: seq<Buffer>, queue: seq<Package>)
    requires frames != []
    ensures Pass(frames, queue).Some? <==> FirstPasses(frames, queue)
  {
    hide BuildAll;
  }

  lemma {:induction false} EmptyBuffersAddNothing(frames: seq<Buffer>, m: nat)
    ensures TotalCap(frames + seq(m, _ => NOBUFFER)) == TotalCap(frames)
  {
    if m == 0 {
      assert frames + seq(m, _ => NOBUFFER) == frames;
    } else {
      EmptyBuffersAddNothing(frames, m - 1);
      var all := frames + seq(m, _ => NOBUFFER);
      assert all[..|all| - 1] == frames + seq(m - 1, _ => NOBUFFER) && all[|all| - 1] == NOBUFFER;
    }
  }

  /** After m failed passes the call works on m more buffers. */
  lemma {:induction false} RetryState(frames: seq<Buffer>, queue: seq<Package>, m: nat, passes: nat)
    requires frames != [] && !FirstPasses(frames, queue)
    ensures PackWithin(frames, queue, m + passes) == PackWithin(frames + seq(m, _ => NOBUFFER), queue, passes)
    decreases m
  {
    hide Pass;
    if m == 0 {
      assert frames + seq(m, _ => NOBUFFER) == frames;
    } else {
      PassIff(frames, queue);
      var more := frames + [NOBUFFER];
      EmptyBuffersAddNothing(frames, 1);
      assert more == frames + seq(1, _ => NOBUFFER);
      RetryState(more, queue, m - 1, passes);
      assert more + seq(m - 1, _ => NOBUFFER) == frames + seq(m, _ => NOBUFFER);
    }
  }

  /** However often it retries, every pass fails like the first. */
  lemma RetryFails(frames: seq<Buffer>, queue: seq<Package>, m: nat)
    requires frames != [] && !FirstPasses(frames, queue)
    ensures Pass(frames + seq(m, _ => NOBUFFER), queue).None? && PackWithin(frames, queue, m).None?
  {
    EmptyBuffersAddNothing(frames, m);
    PassIff(frames + seq(m, _ => NOBUFFER), queue);
    RetryState(frames, queue, m, 0);
  }

  /** The call returns if and only if there is nothing to send or the first
      package passes the capacity check; then its first pass is its last. */
  lemma ReturnsIff(frames: seq<Buffer>, queue: seq<Package>)
    requires frames != []
    ensures (exists passes :: PackWithin(frames, queue, passes).Some?) <==> FirstPasses(frames, queue)
    ensures FirstPasses(frames, queue) ==> forall passes :: passes >= 1 ==> PackWithin(frames, queue, passes) == Pass(frames, queue)
  {
    hide Pass;
    PassIff(frames, queue);
    if FirstPasses(frames, queue) {
      assert PackWithin(frames, queue, 1) == Pass(frames, queue);
    } else {
      forall passes: nat ensures PackWithin(frames, queue, passes).None? {
        RetryFails(frames, queue, passes);
      }
    }
  }

  // ----- the whole call -----

  /** Stopping at the capacity check sets the valid length to the offset, which
      is wrong after a header split unless nothing followed the header. */
  predicate PackDelivers(frames: seq<Buffer>, queue: seq<Package>)
    requires frames != []
  {
    var n := Admitted(queue, TotalCap(frames), 0, 0);
    var fs := AllFrames(queue[..n]);
    && FirstPasses(frames, queue)
    && (AllFit(Caps(frames), 0, 0, fs)
        || (LastSplits(Caps(frames), 0, 0, fs) && (n == |queue| || fs[|fs| - 1].payload == [])))
  }

  /** The packages handed over, as the receiver parses them. */
  predicate Arrives(r: Option<Packed>, queue: seq<Package>) {
    && r.Some? && r.value.Packed? && r.value.count <= |queue| && Sane(r.value.s)
    && Parse(Sent(r.value.s)) == Some(Wired(AllFrames(queue[..r.value.count])))
  }

  lemma SettleSane(t: Sender)
    requires Sane(t) && (Settled(t) || t.nOffset == 0)
    ensures Settle(t) == t
  {
  }

  lemma SettleLags(t: Sender, d: nat, right: seq<byte>)
    requires Lagging(t, d, right) && d <= HEAD && t.nOffset > 0
    ensures Short(Settle(t), right)
  {
    var u := Settle(t);
    SentSame(t.frames, u.frames, t.fIndex);
    assert Lagging(u, d, right);
    LagTruncates(u, d, right);
    assert Misses(u, right, d);
  }

  /** What is in the buffers when the call has returned. */
  lemma FinishExact(frames: seq<Buffer>, fs: seq<Frame>, n: nat, stopped: bool)
    requires frames != [] && forall i :: 0 <= i < |frames| ==> frames[i].valid == 0
    ensures var r, caps := Finish(BuildAll(Start(frames), fs), n, stopped), Caps(frames);
            if AllFit(caps, 0, 0, fs) || (LastSplits(caps, 0, 0, fs) && (!stopped || fs[|fs| - 1].payload == []))
            then r.Packed? && r.count == n && Sane(r.s) && Sent(r.s) == StreamOf(fs)
            else r.Packed? ==> fs != [] && Short(r.s, StreamOf(fs))
  {
    hide Build, Lagging, FrameBytes, Landing, SplitOk;
    var s, right := Start(frames), StreamOf(fs);
    StartEmpty(frames);
    assert Sent(s) + right == right;
    StreamExact(s, fs);
    var o := BuildAll(s, fs);
    if o.Ok? && stopped {
      if AllFit(Caps(frames), 0, 0, fs) || !Right(o, right) || o.s.nOffset == 0 {
        SettleSane(o.s);
      } else {
        var d: nat :| d <= HEAD && Lagging(o.s, d, right);
        SettleLags(o.s, d, right);
      }
    }
  }

  lemma StartEmpty(frames: seq<Buffer>)
    requires frames != [] && forall i :: 0 <= i < |frames| ==> frames[i].valid == 0
    ensures Good(Start(frames)) && Sent(Start(frames)) == []
  {
    assert SentUpTo(frames, 1) == SentUpTo(frames, 0) + frames[0].bytes[..0];
  }

  /** With empty buffers, the receiver gets exactly the frames of the packages
      handed over if and only if the first package passes the capacity check and
      the frames fit, splitting no header but perhaps the last. */
  lemma FramingRoundTrip(frames: seq<Buffer>, queue: seq<Package>)
    requires frames != [] && forall i :: 0 <= i < |frames| ==> frames[i].valid == 0
    requires forall i :: 0 <= i < |queue| ==> queue[i].stamp < 0x1_0000_0000_0000_0000
    ensures Arrives(Pass(frames, queue), queue) <==> PackDelivers(frames, queue)
    ensures forall i :: 0 <= i < |queue| ==> Joined(Payloads(FramesOf(queue[i]))) == queue[i].data
  {
    hide Encode, Decode, Build, FramesOf, RunAll, Landing, Parse, FlatMap, SplitOk;
    var n := Admitted(queue, TotalCap(frames), 0, 0);
    var fs := AllFrames(queue[..n]);
    PassIff(frames, queue);
    FinishExact(frames, fs, n, n < |queue|);
    AllFramesOk(queue[..n]);
    ParseStream(fs);
    if Pass(frames, queue).Some? {
      var r := Pass(frames, queue).value;
      if r.Packed? && fs != [] && Short(r.s, StreamOf(fs)) {
        var d: nat :| Misses(r.s, StreamOf(fs), d);
        ShortParse(fs, d);
      }
    }
    forall i | 0 <= i < |queue| ensures Joined(Payloads(FramesOf(queue[i]))) == queue[i].data {
      FramesCarryData(queue[i]);
    }
  }

  // ----- which packages are handed over, and what is in their frames -----

  /** The data of the first j packages. */
  function DataUpTo(queue: seq<Package>, j: nat): nat
    requires j <= |queue|
  {
    if j == 0 then 0 else DataUpTo(queue, j - 1) + |queue[j - 1].data|
  }

  /** Package j passes the check: all data up to it and one header per package. */
  predicate Passes(queue: seq<Package>, cap: nat, j: nat)
    requires j < |queue|
  {
    DataUpTo(queue, j + 1) + HEAD * (j + 1) <= cap
  }

  lemma {:induction false} AdmittedFrom(queue: seq<Package>, cap: nat, i: nat)
    requires i <= |queue|
    ensures var n := Admitted(queue, cap, i, DataUpTo(queue, i));
            && (forall j :: i <= j < n ==> Passes(queue, cap, j))
            && (n < |queue| ==> !Passes(queue, cap, n))
    decreases |queue| - i
  {
    if i < |queue| && Passes(queue, cap, i) {
      AdmittedFrom(queue, cap, i + 1);
    }
  }

  /** The call takes packages up to the first that does not pass. */
  lemma AdmittedExact(queue: seq<Package>, cap: nat)
    ensures var n := Admitted(queue, cap, 0, 0);
            && (forall j :: 0 <= j < n ==> Passes(queue, cap, j))
            && (n < |queue| ==> !Passes(queue, cap, n))
  {
    AdmittedFrom(queue, cap, 0);
  }

  /** The number of frames of the first i packages. */
  function FramesBefore(queue: seq<Package>, i: nat): nat
    requires i <= |queue|
  {
    if i == 0 then 0
    else FramesBefore(queue, i - 1) + (if queue[i - 1].data == [] then 1 else (|queue[i - 1].data| + 999) / 1000)
  }

  lemma {:induction false} FrameAt(queue: seq<Package>, m: nat, i: nat, k: nat)
    requires i < m <= |queue| && k < |FramesOf(queue[i])|
    ensures |AllFrames(queue[..m])| == FramesBefore(queue, m)
    ensures FramesBefore(queue, i) + k < |AllFrames(queue[..m])|
    ensures AllFrames(queue[..m])[FramesBefore(queue, i) + k] == FramesOf(queue[i])[k]
    decreases m
  {
    hide FramesOf, FlatMap;
    FramesTotal(queue, m - 1);
    FramesTotal(queue, m);
    FlatSnoc(FramesOf, queue, m - 1);
    if i < m - 1 {
      FrameAt(queue, m - 1, i, k);
    }
  }

  lemma {:induction false} FramesTotal(queue: seq<Package>, m: nat)
    requires m <= |queue|
    ensures |AllFrames(queue[..m])| == FramesBefore(queue, m)
  {
    if m > 0 {
      FramesTotal(queue, m - 1);
      FlatSnoc(FramesOf, queue, m - 1);
      FramesAnnounce(queue[m - 1], 0);
    }
  }

  /** When the frames arrive, the receiver finds frame k of package i behind the
      frames of the packages before it, with its piece of that package's data
      and a header that says so. */
  lemma ReceiverSees(r: Option<Packed>, queue: seq<Package>, i: nat, k: nat)
    requires Arrives(r, queue) && i < r.value.count
    requires k < if queue[i].data == [] then 1 else (|queue[i].data| + 999) / 1000
    ensures var got := Parse(Sent(r.value.s)).value;
            && |got| == FramesBefore(queue, r.value.count)
            && FramesBefore(queue, i) + k < |got| && 1000 * k <= |queue[i].data|
            && var f := got[FramesBefore(queue, i) + k];
               && f.payload == Piece(queue[i].data, k)
               && Announces(f.head, queue[i], k, FramesBefore(queue, i + 1) - FramesBefore(queue, i), |f.payload|)
  {
    hide Parse, FramesOf, FlatMap, Announces, Piece;
    FramesAnnounce(queue[i], k);
    FrameAt(queue, r.value.count, i, k);
    AllWired(AllFrames(queue[..r.value.count]), FramesBefore(queue, i) + k);
  }

  lemma AllWired(fs: seq<Frame>, j: nat)
    requires j < |fs|
    ensures Wired(fs)[j] == OnWire(fs[j]) && OnWire(fs[j]).payload == fs[j].payload
  {
  }

  lemma {:induction false} AllFramesOk(queue: seq<Package>)
    requires forall i :: 0 <= i < |queue| ==> queue[i].stamp < 0x1_0000_0000_0000_0000
    ensures forall k :: 0 <= k < |AllFrames(queue)| ==> FrameOk(AllFrames(queue)[k])
    decreases |queue|
  {
    if queue != [] {
      var m := |queue| - 1;
      AllFramesOk(queue[..m]);
      FramesCarryData(queue[m]);
      assert AllFrames(queue) == AllFrames(queue[..m]) + FramesOf(queue[m]);
      forall k | 0 <= k < |AllFrames(queue)| ensures FrameOk(AllFrames(queue)[k]) {
        if k < |AllFrames(queue[..m])| {
          assert FrameOk(AllFrames(queue[..m])[k]);
        } else {
          assert FrameOk(FramesOf(queue[m])[k - |AllFrames(queue[..m])|]);
        }
      }
    }
  }
}
