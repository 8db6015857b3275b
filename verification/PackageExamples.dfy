/** Small calls of Packaging that go wrong, and one that just goes right. */
module PackageExamples {
  import opened Options
  import opened Bytes
  import opened PackageFraming
  import opened PackageDelivery

  function Room0(cap: nat): Buffer { Buffer(seq(cap, _ => 0), 0) }

  function Of(len: nat): Package { Package(seq(len, _ => 0), len, 0, 0, 0, 0) }

  /** The one frame of an empty package. */
  function Bare(): Frame { Frame(MakeHead(Of(0), 0, 1, 0), []) }

  lemma BareFrames(n: nat)
    ensures AllFrames(seq(n, _ => Of(0))) == seq(n, _ => Bare())
  {
    hide MakeHead;
    var q := seq(n, _ => Of(0));
    if n > 0 {
      assert q[..n - 1] == seq(n - 1, _ => Of(0));
      BareFrames(n - 1);
      assert FramesOf(Of(0)) == [Bare()];
      assert AllFrames(q) == AllFrames(q[..n - 1]) + FramesOf(q[n - 1]);
      assert seq(n - 1, _ => Bare()) + [Bare()] == seq(n, _ => Bare());
    }
  }

  /** A first package of 1001 bytes and one buffer of 1024: no number of passes
      is enough. */
  lemma RetriedForEver(passes: nat)
    ensures PackWithin([Room0(1024)], [Of(1001)], passes).None?
  {
    var frames := [Room0(1024)];
    assert frames[..0] == [] && TotalCap(frames) == TotalCap([]) + 1024;
    RetryFails(frames, [Of(1001)], passes);
  }

  // ----- two buffers of 25 and 100 bytes, and empty packages -----

  const PAIR: seq<Buffer> := [Room0(25), Room0(100)]

  lemma PairFacts(n: nat)
    requires 1 <= n <= 3
    ensures TotalCap(PAIR) == 125 && Caps(PAIR) == [25, 100]
    ensures Admitted(seq(n, _ => Of(0)), 125, 0, 0) == n
  {
    assert PAIR[..1] == [Room0(25)] && PAIR[..1][..0] == [];
    assert TotalCap(PAIR[..1]) == TotalCap([]) + 25;
    AdmitsBare(n, 0);
  }

  lemma {:induction false} AdmitsBare(n: nat, i: nat)
    requires i <= n <= 3
    ensures Admitted(seq(n, _ => Of(0)), 125, i, 0) == n
    decreases n - i
  {
    if i < n {
      AdmitsBare(n, i + 1);
    }
  }

  /** The second frame's header is split after one byte, and it arrives. */
  lemma LastSplitArrives()
    ensures Arrives(Pass(PAIR, [Of(0), Of(0)]), [Of(0), Of(0)])
  {
    hide MakeHead, RunAll, Admitted, Parse, FlatMap, TotalCap, Pass, Arrives;
    var q, fs := [Of(0), Of(0)], [Bare(), Bare()];
    assert q == seq(2, _ => Of(0)) && fs == seq(2, _ => Bare()) && q[..2] == q;
    PairFacts(2);
    BareFrames(2);
    TwoSplit(fs);
    FramingRoundTrip(PAIR, q);
  }

  lemma TwoSplit(fs: seq<Frame>)
    requires fs == [Bare(), Bare()]
    ensures LastSplits([25, 100], 0, 0, fs)
  {
    hide MakeHead;
    assert fs[..1][1..] == [];
    assert Landing([25, 100], 0, 24, []) == Some((0, 24));
  }

  /** With a third frame behind it the last 23 bytes are missing, and nothing
      in the call's result says so. */
  lemma SplitLosesBytes()
    ensures var q := [Of(0), Of(0), Of(0)];
            var r := Pass(PAIR, q);
            && r.Some? && r.value.Packed? && r.value.count == 3
            && Misses(r.value.s, StreamOf(AllFrames(q)), 23) && !Arrives(r, q)
  {
    hide MakeHead, RunAll, Admitted, Misses, Parse, FlatMap, FrameBytes, TotalCap, FrameOk;
    var q, fs := [Of(0), Of(0), Of(0)], [Bare(), Bare(), Bare()];
    assert q == seq(3, _ => Of(0)) && fs == seq(3, _ => Bare()) && q[..3] == q;
    PairFacts(3);
    BareFrames(3);
    AllFramesOk(q);
    ThreeBuilt();
    ThreeMiss(fs);
    MissedDoesNotArrive(Pass(PAIR, q), q, fs);
  }

  lemma MissedDoesNotArrive(r: Option<Packed>, q: seq<Package>, fs: seq<Frame>)
    requires r.Some? && r.value.Packed? && r.value.count == |q| && AllFrames(q) == fs != []
    requires Misses(r.value.s, StreamOf(fs), 23) && forall i :: 0 <= i < |fs| ==> FrameOk(fs[i])
    ensures !Arrives(r, q)
  {
    hide Parse, AllFrames, StreamOf;
    assert q[..|q|] == q;
    ShortParse(fs, 23);
  }

  lemma ThreeMiss(fs: seq<Frame>)
    requires fs == [Bare(), Bare(), Bare()] && BuildAll(Start(PAIR), fs).Ok?
    ensures Misses(BuildAll(Start(PAIR), fs).s, StreamOf(fs), 23)
  {
    hide Build, FrameBytes, MakeHead, SentUpTo, Misses;
    var s0, rest := Start(PAIR), fs[1..];
    StartEmpty(PAIR);
    BuildExact(s0, Bare());
    var s1 := Build(s0, Bare()).s;
    PairFacts(3);
    FirstMisfit(s1, rest);
    RunCons(Build, s0, fs);
    StreamHead(FrameBytes, fs);
    LagSum(Sent(s0), FrameBytes(Bare()), StreamOf(rest));
    assert [] + StreamOf(fs) == StreamOf(fs);
    assert s1.frames[0].Cap() == Caps(s1.frames)[0];
  }

  lemma ThreeBuilt()
    ensures BuildAll(Start(PAIR), [Bare(), Bare(), Bare()]).Ok?
  {
    hide Encode, MakeHead;
    var s0, f := Start(PAIR), Bare();
    var fs := [f, f, f];
    var s1 := Build(s0, f).s;
    var s2 := Build(s1, f).s;
    assert Build(s2, f).Ok?;
    RunCons(Build, s0, fs);
    assert fs[1..] == [f, f];
    RunCons(Build, s1, [f, f]);
    assert [f, f][1..] == [f];
    RunOne(Build, s2, f);
  }

  // ----- failures that the capacity check does not see -----

  lemma OneBuffer(cap: nat)
    ensures TotalCap([Room0(cap)]) == cap
  {
    var frames := [Room0(cap)];
    assert frames[..0] == [];
    assert TotalCap(frames) == TotalCap([]) + cap;
  }

  lemma OnePackage(p: Package, cap: nat)
    requires |p.data| + HEAD <= cap
    ensures Admitted([p], cap, 0, 0) == 1
  {
    assert Admitted([p], cap, 1, |p.data|) == 1;
  }

  /** A pass over one package that fails. */
  lemma OneFails(cap: nat, p: Package, fs: seq<Frame>)
    requires |p.data| + HEAD <= cap && AllFrames([p]) == fs && BuildAll(Start([Room0(cap)]), fs) == Overrun
    ensures Pass([Room0(cap)], [p]) == Some(Failed(Overrun))
  {
    hide RunAll, FlatMap, Admitted, TotalCap;
    OneBuffer(cap);
    OnePackage(p, cap);
    assert [p][..1] == [p];
  }

  /** A frame that exactly fills the last buffer reads past the buffer list. */
  lemma LastBufferFilled()
    ensures Pass([Room0(24)], [Of(0)]) == Some(Failed(Overrun))
  {
    hide MakeHead, RunAll, FlatMap, Pass, Build;
    BareFrames(1);
    assert [Of(0)] == seq(1, _ => Of(0)) && seq(1, _ => Bare()) == [Bare()];
    FillsLast();
    RunOne(Build, Start([Room0(24)]), Bare());
    OneFails(24, Of(0), [Bare()]);
  }

  lemma FillsLast()
    ensures Build(Start([Room0(24)]), Bare()) == Overrun
  {
    hide Encode, MakeHead;
  }

  /** 1001 bytes pass the check for a buffer of 1030, but they make two frames
      and need 1049. */
  lemma CheckAdmitsTooMuch()
    ensures Pass([Room0(1030)], [Of(1001)]) == Some(Failed(Overrun))
  {
    hide MakeHead, RunAll, FlatMap, Pass, Build;
    var fs := AllFrames([Of(1001)]);
    TwoFrames();
    TwoDoNotFit(fs);
    var s := Start([Room0(1030)]);
    RunCons(Build, s, fs);
    assert fs[1..] == [fs[1]];
    RunOne(Build, Build(s, fs[0]).s, fs[1]);
    OneFails(1030, Of(1001), fs);
  }

  lemma TwoFrames()
    ensures var fs := AllFrames([Of(1001)]); |fs| == 2 && |fs[0].payload| == 1000 && |fs[1].payload| == 1
  {
    hide MakeHead;
    var q := [Of(1001)];
    assert q[..0] == [];
    assert AllFrames(q) == [] + FramesOf(q[0]);
    assert Chunks(q[0].data) == [q[0].data[..1000], q[0].data[1000..]];
  }

  lemma TwoDoNotFit(fs: seq<Frame>)
    requires |fs| == 2 && |fs[0].payload| == 1000 && |fs[1].payload| == 1
    ensures var o := Build(Start([Room0(1030)]), fs[0]); o.Ok? && Build(o.s, fs[1]) == Overrun
  {
    hide Encode;
  }
}
