/**
 Small recordings, and runs of the stripe machine on them in which it fails.

 A sample file has the layout asked for.  Its packets carry a time in seconds in
 their first byte, and are zero otherwise, as are the tags: nothing else of the
 file is looked at once its index is known.
 */
module Samples {
  import opened Timeline
  import opened SgLayout
  import opened SgIndex
  import opened Member
  import opened Window
  import opened Rounds
  import opened Stripes

  /** The packet starts of the blocks from block b on. */
  function StartsFrom(l: Layout, b: nat): seq<nat>
    requires b <= l.Blocks()
    decreases l.Blocks() - b
  {
    if b == l.Blocks() then []
    else seq(l.Count(b), j requires 0 <= j => l.PktAt(b, j)) + StartsFrom(l, b + 1)
  }

  lemma {:induction false} StartListed(l: Layout, b: nat, c: nat, j: nat)
    requires l.IsPkt(c, j) && b <= c
    ensures l.PktAt(c, j) in StartsFrom(l, b)
    decreases c - b
  {
    if b < c {
      StartListed(l, b + 1, c, j);
    } else {
      assert seq(l.Count(b), i requires 0 <= i => l.PktAt(b, i))[j] == l.PktAt(c, j);
    }
  }

  lemma {:induction false} ListedStarts(l: Layout, b: nat, o: nat)
    requires b <= l.Blocks() && o in StartsFrom(l, b)
    ensures l.IsPktStart(o)
    decreases l.Blocks() - b
  {
    if o in StartsFrom(l, b + 1) {
      ListedStarts(l, b + 1, o);
    } else {
      var j :| 0 <= j < l.Count(b) && l.PktAt(b, j) == o;
      PktStart(l, b, j);
    }
  }

  const SAMPLE_SIZE := 0x2000

  function MemOf(l: Layout): (mem: seq<Byte>)
    ensures |mem| == l.Size()
  {
    var starts := StartsFrom(l, 0);
    seq(l.Size(), o requires 0 <= o => if o in starts then o / 32 % 256 else 0)
  }

  function FileOf(l: Layout): SgFile {
    SgFile(IndexOf(l), MemOf(l))
  }

  /** The packet at offset o is that of second o / 32. */
  lemma {:induction false} SampleTick(l: Layout, b: nat, j: nat)
    requires l.Valid() && l.Size() <= SAMPLE_SIZE && l.IsPkt(b, j)
    ensures TickAt(MemOf(l), l.PktAt(b, j)) == l.PktAt(b, j) / 32 * TICKS_PER_SECOND
  {
    hide StartsFrom, Layout.PktAt, Layout.Tag, Layout.Count, Layout.Size;
    var mem, o := MemOf(l), l.PktAt(b, j);
    StartListed(l, 0, b, j);
    PktInside(l, b, j);
    forall p | o < p < o + 8
      ensures mem[p] == 0
    {
      NotPktStart(l, b, j, p - o, p);
      if p in StartsFrom(l, 0) {
        ListedStarts(l, 0, p);
      }
    }
  }

  /** The times of a sample file increase. */
  lemma {:induction false} SampleTimed(l: Layout)
    requires l.Valid() && l.Size() <= SAMPLE_SIZE
    ensures FileOk(FileOf(l), l) && WellTimed([BlocksOf(FileOf(l), l)])
  {
    hide MemOf, TickAt, Layout.PktAt, Layout.Tag, Layout.Count, IndexOf;
    var rec := [BlocksOf(FileOf(l), l)];
    forall f, b | Has(rec, f, b)
      ensures rec[f][b].Valid()
    {
      SampleBlock(l, b);
    }
    forall f, b, g, d
      ensures Apart(rec, f, b, g, d)
    {
      if Has(rec, f, b) && Has(rec, g, d) && b < d {
        SampleBlock(l, b);
        SampleBlock(l, d);
        SampleOrder(l, b, l.Count(b) - 1, d, 0);
      }
    }
  }

  lemma {:induction false} SampleOrder(l: Layout, b: nat, i: nat, d: nat, j: nat)
    requires l.Valid() && l.Size() <= SAMPLE_SIZE && l.IsPkt(b, i) && l.IsPkt(d, j) && (b < d || (b == d && i < j))
    ensures TickAt(MemOf(l), l.PktAt(b, i)) < TickAt(MemOf(l), l.PktAt(d, j))
  {
    hide MemOf, TickAt, Layout.PktAt;
    SampleTick(l, b, i);
    SampleTick(l, d, j);
    PktOrder(l, b, i, d, j);
  }

  lemma {:induction false} SampleBlock(l: Layout, b: nat)
    requires l.Valid() && l.Size() <= SAMPLE_SIZE && b < l.Blocks()
    ensures 0 < l.Count(b) && var block := BlocksOf(FileOf(l), l)[b];
            && block.Valid() && |block.data| == Mul(l.Count(b), l.pkt)
            && block.First() == TickAt(MemOf(l), l.PktAt(b, 0))
            && block.Final() == TickAt(MemOf(l), l.PktAt(b, l.Count(b) - 1))
  {
    hide MemOf, TickAt, Layout.PktAt, Layout.Tag;
    CountPositive(l, b);
    hide Layout.Count;
    var block := BlocksOf(FileOf(l), l)[b];
    assert block == Block(TicksOf(FileOf(l), l, b), Member.DataOf(FileOf(l), l, b));
    MulMono(1, l.Count(b), l.pkt);
    assert Mul(1, l.pkt) == l.pkt;
    forall i, j | 0 <= i < j < |block.ticks|
      ensures block.ticks[i] < block.ticks[j]
    {
      SampleOrder(l, b, i, b, j);
    }
  }

  // ---------------------------------------------------------------- recordings of one sample

  ghost function RecordingFrom(l: Layout): Recording
    requires l.Valid()
  {
    [BlocksOf(FileOf(l), l)]
  }

  /** What the stripe machine needs to know of a sample. */
  lemma {:induction false} SampleReady(l: Layout)
    requires l.Valid() && l.Size() <= SAMPLE_SIZE
    ensures FileOk(FileOf(l), l) && RecordingOf([FileOf(l)], [l]) == RecordingFrom(l)
    ensures WellTimed(RecordingFrom(l)) && Rotates(RecordingFrom(l))
    ensures |RecordingFrom(l)[0]| == l.Blocks() && |Virtual(RecordingFrom(l))| == Mul(l.TotalPkts(), l.pkt)
  {
    SampleTimed(l);
    OneRotates(RecordingFrom(l));
    OneTotal(RecordingFrom(l));
    BytesBelowPkts(FileOf(l), l, l.Blocks());
  }

  /** The bytes before a block of a sample, and in it. */
  lemma {:induction false} SampleBytes(l: Layout, b: nat)
    requires l.Valid() && l.Size() <= SAMPLE_SIZE && b < l.Blocks()
    ensures BytesBelow(RecordingFrom(l)[0], b) == Mul(l.PktsBefore(b), l.pkt)
    ensures |RecordingFrom(l)[0][b].data| == Mul(l.Count(b), l.pkt)
  {
    BytesBelowPkts(FileOf(l), l, b);
    SampleBlock(l, b);
  }

  /** Open a sample. */
  method OpenSample(l: Layout) returns (s: Stripe)
    requires l.Valid() && l.Size() <= SAMPLE_SIZE
    ensures fresh(s) && fresh(s.frag) && fresh(s.stripe)
    ensures s.InWindow() && s.bybs == 0 && s.rec == RecordingFrom(l) && Rotates(s.rec)
    ensures |Virtual(s.rec)| == Mul(l.TotalPkts(), l.pkt)
  {
    SampleReady(l);
    hide FileOk, WellTimed, Rotates, Virtual, RecordingOf, RecordingFrom;
    s := new Stripe.Open([FileOf(l)], [l]);
  }

  // ---------------------------------------------------------------- blocks of one size

  /** Files of n blocks of two packets of 32 bytes. */
  function Even(n: nat): Layout {
    Layout(32, 2, n, 0, 0, 0)
  }

  lemma {:induction false} EvenSizes(n: nat, b: nat)
    requires b <= n <= 3 && 0 < n
    ensures Even(n).Blocks() == n && Even(n).Valid()
    ensures Even(n).Tag(b) == 20 + 72 * b && Even(n).PktsBefore(b) == 2 * b
    ensures Mul(2, 32) == 64 && Mul(2 * b, 32) == 64 * b
  {
    hide *;
    EvenShape(n);
    Origin(Even(n));
    MulIsProduct(2, 32);
    MulIsProduct(2 * b, 32);
    MulIsProduct(b, 72);
    MulIsProduct(b, 2);
    RegionLinear(Even(n), 0, b);
  }

  /** All blocks lie in the first region. */
  lemma {:induction false} EvenShape(n: nat)
    requires 0 < n <= 3
    ensures var l := Even(n);
            && l.Valid() && l.Blocks() == l.RegionBlocks(0) == n && l.RegionCount(0) == 2
            && l.BlockBytes(2) == 72 && FILE_TAG == 20
  {
    MulIsProduct(2, 32);
  }

  lemma {:induction false} EvenOk(n: nat)
    requires 0 < n <= 3
    ensures Even(n).Valid() && Even(n).Size() <= SAMPLE_SIZE && Mul(Even(n).TotalPkts(), 32) == 64 * n
    ensures |RecordingFrom(Even(n))| == 1 && |RecordingFrom(Even(n))[0]| == n
  {
    hide Layout.Tag, Layout.PktsBefore, Mul;
    EvenSizes(n, n);
  }

  lemma {:induction false} EvenBytes(n: nat, b: nat)
    requires b < n <= 3
    ensures Even(n).Valid()
    ensures BytesBelow(RecordingFrom(Even(n))[0], b) == 64 * b && |RecordingFrom(Even(n))[0][b].data| == 64
  {
    hide RecordingFrom, BytesBelow, Layout.Tag, Layout.PktsBefore, Layout.Size, Mul;
    EvenOk(n);
    EvenSizes(n, b);
    SampleBytes(Even(n), b);
  }

  /** The window of a stripe on such a file is a block. */
  lemma {:induction false} EvenWindow(s: Stripe, n: nat) returns (k: nat)
    requires 0 < n <= 3 && Even(n).Valid() && s.InWindow() && s.rec == RecordingFrom(Even(n))
    ensures k < n && s.bybs == 64 * k && s.byis == 64 && s.Cut() == [k]
  {
    hide RecordingFrom, Stripe.InWindow, Stripe.Cut, BytesBelow, Layout.Valid;
    EvenOk(n);
    k := OneWindow(s);
    EvenBytes(n, k);
  }

  lemma {:induction false} EvenRound(n: nat, b: nat)
    requires b < n <= 3
    ensures Even(n).Valid() && |RecordingFrom(Even(n))| == 1 && InRange(RecordingFrom(Even(n)), [b])
    ensures Pos(RecordingFrom(Even(n)), [b]) == 64 * b && RoundEnd(RecordingFrom(Even(n)), [b]) == 64 * b + 64
    ensures Back([b + 1]) == [b]
  {
    hide RecordingFrom, Layout.Valid, Pos, RoundEnd;
    EvenOk(n);
    EvenBytes(n, b);
    OneRound(RecordingFrom(Even(n)), b);
  }

  // ---------------------------------------------------------------- runs that fail

  /** From the window of the middle one of three blocks, the three cannot be read, although all are there. */
  method ReadAcross() returns (first: Outcome, second: Outcome)
    ensures first == Read(64) && second == IoError
  {
    hide RecordingFrom, Stripe.InWindow, Stripe.Cut, Virtual, IsSlice, Rotates, Mul, Layout.Valid, Layout.Size;
    hide Layout.TotalPkts;
    EvenOk(3);
    var s := OpenSample(Even(3));
    ghost var at;
    var buf := new Byte[192](_ => 0);
    first, at := s.ReadSeq(buf, 64, 64);
    ghost var k := EvenWindow(s, 3);
    second, at := s.ReadSeq(buf, 0, 192);
  }

  /**
   From the window of the last of three blocks, the last two cannot be read,
   although the first of them is the window before.
   */
  method ReadFromBoundary() returns (first: Outcome, second: Outcome)
    ensures first == Read(64) && second == IoError
  {
    hide RecordingFrom, Stripe.InWindow, Stripe.Cut, Virtual, IsSlice, Rotates, Mul, Layout.Valid, Layout.Size;
    hide Layout.TotalPkts, ComesFrom;
    EvenOk(3);
    var s := OpenSample(Even(3));
    ghost var at;
    var buf := new Byte[128](_ => 0);
    first, at := s.ReadRotating(buf, 128, 64);
    BoundaryComes(s);
    second, at := s.ReadRotating(buf, 64, 128);
  }

  lemma {:induction false} BoundaryComes(s: Stripe)
    requires Even(3).Valid() && s.InWindow() && Rotates(s.rec) && s.rec == RecordingFrom(Even(3))
             && 192 <= s.bybs + s.byis
    ensures s.bybs == 128 && s.byis == 64
    ensures WellTimed(s.rec) && IsCut(s.rec, s.Cut()) && ComesFrom(s.rec, s.Cut(), 64, 128) == Refused
  {
    hide RecordingFrom, Stripe.InWindow, Stripe.Cut, Rotates, Layout.Valid, Pos, RoundEnd, Back;
    s.CutShown();
    var k := EvenWindow(s, 3);
    EvenRound(3, 2);
    EvenRound(3, 1);
  }

  /** From the window of the second of two blocks, reading both walks off the first window. */
  method ReadFromStart() returns (first: Outcome, second: Outcome)
    ensures first == Read(64) && second == Lost
  {
    hide RecordingFrom, Stripe.InWindow, Stripe.Cut, Virtual, IsSlice, Rotates, Mul, Layout.Valid, Layout.Size;
    hide Layout.TotalPkts, ComesFrom;
    EvenOk(2);
    var s := OpenSample(Even(2));
    ghost var at;
    var buf := new Byte[128](_ => 0);
    first, at := s.ReadRotating(buf, 64, 64);
    StartComes(s);
    second, at := s.ReadRotating(buf, 0, 128);
  }

  lemma {:induction false} StartComes(s: Stripe)
    requires Even(2).Valid() && s.InWindow() && Rotates(s.rec) && s.rec == RecordingFrom(Even(2))
             && 128 <= s.bybs + s.byis
    ensures s.bybs == 64 && s.byis == 64
    ensures WellTimed(s.rec) && IsCut(s.rec, s.Cut()) && ComesFrom(s.rec, s.Cut(), 0, 128) == PastStart
  {
    hide RecordingFrom, Stripe.InWindow, Stripe.Cut, Rotates, Layout.Valid, Pos, RoundEnd, Back;
    s.CutShown();
    var k := EvenWindow(s, 2);
    EvenRound(2, 1);
    EvenRound(2, 0);
  }

  // ---------------------------------------------------------------- a longer run that succeeds

  /** A file with a block of one packet between blocks of two. */
  const UNEVEN := Layout(32, 2, 1, 1, 1, 0)

  lemma {:induction false} UnevenSizes(b: nat)
    requires b <= 3
    ensures UNEVEN.Valid() && UNEVEN.Blocks() == 3
    ensures UNEVEN.PktsBefore(b) == (if b == 0 then 0 else 1 + b + (if b == 3 then 1 else 0))
            && UNEVEN.Size() <= SAMPLE_SIZE
    ensures b < 3 ==> UNEVEN.Count(b) == if b == 1 then 1 else 2
  {
    assert UNEVEN.PktsBefore(1) == 2 && UNEVEN.PktsBefore(2) == 3 && UNEVEN.PktsBefore(3) == 5;
    MulIsProduct(2, 32);
    MulIsProduct(1, 32);
    hide Mul;
    assert UNEVEN.Tag(1) == 92 && UNEVEN.Tag(2) == 132 && UNEVEN.Tag(3) == 204;
  }

  /** Where the blocks start and how long they are. */
  lemma {:induction false} UnevenRound(b: nat)
    requires b < 3
    ensures UNEVEN.Valid() && |RecordingFrom(UNEVEN)| == 1 && |RecordingFrom(UNEVEN)[0]| == 3
            && InRange(RecordingFrom(UNEVEN), [b])
    ensures var start := if b == 0 then 0 else 32 + 32 * b;
            && BytesBelow(RecordingFrom(UNEVEN)[0], b) == start && Pos(RecordingFrom(UNEVEN), [b]) == start
    ensures RoundEnd(RecordingFrom(UNEVEN), [b]) == if b == 2 then 160 else 64 + 32 * b
    ensures |RecordingFrom(UNEVEN)[0][b].data| == if b == 1 then 32 else 64
    ensures Back([b + 1]) == [b]
  {
    UnevenSizes(b);
    UnevenSizes(b + 1);
    assert |RecordingFrom(UNEVEN)[0]| == 3;
    MulIsProduct(UNEVEN.PktsBefore(b), 32);
    MulIsProduct(UNEVEN.PktsBefore(b + 1), 32);
    MulIsProduct(UNEVEN.Count(b), 32);
    hide RecordingFrom, Layout.Valid, Layout.Size, Layout.PktsBefore, Layout.Count, Layout.Blocks, Mul, Pos;
    hide RoundEnd, BytesBelow;
    SampleBytes(UNEVEN, b);
    UnevenBelow(b + 1);
    OneRound(RecordingFrom(UNEVEN), b);
  }

  lemma {:induction false} UnevenBelow(b: nat)
    requires b <= 3
    ensures UNEVEN.Valid() && UNEVEN.Blocks() == 3 == |RecordingFrom(UNEVEN)[0]|
    ensures BytesBelow(RecordingFrom(UNEVEN)[0], b) == Mul(UNEVEN.PktsBefore(b), 32)
  {
    UnevenSizes(b);
    BytesBelowPkts(FileOf(UNEVEN), UNEVEN, b);
  }

  lemma {:induction false} UnevenOk()
    ensures UNEVEN.Valid() && UNEVEN.Size() <= SAMPLE_SIZE && Mul(UNEVEN.TotalPkts(), UNEVEN.pkt) == 160
  {
    UnevenSizes(3);
    MulIsProduct(5, 32);
  }

  lemma {:induction false} HalvedFills()
    ensures UNEVEN.Valid() && InRange(RecordingFrom(UNEVEN), [1]) && Back([2]) == [1]
    ensures BackwardEnd(RecordingFrom(UNEVEN), [1], 32, 96) == Filled
  {
    hide RecordingFrom, Layout.Valid, Pos, RoundEnd, Back, BytesBelow;
    UnevenRound(0);
    UnevenRound(1);
    assert BackwardEnd(RecordingFrom(UNEVEN), [0], 32, 64) == Filled;
  }

  lemma {:induction false} HalvedComes(s: Stripe)
    requires UNEVEN.Valid() && s.InWindow() && Rotates(s.rec) && s.rec == RecordingFrom(UNEVEN)
             && 160 <= s.bybs + s.byis
    ensures s.bybs == 96 && s.byis == 64
    ensures WellTimed(s.rec) && IsCut(s.rec, s.Cut()) && ComesFrom(s.rec, s.Cut(), 32, 128) == Filled
  {
    hide RecordingFrom, Stripe.InWindow, Stripe.Cut, Rotates, Layout.Valid, Pos, RoundEnd, Back, BytesBelow;
    hide BackwardEnd, InRange;
    UnevenRound(2);
    s.CutShown();
    var k := OneWindow(s);
    UnevenRound(k);
    HalvedFills();
  }

  /**
   From the window of the last block, a request that starts in the first is read,
   as the starts of the windows halve it.
   */
  method ReadHalved() returns (first: Outcome, second: Outcome)
    ensures first == Read(64) && second == Read(128)
  {
    hide RecordingFrom, Stripe.InWindow, Stripe.Cut, Virtual, IsSlice, Rotates, Mul, ComesFrom;
    hide Layout.Valid, Layout.Size, Layout.TotalPkts, Layout.Tag, Layout.PktsBefore, Layout.Blocks;
    UnevenOk();
    var s := OpenSample(UNEVEN);
    ghost var at;
    var buf := new Byte[128](_ => 0);
    first, at := s.ReadRotating(buf, 96, 64);
    HalvedComes(s);
    second, at := s.ReadRotating(buf, 32, 128);
  }
}
