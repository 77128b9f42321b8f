/**
 Random access into a scatter-gather file from the constant-size index kept
 about it: packet by number, first packet of a block, packet at an offset.
 Each lookup steps over the four regions of the file.
 */
module SgIndex {
  import opened SgLayout

  const OK_2 := 2

  /** What is kept about a file once it is understood. */
  datatype Info = Info(
    version: int,
    size: nat,
    totalPkts: nat,
    pktSize: nat,
    pktOffset: nat,
    readSize: nat,
    wrBlock: nat,
    wrPkts: nat,
    wrBlksBs: nat,
    wrBlksAs: nat,
    wrPktsBs: nat,
    wrPktsAs: nat,
    shBlock: nat,
    shBlkOff: nat,
    shPkts: nat,
    seBlock: nat,
    seBlkOff: nat,
    sePkts: nat,
    totalBlks: nat)

  /** The index that describes a layout. */
  function IndexOf(l: Layout): Info {
    Info(
      OK_2,
      l.Size(),
      l.TotalPkts(),
      l.pkt,
      0,
      l.pkt,
      l.Wide(),
      l.full,
      l.before,
      l.after,
      Mul(l.before, l.full),
      Mul(l.after, l.full),
      if l.short > 0 then l.BlockBytes(l.short) else 0,
      if l.short > 0 then l.Tag(l.before) else 0,
      l.short,
      if l.end > 0 then l.BlockBytes(l.end) else 0,
      if l.end > 0 then l.Tag(l.Blocks() - 1) else 0,
      l.end,
      l.Blocks())
  }

  /** A packet's offset, the packets left in its block counting it, and the end of the block. */
  datatype Lookup = Null | Found(at: int, left: int, end: int)

  function Place(l: Layout, b: nat, j: nat): Lookup
    requires l.Valid() && l.IsPkt(b, j)
  {
    Found(l.PktAt(b, j), l.Count(b) - j, l.Tag(b + 1))
  }

  function ByNum(l: Layout, n: int): Lookup
    requires l.Valid()
  {
    if n < 0 || l.TotalPkts() <= n then Null
    else
      var b := BlockOf(l, n, l.Blocks());
      Place(l, b, n - l.PktsBefore(b))
  }

  function ByBlk(l: Layout, b: int): Lookup
    requires l.Valid()
  {
    if b < 0 || l.Blocks() <= b then Null else CountPositive(l, b); Place(l, b, 0)
  }

  /** The block whose tag or packets hold offset o. */
  function BlockAt(l: Layout, o: nat, b: nat): (r: nat)
    requires l.Valid() && b <= l.Blocks() && FILE_TAG <= o < l.Tag(b)
    ensures r < b && l.Tag(r) <= o < l.Tag(r + 1)
  {
    if l.Tag(b - 1) <= o then b - 1 else BlockAt(l, o, b - 1)
  }

  /** The packet holding offset o; the next first packet when o is in a tag. */
  function ByOff(l: Layout, o: int): Lookup
    requires l.Valid()
  {
    if o < 0 || l.Size() <= o then Null
    else if o < FILE_TAG then ByBlk(l, 0)
    else
      var b := BlockAt(l, o, l.Blocks());
      var d := o - l.Tag(b) - BLOCK_TAG;
      if d < 0 then ByBlk(l, b)
      else QuotientInBlock(l, b, d); Place(l, b, Quot(d, l.pkt))
  }

  lemma {:induction false} QuotientInBlock(l: Layout, b: nat, d: nat)
    requires l.Valid() && b < l.Blocks() && d < Mul(l.Count(b), l.pkt)
    ensures Quot(d, l.pkt) < l.Count(b)
    ensures Mul(Quot(d, l.pkt), l.pkt) <= d < Mul(Quot(d, l.pkt), l.pkt) + l.pkt
  {
    QuotientBelow(d, l.Count(b), l.pkt);
    Divide(d, l.pkt);
  }

  // ---------------------------------------------------------------- what the lookups promise

  /** Packet numbers list the packets in increasing address order, never in a block tag. */
  lemma {:induction false} ByNumAscends(l: Layout, n: nat, m: nat)
    requires l.Valid() && n < m < l.TotalPkts()
    ensures ByNum(l, n).Found? && ByNum(l, m).Found?
    ensures ByNum(l, n).at + l.pkt <= ByNum(l, m).at
    ensures l.IsPktStart(ByNum(l, n).at) && l.IsPktStart(ByNum(l, m).at)
  {
    var b, d := BlockOf(l, n, l.Blocks()), BlockOf(l, m, l.Blocks());
    if d < b {
      TagGrows(l, d + 1, b);
    }
    hide Layout.Count, Layout.Tag, Layout.PktAt;
    PktOrder(l, b, n - l.PktsBefore(b), d, m - l.PktsBefore(d));
    PktStart(l, b, n - l.PktsBefore(b));
    PktStart(l, d, m - l.PktsBefore(d));
  }

  /** The next number is the next packet of the block, or the first packet after the next tag. */
  lemma {:induction false} ByNumNext(l: Layout, n: nat)
    requires l.Valid() && n + 1 < l.TotalPkts()
    ensures ByNum(l, n).Found? && ByNum(l, n).left >= 1
    ensures ByNum(l, n).left > 1 ==>
              ByNum(l, n + 1) == Found(ByNum(l, n).at + l.pkt, ByNum(l, n).left - 1, ByNum(l, n).end)
    ensures ByNum(l, n).left == 1 ==> ByNum(l, n + 1).Found? && ByNum(l, n + 1).at == ByNum(l, n).end + BLOCK_TAG
  {
    var b := BlockOf(l, n, l.Blocks());
    var j := n - l.PktsBefore(b);
    assert ByNum(l, n) == Place(l, b, j);
    if j + 1 < l.Count(b) {
      NextInBlock(l, b, j);
    } else {
      NextOverTag(l, b, j);
    }
  }

  lemma {:induction false} NextInBlock(l: Layout, b: nat, j: nat)
    requires l.Valid() && l.IsPkt(b, j + 1)
    ensures ByNum(l, l.PktsBefore(b) + j + 1) ==
            Found(Place(l, b, j).at + l.pkt, Place(l, b, j).left - 1, Place(l, b, j).end)
  {
    ByNumReaches(l, b, j + 1);
    hide ByNum, Layout.Tag, Layout.Count, Layout.PktsBefore;
    assert l.PktAt(b, j + 1) == l.PktAt(b, j) + l.pkt;
  }

  lemma {:induction false} NextOverTag(l: Layout, b: nat, j: nat)
    requires l.Valid() && b < l.Blocks() && l.Count(b) == j + 1 && l.PktsBefore(b) + j + 1 < l.TotalPkts()
    ensures ByNum(l, l.PktsBefore(b) + j + 1).Found?
    ensures ByNum(l, l.PktsBefore(b) + j + 1).at == Place(l, b, j).end + BLOCK_TAG
  {
    assert l.PktsBefore(b + 1) == l.PktsBefore(b) + j + 1;
    hide ByNum, Layout.Tag, Layout.Count;
    CountPositive(l, b + 1);
    ByNumReaches(l, b + 1, 0);
  }

  /** Every packet has a number. */
  lemma {:induction false} ByNumReaches(l: Layout, b: nat, j: nat)
    requires l.Valid() && l.IsPkt(b, j)
    ensures l.PktsBefore(b) + j < l.TotalPkts()
    ensures ByNum(l, l.PktsBefore(b) + j) == Place(l, b, j)
    ensures l.Tag(b + 1) == l.PktAt(b, j) + Mul(l.Count(b) - j, l.pkt)
    ensures l.PktAt(b, j) < l.Size()
  {
    TagGrows(l, b, l.Blocks());
    PktInside(l, b, j);
    hide Layout.Count, Layout.Tag, Layout.PktAt;
    BlockOfUnique(l, l.PktsBefore(b) + j, b, BlockOf(l, l.PktsBefore(b) + j, l.Blocks()));
  }

  /** The first packet of a block is the packet numbered by the packets before it. */
  lemma {:induction false} ByBlkIsByNum(l: Layout, b: nat)
    requires l.Valid() && b < l.Blocks()
    ensures ByBlk(l, b) == ByNum(l, l.PktsBefore(b))
  {
    CountPositive(l, b);
    ByNumReaches(l, b, 0);
  }

  lemma {:induction false} BlockAtUnique(l: Layout, o: nat, b: nat)
    requires l.Valid() && b < l.Blocks() && l.Tag(b) <= o < l.Tag(b + 1)
    ensures FILE_TAG <= o < l.Size() && BlockAt(l, o, l.Blocks()) == b
  {
    hide Layout.Count;
    TagGrows(l, 0, b);
    TagGrows(l, b + 1, l.Blocks());
    var c := BlockAt(l, o, l.Blocks());
    if b < c {
      TagGrows(l, b + 1, c);
    } else if c < b {
      TagGrows(l, c + 1, b);
    }
  }

  /** Every byte of packet n, and no other packet's byte, leads back to packet n. */
  lemma {:induction false} ByOffInvertsByNum(l: Layout, n: nat, o: int)
    requires l.Valid() && n < l.TotalPkts()
    requires ByNum(l, n).at <= o < ByNum(l, n).at + l.pkt
    ensures ByOff(l, o) == ByNum(l, n)
  {
    var b := BlockOf(l, n, l.Blocks());
    var j := n - l.PktsBefore(b);
    PktInside(l, b, j);
    BlockAtUnique(l, o, b);
    var d := o - l.Tag(b) - BLOCK_TAG;
    QuotientInBlock(l, b, d);
    var q := Quot(d, l.pkt);
    if q < j {
      MulMono(q, j, l.pkt);
    } else if j < q {
      MulMono(j, q, l.pkt);
    }
  }

  /** A byte of a tag leads to the first packet after it. */
  lemma {:induction false} ByOffInTag(l: Layout, b: nat, o: int)
    requires l.Valid() && b < l.Blocks()
    requires l.Tag(b) <= o < l.Tag(b) + BLOCK_TAG || (b == 0 && 0 <= o < FILE_TAG)
    ensures ByOff(l, o) == ByNum(l, l.PktsBefore(b))
  {
    CountPositive(l, b);
    PktInside(l, b, 0);
    if FILE_TAG <= o {
      BlockAtUnique(l, o, b);
    }
    ByBlkIsByNum(l, b);
  }

  // ---------------------------------------------------------------- the lookups

  /** Packets, bytes and packets per block of the four regions, and their numbers of blocks. */
  function RegionPkts(info: Info): (s: seq<nat>)
    ensures |s| == 4
  {
    [info.wrPktsBs, info.shPkts, info.wrPktsAs, info.sePkts]
  }

  function RegionBytes(info: Info): (s: seq<nat>)
    ensures |s| == 4
  {
    [Mul(info.wrBlksBs, info.wrBlock), info.shBlock, Mul(info.wrBlksAs, info.wrBlock), info.seBlock]
  }

  function BlockPkts(info: Info): (s: seq<nat>)
    ensures |s| == 4
  {
    [info.wrPkts, info.shPkts, info.wrPkts, info.sePkts]
  }

  function RegionBlks(info: Info): (s: seq<nat>)
    ensures |s| == 4
  {
    [info.wrBlksBs, if info.shBlkOff != 0 then 1 else 0, info.wrBlksAs, if info.seBlkOff != 0 then 1 else 0]
  }

  lemma {:induction false} Tables(l: Layout, r: nat)
    requires l.Valid() && r < 4
    ensures RegionPkts(IndexOf(l))[r] == Mul(l.RegionBlocks(r), l.RegionCount(r))
    ensures RegionBytes(IndexOf(l))[r] == Mul(l.RegionBlocks(r), l.BlockBytes(l.RegionCount(r)))
    ensures RegionBlks(IndexOf(l))[r] == l.RegionBlocks(r)
    ensures l.RegionBlocks(r) > 0 ==> BlockPkts(IndexOf(l))[r] == l.RegionCount(r)
  {
    TagGrows(l, 0, l.before);
    TagGrows(l, 0, l.Blocks() - 1);
    assert l.Tag(0) == FILE_TAG;
    hide Layout.Tag, Layout.Count, Layout.PktsBefore;
    assert Mul(1, l.RegionCount(r)) == l.RegionCount(r);
    assert Mul(1, l.BlockBytes(l.RegionCount(r))) == l.BlockBytes(l.RegionCount(r));
  }

  lemma {:induction false} RegionTotals(l: Layout, r: nat)
    requires l.Valid() && r < 4
    ensures l.RegionStart(r + 1) == l.RegionStart(r) + l.RegionBlocks(r) <= l.Blocks()
    ensures l.Tag(l.RegionStart(r + 1)) == l.Tag(l.RegionStart(r)) + RegionBytes(IndexOf(l))[r]
    ensures l.PktsBefore(l.RegionStart(r + 1)) == l.PktsBefore(l.RegionStart(r)) + RegionPkts(IndexOf(l))[r]
  {
    RegionLinear(l, r, l.RegionBlocks(r));
    Tables(l, r);
  }

  lemma {:induction false} SmallQuotient(n: nat, w: nat)
    requires n < w
    ensures Quot(n, w) == 0 && Rem(n, w) == n
  {
  }

  /** Only the regions of full blocks hold more than one block, so dividing by the full size is right in all four. */
  lemma {:induction false} DivideInRegion(r: nat, blocks: nat, n: nat, count: nat, full: nat)
    requires 0 < full && n < Mul(blocks, count)
    requires if r == 0 || r == 2 then count == full else count < full && blocks <= 1
    ensures Quot(n, full) < blocks
    ensures Rem(n, full) < count
    ensures Mul(Quot(n, full), count) + Rem(n, full) == n
  {
    if r == 0 || r == 2 {
      QuotientBelow(n, blocks, full);
      Divide(n, full);
    } else {
      MulMono(blocks, 1, count);
      assert Mul(1, count) == count;
      SmallQuotient(n, full);
    }
  }

  lemma {:induction false} DivideNum(l: Layout, r: nat, n: nat)
    requires l.Valid() && r < 4 && n < Mul(l.RegionBlocks(r), l.RegionCount(r))
    ensures var bb, rr := Quot(n, l.full), Rem(n, l.full);
            && bb < l.RegionBlocks(r)
            && rr < l.RegionCount(r)
            && Mul(bb, l.RegionCount(r)) + rr == n
            && Mul(bb, l.Wide()) == Mul(bb, l.BlockBytes(l.RegionCount(r)))
  {
    DivideInRegion(r, l.RegionBlocks(r), n, l.RegionCount(r), l.full);
    StrideInRegion(l, r, Quot(n, l.full));
  }

  lemma {:induction false} DivideOff(l: Layout, r: nat, n: nat)
    requires l.Valid() && r < 4 && n < Mul(l.RegionBlocks(r), l.BlockBytes(l.RegionCount(r)))
    ensures var bb, rr := Quot(n, l.Wide()), Rem(n, l.Wide());
            && bb < l.RegionBlocks(r)
            && rr < l.BlockBytes(l.RegionCount(r))
            && Mul(bb, l.BlockBytes(l.RegionCount(r))) + rr == n
            && Mul(bb, l.Wide()) == Mul(bb, l.BlockBytes(l.RegionCount(r)))
  {
    MulMono(l.RegionCount(r), l.full, l.pkt);
    DivideInRegion(r, l.RegionBlocks(r), n, l.BlockBytes(l.RegionCount(r)), l.Wide());
    StrideInRegion(l, r, Quot(n, l.Wide()));
  }

  lemma {:induction false} Origin(l: Layout)
    requires l.Valid()
    ensures l.RegionStart(0) == 0 && l.RegionStart(4) == l.Blocks()
    ensures l.Tag(0) == FILE_TAG && l.PktsBefore(0) == 0
  {
    RegionEnds(l, 4);
  }

  /** Packet rr of block bb of region r. */
  lemma {:induction false} LandNum(l: Layout, r: nat, bb: nat, rr: nat, at: int, left: int)
    requires l.Valid() && r < 4
    requires l.RegionStart(r) <= l.Blocks() && bb < l.RegionBlocks(r) && rr < l.RegionCount(r)
    requires at == l.Tag(l.RegionStart(r)) + Mul(bb, l.BlockBytes(l.RegionCount(r))) + Mul(rr, l.pkt) + BLOCK_TAG
    requires left == l.RegionCount(r) - rr
    ensures at < l.Size()
    ensures ByNum(l, l.PktsBefore(l.RegionStart(r)) + Mul(bb, l.RegionCount(r)) + rr) ==
            Found(at, left, at + Mul(left, l.pkt))
  {
    hide Layout.Tag, Layout.Count, Layout.PktsBefore, Layout.RegionBlocks, Layout.RegionStart, Layout.RegionCount;
    hide Layout.BlockBytes, Layout.Blocks, Mul, ByNum;
    RegionLinear(l, r, bb);
    ByNumReaches(l, l.RegionStart(r) + bb, rr);
  }

  /** The lookups step over blocks by the full size, also in the regions of one short block. */
  lemma {:induction false} StrideInRegion(l: Layout, r: nat, bb: nat)
    requires l.Valid() && r < 4 && bb < l.RegionBlocks(r)
    ensures Mul(bb, l.Wide()) == Mul(bb, l.BlockBytes(l.RegionCount(r)))
  {
  }

  /** The packet of number nn of region ii, which starts at pktp0. */
  method NumInRegion(info: Info, ghost ii: nat, nn: nat, pktp0: nat, pktcnt: nat, ghost l: Layout) returns (p: Lookup)
    requires l.Valid() && info == IndexOf(l) && ii < 4 && l.RegionStart(ii) <= l.Blocks()
    requires nn < RegionPkts(info)[ii] && pktp0 == l.Tag(l.RegionStart(ii)) && pktcnt == BlockPkts(info)[ii]
    ensures p == ByNum(l, l.PktsBefore(l.RegionStart(ii)) + nn) && p != Null
  {
    Tables(l, ii);
    DivideNum(l, ii, nn);
    assert info.readSize == l.pkt && info.size == l.Size() && info.wrPkts == l.full > 0 && info.wrBlock == l.Wide();
    assert info.pktOffset == 0;
    hide *;
    var bb := Quot(nn, info.wrPkts);
    var rr := Rem(nn, info.wrPkts);
    var pktp := pktp0 + Mul(bb, info.wrBlock) + Mul(rr, info.readSize);
    pktp := pktp + BLOCK_TAG + info.pktOffset;
    var nlft := pktcnt as int - rr;
    LandNum(l, ii, bb, rr, pktp, nlft);
    var endp := pktp + Mul(nlft, info.readSize) - info.pktOffset;
    p := if pktp >= info.size then Null else Found(pktp, nlft, endp);
  }

  method PktByNum(info: Info, num: int, ghost l: Layout) returns (p: Lookup)
    requires l.Valid() && info == IndexOf(l)
    ensures p == ByNum(l, num)
    ensures p == Null <==> !(0 <= num < l.TotalPkts())
  {
    assert info.totalPkts == l.TotalPkts();
    if num < 0 || num >= info.totalPkts {
      return Null;
    }
    var nn := num;
    var pktp := FILE_TAG;
    var nmpkts, ptrdel, pktcnt := RegionPkts(info), RegionBytes(info), BlockPkts(info);
    Origin(l);
    hide ByNum, Layout.Tag, Layout.PktsBefore, Layout.RegionBlocks, Layout.RegionCount, Layout.RegionStart, Mul;
    hide RegionPkts, RegionBytes, BlockPkts, RegionBlks, Layout.Blocks, Layout.BlockBytes, Layout.Count, Quot, Rem;
    var ii := 0;
    while ii < 4
      invariant ii <= 4
      invariant l.RegionStart(ii) <= l.Blocks()
      invariant pktp == l.Tag(l.RegionStart(ii))
      invariant nn == num - l.PktsBefore(l.RegionStart(ii)) >= 0
    {
      RegionTotals(l, ii);
      if nn < nmpkts[ii] {
        p := NumInRegion(info, ii, nn, pktp, pktcnt[ii], l);
        return;
      }
      nn := nn - nmpkts[ii];
      pktp := pktp + ptrdel[ii];
      ii := ii + 1;
    }
    return Null;
  }

  /** Step over the regions before the one that holds block num. */
  method RegionOfBlk(info: Info, num: nat, ghost l: Layout)
    returns (ii: nat, nn: nat, pktp: nat, pbb: nat)
    requires l.Valid() && info == IndexOf(l)
    requires num < l.Blocks()
    ensures ii < 4 && nn < l.RegionBlocks(ii) && l.RegionStart(ii) <= l.Blocks()
    ensures num == l.RegionStart(ii) + nn
    ensures pktp == l.Tag(l.RegionStart(ii))
    ensures pbb == l.PktsBefore(l.RegionStart(ii))
  {
    var nmblks, ptrdel, pktcnt := RegionBlks(info), RegionBytes(info), BlockPkts(info);
    Origin(l);
    hide Layout.Tag, Layout.PktsBefore, Layout.RegionBlocks, Layout.RegionCount, Layout.RegionStart, Mul;
    hide RegionPkts, RegionBytes, BlockPkts, RegionBlks, Layout.Blocks, Layout.BlockBytes;
    ii, nn, pktp, pbb := 0, num, FILE_TAG, 0;
    while ii < 4
      invariant ii <= 4
      invariant l.RegionStart(ii) <= l.Blocks()
      invariant pktp == l.Tag(l.RegionStart(ii))
      invariant pbb == l.PktsBefore(l.RegionStart(ii))
      invariant nn == num - l.RegionStart(ii) >= 0
    {
      RegionTotals(l, ii);
      Tables(l, ii);
      ByRegion(l, ii);
      if nn < nmblks[ii] {
        return;
      }
      nn := nn - nmblks[ii];
      pktp := pktp + ptrdel[ii];
      pbb := pbb + Mul(nmblks[ii], pktcnt[ii]);
      ii := ii + 1;
    }
  }

  method PktByBlk(info: Info, num: int, ghost l: Layout) returns (p: Lookup)
    requires l.Valid() && info == IndexOf(l)
    ensures p == ByBlk(l, num)
    ensures p == Null <==> !(0 <= num < l.Blocks())
  {
    assert info.totalBlks == l.Blocks();
    if num < 0 || num >= info.totalBlks {
      return Null;
    }
    var ii, nn, pktp, _ := RegionOfBlk(info, num, l);
    Tables(l, ii);
    hide Layout.Tag, Layout.PktsBefore, Layout.RegionBlocks, Layout.RegionCount, Layout.RegionStart, Mul;
    hide RegionPkts, RegionBytes, BlockPkts, RegionBlks, Layout.Blocks, Layout.BlockBytes;
    pktp := pktp + Mul(nn, info.wrBlock) + BLOCK_TAG + info.pktOffset;
    var nlft := BlockPkts(info)[ii];
    var endp := pktp + Mul(nlft, info.readSize) - info.pktOffset;
    LandBlk(l, ii, nn, pktp, nlft);
    return if pktp >= info.size then Null else Found(pktp, nlft, endp);
  }

  /** Block n of region r. */
  lemma {:induction false} LandBlk(l: Layout, r: nat, n: nat, at: int, left: int)
    requires l.Valid() && r < 4 && l.RegionStart(r) <= l.Blocks() && n < l.RegionBlocks(r)
    requires at == l.Tag(l.RegionStart(r)) + Mul(n, l.Wide()) + BLOCK_TAG
    requires left == l.RegionCount(r)
    ensures at < l.Size()
    ensures l.RegionStart(r) + n < l.Blocks()
    ensures ByBlk(l, l.RegionStart(r) + n) == Found(at, left, at + Mul(left, l.pkt))
  {
    StrideInRegion(l, r, n);
    hide Layout.Tag, Layout.Count, Layout.PktsBefore, Layout.RegionBlocks, Layout.RegionStart, Layout.RegionCount;
    hide Layout.BlockBytes, Layout.Blocks;
    RegionLinear(l, r, n);
    CountPositive(l, l.RegionStart(r) + n);
    ByNumReaches(l, l.RegionStart(r) + n, 0);
  }

  lemma {:induction false} RegionAbuts(l: Layout, r: nat)
    requires r < 4
    ensures l.RegionStart(r + 1) == l.RegionStart(r) + l.RegionBlocks(r)
  {
  }

  /** Packets before, in and after block n of region r, counted from the start of the region. */
  lemma {:induction false} AroundBlk(l: Layout, r: nat, n: nat)
    requires l.Valid() && r < 4 && n < l.RegionBlocks(r)
    ensures l.RegionStart(r) + n < l.Blocks() && l.RegionStart(r + 1) <= l.Blocks()
    ensures l.PktsBefore(l.RegionStart(r) + n) == l.PktsBefore(l.RegionStart(r)) + Mul(n, l.RegionCount(r))
    ensures l.PktsBefore(l.RegionStart(r) + n + 1) == l.PktsBefore(l.RegionStart(r) + n) + l.RegionCount(r)
    ensures l.PktsBefore(l.RegionStart(r + 1)) ==
              l.PktsBefore(l.RegionStart(r) + n + 1) + Mul(l.RegionBlocks(r) - n - 1, l.RegionCount(r))
  {
    hide Layout.Tag, Layout.RegionBlocks, Layout.RegionStart, Layout.Count, Layout.RegionCount, Layout.PktsBefore;
    hide Layout.Blocks;
    UpToBlk(l, r, n);
    FromBlk(l, r, n);
  }

  lemma {:induction false} UpToBlk(l: Layout, r: nat, n: nat)
    requires l.Valid() && r < 4 && n < l.RegionBlocks(r)
    ensures l.RegionStart(r) + n < l.Blocks()
    ensures l.PktsBefore(l.RegionStart(r) + n) == l.PktsBefore(l.RegionStart(r)) + Mul(n, l.RegionCount(r))
    ensures l.PktsBefore(l.RegionStart(r) + n + 1) == l.PktsBefore(l.RegionStart(r) + n) + l.RegionCount(r)
  {
    hide Layout.Tag, Layout.RegionBlocks, Layout.RegionStart, Layout.Count, Layout.RegionCount, Layout.Blocks, Mul;
    RegionLinear(l, r, n);
  }

  lemma {:induction false} FromBlk(l: Layout, r: nat, n: nat)
    requires l.Valid() && r < 4 && n < l.RegionBlocks(r)
    ensures l.RegionStart(r) + n < l.Blocks() && l.RegionStart(r + 1) <= l.Blocks()
    ensures l.PktsBefore(l.RegionStart(r + 1)) ==
              l.PktsBefore(l.RegionStart(r) + n + 1) + Mul(l.RegionBlocks(r) - n - 1, l.RegionCount(r))
  {
    RegionAbuts(l, r);
    hide Layout.Tag, Layout.RegionBlocks, Layout.RegionStart, Layout.Count, Layout.RegionCount, Layout.PktsBefore;
    hide Layout.Blocks, Mul;
    RegionLinear(l, r, n + 1);
    RegionLinear(l, r, l.RegionBlocks(r));
    MulAdd(n + 1, l.RegionBlocks(r) - n - 1, l.RegionCount(r));
  }

  lemma {:induction false} ByRegion(l: Layout, r: nat)
    requires l.Valid() && r < 4
    ensures Mul(RegionBlks(IndexOf(l))[r], BlockPkts(IndexOf(l))[r]) == RegionPkts(IndexOf(l))[r]
  {
    Tables(l, r);
    hide Layout.Tag, Layout.Count, RegionBlks;
    if l.RegionBlocks(r) == 0 {
      assert Mul(0, BlockPkts(IndexOf(l))[r]) == 0;
    }
  }

  /** Packets of the regions from region r on. */
  method PktsOfRegions(info: Info, r: nat, ghost l: Layout) returns (pba: nat)
    requires l.Valid() && info == IndexOf(l)
    requires r <= 4 && l.RegionStart(r) <= l.Blocks()
    ensures pba == l.TotalPkts() - l.PktsBefore(l.RegionStart(r))
  {
    var nmblks, pktcnt := RegionBlks(info), BlockPkts(info);
    Origin(l);
    hide Layout.Tag, Layout.PktsBefore, Layout.RegionBlocks, Layout.RegionCount, Layout.RegionStart, Mul;
    hide RegionPkts, RegionBytes, BlockPkts, RegionBlks, Layout.Blocks, Layout.BlockBytes, Layout.Count;
    pba := 0;
    var ii := r;
    while ii < 4
      invariant ii <= 4
      invariant l.RegionStart(ii) <= l.Blocks()
      invariant pba == l.PktsBefore(l.RegionStart(ii)) - l.PktsBefore(l.RegionStart(r))
    {
      RegionTotals(l, ii);
      ByRegion(l, ii);
      pba := pba + Mul(nmblks[ii], pktcnt[ii]);
      ii := ii + 1;
    }
  }

  /**
   As PktByBlk, and also the packet bytes of all earlier and of all later
   blocks: before + own + after is the packet bytes of the file.  For a number
   that is not that of a block nothing is found and nothing is counted.
   */
  method PktBlkBy(info: Info, num: int, ghost l: Layout) returns (p: Lookup, before: nat, after: nat)
    requires l.Valid() && info == IndexOf(l)
    ensures p == ByBlk(l, num)
    ensures p == Null <==> !(0 <= num < l.Blocks())
    ensures p == Null ==> before == after == 0
    ensures p != Null ==>
              && l.PktsBefore(num + 1) <= l.TotalPkts()
              && before == Mul(l.PktsBefore(num), l.pkt)
              && after == Mul(l.TotalPkts() - l.PktsBefore(num + 1), l.pkt)
              && p.left >= 0 && before + Mul(p.left, l.pkt) + after == Mul(l.TotalPkts(), l.pkt)
  {
    assert info.totalBlks == l.Blocks() && info.readSize == l.pkt;
    if num < 0 || num >= info.totalBlks {
      return Null, 0, 0;
    }
    hide *;
    var pktp, nlft;
    pktp, nlft, before, after := BlkByRegions(info, num, l);
    p := Found(pktp, nlft, pktp + Mul(nlft, info.readSize));
  }

  /** The first packet of a block, the packets in it, and the bytes before and behind it, region by region. */
  method BlkByRegions(info: Info, num: int, ghost l: Layout)
    returns (pktp: nat, nlft: nat, before: nat, after: nat)
    requires l.Valid() && info == IndexOf(l)
    requires 0 <= num < l.Blocks()
    ensures ByBlk(l, num) == Found(pktp, nlft, pktp + Mul(nlft, l.pkt))
    ensures l.PktsBefore(num + 1) <= l.TotalPkts()
    ensures before == Mul(l.PktsBefore(num), l.pkt)
    ensures after == Mul(l.TotalPkts() - l.PktsBefore(num + 1), l.pkt)
    ensures before + Mul(nlft, l.pkt) + after == Mul(l.TotalPkts(), l.pkt)
  {
    hide *;
    var ii, nn, start, pbb := RegionOfBlk(info, num, l);
    BlkByPlace(l, ii, nn);
    nlft := BlockPkts(info)[ii];
    pktp := start + Mul(nn, info.wrBlock) + BLOCK_TAG + info.pktOffset;
    pbb := pbb + Mul(nn, nlft);
    var pba := Mul(RegionBlks(info)[ii] - nn - 1, nlft);
    var rest := PktsOfRegions(info, ii + 1, l);
    pba := pba + rest;
    BlkByBytes(l, ii, nn, pbb, nlft, pba);
    before := Mul(pbb, info.pktSize);
    after := Mul(pba, info.pktSize);
  }

  lemma {:induction false} BlkByPlace(l: Layout, r: nat, n: nat)
    requires l.Valid() && r < 4 && l.RegionStart(r) <= l.Blocks() && n < l.RegionBlocks(r)
    ensures var count := BlockPkts(IndexOf(l))[r];
            var at := l.Tag(l.RegionStart(r)) + Mul(n, IndexOf(l).wrBlock) + BLOCK_TAG;
            && l.RegionStart(r) + n < l.Blocks()
            && ByBlk(l, l.RegionStart(r) + n) == Found(at, count, at + Mul(count, l.pkt))
    ensures IndexOf(l).pktSize == l.pkt && IndexOf(l).pktOffset == 0 && BlockPkts(IndexOf(l))[r] == l.RegionCount(r)
    ensures RegionBlks(IndexOf(l))[r] == l.RegionBlocks(r) && l.RegionStart(r + 1) <= l.Blocks()
  {
    Tables(l, r);
    RegionTotals(l, r);
    hide RegionPkts, RegionBytes, BlockPkts, RegionBlks, Layout.RegionBlocks, Layout.RegionCount;
    hide Layout.RegionStart, Layout.Blocks, Mul, ByBlk;
    LandBlk(l, r, n, l.Tag(l.RegionStart(r)) + Mul(n, l.Wide()) + BLOCK_TAG, l.RegionCount(r));
  }

  lemma {:induction false} BlkByBytes(l: Layout, r: nat, n: nat, pbb: nat, count: nat, pba: nat)
    requires l.Valid() && r < 4 && l.RegionStart(r) <= l.Blocks() && n < l.RegionBlocks(r)
    requires count == l.RegionCount(r)
    requires pbb == l.PktsBefore(l.RegionStart(r)) + Mul(n, count)
    requires l.RegionStart(r + 1) <= l.Blocks()
    requires pba == Mul(l.RegionBlocks(r) - n - 1, count) + l.TotalPkts() - l.PktsBefore(l.RegionStart(r + 1))
    ensures var b := l.RegionStart(r) + n;
            && b < l.Blocks() && l.PktsBefore(b + 1) <= l.TotalPkts()
            && pbb == l.PktsBefore(b)
            && pba == l.TotalPkts() - l.PktsBefore(b + 1)
    ensures Mul(pbb, l.pkt) + Mul(count, l.pkt) + Mul(pba, l.pkt) == Mul(l.TotalPkts(), l.pkt)
  {
    AroundBlk(l, r, n);
    TagGrows(l, l.RegionStart(r) + n + 1, l.Blocks());
    hide Layout.Tag, Layout.PktsBefore, Layout.RegionBlocks, Layout.RegionCount, Layout.RegionStart, Mul;
    hide Layout.Blocks, Layout.BlockBytes, Layout.Count;
    ThreeParts(pbb, count, pba, l.pkt);
  }

  lemma {:induction false} ThreeParts(a: nat, b: nat, c: nat, w: nat)
    ensures Mul(a, w) + Mul(b, w) + Mul(c, w) == Mul(a + b + c, w)
  {
    MulAdd(a, b, w);
    MulAdd(a + b, c, w);
  }

  lemma {:induction false} FirstOffset(l: Layout, o: int)
    requires l.Valid() && 0 <= o < l.Size()
    ensures FILE_TAG < l.Size()
    ensures o < FILE_TAG ==> ByOff(l, o) == ByOff(l, FILE_TAG)
  {
    CountPositive(l, 0);
    PktInside(l, 0, 0);
    BlockAtUnique(l, FILE_TAG, 0);
  }

  /** The packet found for offset rr of block bb of region r. */
  lemma {:induction false} LandOff(l: Layout, r: nat, bb: nat, rr: nat, pp: nat, at: int, left: int)
    requires l.Valid() && r < 4
    requires l.RegionStart(r) <= l.Blocks() && bb < l.RegionBlocks(r) && rr < l.BlockBytes(l.RegionCount(r))
    requires pp == Quot(if rr < BLOCK_TAG then BLOCK_TAG else rr - BLOCK_TAG, l.pkt)
    requires at == l.Tag(l.RegionStart(r)) + Mul(bb, l.BlockBytes(l.RegionCount(r))) + Mul(pp, l.pkt) + BLOCK_TAG
    requires left == l.RegionCount(r) - pp
    ensures at < l.Size() && left > 0
    ensures ByOff(l, l.Tag(l.RegionStart(r)) + Mul(bb, l.BlockBytes(l.RegionCount(r))) + rr) ==
              Found(at, left, at + Mul(left, l.pkt))
  {
    hide Layout.Tag, Layout.Count, Layout.PktsBefore, Layout.RegionBlocks, Layout.RegionStart, Layout.RegionCount;
    hide Layout.BlockBytes, Layout.Blocks, Mul, Quot, ByOff;
    RegionLinear(l, r, bb);
    OffInBlock(l, l.RegionStart(r) + bb, rr);
  }

  lemma {:induction false} OffInBlock(l: Layout, b: nat, rr: nat)
    requires l.Valid() && b < l.Blocks() && rr < l.BlockBytes(l.Count(b))
    ensures var pp := Quot(if rr < BLOCK_TAG then BLOCK_TAG else rr - BLOCK_TAG, l.pkt);
            && pp < l.Count(b)
            && ByOff(l, l.Tag(b) + rr) ==
               Found(l.PktAt(b, pp), l.Count(b) - pp, l.PktAt(b, pp) + Mul(l.Count(b) - pp, l.pkt))
            && l.PktAt(b, pp) < l.Size()
  {
    hide Quot, Mul, Layout.BlockBytes;
    if rr < BLOCK_TAG {
      OffTag(l, b, rr);
    } else {
      OffPkt(l, b, rr);
    }
  }

  /** An offset in a block's tag. */
  lemma {:induction false} OffTag(l: Layout, b: nat, rr: nat)
    requires l.Valid() && b < l.Blocks() && rr < BLOCK_TAG
    ensures Quot(BLOCK_TAG, l.pkt) == 0 < l.Count(b) && l.PktAt(b, 0) < l.Size()
    ensures ByOff(l, l.Tag(b) + rr) == Found(l.PktAt(b, 0), l.Count(b), l.PktAt(b, 0) + Mul(l.Count(b), l.pkt))
  {
    CountPositive(l, b);
    BlockAtUnique(l, l.Tag(b) + rr, b);
    TagGrows(l, 0, b);
    hide Layout.Count;
    SmallQuotient(BLOCK_TAG, l.pkt);
    PktInside(l, b, 0);
  }

  /** An offset in a block's packets. */
  lemma {:induction false} OffPkt(l: Layout, b: nat, rr: nat)
    requires l.Valid() && b < l.Blocks() && BLOCK_TAG <= rr < l.BlockBytes(l.Count(b))
    ensures var pp := Quot(rr - BLOCK_TAG, l.pkt);
            && pp < l.Count(b) && l.PktAt(b, pp) < l.Size()
            && ByOff(l, l.Tag(b) + rr) ==
               Found(l.PktAt(b, pp), l.Count(b) - pp, l.PktAt(b, pp) + Mul(l.Count(b) - pp, l.pkt))
  {
    BlockAtUnique(l, l.Tag(b) + rr, b);
    TagGrows(l, 0, b);
    hide Layout.Count;
    QuotientInBlock(l, b, rr - BLOCK_TAG);
    PktInside(l, b, Quot(rr - BLOCK_TAG, l.pkt));
  }

  lemma {:induction false} IndexFields(l: Layout)
    requires l.Valid()
    ensures var info := IndexOf(l);
            && info.readSize == l.pkt > 0 && info.size == l.Size()
            && info.wrBlock == l.Wide() > 0 && info.pktOffset == 0
  {
  }

  /** The packet for offset nn of region ii, which starts at pktp. */
  method PktInRegion(info: Info, ghost ii: nat, nn: nat, pktp0: nat, pktcnt: nat, ghost l: Layout) returns (p: Lookup)
    requires l.Valid() && info == IndexOf(l) && ii < 4 && l.RegionStart(ii) <= l.Blocks()
    requires nn < RegionBytes(info)[ii] && pktp0 == l.Tag(l.RegionStart(ii)) && pktcnt == BlockPkts(info)[ii]
    ensures p == ByOff(l, pktp0 + nn) && p != Null
  {
    hide *;
    IndexFields(l);
    Tables(l, ii);
    DivideOff(l, ii, nn);
    var bb := Quot(nn, info.wrBlock);
    ghost var r0 := Rem(nn, info.wrBlock);
    var rr := Rem(nn, info.wrBlock);
    rr := if rr < BLOCK_TAG then BLOCK_TAG else rr - BLOCK_TAG;
    var pp := Quot(rr, info.readSize);
    var pktp := pktp0 + Mul(bb, info.wrBlock) + Mul(pp, info.readSize);
    pktp := pktp + BLOCK_TAG + info.pktOffset;
    var nlft := pktcnt as int - pp;
    LandOff(l, ii, bb, r0, pp, pktp, nlft);
    var endp := pktp + Mul(nlft, info.readSize) - info.pktOffset;
    p := if pktp >= info.size then Null else Found(pktp, nlft, endp);
  }

  method PktByOff(info: Info, off: int, ghost l: Layout) returns (p: Lookup)
    requires l.Valid() && info == IndexOf(l)
    ensures p == ByOff(l, off)
    ensures p == Null <==> !(0 <= off < l.Size())
  {
    assert info.size == l.Size();
    if off < 0 || off >= info.size {
      return Null;
    }
    var pktp := FILE_TAG;
    var nn := if off < FILE_TAG then 0 else off - FILE_TAG;
    ghost var o := FILE_TAG + nn;
    FirstOffset(l, off);
    var ptrdel, pktcnt := RegionBytes(info), BlockPkts(info);
    Origin(l);
    hide ByOff, Layout.Tag, Layout.PktsBefore, Layout.RegionBlocks, Layout.RegionCount, Layout.RegionStart, Mul;
    hide RegionPkts, RegionBytes, BlockPkts, RegionBlks, Layout.Blocks, Layout.BlockBytes, Layout.Count, Quot, Rem;
    var ii := 0;
    while ii < 4
      invariant ii <= 4
      invariant l.RegionStart(ii) <= l.Blocks()
      invariant pktp == l.Tag(l.RegionStart(ii))
      invariant nn == o - pktp >= 0
    {
      RegionTotals(l, ii);
      Tables(l, ii);
      if nn < ptrdel[ii] {
        p := PktInRegion(info, ii, nn, pktp, pktcnt[ii], l);
        return;
      }
      nn := nn - ptrdel[ii];
      pktp := pktp + ptrdel[ii];
      ii := ii + 1;
    }
    return Null;
  }
}
