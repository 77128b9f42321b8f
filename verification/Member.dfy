/**
 One member of a sequence: a scatter-gather file with its index, and the state
 kept about its current block.
 */
module Member {
  import opened Timeline
  import opened SgLayout
  import opened SgIndex

  /** The index of a file, and its bytes. */
  datatype SgFile = SgFile(info: Info, mem: seq<Byte>)

  /** Frames are counted within a second; a tick is this fraction of a second. */
  const TICKS_PER_SECOND := 100_000_000

  function Word(mem: seq<Byte>, o: nat): nat {
    if o + 4 <= |mem|
    then mem[o] as int + 0x100 * (mem[o + 1] as int) + 0x1_0000 * (mem[o + 2] as int) + 0x100_0000 * (mem[o + 3] as int)
    else 0
  }

  /** The time in the header of the packet at offset o: seconds in the low 30 bits, then the frame in 24. */
  function TickAt(mem: seq<Byte>, o: nat): int {
    Word(mem, o) % 0x4000_0000 * TICKS_PER_SECOND + Word(mem, o + 4) % 0x100_0000
  }

  /** The low 24 bits of a word are its first three bytes, and six bits of the fourth make it 30. */
  lemma {:induction false} WordBits(a: nat, b: nat)
    requires a < 0x100_0000
    ensures (a + 0x100_0000 * b) % 0x100_0000 == a
    ensures (a + 0x100_0000 * b) % 0x4000_0000 == a + 0x100_0000 * (b % 0x40)
  {
    var q, r := b / 0x40, b % 0x40;
    assert a + 0x100_0000 * b == (a + 0x100_0000 * r) + 0x4000_0000 * q;
  }

  /**
   The packet at offset o of one file is earlier than that at offset p of another:
   its second is less, or its second is the same and its frame is less.  The
   second is the low 30 bits of the first word of the header, the frame the low 24
   bits of the next, both with the least significant byte first.
   */
  predicate HeaderBefore(a: seq<Byte>, o: nat, b: seq<Byte>, p: nat)
    requires o + 8 <= |a| && p + 8 <= |b|
  {
    var secO := a[o] as int + 0x100 * (a[o + 1] as int) + 0x1_0000 * (a[o + 2] as int)
                + 0x100_0000 * (a[o + 3] as int % 0x40);
    var secP := b[p] as int + 0x100 * (b[p + 1] as int) + 0x1_0000 * (b[p + 2] as int)
                + 0x100_0000 * (b[p + 3] as int % 0x40);
    var frameO := a[o + 4] as int + 0x100 * (a[o + 5] as int) + 0x1_0000 * (a[o + 6] as int);
    var frameP := b[p + 4] as int + 0x100 * (b[p + 5] as int) + 0x1_0000 * (b[p + 6] as int);
    secO < secP || (secO == secP && frameO < frameP)
  }

  /** Ticks order packets as their headers do. */
  lemma {:induction false} TickOrder(a: seq<Byte>, o: nat, b: seq<Byte>, p: nat)
    requires o + 8 <= |a| && p + 8 <= |b|
    ensures TickAt(a, o) < TickAt(b, p) <==> HeaderBefore(a, o, b, p)
  {
    TickFields(a, o);
    TickFields(b, p);
  }

  /** Both fields of a header, as the words show them. */
  lemma {:induction false} TickFields(mem: seq<Byte>, o: nat)
    requires o + 8 <= |mem|
    ensures Word(mem, o) % 0x4000_0000 ==
            mem[o] as int + 0x100 * (mem[o + 1] as int) + 0x1_0000 * (mem[o + 2] as int)
            + 0x100_0000 * (mem[o + 3] as int % 0x40)
    ensures Word(mem, o + 4) % 0x100_0000 ==
            mem[o + 4] as int + 0x100 * (mem[o + 5] as int) + 0x1_0000 * (mem[o + 6] as int)
  {
    var a, b, c, d := mem[o] as int, mem[o + 1] as int, mem[o + 2] as int, mem[o + 3] as int;
    WordBits(a + 0x100 * b + 0x1_0000 * c, d);
    a, b, c, d := mem[o + 4] as int, mem[o + 5] as int, mem[o + 6] as int, mem[o + 7] as int;
    WordBits(a + 0x100 * b + 0x1_0000 * c, d);
  }

  ghost predicate FileOk(file: SgFile, l: Layout) {
    l.Valid() && file.info == IndexOf(l) && |file.mem| == l.Size()
  }

  function TicksOf(file: SgFile, l: Layout, b: nat): (s: seq<int>)
    requires b < l.Blocks()
    ensures |s| == l.Count(b)
  {
    seq(l.Count(b), j requires 0 <= j => TickAt(file.mem, l.PktAt(b, j)))
  }

  function DataOf(file: SgFile, l: Layout, b: nat): (s: seq<Byte>)
    requires l.Valid() && |file.mem| == l.Size() && b < l.Blocks()
    ensures |s| == Mul(l.Count(b), l.pkt)
  {
    CountPositive(l, b);
    PktInside(l, b, 0);
    file.mem[l.PktAt(b, 0)..l.Tag(b + 1)]
  }

  /** The blocks of a member as the recording sees them. */
  function BlocksOf(file: SgFile, l: Layout): (s: seq<Block>)
    requires l.Valid() && |file.mem| == l.Size()
    ensures |s| == l.Blocks()
  {
    seq(l.Blocks(), b requires 0 <= b < l.Blocks() => Block(TicksOf(file, l, b), DataOf(file, l, b)))
  }

  lemma {:induction false} BytesBelowPkts(file: SgFile, l: Layout, b: nat)
    requires l.Valid() && |file.mem| == l.Size() && b <= l.Blocks()
    ensures BytesBelow(BlocksOf(file, l), b) == Mul(l.PktsBefore(b), l.pkt)
  {
    if b > 0 {
      BytesBelowPkts(file, l, b - 1);
      MulAdd(l.PktsBefore(b - 1), l.Count(b - 1), l.pkt);
      assert BlocksOf(file, l)[b - 1].data == DataOf(file, l, b - 1);
    }
  }

  /** The state of a member: errors so far, its current block, and the bytes before, in and after it. */
  datatype Frag = Frag(
    blkErr: bool,
    timeErr: bool,
    addr: nat,
    nblk: nat,
    ptbe: int,
    pten: int,
    cblk: nat,
    bybb: nat,
    byib: nat,
    byab: nat)

  /** The state says what is true of the current block. */
  ghost predicate FragOk(blocks: seq<Block>, mem: seq<Byte>, fr: Frag) {
    && fr.cblk < |blocks|
    && fr.ptbe == blocks[fr.cblk].First()
    && fr.pten == blocks[fr.cblk].Final()
    && fr.bybb == BytesBelow(blocks, fr.cblk)
    && fr.byib == |blocks[fr.cblk].data|
    && fr.bybb + fr.byib + fr.byab == BytesBelow(blocks, |blocks|)
    && fr.addr + fr.byib <= |mem|
    && mem[fr.addr..fr.addr + fr.byib] == blocks[fr.cblk].data
  }

  /** Move to an absolute block position, refusing positions outside the file. */
  method MemberMove(file: SgFile, fr: Frag, blk: int, ghost l: Layout) returns (r: Frag)
    requires FileOk(file, l)
    ensures 0 <= blk < l.Blocks() ==>
              && r.cblk == blk
              && FragOk(BlocksOf(file, l), file.mem, r)
              && r.blkErr == fr.blkErr && r.timeErr == (fr.timeErr || r.pten < r.ptbe)
    ensures !(0 <= blk < l.Blocks()) ==> r == fr.(blkErr := true)
  {
    if blk < 0 || blk >= file.info.totalBlks {
      return fr.(blkErr := true);
    }
    CountPositive(l, blk);
    hide TickAt, Word;
    var p, bybb, byab := PktBlkBy(file.info, blk, l);
    var addr, nblk := p.at, p.left;
    var ptbe := TickAt(file.mem, addr);
    var pten := TickAt(file.mem, addr + Mul(nblk - 1, file.info.readSize));
    r := Frag(fr.blkErr, fr.timeErr || pten < ptbe, addr, nblk, ptbe, pten, blk, bybb,
        Mul(nblk, file.info.pktSize), byab);
    MovedOk(file, l, r);
  }

  /** The times and the bytes of the block moved to. */
  lemma {:induction false} MovedBlock(file: SgFile, l: Layout, fr: Frag)
    requires FileOk(file, l) && fr.cblk < l.Blocks()
    requires 0 < fr.nblk == l.Count(fr.cblk) && fr.addr == l.PktAt(fr.cblk, 0)
    requires fr.ptbe == TickAt(file.mem, fr.addr)
    requires fr.pten == TickAt(file.mem, fr.addr + Mul(fr.nblk - 1, l.pkt))
    requires fr.byib == Mul(fr.nblk, l.pkt)
    ensures var block := BlocksOf(file, l)[fr.cblk];
            && fr.ptbe == block.First() && fr.pten == block.Final() && fr.byib == |block.data|
            && fr.addr + fr.byib <= |file.mem| && file.mem[fr.addr..fr.addr + fr.byib] == block.data
  {
    hide TickAt, Word, Layout.Tag, Layout.Count, IndexOf;
    var b := fr.cblk;
    assert BlocksOf(file, l)[b] == Block(TicksOf(file, l, b), DataOf(file, l, b));
    assert l.PktAt(b, fr.nblk - 1) == fr.addr + Mul(fr.nblk - 1, l.pkt);
    PktInside(l, b, 0);
  }

  /** What the index says about a block is true of it. */
  lemma {:induction false} MovedOk(file: SgFile, l: Layout, fr: Frag)
    requires FileOk(file, l) && fr.cblk < l.Blocks()
    requires 0 < fr.nblk == l.Count(fr.cblk) && fr.addr == l.PktAt(fr.cblk, 0)
    requires fr.ptbe == TickAt(file.mem, fr.addr)
    requires fr.pten == TickAt(file.mem, fr.addr + Mul(fr.nblk - 1, l.pkt))
    requires fr.bybb == Mul(l.PktsBefore(fr.cblk), l.pkt)
    requires fr.byib == Mul(fr.nblk, l.pkt)
    requires fr.bybb + fr.byib + fr.byab == Mul(l.TotalPkts(), l.pkt)
    ensures FragOk(BlocksOf(file, l), file.mem, fr)
  {
    hide TickAt, Word, BytesBelow, Mul, Layout.Tag, Layout.Count, Layout.PktsBefore, Layout.Blocks, IndexOf;
    MovedBlock(file, l, fr);
    BytesBelowPkts(file, l, fr.cblk);
    BytesBelowPkts(file, l, l.Blocks());
  }

  /** The smallest kind of block is that of a block of the file. */
  lemma {:induction false} SmallestBlock(file: SgFile, l: Layout, m: nat)
    requires FileOk(file, l)
    requires m == (if l.end > 0 && (l.short == 0 || l.end < l.short) then l.end
                   else if l.short > 0 then l.short else l.full)
    ensures exists b :: 0 <= b < |BlocksOf(file, l)| && |BlocksOf(file, l)[b].ticks| == m
  {
    var b := if l.end > 0 && (l.short == 0 || l.end < l.short) then l.Blocks() - 1
             else if l.short > 0 then l.before else 0;
    assert l.Count(b) == m;
    assert |BlocksOf(file, l)[b].ticks| == m;
  }

  /** Start a member at its first block; msbs is the packet count of its smallest block. */
  method MemberInit(file: SgFile, ghost l: Layout) returns (r: Frag, msbs: nat)
    requires FileOk(file, l)
    ensures r.cblk == 0 && FragOk(BlocksOf(file, l), file.mem, r)
    ensures 0 < msbs && forall b :: 0 <= b < |BlocksOf(file, l)| ==> msbs <= |BlocksOf(file, l)[b].ticks|
    ensures exists b :: 0 <= b < |BlocksOf(file, l)| && |BlocksOf(file, l)[b].ticks| == msbs
  {
    msbs := file.info.wrPkts;
    if 0 < file.info.shPkts && file.info.shPkts < msbs {
      msbs := file.info.shPkts;
    }
    if 0 < file.info.sePkts && file.info.sePkts < msbs {
      msbs := file.info.sePkts;
    }
    SmallestBlock(file, l, msbs);
    r := MemberMove(file, Frag(false, false, 0, 0, 0, 0, 0, 0, 0, 0), 0, l);
  }
}
