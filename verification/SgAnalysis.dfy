/**
 Recovering the block structure of a scatter-gather file from its contents.

 The file is seen through the words read from it and through the signature a
 packet header would have at an offset; image.sign is the signature of the
 file's packets.
 */
module SgAnalysis {
  import opened SgLayout
  import opened SgIndex

  const MAGIC := 0xfeed6666
  const NOT := 0
  const NOT_ENOUGH_DATA := -1
  const FIRST_FAIL := -2
  const FINAL_FAIL := -3
  const SEBLK_FAIL := -4
  const SEBLK_BAIL1 := -5
  const SEBLK_BAIL2 := -6
  const SEBLK_BAIL3 := -7
  const SHBLK_FAIL1 := -8
  const SHBLK_FAIL2 := -9
  const SHBLK_BAIL := -10
  const SHBLK_BLOW := -11
  const SHBLK_BUPP := -12
  const SDBLK_BAIL1 := -13
  const SDBLK_BAIL2 := -14

  /** A file; found is the signature of the first two valid packets that agree, or 0. */
  datatype Image = Image(size: nat, word: int -> nat, sig: int -> int, sign: int, found: int) {
    predicate Good(o: int) {
      sig(o) == sign
    }

    function TagSize(o: int): nat {
      word(o + 4)
    }

    /** The packet length in the header of a packet. */
    function Length(o: int): nat {
      word(o + 8) % 0x100_0000 * 8
    }

    /** There is a header like the one at o one packet later, well inside the file. */
    predicate Agrees(stride: int, o: int) {
      sig(o) == if o + stride < size - VDIF_HEADER then sig(o + stride) else 0
    }
  }

  /** The sum of two block numbers up to this fits in 32 bits. */
  const MAX_BLOCKS := 0x8000_0000

  function U32(x: int): nat {
    x % 0x1_0000_0000
  }

  /** C division of a possibly negative number. */
  function Trunc(a: int, b: nat): int
    requires b > 0
  {
    if a >= 0 then Quot(a, b) else 0 - Quot(-a, b) as int
  }

  /** It rounds towards zero. */
  lemma {:induction false} TruncRest(a: int, b: nat)
    requires b > 0
    ensures var rest := a - Trunc(a, b) * b;
            if a >= 0 then 0 <= rest < b else 0 <= -rest < b
  {
    if a >= 0 {
      Divide(a, b);
      MulIsProduct(Quot(a, b), b);
    } else {
      Divide(-a, b);
      MulIsProduct(Quot(-a, b), b);
    }
  }

  /** A short block that is last in the file counts as the end block, unless it is the only block. */
  predicate Canonical(l: Layout) {
    && (l.end > 0 && l.before + l.after == 0 ==> l.short > 0)
    && (l.short > 0 && l.after == 0 && l.end == 0 ==> l.before == 0)
  }

  /** Where a search that steps by the full block size lands. */
  function Probe(l: Layout, x: nat): int {
    FILE_TAG + Mul(x, l.Wide())
  }

  /**
   The image is a file laid out as l, of sizes that fit in 32 bits: packet signatures are found exactly at
   packet starts, block tags hold block sizes, and the payload words that probes
   beyond the short block read in place of a block size are not block sizes.
   */
  ghost predicate Laid(image: Image, l: Layout)
    ensures Laid(image, l) ==> l.Valid() && Canonical(l) && l.pkt % 8 == 0 && l.Blocks() <= MAX_BLOCKS
    ensures Laid(image, l) ==> image.size == l.Size() && l.pkt < 0x800_0000
    ensures Laid(image, l) ==> image.word(FILE_TAG + BLOCK_TAG + 8) % 0x100_0000 * 8 == l.pkt
  {
    && l.Valid() && Canonical(l)
    && l.pkt % 8 == 0 && l.Wide() < 0x1_0000_0000 && l.TotalPkts() < 0x1_0000_0000
    && l.Blocks() <= MAX_BLOCKS
    && image.size == l.Size()
    && image.word(0) == 0xfeed_6666 && image.word(4) == 2
    && image.word(8) == l.Wide() && image.word(16) == l.pkt
    && image.word(FILE_TAG + BLOCK_TAG + 8) % 0x100_0000 * 8 == l.pkt
    && (forall o :: SignedRight(image, l, o))
    && (forall b: nat :: TaggedRight(image, l, b))
    && (forall x: nat :: NoFalseTag(image, l, x))
  }

  ghost predicate SignedRight(image: Image, l: Layout, o: int) {
    image.sig(o) == image.sign <==> l.IsPktStart(o)
  }

  ghost predicate TaggedRight(image: Image, l: Layout, b: nat) {
    b < l.Blocks() ==> image.word(l.Tag(b) + 4) == l.BlockBytes(l.Count(b))
  }

  ghost predicate NoFalseTag(image: Image, l: Layout, x: nat) {
    l.short > 0 && l.before < x <= l.before + l.after ==>
      && image.word(Probe(l, x) + 4) != l.Wide()
      && image.word(Probe(l, x) + 4) != l.BlockBytes(l.short)
  }

  /** Packets in the block before the end block. */
  function BeforeEnd(l: Layout): nat {
    if l.after > 0 || l.short == 0 then l.full else l.short
  }

  /** The end block, and the short block right before it if there is one, hold few enough packets to be told apart. */
  predicate SingleEnd(l: Layout) {
    l.end + 2 <= l.full && l.full <= BeforeEnd(l) + l.end
  }

  predicate DoubleEnd(l: Layout) {
    l.before > 0 && BeforeEnd(l) + l.end + 2 <= l.full
  }

  /** Exactly the layouts that the analysis recovers. */
  predicate Recoverable(l: Layout) {
    && 28 + 4 * l.pkt <= l.Size()
    && (l.before > 0 || 2 <= l.short)
    && l.end != 1
    && (l.end > 0 ==> SingleEnd(l) || DoubleEnd(l))
  }

  // ---------------------------------------------------------------- geometry of the end of the file

  /** k packets before the end of a block. */
  lemma {:induction false} BackFromEnd(l: Layout, b: nat, k: nat)
    requires l.Valid() && b < l.Blocks() && 0 < k <= l.Count(b)
    ensures l.Tag(b + 1) - Mul(k, l.pkt) == l.PktAt(b, l.Count(b) - k)
    ensures l.IsPktStart(l.Tag(b + 1) - Mul(k, l.pkt))
    ensures l.IsPktStart(l.Tag(b + 1) - Mul(k, l.pkt) + l.pkt) <==> 1 < k
  {
    var j := l.Count(b) - k;
    PktInside(l, b, j);
    PktStart(l, b, j);
    if 1 < k {
      PktStart(l, b, j + 1);
      assert l.PktAt(b, j + 1) == l.PktAt(b, j) + l.pkt;
    } else {
      assert Mul(1, l.pkt) == l.pkt;
      TagIsNoPktStart(l, b + 1);
    }
  }

  /** A tag's length or two before or after a packet start there is no packet start. */
  lemma {:induction false} NearPkt(l: Layout, b: nat, j: nat)
    requires l.Valid() && l.IsPkt(b, j)
    ensures !l.IsPktStart(l.PktAt(b, j) + BLOCK_TAG)
    ensures !l.IsPktStart(l.PktAt(b, j) + 2 * BLOCK_TAG)
    ensures !l.IsPktStart(l.PktAt(b, j) - BLOCK_TAG)
  {
    NotPktStart(l, b, j, BLOCK_TAG, l.PktAt(b, j) + BLOCK_TAG);
    NotPktStart(l, b, j, 2 * BLOCK_TAG, l.PktAt(b, j) + 2 * BLOCK_TAG);
    if j == 0 {
      TagIsNoPktStart(l, b);
    } else {
      assert l.PktAt(b, j) == l.PktAt(b, j - 1) + l.pkt;
      NotPktStart(l, b, j - 1, l.pkt - BLOCK_TAG, l.PktAt(b, j) - BLOCK_TAG);
    }
  }

  /** Two packets in a row start at o. */
  predicate Pair(image: Image, stride: int, o: int) {
    image.sig(o) == image.sig(o + stride) && image.sig(o) == image.sign
  }

  lemma {:induction false} PairGood(image: Image, l: Layout, o: int)
    requires Laid(image, l)
    ensures Pair(image, l.pkt, o) <==> l.IsPktStart(o) && l.IsPktStart(o + l.pkt)
  {
    assert SignedRight(image, l, o) && SignedRight(image, l, o + l.pkt);
  }

  /** The file is too small for a full block. */
  predicate Small(l: Layout) {
    l.Size() - FILE_TAG < l.Wide()
  }

  lemma {:induction false} LastBlocks(l: Layout)
    requires l.Valid() && Canonical(l) && !Small(l)
    ensures l.end == 0 ==> l.Count(l.Blocks() - 1) == l.full
    ensures l.end > 0 ==> 2 <= l.Blocks() && l.Count(l.Blocks() - 1) == l.end && l.Count(l.Blocks() - 2) == BeforeEnd(l)
    ensures l.end > 0 && BeforeEnd(l) + l.end < l.full ==>
              3 <= l.Blocks() && l.before > 0 && l.Count(l.Blocks() - 3) == l.full && l.Blocks() == l.before + 2
  {
    var n := l.Blocks();
    if l.end == 0 {
      if l.before + l.after == 0 {
        assert n == 1 && l.Tag(1) == FILE_TAG + l.BlockBytes(l.short);
        MulMono(l.short, l.full, l.pkt);
      }
    } else if l.before == 0 && BeforeEnd(l) + l.end < l.full {
      assert l.after == 0 && n == 2;
      assert l.Tag(1) == FILE_TAG + l.BlockBytes(l.short);
      assert l.Tag(2) == l.Tag(1) + l.BlockBytes(l.end);
      MulAdd(l.short, l.end, l.pkt);
      MulMono(l.short + l.end, l.full, l.pkt);
    }
  }

  /** The offset where the first packet of a full last block would be. */
  function EndProbe(l: Layout): int {
    l.Size() - l.Wide() + BLOCK_TAG
  }

  lemma {:induction false} EndFull(image: Image, l: Layout)
    requires Laid(image, l) && !Small(l) && l.end == 0
    ensures Pair(image, l.pkt, EndProbe(l))
  {
    LastBlocks(l);
    BackFromEnd(l, l.Blocks() - 1, l.full);
    PairGood(image, l, EndProbe(l));
  }

  /** The probe reaches back into the block before the end block. */
  lemma {:induction false} SingleSpots(l: Layout)
    requires l.Valid() && Canonical(l) && !Small(l) && l.end > 0 && l.full <= BeforeEnd(l) + l.end
    ensures var o := EndProbe(l) - BLOCK_TAG;
            && 2 <= l.Blocks() && l.Count(l.Blocks() - 2) == BeforeEnd(l)
            && o == l.PktAt(l.Blocks() - 2, BeforeEnd(l) + l.end - l.full)
            && !l.IsPktStart(o + BLOCK_TAG)
            && !l.IsPktStart(o - BLOCK_TAG)
            && l.IsPktStart(o)
            && (l.IsPktStart(o + l.pkt) <==> l.end + 2 <= l.full)
  {
    hide Mul, Layout.IsPktStart, Layout.PktsBefore;
    LastBlocks(l);
    var b, k := l.Blocks() - 2, l.full - l.end;
    MulAdd(l.end, k, l.pkt);
    assert l.Size() == l.Tag(b + 1) + l.BlockBytes(l.end);
    BackFromEnd(l, b, k);
    NearPkt(l, b, l.Count(b) - k);
  }

  lemma {:induction false} EndSingle(image: Image, l: Layout)
    requires Laid(image, l) && !Small(l) && l.end > 0 && l.full <= BeforeEnd(l) + l.end
    ensures !Pair(image, l.pkt, EndProbe(l))
    ensures Pair(image, l.pkt, EndProbe(l) - BLOCK_TAG) <==> l.end + 2 <= l.full
    ensures !Pair(image, l.pkt, EndProbe(l) - 2 * BLOCK_TAG)
  {
    SingleSpots(l);
    hide Laid, Layout.IsPktStart, Layout.Blocks, Layout.Size, Pair;
    PairGood(image, l, EndProbe(l));
    PairGood(image, l, EndProbe(l) - BLOCK_TAG);
    PairGood(image, l, EndProbe(l) - 2 * BLOCK_TAG);
  }

  /** The probe reaches back over the short block before the end block. */
  lemma {:induction false} DoubleSpots(l: Layout)
    requires l.Valid() && Canonical(l) && !Small(l) && l.end > 0 && BeforeEnd(l) + l.end < l.full
    ensures var o := EndProbe(l) - 2 * BLOCK_TAG;
            && l.Blocks() == l.before + 2 && l.before > 0
            && o == l.PktAt(l.before - 1, l.short + l.end)
            && !l.IsPktStart(o + 2 * BLOCK_TAG)
            && !l.IsPktStart(o + BLOCK_TAG)
            && l.IsPktStart(o)
            && (l.IsPktStart(o + l.pkt) <==> DoubleEnd(l))
  {
    hide Mul, Layout.IsPktStart, Layout.PktsBefore;
    LastBlocks(l);
    var b, k := l.Blocks() - 3, l.full - l.end - l.short;
    MulAdd(l.end, k + l.short, l.pkt);
    MulAdd(l.short, k, l.pkt);
    assert l.Tag(b + 2) == l.Tag(b + 1) + l.BlockBytes(l.short);
    assert l.Size() == l.Tag(b + 2) + l.BlockBytes(l.end);
    BackFromEnd(l, b, k);
    NearPkt(l, b, l.Count(b) - k);
  }

  lemma {:induction false} EndDouble(image: Image, l: Layout)
    requires Laid(image, l) && !Small(l) && l.end > 0 && BeforeEnd(l) + l.end < l.full
    ensures !Pair(image, l.pkt, EndProbe(l))
    ensures !Pair(image, l.pkt, EndProbe(l) - BLOCK_TAG)
    ensures Pair(image, l.pkt, EndProbe(l) - 2 * BLOCK_TAG) <==> DoubleEnd(l)
  {
    DoubleSpots(l);
    hide Laid, Layout.IsPktStart, Layout.Blocks, Layout.Size, Pair;
    PairGood(image, l, EndProbe(l));
    PairGood(image, l, EndProbe(l) - BLOCK_TAG);
    PairGood(image, l, EndProbe(l) - 2 * BLOCK_TAG);
  }

  // ---------------------------------------------------------------- what the steps are to find

  function Blank(image: Image): Info {
    Info(NOT, image.size, 0, 0, 0, 0, 0, 0, 0, 0, 0, 0, 0, 0, 0, 0, 0, 0, 0)
  }

  /** The record before the blocks are looked for. */
  function Opened(l: Layout): Info {
    Info(OK_2, l.Size(), 0, l.pkt, 0, l.pkt, l.Wide(), 0, 0, 0, 0, 0, 0, 0, 0, 0, 0, 0, 0)
  }

  function WithEnd(l: Layout, i: Info): Info {
    if l.end == 0 then i
    else i.(seBlock := l.BlockBytes(l.end), seBlkOff := l.Tag(l.Blocks() - 1), sePkts := l.end)
  }

  function WithShort(l: Layout, i: Info): Info {
    if l.short == 0 then i
    else i.(shBlock := l.BlockBytes(l.short), shBlkOff := l.Tag(l.before), shPkts := l.short)
  }

  /** What the search for a short end block makes of the record. */
  function AfterEndfix(l: Layout, i: Info): Info {
    if l.end == 0 || Small(l) then i
    else if SingleEnd(l) then WithEnd(l, i)
    else if DoubleEnd(l) then WithEnd(l, WithShort(l, i).(wrBlksBs := l.before))
    else i.(version := -4)
  }

  lemma {:induction false} NextPkt(l: Layout, b: nat, j: nat)
    requires l.Valid() && l.IsPkt(b, j)
    ensures l.PktAt(b, j) + l.pkt <= l.Tag(b + 1)
    ensures j + 1 < l.Count(b) ==> l.PktAt(b, j + 1) == l.PktAt(b, j) + l.pkt
    ensures j + 1 == l.Count(b) ==> l.Tag(b + 1) == l.PktAt(b, j) + l.pkt
    ensures l.IsPktStart(l.PktAt(b, j) + l.pkt) <==> j + 1 < l.Count(b)
  {
    PktInside(l, b, j);
    if j + 1 < l.Count(b) {
      PktStart(l, b, j + 1);
    } else {
      TagIsNoPktStart(l, b + 1);
    }
  }

  /** A tag before the last block is far from the end of the file. */
  lemma {:induction false} RoomAfter(l: Layout, b: nat)
    requires l.Valid() && b < l.Blocks()
    ensures l.Tag(b) + BLOCK_TAG + l.pkt <= l.Size()
  {
    CountPositive(l, b);
    PktInside(l, b, 0);
  }

  lemma {:induction false} WalkOn(image: Image, l: Layout, b: nat, k: nat)
    requires Laid(image, l) && l.IsPkt(b, k) && b + 1 < l.Blocks()
    requires Pair(image, l.pkt, l.PktAt(b, k))
    ensures k + 1 < l.Count(b) && l.PktAt(b, k + 1) == l.PktAt(b, k) + l.pkt
    ensures l.PktAt(b, k + 1) + l.pkt <= image.size - VDIF_HEADER
  {
    PairGood(image, l, l.PktAt(b, k));
    NextPkt(l, b, k);
    NextPkt(l, b, k + 1);
    RoomAfter(l, b + 1);
  }

  lemma {:induction false} WalkEnds(image: Image, l: Layout, b: nat, k: nat)
    requires Laid(image, l) && l.IsPkt(b, k) && b + 1 < l.Blocks()
    requires !Pair(image, l.pkt, l.PktAt(b, k))
    ensures k + 1 == l.Count(b) && l.Tag(b + 1) == l.PktAt(b, k) + l.pkt
  {
    PktStart(l, b, k);
    PairGood(image, l, l.PktAt(b, k));
    NextPkt(l, b, k);
  }

  class Analysis {
    const image: Image
    var info: Info
    var sign: int

    constructor (image: Image)
      ensures this.image == image && info == Blank(image)
    {
      this.image := image;
      info := Blank(image);
      sign := 0;
    }

    /** The file with the signature taken for that of its packets. */
    function Seen(): Image
      reads this`sign
    {
      image.(sign := sign)
    }

    function Stride(): nat
      reads this
    {
      info.readSize / 4 * 4
    }

    /** Step packet by packet from vhp0 to the first offset that is not a packet of the same signature. */
    method Walk(start: int, ghost l: Layout, ghost b: nat, ghost j: nat) returns (vhp0: int, vhp1: int, ok: bool)
      requires 4 <= info.readSize
      ensures Laid(Seen(), l) && info.readSize == l.pkt && l.IsPkt(b, j) && b + 1 < l.Blocks()
              && start == l.PktAt(b, j) ==>
                ok && vhp0 == l.PktAt(b, l.Count(b) - 1) && vhp1 == l.Tag(b + 1)
    {
      var image := Seen();
      ghost var laid := Laid(image, l) && info.readSize == l.pkt && l.IsPkt(b, j) && b + 1 < l.Blocks()
          && start == l.PktAt(b, j);
      hide Laid, Pair, Layout.Tag, Layout.PktAt, Layout.Count;
      if laid {
        StrideIsPkt(l);
      }
      var step := Stride();
      vhp0 := start;
      vhp1 := start + step;
      ghost var k: nat := j;
      while Pair(image, step, vhp0)
        invariant vhp1 == vhp0 + step
        invariant laid ==> k < l.Count(b) && vhp0 == l.PktAt(b, k)
        decreases image.size - vhp1
      {
        if laid {
          WalkOn(image, l, b, k);
          k := k + 1;
        }
        vhp0 := vhp1;
        vhp1 := vhp1 + step;
        if vhp1 > image.size - VDIF_HEADER {
          return vhp0, vhp1, false;
        }
      }
      ok := true;
      if laid {
        WalkEnds(image, l, b, k);
      }
    }

    /** The two short blocks at the end of the file, from a packet of the full block before them. */
    method DoubleShort(vhp: int, ghost l: Layout)
      requires 4 <= info.readSize && 0 < info.wrBlock
      modifies this`info
      ensures info.readSize == old(info.readSize) && info.wrBlock == old(info.wrBlock)
              && info.pktOffset == old(info.pktOffset)
      ensures info.version == old(info.version) || info.version < 0
      ensures Laid(Seen(), l) && old(info) == Opened(l) && !Small(l) && l.end > 0 && DoubleEnd(l)
              && vhp == l.PktAt(l.before - 1, l.short + l.end) ==>
                info == WithEnd(l, WithShort(l, old(info)).(wrBlksBs := l.before))
    {
      hide Laid, Quot, U32, Layout.PktAt, Layout.Tag;
      ghost var laid := Laid(Seen(), l) && info == Opened(l) && !Small(l) && l.end > 0 && DoubleEnd(l)
                        && vhp == l.PktAt(l.before - 1, l.short + l.end);
      if laid {
        LastBlocks(l);
        CountPositive(l, l.before - 1);
      }
      var vhp0, vhp1, ok := Walk(vhp, l, (if laid then l.before - 1 else 0), l.short + l.end);
      if !ok {
        info := info.(version := SDBLK_BAIL1);
        return;
      }
      ShortPair(vhp0, vhp1, l);
    }

    /**
     Record the short block whose tag is at vhp1 and the one behind it, unless the
     packet there is unlike the one at vhp0.
     */
    method ShortPair(vhp0: int, tag: int, ghost l: Layout)
      requires 4 <= info.readSize && 0 < info.wrBlock
      modifies this`info
      ensures info.readSize == old(info.readSize) && info.wrBlock == old(info.wrBlock)
              && info.pktOffset == old(info.pktOffset)
      ensures info.version == old(info.version) || info.version < 0
      ensures Laid(Seen(), l) && old(info) == Opened(l) && !Small(l) && l.end > 0 && DoubleEnd(l)
              && vhp0 == l.PktAt(l.before - 1, l.full - 1) && tag == l.Tag(l.before) ==>
                info == WithEnd(l, WithShort(l, old(info)).(wrBlksBs := l.before))
    {
      var image := Seen();
      hide Laid, Quot, U32;
      ghost var laid := Laid(image, l) && info == Opened(l) && !Small(l) && l.end > 0 && DoubleEnd(l)
                        && vhp0 == l.PktAt(l.before - 1, l.full - 1) && tag == l.Tag(l.before);
      if laid {
        DoubleTags(image, l);
        SingleTags(image, l);
      }
      hide Layout.Blocks, Layout.BlockBytes, Layout.Tag, Layout.PktAt, Layout.Count, Layout.Wide, Layout.Size;
      hide Layout.Valid, Small, DoubleEnd;
      var vhp1 := tag;
      var size0 := image.TagSize(vhp1);
      info := info.(shBlock := size0, shBlkOff := OffOf(vhp1), shPkts := Quot(U32(size0 - BLOCK_TAG), info.readSize),
        wrBlksBs := Quot(OffOf(vhp1), info.wrBlock));
      vhp1 := vhp1 + size0 / 4 * 4;
      var size1 := image.TagSize(vhp1);
      info := info.(seBlock := size1, seBlkOff := OffOf(vhp1), sePkts := Quot(U32(size1 - BLOCK_TAG), info.readSize));
      vhp1 := vhp1 + BLOCK_TAG;
      if image.sig(vhp0) != image.sig(vhp1) || image.sig(vhp0) != image.sign {
        info := info.(shBlock := 0, shPkts := 0, shBlkOff := 0, version := SDBLK_BAIL2);
      }
    }

    /** Determine whether there is a short block at the end, and find it. */
    method ShortEndfix(ghost l: Layout)
      requires 4 <= info.readSize && 0 < info.wrBlock
      modifies this`info
      ensures info.readSize == old(info.readSize) && info.wrBlock == old(info.wrBlock)
              && info.pktOffset == old(info.pktOffset)
      ensures info.version == old(info.version) || info.version < 0
      ensures Laid(Seen(), l) && old(info) == Opened(l) ==> info == AfterEndfix(l, old(info))
    {
      var image := Seen();
      if image.size - FILE_TAG < info.wrBlock {
        info := info.(seBlock := 0, seBlkOff := 0, sePkts := 0);
        return;
      }
      ghost var laid := Laid(image, l) && info == Opened(l);
      if laid {
        StrideIsPkt(l);
        EndOutcome(image, l);
      }
      var step := Stride();
      var vhp0 := image.size - info.wrBlock + BLOCK_TAG + info.pktOffset;
      if Pair(image, step, vhp0) {
        info := info.(seBlock := 0, seBlkOff := 0, sePkts := 0);
        return;
      }
      vhp0 := vhp0 - BLOCK_TAG;
      if !Pair(image, step, vhp0) {
        vhp0 := vhp0 - BLOCK_TAG;
        if !Pair(image, step, vhp0) {
          info := info.(version := SEBLK_FAIL);
        } else {
          DoubleShort(vhp0, l);
        }
        return;
      }
      PinDown(vhp0, l);
    }

    /** The one short block at the end, from a packet of the block before it. */
    method PinDown(vhp: int, ghost l: Layout)
      requires 4 <= info.readSize && 0 < info.wrBlock
      modifies this`info
      ensures info.readSize == old(info.readSize) && info.wrBlock == old(info.wrBlock)
              && info.pktOffset == old(info.pktOffset)
      ensures info.version == old(info.version) || info.version < 0
      ensures Laid(Seen(), l) && old(info) == Opened(l) && !Small(l) && l.end > 0 && SingleEnd(l)
              && 2 <= l.Blocks() && vhp == l.PktAt(l.Blocks() - 2, BeforeEnd(l) + l.end - l.full) ==>
                info == WithEnd(l, old(info))
    {
      var image := Seen();
      ghost var laid := Laid(image, l) && info == Opened(l) && !Small(l) && l.end > 0 && SingleEnd(l)
                        && 2 <= l.Blocks() && vhp == l.PktAt(l.Blocks() - 2, BeforeEnd(l) + l.end - l.full);
      if laid {
        LastBlocks(l);
      }
      var vhp0, vhp1, ok := Walk(vhp, l, (if laid then l.Blocks() - 2 else 0),
          (if laid then BeforeEnd(l) + l.end - l.full else 0));
      if !ok {
        info := info.(version := SEBLK_BAIL1);
        return;
      }
      if laid {
        SingleTags(image, l);
      }
      vhp1 := vhp1 + BLOCK_TAG;
      if image.sig(vhp0) != image.sig(vhp1) || image.sig(vhp0) != image.sign {
        info := info.(version := SEBLK_BAIL2);
        return;
      }
      vhp1 := vhp1 - (BLOCK_TAG + info.pktOffset) / 4 * 4;
      if image.size - vhp1 != image.TagSize(vhp1) {
        info := info.(version := SEBLK_BAIL3);
        return;
      }
      var size1 := image.TagSize(vhp1);
      info := info.(seBlock := size1, seBlkOff := OffOf(vhp1), sePkts := Quot(U32(size1 - BLOCK_TAG), info.readSize));
    }

    /**
     Search for the short block between lower, a full block's tag, and upper.
     Probes past the short block land inside blocks, where the word read as a
     size is payload.  The loop ends whatever the file contains, unless the sum of
     two block numbers wraps around; what happens then is not followed.
     */
    method BinarySearch(lower0: nat, upper0: nat, offset: int, ghost l: Layout) returns (xamen: nat, wrapped: bool)
      requires lower0 < upper0
      modifies this`info
      ensures info.version == old(info.version) || info.version < 0
      ensures lower0 <= xamen < upper0
      ensures wrapped ==> MAX_BLOCKS < upper0
      ensures info == old(info).(version := info.version, shBlkOff := info.shBlkOff)
      ensures Laid(Seen(), l) && l.short > 0 && lower0 < l.before < upper0 <= l.before + l.after
              && info.wrBlock == l.Wide() && info.shBlock == l.BlockBytes(l.short) && offset == BLOCK_TAG ==>
                !wrapped && xamen == l.before && info == old(info).(shBlkOff := l.Tag(l.before))
    {
      var image := Seen();
      ghost var laid := Laid(image, l) && l.short > 0 && lower0 < l.before < upper0 <= l.before + l.after
                        && info.wrBlock == l.Wide() && info.shBlock == l.BlockBytes(l.short) && offset == BLOCK_TAG;
      hide Laid, Canonical;
      var lower, upper := lower0, upper0;
      xamen, wrapped := lower, false;
      while upper > lower
        invariant lower0 <= lower <= upper <= upper0
        invariant lower0 <= xamen < upper0
        invariant info == old(info) && !wrapped
        invariant laid ==> lower < l.before < upper
        decreases upper - lower
      {
        if upper + lower >= 0x1_0000_0000 {
          wrapped := true;
          break;
        }
        xamen := (upper + lower) / 2;
        var bpx := FILE_TAG + Mul(xamen, info.wrBlock);
        var size := image.TagSize(bpx);
        if laid {
          ProbeReads(image, l, xamen);
        }
        if !image.Good(bpx + offset) {
          info := info.(version := SHBLK_BAIL);
          break;
        } else if size == info.shBlock {
          info := info.(shBlkOff := bpx);
          break;
        } else if size == info.wrBlock {
          if lower == xamen {
            info := info.(version := SHBLK_BLOW);
            break;
          }
          lower := xamen;
        } else {
          // the middle is below upper, so this guard never fires
          info := info.(version := if upper == xamen then SHBLK_BUPP else info.version);
          if upper == xamen {
            break;
          }
          upper := xamen;
        }
      }
    }

    /** Find the short block of runt bytes among blks full blocks. */
    method ShortSearch(blks: nat, runt: nat, ghost l: Layout) returns (bbsb: nat)
      requires 0 < info.readSize && 0 < blks
      modifies this`info
      ensures info.version == old(info.version) || info.version < 0
      ensures bbsb <= blks
      ensures info == old(info).(version := info.version, shBlock := info.shBlock, shBlkOff := info.shBlkOff,
              shPkts := info.shPkts)
      ensures Laid(Seen(), l) && l.short > 0 && blks == l.before + l.after && runt == l.BlockBytes(l.short)
              && info.wrBlock == l.Wide() && info.readSize == l.pkt && info.pktOffset == 0 ==>
                bbsb == l.before && info == WithShort(l, old(info))
    {
      var image := Seen();
      ghost var laid := Laid(image, l) && l.short > 0 && blks == l.before + l.after && runt == l.BlockBytes(l.short)
                        && info.wrBlock == l.Wide() && info.readSize == l.pkt && info.pktOffset == 0;
      if laid {
        ShortFits(l);
        ProbeReads(image, l, 0);
        ProbeReads(image, l, blks);
        assert l.Tag(0) == FILE_TAG && Mul(0, l.Wide()) == 0;
      }
      info := info.(shBlock := U32(runt), shPkts := U32(Trunc(runt - BLOCK_TAG, info.readSize)));
      var offset := (BLOCK_TAG + info.pktOffset) / 4 * 4;
      var bp0 := FILE_TAG;
      var bp1 := FILE_TAG + Mul(blks, info.wrBlock);
      if !image.Good(bp0 + offset) || !image.Good(bp1 + offset) {
        info := info.(version := if image.TagSize(bp0) == info.wrBlock then SHBLK_FAIL1 else SHBLK_FAIL2);
        return 0;
      } else if image.TagSize(bp0) == runt {
        info := info.(shBlkOff := bp0);
        return 0;
      } else if image.TagSize(bp1) == runt {
        info := info.(shBlkOff := bp1);
        return blks;
      }
      var wrapped;
      bbsb, wrapped := BinarySearch(0, blks, offset, l);
    }

    /** The end of the file has been looked at, and perhaps the short block found there. */
    ghost predicate Ended(l: Layout)
      reads this
    {
      && Laid(Seen(), l) && (l.end > 0 ==> !Small(l))
      && (info == WithEnd(l, Opened(l))
          || (l.end > 0 && DoubleEnd(l) && info == WithEnd(l, WithShort(l, Opened(l)).(wrBlksBs := l.before))))
    }

    /** Find the short block, if its bytes, runt, are left beside blks0 full blocks. */
    method PlaceShort(blks0: nat, runt: int, ghost l: Layout) returns (bbsb: nat, blks: nat)
      requires 0 < info.readSize
      modifies this`info
      ensures info.version == old(info.version) || info.version < 0
      ensures info.sePkts == old(info.sePkts) && info.pktOffset == old(info.pktOffset)
      ensures info.readSize == old(info.readSize) && info.wrBlock == old(info.wrBlock)
      ensures bbsb <= blks
      ensures old(Ended(l)) && blks0 == l.before + l.after && runt == Runt(l) ==>
                bbsb == l.before && blks == l.before + l.after && SameButFull(info, Blocked(l))
    {
      ghost var ended := Ended(l) && blks0 == l.before + l.after && runt == Runt(l);
      if ended {
        RuntIsLess(l);
        assert l.Tag(0) == FILE_TAG;
        if l.short > 0 {
          ShortFits(l);
        }
      }
      hide Laid, Canonical, U32, Trunc, Quot, Small;
      blks := blks0;
      if blks == 0 {
        info := info.(shBlock := U32(runt), shBlkOff := FILE_TAG, shPkts := U32(Trunc(runt, info.readSize)));
        bbsb := 0;
      } else if runt > 0 {
        if info.version == SDBLK_BAIL2 {
          bbsb := 0;
        } else if info.shBlock == 0 {
          bbsb := ShortSearch(blks, runt, l);
        } else {
          bbsb := info.wrBlksBs;
          blks := bbsb;
        }
      } else {
        bbsb := blks;
      }
    }

    /** The bytes before the end block are those of the full blocks and of the short one. */
    lemma EndedCounts(l: Layout, blockage: int, blks: nat, runt: int)
      requires Ended(l) && 0 < info.wrBlock && blockage == image.size - info.seBlock - FILE_TAG
      requires blks == U32(Trunc(blockage, info.wrBlock)) && runt == blockage - Mul(blks, info.wrBlock)
      ensures blks == l.before + l.after && runt == Runt(l) && info.wrBlock == l.Wide() && info.readSize == l.pkt
      ensures 0 < l.pkt && Quot(l.Wide(), l.pkt) == l.full
    {
      hide U32, Trunc, Mul, Quot, Layout.Wide;
      Blockage(l);
      RuntIsLess(l);
    }

    /** Account for the short block and count the full blocks. */
    method NormalBlock(ghost l: Layout)
      requires 0 < info.readSize && 0 < info.wrBlock
      modifies this`info
      ensures info.version == old(info.version) || info.version < 0
      ensures info.sePkts == old(info.sePkts) && info.pktOffset == old(info.pktOffset)
      ensures old(Ended(l)) ==> info == Blocked(l)
    {
      hide Laid, Canonical, U32, Trunc, Mul, Quot, Small, Layout.Valid, Layout.Wide, DoubleEnd, Runt, Ended;
      ghost var ended := Ended(l);
      var blockage := image.size - info.seBlock - FILE_TAG;
      var blks := U32(Trunc(blockage, info.wrBlock));
      var runt := blockage - Mul(blks, info.wrBlock);
      if ended {
        EndedCounts(l, blockage, blks, runt);
      }
      var bbsb: nat;
      bbsb, blks := PlaceShort(blks, runt, l);
      var pkts := Quot(info.wrBlock, info.readSize);
      info := info.(wrPkts := pkts, wrBlksBs := bbsb, wrPktsBs := Mul(bbsb, pkts),
        wrBlksAs := blks - bbsb, wrPktsAs := Mul(blks - bbsb, pkts));
    }

    /** Read the file tag; a file shorter than four packets is not looked into. */
    method FileHeaderTag()
      modifies this`info
      ensures image.word(0) == 0xfeed_6666 && image.word(4) == 2 ==>
                info == old(info).(
                  version := if image.size < (28 + 4 * image.word(16)) % 0x1_0000_0000 then -1 else 2,
                  readSize := image.word(16), wrBlock := image.word(8))
      ensures !(image.word(0) == 0xfeed_6666 && image.word(4) == 2) ==> info == old(info)
    {
      var image := Seen();
      if image.word(0) != MAGIC {
        return;
      }
      if image.word(4) != 2 {
        return;
      }
      info := info.(version := OK_2, readSize := image.word(16), wrBlock := image.word(8));
      if image.size < U32(20 + 8 + 4 * info.readSize) {
        info := info.(version := NOT_ENOUGH_DATA);
      }
    }

    /** Scan the word alignments for the first at which two packets agree. */
    method ScanPackets(step: nat, words: nat) returns (poff: nat, found: bool)
      requires 0 < words
      ensures var p := FirstAgree(image, step, words, 0); (found <==> 0 <= p) && (found ==> poff == p)
    {
      poff := 0;
      while !image.Agrees(step, FILE_TAG + BLOCK_TAG + poff) && poff + 4 < words
        invariant 0 <= poff < words
        invariant FirstAgree(image, step, words, 0) == FirstAgree(image, step, words, poff)
      {
        poff := poff + 4;
      }
      found := image.Agrees(step, FILE_TAG + BLOCK_TAG + poff);
    }

    /**
     Find the first packet: the first word alignment behind the first tags at
     which the signature is the same one packet later.  The scan covers as many
     bytes as a packet has words.
     */
    method FirstPacket(ghost l: Layout)
      requires 4 <= info.readSize
      modifies this`info, this`sign
      ensures var o, p := FILE_TAG + BLOCK_TAG, FirstAgree(image, old(info.readSize) / 4 * 4,
              old(info.readSize) / 4, 0);
              && info == old(info).(version := if p < 0 then -2 else old(info.version),
                   pktSize := if p < 0 then old(info.pktSize) else image.Length(o + p),
                   pktOffset := if p < 0 then old(info.pktOffset) else p)
              && sign == if p < 0 then image.found else image.sig(o + p)
      ensures Laid(image, l) && old(info) == Opened(l).(pktSize := 0) && 28 + 4 * l.pkt <= l.Size() ==>
                if l.before > 0 || 2 <= l.short then info == Opened(l) && Laid(Seen(), l)
                else info.version < 0 || info.pktOffset > 0
    {
      ghost var laid := Laid(image, l) && info == Opened(l).(pktSize := 0) && 28 + 4 * l.pkt <= l.Size();
      if laid {
        StrideIsPkt(l);
        FirstAgrees(image, l);
        AgreeAtOnce(image, l.pkt, l.pkt / 4);
      }
      var step, words := Stride(), info.readSize / 4;
      hide Laid, Image.Agrees, Image.Length, Layout.Size, Layout.Wide, FirstAgree;
      var foff := FILE_TAG + BLOCK_TAG;
      sign := image.found;
      var poff, agree := ScanPackets(step, words);
      if !agree {
        info := info.(version := FIRST_FAIL);
        return;
      }
      info := info.(pktSize := image.Length(foff + poff), pktOffset := poff);
      sign := image.sig(foff + poff);
      assert sign == image.sign ==> Seen() == image;
    }

    /** The file must end with two packets of the signature. */
    method FinalPacket(ghost l: Layout)
      modifies this`info
      ensures info == old(info) || info == old(info).(version := -3)
      ensures Laid(Seen(), l) && info.readSize == l.pkt && info.pktOffset == 0 && 28 + 4 * l.pkt <= l.Size() ==>
                (info == old(info) || l.end == 1) && (l.end == 1 ==> info.version < 0)
    {
      var image := Seen();
      if Laid(image, l) && info.readSize == l.pkt && info.pktOffset == 0 && 28 + 4 * l.pkt <= l.Size() {
        LastPair(image, l);
      }
      var vhp0 := image.size - 2 * info.readSize + info.pktOffset;
      var vhp1 := image.size - 1 * info.readSize + info.pktOffset;
      if image.sig(vhp0) != image.sig(vhp1) || image.sig(vhp0) != image.sign {
        info := info.(version := FINAL_FAIL);
      }
    }

    /** Totals over the regions. */
    method FinalUpdate(ghost l: Layout)
      modifies this`info
      ensures info.version == old(info.version) && info.sePkts == old(info.sePkts)
              && info.pktOffset == old(info.pktOffset)
      ensures l.Valid() && old(info) == Blocked(l) ==> info == IndexOf(l)
    {
      if l.Valid() && info == Blocked(l) {
        Totals(l);
      }
      info := info.(
        totalPkts := info.wrPktsBs + info.shPkts + info.wrPktsAs + info.sePkts,
        totalBlks := info.wrBlksBs + info.wrBlksAs + (if info.shBlkOff != 0 then 1 else 0)
            + (if info.seBlkOff != 0 then 1 else 0));
    }

    /**
     The whole analysis.  It recovers exactly the layout of the file if and
     only if the layout is recoverable, a condition on its block sizes alone.
     */
    method Analyse(ghost l: Layout)
      requires info == Blank(image)
      requires 4 <= image.word(16) && 0 < image.word(8)
      modifies this`info, this`sign
      ensures Laid(image, l) ==> (info == IndexOf(l) <==> Recoverable(l))
    {
      ghost var laid := Laid(image, l);
      FileHeaderTag();
      if laid {
        Opens(image, l);
      }
      if info.version != OK_2 {
        return;
      }
      assert laid ==> info == Opened(l).(pktSize := 0) && 28 + 4 * l.pkt <= l.Size();
      hide Laid, AfterEndfix, Canonical, Layout.Valid;
      FirstPacket(l);
      ghost var paired := laid && (l.before > 0 || 2 <= l.short);
      FinalPacket(l);
      ghost var ended := paired && l.end != 1;
      assert paired && l.end == 1 ==> info.version < 0;
      ShortEndfix(l);
      assert ended ==> info == AfterEndfix(l, Opened(l));
      if ended {
        EndsWell(Seen(), l);
      }
      NormalBlock(l);
      FinalUpdate(l);
    }
  }

  lemma {:induction false} Opens(image: Image, l: Layout)
    requires Laid(image, l)
    ensures image.word(0) == MAGIC && image.word(4) == 2 && image.word(8) == l.Wide() && image.word(16) == l.pkt
    ensures image.size == l.Size() && U32(28 + 4 * l.pkt) == 28 + 4 * l.pkt
  {
  }

  /** On a file whose end the search recovers or leaves alone the record is as the later steps need it. */
  lemma {:induction false} EndsWell(image: Image, l: Layout)
    requires Laid(image, l) && 28 + 4 * l.pkt <= l.Size() && l.end != 1
    ensures l.Valid() && (l.end > 0 && (SingleEnd(l) || DoubleEnd(l)) ==> !Small(l))
    ensures l.end > 0 && !SingleEnd(l) && !DoubleEnd(l) ==>
              AfterEndfix(l, Opened(l)).version < 0 || AfterEndfix(l, Opened(l)).sePkts == 0
    ensures l.end == 0 || SingleEnd(l) ==> AfterEndfix(l, Opened(l)) == WithEnd(l, Opened(l))
    ensures l.end > 0 && !SingleEnd(l) && DoubleEnd(l) ==>
              AfterEndfix(l, Opened(l)) == WithEnd(l, WithShort(l, Opened(l)).(wrBlksBs := l.before))
  {
    NotSmall(l);
  }

  /**
   An offset kept in the record; offsets before the start of the file do not come
   up on files laid out as expected.
   */
  function OffOf(o: int): nat {
    if o < 0 then 0 else o
  }

  lemma {:induction false} StrideIsPkt(l: Layout)
    requires l.pkt % 8 == 0
    ensures l.pkt / 4 * 4 == l.pkt
  {
  }

  lemma {:induction false} MulOfEight(k: nat, w: nat)
    requires w % 8 == 0
    ensures Mul(k, w) % 8 == 0
  {
    if k > 0 {
      MulOfEight(k - 1, w);
    }
  }

  /** A block of whole packets is a whole number of words, and its packets can be counted from its size. */
  lemma {:induction false} SizeReads(l: Layout, n: nat)
    requires l.Valid() && l.pkt % 8 == 0 && l.Wide() < 0x1_0000_0000 && n <= l.full
    ensures l.BlockBytes(n) / 4 * 4 == l.BlockBytes(n)
    ensures Quot(U32(l.BlockBytes(n) - BLOCK_TAG), l.pkt) == n
  {
    MulMono(n, l.full, l.pkt);
    MulOfEight(n, l.pkt);
    Divided(n, 0, l.pkt);
    var m := Mul(n, l.pkt);
    assert l.BlockBytes(n) == BLOCK_TAG + m;
    hide Mul, Quot, U32;
    WordsAndBytes(m);
  }

  lemma {:induction false} WordsAndBytes(m: nat)
    requires m % 8 == 0 && m < 0x1_0000_0000
    ensures (BLOCK_TAG + m) / 4 * 4 == BLOCK_TAG + m
    ensures U32(m) == m
  {
  }

  /** The size in a block's tag: a multiple of 8 that gives back the packet count. */
  lemma {:induction false} TagReads(image: Image, l: Layout, b: nat)
    requires Laid(image, l) && b < l.Blocks()
    ensures var size := image.TagSize(l.Tag(b));
            && size == l.BlockBytes(l.Count(b))
            && size / 4 * 4 == size
            && Quot(U32(size - BLOCK_TAG), l.pkt) == l.Count(b)
            && l.Tag(b + 1) == l.Tag(b) + size
            && image.Good(l.Tag(b) + BLOCK_TAG)
  {
    assert TaggedRight(image, l, b);
    CountPositive(l, b);
    SizeReads(l, l.Count(b));
    FirstPktGood(image, l, b);
    hide U32, Quot;
  }

  lemma {:induction false} FirstPktGood(image: Image, l: Layout, b: nat)
    requires Laid(image, l) && b < l.Blocks()
    ensures image.Good(l.Tag(b) + BLOCK_TAG)
  {
    CountPositive(l, b);
    PktStart(l, b, 0);
    assert l.PktAt(b, 0) == l.Tag(b) + BLOCK_TAG;
    assert SignedRight(image, l, l.Tag(b) + BLOCK_TAG);
  }

  lemma {:induction false} LastPktGood(image: Image, l: Layout, b: nat)
    requires Laid(image, l) && b < l.Blocks()
    ensures 0 < l.Count(b) && image.Good(l.PktAt(b, l.Count(b) - 1))
  {
    CountPositive(l, b);
    PktStart(l, b, l.Count(b) - 1);
    assert SignedRight(image, l, l.PktAt(b, l.Count(b) - 1));
  }

  /** What the end block's tag and the packets next to it read as. */
  lemma {:induction false} SingleTags(image: Image, l: Layout)
    requires Laid(image, l) && !Small(l) && l.end > 0
    ensures 2 <= l.Blocks() && l.Count(l.Blocks() - 1) == l.end
    ensures 0 < l.Count(l.Blocks() - 2) && image.Good(l.PktAt(l.Blocks() - 2, l.Count(l.Blocks() - 2) - 1))
    ensures image.TagSize(l.Tag(l.Blocks() - 1)) == l.BlockBytes(l.end) == l.Size() - l.Tag(l.Blocks() - 1)
    ensures Quot(U32(l.BlockBytes(l.end) - BLOCK_TAG), l.pkt) == l.end
    ensures image.Good(l.Tag(l.Blocks() - 1) + BLOCK_TAG)
  {
    LastBlocks(l);
    TagReads(image, l, l.Blocks() - 1);
    LastPktGood(image, l, l.Blocks() - 2);
  }

  lemma {:induction false} DoubleTags(image: Image, l: Layout)
    requires Laid(image, l) && !Small(l) && l.end > 0 && DoubleEnd(l)
    ensures l.Blocks() == l.before + 2 && l.short > 0
    ensures image.TagSize(l.Tag(l.before)) == l.BlockBytes(l.short)
    ensures l.BlockBytes(l.short) / 4 * 4 == l.BlockBytes(l.short)
    ensures Quot(U32(l.BlockBytes(l.short) - BLOCK_TAG), l.pkt) == l.short
    ensures l.Tag(l.before) + l.BlockBytes(l.short) == l.Tag(l.before + 1)
    ensures Quot(l.Tag(l.before), l.Wide()) == l.before
    ensures image.Good(l.PktAt(l.before - 1, l.full - 1))
  {
    LastBlocks(l);
    TagReads(image, l, l.before);
    LastPktGood(image, l, l.before - 1);
    RegionLinear(l, 0, l.before);
    MulMono(2, l.full, l.pkt);
    assert Mul(1, l.pkt) == l.pkt;
    assert Mul(2, l.pkt) == l.pkt + l.pkt;
    Divided(l.before, FILE_TAG, l.Wide());
  }

  /** Which of the three probes from the end of the file see packets. */
  lemma {:induction false} EndOutcome(image: Image, l: Layout)
    requires Laid(image, l) && !Small(l)
    ensures l.end == 0 ==> Pair(image, l.pkt, EndProbe(l))
    ensures l.end > 0 ==> !Pair(image, l.pkt, EndProbe(l)) && 2 <= l.Blocks()
    ensures l.end > 0 ==> (Pair(image, l.pkt, EndProbe(l) - BLOCK_TAG) <==> SingleEnd(l))
    ensures l.end > 0 && !SingleEnd(l) ==> (Pair(image, l.pkt, EndProbe(l) - 2 * BLOCK_TAG) <==> DoubleEnd(l))
    ensures l.end > 0 && SingleEnd(l) ==>
              EndProbe(l) - BLOCK_TAG == l.PktAt(l.Blocks() - 2, BeforeEnd(l) + l.end - l.full)
    ensures l.end > 0 && DoubleEnd(l) ==>
              EndProbe(l) - 2 * BLOCK_TAG == l.PktAt(l.before - 1, l.short + l.end)
  {
    LastBlocks(l);
    if l.end == 0 {
      EndFull(image, l);
    } else if l.full <= BeforeEnd(l) + l.end {
      SingleSpots(l);
      EndSingle(image, l);
    } else {
      DoubleSpots(l);
      EndDouble(image, l);
    }
  }

  /** What a probe of the short-block search reads: a full tag, the short tag, or a packet past it. */
  lemma {:induction false} ProbeReads(image: Image, l: Layout, x: nat)
    requires Laid(image, l) && l.short > 0 && x <= l.before + l.after
    ensures image.Good(Probe(l, x) + BLOCK_TAG)
    ensures x < l.before ==> image.TagSize(Probe(l, x)) == l.Wide()
    ensures x == l.before ==> image.TagSize(Probe(l, x)) == l.BlockBytes(l.short) && Probe(l, x) == l.Tag(x)
    ensures l.before < x ==>
              && image.TagSize(Probe(l, x)) != l.Wide()
              && image.TagSize(Probe(l, x)) != l.BlockBytes(l.short)
    ensures l.BlockBytes(l.short) < l.Wide()
  {
    MulMono(l.short, l.full, l.pkt);
    if x <= l.before {
      RegionLinear(l, 0, x);
      TagReads(image, l, x);
    } else {
      ProbePast(l, x);
      assert NoFalseTag(image, l, x);
      assert SignedRight(image, l, Probe(l, x) + BLOCK_TAG);
    }
  }

  /** Where the blocks beyond the short block lie. */
  lemma {:induction false} TagPast(l: Layout, x: nat)
    requires l.Valid() && l.short > 0 && l.before < x <= l.before + l.after
    ensures x < l.Blocks() && l.Count(x) == l.full
    ensures l.Tag(x) == FILE_TAG + Mul(x - 1, l.Wide()) + l.BlockBytes(l.short)
  {
    assert l.Tag(0) == FILE_TAG && Mul(1, l.BlockBytes(l.short)) == l.BlockBytes(l.short);
    RegionEnds(l, 2);
    assert l.RegionBlocks(1) == 1 && l.RegionBlocks(2) == l.after && l.RegionCount(2) == l.full
        && l.RegionCount(1) == l.short;
    hide Mul, Layout.Tag, Layout.PktsBefore, Layout.Blocks, Layout.BlockBytes, Layout.Count, Layout.RegionStart;
    hide Layout.RegionBlocks, Layout.RegionCount;
    RegionSpan(l, 0);
    RegionSpan(l, 1);
    RegionLinear(l, 2, x - l.before - 1);
    MulAdd(l.before, x - l.before - 1, l.Wide());
  }

  /** Beyond the short block a probe lands short packets before the end of block x, on a packet. */
  lemma {:induction false} ProbePast(l: Layout, x: nat)
    requires l.Valid() && l.short > 0 && l.before < x <= l.before + l.after
    ensures x < l.Blocks()
    ensures Probe(l, x) + BLOCK_TAG == l.PktAt(x, l.full - l.short)
    ensures l.IsPktStart(Probe(l, x) + BLOCK_TAG)
  {
    TagPast(l, x);
    MulAdd(l.short, l.full - l.short, l.pkt);
    assert Mul(x, l.Wide()) == Mul(x - 1, l.Wide()) + l.Wide();
    PktStart(l, x, l.full - l.short);
  }

  /** The record when all but the totals is known. */
  function Blocked(l: Layout): Info {
    IndexOf(l).(totalPkts := 0, totalBlks := 0)
  }

  /** The first alignment from poff on at which two packets agree, or -1. */
  function FirstAgree(image: Image, stride: int, words: int, poff: nat): (p: int)
    ensures -1 <= p && (0 <= p ==> poff <= p && (p == poff || p < words))
    ensures 0 <= p ==>
              var o := FILE_TAG + BLOCK_TAG + p;
              && image.sig(o) == (if o + stride < image.size - 32 then image.sig(o + stride) else 0)
              && (p - poff) % 4 == 0
    decreases words - poff
  {
    if image.Agrees(stride, FILE_TAG + BLOCK_TAG + poff) then poff
    else if poff + 4 < words then FirstAgree(image, stride, words, poff + 4)
    else -1
  }

  lemma {:induction false} AgreeAtOnce(image: Image, stride: int, words: int)
    ensures image.Agrees(stride, FILE_TAG + BLOCK_TAG) <==> FirstAgree(image, stride, words, 0) == 0
  {
  }

  /** At no alignment before the one found, or at none at all, do two packets agree. */
  lemma {:induction false} NoneBefore(image: Image, stride: int, words: int, poff: nat, k: nat)
    requires var p := FirstAgree(image, stride, words, poff); poff + 4 * k < if 0 <= p then p else words
    ensures var o := FILE_TAG + BLOCK_TAG + poff + 4 * k;
            image.sig(o) != if o + stride < image.size - 32 then image.sig(o + stride) else 0
    decreases k
  {
    if k > 0 {
      NoneBefore(image, stride, words, poff + 4, k - 1);
    }
  }

  /** The packets behind the first tags agree exactly if the first block holds two. */
  lemma {:induction false} FirstAgrees(image: Image, l: Layout)
    requires Laid(image, l) && 28 + 4 * l.pkt <= l.Size()
    ensures image.Agrees(l.pkt, FILE_TAG + BLOCK_TAG) <==> l.before > 0 || 2 <= l.short
    ensures image.Length(FILE_TAG + BLOCK_TAG) == l.pkt && image.sig(FILE_TAG + BLOCK_TAG) == image.sign
  {
    FirstPktGood(image, l, 0);
    CountPositive(l, 0);
    assert l.PktAt(0, 0) == FILE_TAG + BLOCK_TAG;
    NextPkt(l, 0, 0);
    assert SignedRight(image, l, FILE_TAG + BLOCK_TAG + l.pkt);
  }

  /** A file that starts with a block of one packet, and is fine otherwise, is not recovered. */
  lemma {:induction false} OnePacketFirst()
    ensures var l := Layout(32, 4, 0, 1, 1, 0);
            && l.Valid() && Canonical(l) && 28 + 4 * l.pkt <= l.Size() && l.end == 0 && l.Count(0) == 1
            && !Recoverable(l)
  {
    var l := Layout(32, 4, 0, 1, 1, 0);
    assert Mul(4, 32) == 128;
    assert l.Tag(1) >= FILE_TAG && l.Tag(2) == l.Tag(1) + l.BlockBytes(4);
  }

  /** Two records differ at most in the counts of full blocks. */
  predicate SameButFull(a: Info, b: Info) {
    a == b.(wrPkts := a.wrPkts, wrBlksBs := a.wrBlksBs, wrPktsBs := a.wrPktsBs, wrBlksAs := a.wrBlksAs,
        wrPktsAs := a.wrPktsAs)
  }

  /** The bytes left for full and short blocks. */
  function BlockageOf(l: Layout): int {
    l.Size() - FILE_TAG - (if l.end > 0 then l.BlockBytes(l.end) else 0)
  }

  function Runt(l: Layout): nat {
    if l.short > 0 then l.BlockBytes(l.short) else 0
  }

  lemma {:induction false} BlockageIs(l: Layout)
    requires l.Valid()
    ensures BlockageOf(l) == Mul(l.before, l.Wide()) + Runt(l) + Mul(l.after, l.Wide())
  {
    hide Layout.Tag, Layout.RegionStart, Layout.RegionBlocks, Layout.RegionCount, Layout.BlockBytes, Layout.Blocks, Mul;
    RegionSpan(l, 0);
    RegionSpan(l, 1);
    RegionSpan(l, 2);
    RegionSpan(l, 3);
    Origin(l);
    SpanBytes(l);
  }

  lemma {:induction false} RegionSpan(l: Layout, r: nat)
    requires l.Valid() && r < 4
    ensures l.RegionStart(r) <= l.Blocks() && l.RegionStart(r + 1) <= l.Blocks()
    ensures l.Tag(l.RegionStart(r + 1)) == l.Tag(l.RegionStart(r))
            + Mul(l.RegionBlocks(r), l.BlockBytes(l.RegionCount(r)))
  {
    RegionAbuts(l, r);
    hide Layout.Tag, Layout.RegionStart, Layout.RegionBlocks, Layout.RegionCount, Layout.BlockBytes, Layout.Blocks, Mul;
    RegionLinear(l, r, 0);
    RegionLinear(l, r, l.RegionBlocks(r));
  }

  /** The bytes of the four regions. */
  lemma {:induction false} SpanBytes(l: Layout)
    ensures Mul(l.RegionBlocks(0), l.BlockBytes(l.RegionCount(0))) == Mul(l.before, l.Wide())
    ensures Mul(l.RegionBlocks(1), l.BlockBytes(l.RegionCount(1))) == Runt(l)
    ensures Mul(l.RegionBlocks(2), l.BlockBytes(l.RegionCount(2))) == Mul(l.after, l.Wide())
    ensures Mul(l.RegionBlocks(3), l.BlockBytes(l.RegionCount(3))) == if l.end > 0 then l.BlockBytes(l.end) else 0
  {
    assert forall x: nat :: Mul(1, x) == x;
  }

  lemma {:induction false} RuntIsLess(l: Layout)
    requires l.Valid()
    ensures Runt(l) < l.Wide()
    ensures Quot(l.Wide(), l.pkt) == l.full
    ensures l.short > 0 ==> Quot(Runt(l), l.pkt) == l.short && Quot(Runt(l) - BLOCK_TAG, l.pkt) == l.short
  {
    MulMono(l.short, l.full, l.pkt);
    Divided(l.full, BLOCK_TAG, l.pkt);
    Divided(l.short, BLOCK_TAG, l.pkt);
    Divided(l.short, 0, l.pkt);
  }

  lemma {:induction false} BlocksFit(l: Layout, b: nat)
    requires l.Valid() && b <= l.Blocks()
    ensures b <= l.PktsBefore(b)
  {
    if b > 0 {
      CountPositive(l, b - 1);
      BlocksFit(l, b - 1);
    }
  }

  /** They divide into the full blocks and the short one. */
  lemma {:induction false} Blockage(l: Layout)
    requires l.Valid() && l.TotalPkts() < 0x1_0000_0000
    ensures BlockageOf(l) == Mul(l.before + l.after, l.Wide()) + Runt(l) >= 0
    ensures U32(Trunc(BlockageOf(l), l.Wide())) == l.before + l.after
  {
    BlocksFit(l, l.Blocks());
    assert l.before + l.after <= l.Blocks();
    hide Mul, Quot, Runt, BlockageOf, Layout.Wide, Layout.Blocks, Layout.PktsBefore;
    BlockageIs(l);
    RuntIsLess(l);
    MulAdd(l.before, l.after, l.Wide());
    Divided(l.before + l.after, Runt(l), l.Wide());
  }

  lemma {:induction false} MulAtLeast(k: nat, w: nat)
    requires w > 0
    ensures k <= Mul(k, w)
  {
    if k > 0 {
      MulAtLeast(k - 1, w);
    }
  }

  lemma {:induction false} ShortFits(l: Layout)
    requires l.Valid() && l.Wide() < 0x1_0000_0000 && l.short > 0
    ensures U32(Runt(l)) == Runt(l)
    ensures U32(Trunc(Runt(l) - BLOCK_TAG, l.pkt)) == l.short
    ensures U32(Trunc(Runt(l), l.pkt)) == l.short
  {
    RuntIsLess(l);
    MulAtLeast(l.short, l.pkt);
  }

  lemma {:induction false} LastPair(image: Image, l: Layout)
    requires Laid(image, l) && 28 + 4 * l.pkt <= l.Size()
    ensures Pair(image, l.pkt, l.Size() - 2 * l.pkt) <==> l.end != 1
  {
    hide Laid, Pair, Layout.IsPktStart, Layout.PktsBefore, Canonical;
    var b := l.Blocks() - 1;
    var c := l.Count(b);
    LastCount(l);
    assert Mul(1, l.pkt) == l.pkt;
    assert Mul(2, l.pkt) == 2 * l.pkt;
    PairGood(image, l, l.Size() - 2 * l.pkt);
    if 2 <= c {
      BackFromEnd(l, b, 2);
    } else {
      BackFromEnd(l, b - 1, 1);
      NearPkt(l, b - 1, l.Count(b - 1) - 1);
      assert l.Size() == l.Tag(b) + l.BlockBytes(1);
    }
  }

  lemma {:induction false} LastCount(l: Layout)
    requires l.Valid() && Canonical(l) && 28 + 4 * l.pkt <= l.Size()
    ensures l.end == 1 ==> l.Count(l.Blocks() - 1) == 1 && 2 <= l.Blocks() && 1 <= l.Count(l.Blocks() - 2)
    ensures l.end != 1 ==> 2 <= l.Count(l.Blocks() - 1)
  {
    if l.end == 1 {
      CountPositive(l, l.Blocks() - 2);
    } else if l.end == 0 && l.before + l.after == 0 {
      assert l.Blocks() == 1 && l.Tag(1) == FILE_TAG + l.BlockBytes(l.short);
      assert Mul(1, l.pkt) == l.pkt;
      if l.short <= 1 {
        MulMono(l.short, 1, l.pkt);
      }
    }
  }

  lemma {:induction false} Totals(l: Layout)
    requires l.Valid()
    ensures Mul(l.before, l.full) + l.short + Mul(l.after, l.full) + l.end == l.TotalPkts()
    ensures l.before + l.after + Flag(l.short) + Flag(l.end) == l.Blocks()
    ensures l.short > 0 ==> l.Tag(l.before) != 0
    ensures l.end > 0 ==> l.Tag(l.Blocks() - 1) != 0
  {
    hide Layout.Tag, Layout.PktsBefore, Mul;
    RegionTotals(l, 0);
    RegionTotals(l, 1);
    RegionTotals(l, 2);
    RegionTotals(l, 3);
    Origin(l);
    TagGrows(l, 0, l.before);
    TagGrows(l, 0, l.Blocks() - 1);
  }

  /** A file with a recoverable end block is not too small for a full block. */
  lemma {:induction false} NotSmall(l: Layout)
    requires l.Valid() && Canonical(l)
    ensures l.end > 0 && (SingleEnd(l) || DoubleEnd(l)) ==> !Small(l)
  {
    if l.before + l.after > 0 {
      var b := if l.before > 0 then 0 else l.before + 1;
      TagGrows(l, 0, b);
      TagGrows(l, b, l.Blocks());
    } else if l.end > 0 {
      assert l.Blocks() == 2;
      assert l.Tag(1) == FILE_TAG + l.BlockBytes(l.short);
      assert l.Tag(2) == l.Tag(1) + l.BlockBytes(l.end);
      MulAdd(l.short, l.end, l.pkt);
      if l.full <= l.short + l.end {
        MulMono(l.full, l.short + l.end, l.pkt);
      }
    }
  }

  // ---------------------------------------------------------------- such files exist

  /** The size in the tag at offset o, if one of the first b blocks has its tag there, and 0 otherwise. */
  function SizeAt(l: Layout, o: int, b: nat): nat
    requires b <= l.Blocks()
  {
    if b == 0 then 0
    else if l.Tag(b - 1) == o then l.BlockBytes(l.Count(b - 1))
    else SizeAt(l, o, b - 1)
  }

  lemma {:induction false} SizeAtTag(l: Layout, b: nat, n: nat)
    requires l.Valid() && b < n <= l.Blocks()
    ensures SizeAt(l, l.Tag(b), n) == l.BlockBytes(l.Count(b))
  {
    if b < n - 1 {
      TagGrows(l, b, n - 1);
      SizeAtTag(l, b, n - 1);
    }
  }

  lemma {:induction false} SizeNowhere(l: Layout, o: int, n: nat)
    requires n <= l.Blocks() && forall b :: 0 <= b < n ==> l.Tag(b) != o
    ensures SizeAt(l, o, n) == 0
  {
    if n > 0 {
      SizeNowhere(l, o, n - 1);
    }
  }

  /**
   The words of a file laid out as l: those of the file tag, the length in the
   first packet's header, the sizes in the block tags, and zeros.
   */
  function WordOf(l: Layout, o: int): nat {
    if o == 0 then MAGIC
    else if o == 4 then 2
    else if o == 8 then l.Wide()
    else if o == 16 then l.pkt
    else if o == FILE_TAG + BLOCK_TAG + 8 then l.pkt / 8
    else SizeAt(l, o - 4, l.Blocks())
  }

  ghost function SigOf(l: Layout, o: int): int {
    if l.IsPktStart(o) then 1 else 0
  }

  ghost function ImageOf(l: Layout): Image {
    Image(l.Size(), o => WordOf(l, o), o => SigOf(l, o), 1, 1)
  }

  /** A probe beyond the short block does not start at a tag. */
  lemma {:induction false} ProbeNoTag(l: Layout, x: nat, b: nat)
    requires l.Valid() && l.short > 0 && l.before < x <= l.before + l.after && b < l.Blocks()
    ensures l.Tag(b) != Probe(l, x)
  {
    hide Layout.Tag, Layout.Count, Layout.Wide, Layout.Blocks, Probe;
    ProbePast(l, x);
    CountPositive(l, b);
    TagPast(l, x);
    assert l.PktAt(b, 0) == l.Tag(b) + BLOCK_TAG;
    if b < x || x < b {
      OtherBlock(l, b, x, l.full - l.short);
    } else {
      MulMono(1, l.full - l.short, l.pkt);
    }
  }

  lemma {:induction false} OtherBlock(l: Layout, b: nat, x: nat, k: nat)
    requires l.Valid() && l.IsPkt(b, 0) && l.IsPkt(x, k) && b != x
    ensures l.PktAt(b, 0) != l.PktAt(x, k)
  {
    if b < x {
      PktOrder(l, b, 0, x, k);
    } else {
      PktOrder(l, x, k, b, 0);
    }
  }

  /** Every layout of sizes that fit has a file laid out as expected. */
  lemma {:induction false} LaidExists(l: Layout)
    requires l.Valid() && Canonical(l) && l.pkt % 8 == 0 && l.pkt < 0x800_0000
    requires l.Wide() < 0x1_0000_0000 && l.TotalPkts() < 0x1_0000_0000 && l.Blocks() <= 0x8000_0000
    ensures Laid(ImageOf(l), l)
  {
    var image := ImageOf(l);
    forall b: nat
      ensures TaggedRight(image, l, b)
    {
      if b < l.Blocks() {
        TagsApart(l, b);
        SizeAtTag(l, b, l.Blocks());
      }
    }
    forall x: nat
      ensures NoFalseTag(image, l, x)
    {
      if l.short > 0 && l.before < x <= l.before + l.after {
        ProbeWord(l, x);
      }
    }
  }

  lemma {:induction false} TagsApart(l: Layout, b: nat)
    requires l.Valid() && b < l.Blocks()
    ensures l.Tag(b) == FILE_TAG || FILE_TAG + BLOCK_TAG + VDIF_HEADER <= l.Tag(b)
  {
    CountPositive(l, 0);
    MulMono(1, l.Count(0), l.pkt);
    assert Mul(1, l.pkt) == l.pkt;
    if b > 0 {
      TagGrows(l, 0, b);
    }
  }

  lemma {:induction false} ProbeWord(l: Layout, x: nat)
    requires l.Valid() && l.short > 0 && l.before < x <= l.before + l.after
    ensures ImageOf(l).word(Probe(l, x) + 4) == 0
  {
    forall b | 0 <= b < l.Blocks()
      ensures l.Tag(b) != Probe(l, x)
    {
      ProbeNoTag(l, x, b);
    }
    SizeNowhere(l, Probe(l, x), l.Blocks());
    MulMono(1, x, l.Wide());
    MulMono(1, l.full, l.pkt);
    assert Mul(1, l.Wide()) == l.Wide() && Mul(1, l.pkt) == l.pkt;
  }
}
