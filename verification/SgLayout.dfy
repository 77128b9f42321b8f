/**
 The block structure of one scatter-gather file.

 After a 20-byte file tag the file is a row of blocks, each an 8-byte block tag
 followed by whole packets.  Blocks are "full" except for at most one short
 block after the first "before" full ones, and at most one short block at the end.
 */
module SgLayout {

  const FILE_TAG := 20
  const BLOCK_TAG: nat := 8
  const VDIF_HEADER := 32

  /**
   Multiplication, by repeated addition so that proofs about offsets stay
   linear; MulIsProduct says that it is the usual product.
   */
  function Mul(k: nat, w: nat): nat {
    if k == 0 then 0 else Mul(k - 1, w) + w
  }

  lemma {:induction false} MulIsProduct(k: nat, w: nat)
    ensures Mul(k, w) == k * w
  {
    if k > 0 {
      MulIsProduct(k - 1, w);
      assert k * w == (k - 1) * w + w;
    }
  }

  lemma {:induction false} MulAdd(a: nat, b: nat, w: nat)
    ensures Mul(a + b, w) == Mul(a, w) + Mul(b, w)
  {
    if b > 0 {
      MulAdd(a, b - 1, w);
      assert a + b - 1 == a + (b - 1);
    }
  }

  lemma {:induction false} MulMono(a: nat, b: nat, w: nat)
    requires a <= b
    ensures Mul(a, w) <= Mul(b, w)
    ensures a < b ==> Mul(a, w) + w <= Mul(b, w)
  {
    MulAdd(a, b - a, w);
  }

  lemma {:induction false} MulZero(k: nat)
    ensures Mul(k, 0) == 0
  {
    if k > 0 {
      MulZero(k - 1);
    }
  }

  /**
   Division of non-negative numbers, by repeated subtraction; QuotIsQuotient
   says that it is the usual quotient, and Rem the usual remainder.
   */
  function Quot(n: nat, w: nat): nat
    requires w > 0
  {
    if n < w then 0 else Quot(n - w, w) + 1
  }

  function Rem(n: nat, w: nat): nat
    requires w > 0
  {
    if n < w then n else Rem(n - w, w)
  }

  lemma {:induction false} Divide(n: nat, w: nat)
    requires w > 0
    ensures n == Mul(Quot(n, w), w) + Rem(n, w)
    ensures Rem(n, w) < w
  {
    if w <= n {
      Divide(n - w, w);
    }
  }

  lemma {:induction false} QuotIsQuotient(n: nat, w: nat)
    requires w > 0
    ensures Quot(n, w) == n / w && Rem(n, w) == n % w
  {
    var q, r := Quot(n, w), Rem(n, w);
    Divide(n, w);
    MulIsProduct(q, w);
    QuotientUnique(q, r, n / w, n % w, w);
  }

  lemma {:induction false} QuotientUnique(q: nat, r: nat, p: nat, t: nat, w: nat)
    requires r < w && t < w && q * w + r == p * w + t
    ensures q == p && r == t
  {
    MulIsProduct(q, w);
    MulIsProduct(p, w);
    if q < p {
      MulMono(q, p, w);
    } else if p < q {
      MulMono(p, q, w);
    }
  }

  lemma {:induction false} Divided(q: nat, r: nat, w: nat)
    requires r < w
    ensures Quot(Mul(q, w) + r, w) == q
    ensures Rem(Mul(q, w) + r, w) == r
  {
    if q > 0 {
      Divided(q - 1, r, w);
      assert Mul(q, w) + r - w == Mul(q - 1, w) + r;
    }
  }

  lemma {:induction false} QuotientBelow(n: nat, k: nat, w: nat)
    requires n < Mul(k, w)
    ensures w > 0 && Quot(n, w) < k
  {
    if w == 0 {
      MulZero(k);
    }
    Divide(n, w);
    if k <= Quot(n, w) {
      MulMono(k, Quot(n, w), w);
    }
  }

  /** Sizes in bytes (pkt) and in packets (full, short, end); counts of full blocks (before, after). */
  datatype Layout = Layout(pkt: nat, full: nat, before: nat, short: nat, after: nat, end: nat) {

    predicate Valid() {
      && VDIF_HEADER <= pkt
      && 2 <= full
      && short < full && end < full
      && (short == 0 ==> after == 0)
      && 0 < before + short + end
    }

    function BlockBytes(count: nat): nat {
      BLOCK_TAG + Mul(count, pkt)
    }

    /** The size of a full block. */
    function Wide(): nat {
      BlockBytes(full)
    }

    function Blocks(): nat {
      before + Flag(short) + after + Flag(end)
    }

    /** Packets in block b. */
    function Count(b: nat): nat
      requires b < Blocks()
    {
      if b < before then full
      else if b == before && short > 0 then short
      else if b < before + Flag(short) + after then full
      else end
    }

    /** File offset of the tag of block b; of the end of the file for b == Blocks(). */
    function Tag(b: nat): nat
      requires b <= Blocks()
    {
      if b == 0 then FILE_TAG else Tag(b - 1) + BlockBytes(Count(b - 1))
    }

    function Size(): nat {
      Tag(Blocks())
    }

    /** Packets in the blocks before block b. */
    function PktsBefore(b: nat): nat
      requires b <= Blocks()
    {
      if b == 0 then 0 else PktsBefore(b - 1) + Count(b - 1)
    }

    function TotalPkts(): nat {
      PktsBefore(Blocks())
    }

    /** File offset of packet j of block b. */
    function PktAt(b: nat, j: nat): nat
      requires b < Blocks()
    {
      Tag(b) + BLOCK_TAG + Mul(j, pkt)
    }

    ghost predicate IsPkt(b: nat, j: nat) {
      b < Blocks() && j < Count(b)
    }

    ghost predicate IsPktStart(o: int) {
      exists b: nat, j: nat :: IsPkt(b, j) && o == PktAt(b, j)
    }

    // The four regions: full blocks, short block, full blocks, short end block.

    function RegionBlocks(r: nat): nat {
      if r == 0 then before
      else if r == 1 then Flag(short)
      else if r == 2 then after
      else if r == 3 then Flag(end)
      else 0
    }

    function RegionCount(r: nat): nat {
      if r == 1 then short else if r == 3 then end else full
    }

    /** The number of the first block of region r. */
    function RegionStart(r: nat): nat {
      if r == 0 then 0 else RegionStart(r - 1) + RegionBlocks(r - 1)
    }
  }

  function Flag(count: nat): nat {
    if count > 0 then 1 else 0
  }

  lemma {:induction false} CountPositive(l: Layout, b: nat)
    requires l.Valid() && b < l.Blocks()
    ensures 0 < l.Count(b) <= l.full
  {
  }

  lemma {:induction false} RegionEnds(l: Layout, r: nat)
    requires r <= 4
    ensures l.RegionStart(1) == l.before
    ensures l.RegionStart(2) == l.before + Flag(l.short)
    ensures l.RegionStart(3) == l.before + Flag(l.short) + l.after
    ensures l.RegionStart(4) == l.Blocks()
    ensures l.RegionStart(r) <= l.Blocks()
  {
    assert l.RegionStart(2) == l.RegionStart(1) + l.RegionBlocks(1);
    assert l.RegionStart(3) == l.RegionStart(2) + l.RegionBlocks(2);
    assert l.RegionStart(4) == l.RegionStart(3) + l.RegionBlocks(3);
  }

  /** Inside a region tags and packet counts advance linearly. */
  lemma {:induction false} RegionLinear(l: Layout, r: nat, k: nat)
    requires l.Valid() && r < 4 && k <= l.RegionBlocks(r)
    ensures l.RegionStart(r) + k <= l.Blocks()
    ensures k < l.RegionBlocks(r) ==>
              && l.RegionStart(r) + k < l.Blocks()
              && l.Count(l.RegionStart(r) + k) == l.RegionCount(r)
    ensures l.Tag(l.RegionStart(r) + k) == l.Tag(l.RegionStart(r)) + Mul(k, l.BlockBytes(l.RegionCount(r)))
    ensures l.PktsBefore(l.RegionStart(r) + k) == l.PktsBefore(l.RegionStart(r)) + Mul(k, l.RegionCount(r))
  {
    RegionEnds(l, r);
    if k > 0 {
      RegionLinear(l, r, k - 1);
    }
  }

  lemma {:induction false} TagGrows(l: Layout, b: nat, d: nat)
    requires l.Valid() && b <= d <= l.Blocks()
    ensures l.Tag(b) <= l.Tag(d) && l.PktsBefore(b) <= l.PktsBefore(d)
    ensures b < d ==> l.Tag(b) + l.BlockBytes(l.Count(b)) <= l.Tag(d)
    ensures b < d ==> l.PktsBefore(b) + l.Count(b) <= l.PktsBefore(d)
    decreases d
  {
    if b < d {
      CountPositive(l, d - 1);
      TagGrows(l, b, d - 1);
    }
  }

  /** A packet lies wholly between the tag of its block and the next tag. */
  lemma {:induction false} PktInside(l: Layout, b: nat, j: nat)
    requires l.Valid() && l.IsPkt(b, j)
    ensures l.Tag(b) + BLOCK_TAG <= l.PktAt(b, j)
    ensures l.PktAt(b, j) + l.pkt <= l.Tag(b + 1) <= l.Size()
    ensures l.PktAt(b, j) + Mul(l.Count(b) - j, l.pkt) == l.Tag(b + 1)
  {
    MulMono(j, l.Count(b), l.pkt);
    MulAdd(j, l.Count(b) - j, l.pkt);
    TagGrows(l, b + 1, l.Blocks());
  }

  /** Packet starts are ordered as (block, packet) pairs are. */
  lemma {:induction false} PktOrder(l: Layout, b: nat, j: nat, d: nat, k: nat)
    requires l.Valid() && l.IsPkt(b, j) && l.IsPkt(d, k)
    requires b < d || (b == d && j < k)
    ensures l.PktAt(b, j) + l.pkt <= l.PktAt(d, k)
    ensures b < d ==> l.PktAt(b, j) + l.pkt + BLOCK_TAG <= l.PktAt(d, k)
  {
    PktInside(l, b, j);
    PktInside(l, d, k);
    if b < d {
      TagGrows(l, b + 1, d);
    } else {
      MulMono(j, k, l.pkt);
    }
  }

  /** An offset inside block b that is a whole number of packets and a proper rest after its tag is no packet start. */
  lemma {:induction false} NotPktStart(l: Layout, b: nat, q: nat, d: nat, o: int)
    requires l.Valid() && b < l.Blocks()
    requires q < l.Count(b) && 0 < d < l.pkt
    requires o == l.PktAt(b, q) + d
    ensures !l.IsPktStart(o)
  {
    if l.IsPktStart(o) {
      var c: nat, j: nat :| l.IsPkt(c, j) && o == l.PktAt(c, j);
      PktInside(l, b, q);
      PktInside(l, c, j);
      if c < b || (c == b && j < q) {
        PktOrder(l, c, j, b, q);
      } else if b < c || q < j {
        PktOrder(l, b, q, c, j);
      }
    }
  }

  /** No block tag is a packet start. */
  lemma {:induction false} TagIsNoPktStart(l: Layout, b: nat)
    requires l.Valid() && b <= l.Blocks()
    ensures !l.IsPktStart(l.Tag(b))
  {
    if l.IsPktStart(l.Tag(b)) {
      var c: nat, j: nat :| l.IsPkt(c, j) && l.Tag(b) == l.PktAt(c, j);
      PktInside(l, c, j);
      if c < b {
        TagGrows(l, c + 1, b);
      } else {
        TagGrows(l, b, c);
      }
    }
  }

  lemma {:induction false} PktStart(l: Layout, b: nat, j: nat)
    requires l.IsPkt(b, j)
    ensures l.IsPktStart(l.PktAt(b, j))
  {
  }

  /** The block holding packet number n. */
  function BlockOf(l: Layout, n: nat, b: nat): (r: nat)
    requires l.Valid() && b <= l.Blocks() && n < l.PktsBefore(b)
    ensures r < b && l.PktsBefore(r) <= n < l.PktsBefore(r) + l.Count(r)
  {
    if l.PktsBefore(b - 1) <= n then b - 1 else BlockOf(l, n, b - 1)
  }

  lemma {:induction false} BlockOfUnique(l: Layout, n: nat, b: nat, c: nat)
    requires l.Valid() && b < l.Blocks() && c < l.Blocks()
    requires l.PktsBefore(b) <= n < l.PktsBefore(b) + l.Count(b)
    requires l.PktsBefore(c) <= n < l.PktsBefore(c) + l.Count(c)
    ensures b == c
  {
    if b < c {
      TagGrows(l, b, c);
    } else if c < b {
      TagGrows(l, c, b);
    }
  }
}
