/**
 The stripe machine: many members presented as one seekable file.  It keeps one
 current block per member, sorts them by time, and finds out from per-member
 byte counts where in the file the window of current blocks lies.
 */
module Stripes {
  import opened Timeline
  import opened SgLayout
  import opened SgIndex
  import opened Member
  import opened Slots
  import opened Window
  import opened Rounds

  /** Requests further from the window than this many bytes are sought by a jump. */
  const JUMP_TRIGGER := 262_144_000

  /** Sizes are 64-bit unsigned numbers. */
  const SIZE_LIMIT := 0x1_0000_0000_0000_0000

  function Unsigned(x: int): nat {
    x % 0x1_0000_0000_0000_0000
  }

  const EIO := 5
  const EFAULT := 14

  /**
   What a read of the virtual file came to.  Backward stands for a read that
   needs the stripe to move backward, Lost for one that makes it walk backward
   from the first window, where it is left without a slot.
   */
  datatype Outcome = Read(n: nat) | Eof | Fault | IoError | Backward | Lost

  /** The nearest integer, the even one of two. */
  function Rint(x: real): int {
    var f := x.Floor;
    var d := x - f as real;
    if d < 0.5 || (d == 0.5 && f % 2 == 0) then f else f + 1
  }

  /** The error for slots out of order. */
  const SORT_CHECK := 0x100

  function Ord(s: seq<SBlock>): (r: seq<nat>)
    ensures |r| == |s|
  {
    seq(|s|, i requires 0 <= i < |s| => s[i].index)
  }

  function Blks(fr: seq<Frag>): (r: seq<nat>)
    ensures |r| == |fr|
  {
    seq(|fr|, f requires 0 <= f < |fr| => fr[f].cblk)
  }

  function Keys(fr: seq<Frag>): (r: seq<int>)
    ensures |r| == |fr|
  {
    seq(|fr|, f requires 0 <= f < |fr| => fr[f].ptbe)
  }

  ghost predicate FragsOk(rec: Recording, files: seq<SgFile>, fr: seq<Frag>) {
    && |fr| == |rec| == |files|
    && forall f :: 0 <= f < |rec| ==> FragOk(rec[f], files[f].mem, fr[f])
  }

  lemma {:induction false} FragsCurrent(rec: Recording, files: seq<SgFile>, fr: seq<Frag>)
    requires FragsOk(rec, files, fr)
    ensures Current(rec, Blks(fr))
    ensures forall f :: 0 <= f < |rec| ==> Keys(fr)[f] == rec[f][Blks(fr)[f]].First()
  {
  }

  /** Slot i, if it is not the last, starts before the next. */
  predicate Rises(s: seq<SBlock>, fr: seq<Frag>, i: nat) {
    i + 1 < |s| && s[i].index < |fr| && s[i + 1].index < |fr| ==> fr[s[i].index].ptbe < fr[s[i + 1].index].ptbe
  }

  lemma {:induction false} SameRise(s: seq<SBlock>, t: seq<SBlock>, fr: seq<Frag>, i: nat)
    requires |s| == |t| && i + 1 < |s| && s[i] == t[i] && s[i + 1] == t[i + 1]
    ensures Rises(s, fr, i) <==> Rises(t, fr, i)
  {
  }

  lemma {:induction false} LastRises(s: seq<SBlock>, fr: seq<Frag>, n: int)
    requires |s| <= n + 1
    ensures forall i :: n <= i && 0 <= i ==> Rises(s, fr, i)
  {
  }

  /** Sorting the slots keeps them one per member and puts them in time order. */
  lemma {:induction false} SortedSlots(rec: Recording, files: seq<SgFile>, s: seq<SBlock>, fr: seq<Frag>)
    requires WellTimed(rec) && FragsOk(rec, files, fr) && IsPerm(Ord(s), |rec|)
    ensures Keyed(s, Keys(fr))
    ensures var t := SortBlocks(s, Keys(fr));
            && Placed(rec, Ord(t), Blks(fr))
            && Sorted(rec, Ord(t), Blks(fr))
  {
    FragsCurrent(rec, files, fr);
    forall i | 0 <= i < |s|
      ensures s[i].index < |rec|
    {
      assert Ord(s)[i] < |rec|;
    }
    var key := Keys(fr);
    var t := SortBlocks(s, key);
    OnceFromPerm(s, |rec|);
    SortsBlocks(s, key);
    PermFromOnce(s, t, |rec|);
    forall i, j | 0 <= i < j < |t|
      ensures At(rec, Ord(t), Blks(fr), i).First() < At(rec, Ord(t), Blks(fr), j).First()
    {
      StartsDiffer(rec, Blks(fr), t[i].index, t[j].index);
      assert Ord(t)[i] == t[i].index && Ord(t)[j] == t[j].index;
    }
  }

  lemma {:induction false} OnceFromPerm(s: seq<SBlock>, n: nat)
    requires IsPerm(Ord(s), n)
    ensures OncePerMember(s)
  {
    forall i, j | 0 <= i < j < |s|
      ensures s[i].index != s[j].index
    {
      assert Ord(s)[i] != Ord(s)[j];
    }
  }

  lemma {:induction false} PermFromOnce(s: seq<SBlock>, t: seq<SBlock>, n: nat)
    requires IsPerm(Ord(s), n) && |t| == |s| && OncePerMember(t)
    requires forall x :: x in t <==> x in s
    ensures IsPerm(Ord(t), n)
  {
    forall i | 0 <= i < n
      ensures Ord(t)[i] < n
    {
      assert t[i] in s;
      var k :| 0 <= k < |s| && s[k] == t[i];
      assert Ord(s)[k] < n;
    }
    forall f | 0 <= f < n
      ensures f in Ord(t)
    {
      assert f in Ord(s);
      var k :| 0 <= k < |s| && Ord(s)[k] == f;
      assert s[k] in t;
      var i :| 0 <= i < |t| && t[i] == s[k];
      assert Ord(t)[i] == f;
    }
  }

  lemma {:induction false} StartsDiffer(rec: Recording, c: seq<nat>, f: nat, g: nat)
    requires WellTimed(rec) && Current(rec, c) && f < |rec| && g < |rec| && f != g
    ensures rec[f][c[f]].First() != rec[g][c[g]].First()
  {
    assert Has(rec, f, c[f]) && Has(rec, g, c[g]);
    assert Apart(rec, f, c[f], g, c[g]);
    BlockSpan(rec[f][c[f]]);
    BlockSpan(rec[g][c[g]]);
  }

  /** The recording made of the members' blocks. */
  ghost function RecordingOf(files: seq<SgFile>, layouts: seq<Layout>): (rec: Recording)
    requires |files| == |layouts| && forall f :: 0 <= f < |files| ==> FileOk(files[f], layouts[f])
    ensures |rec| == |files|
  {
    seq(|files|, f requires 0 <= f < |files| && FileOk(files[f], layouts[f]) => BlocksOf(files[f], layouts[f]))
  }

  /** Packet k of block b of member f, by its file and its offset there. */
  ghost predicate PacketOf(files: seq<SgFile>, layouts: seq<Layout>, f: nat, b: nat, k: nat, mem: seq<Byte>, o: nat) {
    && f < |files| == |layouts| && FileOk(files[f], layouts[f])
    && layouts[f].IsPkt(b, k) && mem == files[f].mem && o == layouts[f].PktAt(b, k)
  }

  /**
   The virtual file orders packets by the seconds and frames in their headers: a
   packet of a block that comes earlier in it, or earlier in the same block, is
   the earlier one.
   */
  lemma {:induction false} HeadersInOrder(files: seq<SgFile>, layouts: seq<Layout>, i: nat, j: nat, k: nat, m: nat,
      a: seq<Byte>, o: nat, b: seq<Byte>, p: nat)
    requires |files| == |layouts| && forall f :: 0 <= f < |files| ==> FileOk(files[f], layouts[f])
    requires WellTimed(RecordingOf(files, layouts))
    requires var list := Order(RecordingOf(files, layouts), Start(RecordingOf(files, layouts)));
             && i < |list| && j < |list| && (i < j || (i == j && k < m))
             && PacketOf(files, layouts, list[i].0, list[i].1, k, a, o)
             && PacketOf(files, layouts, list[j].0, list[j].1, m, b, p)
    ensures o + 8 <= |a| && p + 8 <= |b| && HeaderBefore(a, o, b, p)
  {
    hide TickAt, HeaderBefore, Order, BlocksOf, Layout.PktAt, Layout.Count, Layout.Size;
    var rec := RecordingOf(files, layouts);
    var list := Order(rec, Start(rec));
    OrderIsTimeOrder(rec);
    PacketTick(files, layouts, list[i].0, list[i].1, k, a, o);
    PacketTick(files, layouts, list[j].0, list[j].1, m, b, p);
    TickOrder(a, o, b, p);
    var first, later := rec[list[i].0][list[i].1], rec[list[j].0][list[j].1];
    assert Has(rec, list[i].0, list[i].1) && Has(rec, list[j].0, list[j].1);
    TicksWithin(first, k);
    TicksWithin(later, m);
    if i < j {
      assert Earlier(rec, list[i], list[j]);
    }
  }

  lemma {:induction false} TicksWithin(block: Block, k: nat)
    requires block.Valid() && k < |block.ticks|
    ensures block.First() <= block.ticks[k] <= block.Final()
  {
  }

  /** A packet's tick is that of its header. */
  lemma {:induction false} PacketTick(files: seq<SgFile>, layouts: seq<Layout>, f: nat, b: nat, k: nat,
      mem: seq<Byte>, o: nat)
    requires |files| == |layouts| && forall g :: 0 <= g < |files| ==> FileOk(files[g], layouts[g])
    requires PacketOf(files, layouts, f, b, k, mem, o)
    ensures var rec := RecordingOf(files, layouts);
            && o + 8 <= |mem| && f < |rec| && b < |rec[f]| && k < |rec[f][b].ticks|
            && rec[f][b].ticks[k] == TickAt(mem, o)
  {
    hide TickAt, Layout.PktAt, Layout.Tag, Layout.Count, IndexOf;
    PktInside(layouts[f], b, k);
    assert BlocksOf(files[f], layouts[f])[b] == Block(TicksOf(files[f], layouts[f], b),
        Member.DataOf(files[f], layouts[f], b));
  }

  class Stripe {
    const files: seq<SgFile>
    ghost const layouts: seq<Layout>
    ghost const rec: Recording
    const numb: nat
    const frag: array<Frag>
    const stripe: array<SBlock>
    var msbs: nat
    var zero: nat
    var sgap: nat
    var bybs: nat
    var byis: nat
    var byas: nat
    var bygt: nat
    var roff: int
    var size: int

    /** Open a sequence: every member at its first block, the window at the start of the virtual file. */
    constructor Open(files: seq<SgFile>, ghost layouts: seq<Layout>)
      requires 0 < |files| == |layouts| && forall f :: 0 <= f < |files| ==> FileOk(files[f], layouts[f])
      requires WellTimed(RecordingOf(files, layouts))
      ensures this.files == files && rec == RecordingOf(files, layouts)
      ensures fresh(frag) && fresh(stripe)
      ensures InWindow() && bybs == 0
    {
      var none := Frag(false, false, 0, 0, 0, 0, 0, 0, 0, 0);
      this.files := files;
      this.layouts := layouts;
      this.rec := RecordingOf(files, layouts);
      this.numb := |files|;
      this.frag := new Frag[|files|](_ => none);
      this.stripe := new SBlock[|files|]((i: nat) => SBlock(i, 0));
      this.msbs := 0x7FFF_FFFF;
      this.zero, this.sgap := 0, 0;
      this.bybs, this.byis, this.byas, this.bygt := 0, 0, 0, 0;
      this.roff, this.size := 0, 0;
      new;
      InitMembers();
      StartStripe();
      StripeInit();
    }

    /** Block b of member f has n packets. */
    ghost predicate Holds(f: int, b: int, n: nat) {
      Has(rec, f, b) && |rec[f][b].ticks| == n
    }

    /** Start every member at its first block, and find the smallest block of all. */
    method InitMembers()
      requires Setup() && msbs == 0x7FFF_FFFF
      modifies this`msbs, frag
      ensures 0 < msbs && AtLeast(rec, msbs)
      ensures msbs == 0x7FFF_FFFF || exists f, b :: Holds(f, b, msbs)
      ensures FragsOk(rec, files, frag[..])
      ensures forall f :: 0 <= f < numb ==> frag[f].cblk == 0
    {
      hide FileOk, FragOk, BlocksOf, WellTimed;
      var num := 0;
      while num < numb
        invariant num <= numb && 0 < msbs
        invariant forall f :: 0 <= f < num ==> frag[f].cblk == 0 && FragOk(rec[f], files[f].mem, frag[f])
        invariant forall f, b :: 0 <= f < num && Has(rec, f, b) ==> msbs <= |rec[f][b].ticks|
        invariant msbs == 0x7FFF_FFFF || exists f, b :: Holds(f, b, msbs)
      {
        assert MemberOk(num);
        var fr, small := MemberInit(files[num], layouts[num]);
        frag[num] := fr;
        if small < msbs {
          ghost var b :| 0 <= b < |rec[num]| && |rec[num][b].ticks| == small;
          assert Holds(num, b, small);
          msbs := small;
        }
        num := num + 1;
      }
    }

    /** All members on their first blocks show the cut before everything. */
    lemma StartStripe()
      requires Setup() && 0 < msbs && AtLeast(rec, msbs) && FragsOk(rec, files, frag[..])
      requires forall f :: 0 <= f < numb ==> frag[f].cblk == 0
      requires forall i :: 0 <= i < numb ==> stripe[i] == SBlock(i, 0)
      ensures Valid() && Shows(rec, Blocks(), Start(rec)) && Marked(Start(rec))
      ensures IsCut(rec, Start(rec)) && !Done(rec, Start(rec)) && Pos(rec, Start(rec)) == 0
    {
      FragsCurrent(rec, files, frag[..]);
      StartIsCut(rec);
      StartPos(rec);
      forall f | 0 <= f < numb
        ensures f in Members()
      {
        assert Members()[f] == f;
      }
      assert Blocks()[0] < |rec[0]|;
    }

    /** Point the stripe to the start of the sequence. */
    method StripeInit()
      requires Valid() && Shows(rec, Blocks(), Start(rec)) && Marked(Start(rec))
      requires IsCut(rec, Start(rec)) && !Done(rec, Start(rec)) && Pos(rec, Start(rec)) == 0
      modifies this`zero, this`sgap, this`bybs, this`byis, this`byas, this`bygt, frag, stripe
      ensures InWindow() && bybs == 0
    {
      zero := 0;
      sgap := numb;
      StripeSort();
      Settle(Start(rec));
      var err := CheckWindow();
    }

    /** The members are files of known layout whose blocks do not overlap in time. */
    ghost predicate Setup() {
      && |files| == |layouts| == |rec| == numb == frag.Length == stripe.Length
      && numb > 0
      && WellTimed(rec)
      && forall f :: 0 <= f < numb ==> MemberOk(f)
    }

    ghost predicate MemberOk(f: nat) {
      && f < |files| == |layouts| == |rec|
      && FileOk(files[f], layouts[f])
      && rec[f] == BlocksOf(files[f], layouts[f])
    }

    ghost function Members(): seq<nat>
      reads stripe
    {
      Ord(stripe[..])
    }

    ghost function Blocks(): seq<nat>
      reads frag
    {
      Blks(frag[..])
    }

    ghost predicate Valid()
      reads this, frag, stripe
      ensures Valid() ==>
                && Placed(rec, Members(), Blocks())
                && |Members()| == |rec| == numb == frag.Length == stripe.Length == |files|
    {
      && Setup()
      && 0 < msbs && AtLeast(rec, msbs)
      && FragsOk(rec, files, frag[..])
      && Placed(rec, Members(), Blocks())
    }

    method StripeSort()
      requires Valid()
      modifies stripe
      ensures Valid() && Sorted(rec, Members(), Blocks())
      ensures forall x :: x in stripe[..] <==> x in old(stripe[..])
    {
      SortedSlots(rec, files, stripe[..], frag[..]);
      var key := seq(numb, f requires 0 <= f < numb reads this, frag => frag[f].ptbe);
      assert key == Keys(frag[..]);
      var t := SortBlocks(stripe[..], key);
      forall i | 0 <= i < numb {
        stripe[i] := t[i];
      }
      assert stripe[..] == t;
    }

    /** The first slot of a member that has not ended starts the stripe. */
    method StripeZero()
      requires stripe.Length == numb
      modifies this`zero, this`sgap
      ensures sgap == numb && zero == FirstLive(stripe[..])
    {
      sgap := numb;
      var ii := 0;
      while ii < numb && stripe[ii].nread != 0
        invariant ii <= numb
        invariant FirstLive(stripe[..]) == ii + FirstLive(stripe[ii..])
      {
        assert stripe[ii..][1..] == stripe[ii + 1..];
        ii := ii + 1;
      }
      zero := ii;
    }

    /**
     Step member f back while it leaves a gap of mint after pten and its
     predecessor still starts after pten; report whether a gap is left.
     */
    method PredecessorsLeaveGap(f: nat, pten: int, mint: int) returns (gap: bool)
      requires f < numb && Valid()
      modifies frag
      ensures Valid()
      ensures frag[..] == old(frag[..])[f := frag[f]]
      ensures frag[f].cblk == Pull(rec[f], old(frag[f].cblk), pten, mint)
      ensures gap <==> mint <= rec[f][frag[f].cblk].First() - pten
    {
      ghost var before := frag[..];
      assert MemberOk(f) && FragOk(rec[f], files[f].mem, before[f]);
      var jth, g := PullFrag(files[f], frag[f], pten, mint, layouts[f]);
      frag[f] := jth;
      gap := g;
      assert frag[..] == before[f := jth];
      MovedFrag(before, f);
    }

    /** Putting a sound fragment in place keeps the stripe sound. */
    lemma MovedFrag(before: seq<Frag>, f: nat)
      requires Setup() && f < numb && 0 < msbs && AtLeast(rec, msbs)
      requires FragsOk(rec, files, before) && Placed(rec, Members(), Blks(before))
      requires FragOk(rec[f], files[f].mem, frag[f]) && frag[..] == before[f := frag[f]]
      ensures Valid()
    {
      forall g | 0 <= g < |rec|
        ensures FragOk(rec[g], files[g].mem, frag[..][g])
      {
        if g == f {
          assert frag[..][g] == frag[f];
        } else {
          assert frag[..][g] == before[g];
        }
      }
      FragsCurrent(rec, files, frag[..]);
    }

    /** The member in slot k and its file. */
    lemma SlotFile(k: nat)
      requires Valid() && k < numb
      ensures var f := stripe[k].index;
              && f == Members()[k] < numb == |files| == |layouts| == |rec|
              && FileOk(files[f], layouts[f])
              && rec[f] == BlocksOf(files[f], layouts[f])
              && FragOk(rec[f], files[f].mem, frag[f])
              && Blocks()[f] == frag[f].cblk
    {
      hide WellTimed, AtLeast, Current, FileOk, FragOk, BlocksOf;
      var f := stripe[k].index;
      assert Members()[k] == f && MemberOk(f);
      assert frag[f] == frag[..][f];
    }

    /** Whether the block after the one in slot k ends before ptbe. */
    method SuccessorEnds(k: nat, ptbe: int) returns (ends: bool)
      requires Valid() && k < numb
      ensures ends <==> EndsBefore(rec, Members(), Blocks(), k, ptbe)
    {
      hide Valid, Placed, FragOk, FileOk, BlocksOf, BlockEnds, Members, Blocks;
      SlotFile(k);
      var f := stripe[k].index;
      ends := NextEnds(files[f], frag[f], ptbe, layouts[f], rec[f]);
    }

    method SuccessorClosesGap(ptbe: int, jj: nat) returns (found: bool)
      requires Valid() && zero <= jj <= numb
      ensures found <==> !NoneEnds(rec, Members(), Blocks(), zero, jj, ptbe)
    {
      var ii := zero;
      while ii < jj
        invariant zero <= ii <= jj
        invariant forall k :: zero <= k < ii ==> !EndsBefore(rec, Members(), Blocks(), k, ptbe)
      {
        var ends := SuccessorEnds(ii, ptbe);
        if ends {
          return true;
        }
        ii := ii + 1;
      }
      return false;
    }

    /** Sorted slots, with the ended members in front of zero and the others on their earliest block after a cut. */
    ghost predicate Ready()
      reads this, frag, stripe
      ensures Ready() ==> Valid() && Aligned(rec, Members(), Blocks(), zero)
    {
      && Valid()
      && zero < numb
      && Aligned(rec, Members(), Blocks(), zero)
      && Sorted(rec, Members(), Blocks())
    }

    /** Walk across the slots until a gap is found that a successor of an earlier slot fills. */
    method FirstPass() returns (jj: nat)
      requires Valid() && zero < numb
      modifies frag
      ensures Valid() && zero < jj <= numb
      ensures old(Ready()) ==>
                && Ready()
                && Blocks() == old(Blocks())
                && Consecutive(rec, Members(), CutOf(rec, Members(), Blocks(), zero), zero, jj)
                && (jj < numb ==>
                     msbs <= At(rec, Members(), Blocks(), jj).First() - At(rec, Members(), Blocks(), jj - 1).Final())
                && (jj < numb ==> !Follows(rec, Members(), CutOf(rec, Members(), Blocks(), zero), zero, jj))
    {
      hide Placed, Aligned, Sorted, Consecutive, At, Follows, CutOf, NoneEnds, FragsOk, MemberOk, WellTimed;
      hide AtLeast, Members, Blocks;
      ghost var ready := Ready();
      ghost var c := Blocks();
      if ready {
        WindowStarts(rec, Members(), c, zero);
      }
      jj := zero + 1;
      while jj < numb
        invariant Valid() && zero < jj <= numb
        invariant ready ==> Blocks() == c && Consecutive(rec, Members(), CutOf(rec, Members(), c, zero), zero, jj)
      {
        var gap := PullSlot(jj, jj - 1);
        if gap {
          SlotFrag(jj);
          var f := stripe[jj].index;
          var found := SuccessorClosesGap(frag[f].ptbe, jj);
          if found {
            if ready {
              FilledGapEnds(rec, Members(), c, zero, jj);
            }
            break;
          }
        }
        if ready {
          WindowGrows(rec, Members(), c, zero, jj, msbs);
        }
        jj := jj + 1;
      }
    }

    /** Slot k shows the current block of its member. */
    lemma SlotFrag(k: nat)
      requires Valid() && k < numb
      ensures stripe[k].index == Members()[k] < numb
      ensures var fr := frag[stripe[k].index];
              && fr.ptbe == At(rec, Members(), Blocks(), k).First()
              && fr.pten == At(rec, Members(), Blocks(), k).Final()
              && fr.byib == |At(rec, Members(), Blocks(), k).data|
    {
      var f := stripe[k].index;
      assert Members()[k] == f;
      assert FragOk(rec[f], files[f].mem, frag[..][f]);
      assert Blocks()[f] == frag[f].cblk;
    }

    /** Pull the member in slot jj back towards the block in slot ii. */
    method PullSlot(jj: nat, ii: nat) returns (gap: bool)
      requires Valid() && ii < jj < numb
      modifies frag
      ensures Valid()
      ensures Blocks() == old(Blocks())[Members()[jj] := Blocks()[Members()[jj]]]
      ensures Blocks()[Members()[jj]] ==
              Pull(rec[Members()[jj]], old(Blocks())[Members()[jj]],
                old(At(rec, Members(), Blocks(), ii).Final()), msbs)
      ensures gap <==> msbs <= At(rec, Members(), Blocks(), jj).First() - At(rec, Members(), Blocks(), ii).Final()
      ensures old(Ready()) && zero <= ii ==> Blocks() == old(Blocks()) && Ready()
    {
      SlotFrag(ii);
      SlotFrag(jj);
      if Ready() && zero <= ii {
        AlignedStays(rec, Members(), Blocks(), zero, ii, jj, msbs);
      }
      var f := stripe[jj].index;
      gap := PredecessorsLeaveGap(f, frag[stripe[ii].index].pten, msbs);
      assert Members()[ii] != Members()[jj];
    }

    /** The slot behind the gap is at least msbs ticks after the window. */
    ghost predicate Gapped()
      requires Valid() && 0 < sgap
      reads this, frag, stripe
    {
      sgap < numb ==>
        msbs <= At(rec, Members(), Blocks(), sgap).First() - At(rec, Members(), Blocks(), sgap - 1).Final()
    }

    /** Blocks behind the gap are still pulled back, and swapped into the window when they close it. */
    method SecondPass()
      requires Valid() && zero < sgap <= numb
      modifies this`sgap, frag, stripe
      ensures Valid() && zero < sgap <= numb
      ensures old(Ready() && Gapped()) ==>
                && Ready() && Blocks() == old(Blocks()) && Members() == old(Members())
                && sgap == old(sgap)
    {
      hide Valid, Placed, Ready, Aligned, Sorted, Members, Blocks;
      ghost var ready := Ready() && Gapped();
      ghost var c, ord := Blocks(), Members();
      var jj := sgap + 1;
      while jj < numb
        invariant Valid() && zero < sgap <= numb && sgap <= jj
        invariant ready ==> Ready() && Gapped() && Blocks() == c && Members() == ord && sgap == old(sgap) && sgap < jj
        decreases numb - sgap, numb - jj
      {
        var gap := PullSlot(jj, sgap - 1);
        if ready {
          SlotOrder(sgap, jj);
        }
        if !gap {
          TakeSlot(jj);
          jj := sgap;
        } else {
          jj := jj + 1;
        }
      }
    }

    /** Move the window end past the slot behind it, after putting slot jj there. */
    method TakeSlot(jj: nat)
      requires Valid() && sgap <= jj < numb
      modifies this`sgap, stripe
      ensures Valid() && sgap == old(sgap) + 1
      ensures stripe[..] == old(stripe[..])[old(sgap) := old(stripe[jj])][jj := old(stripe[sgap])]
    {
      SwapSlots(sgap, jj);
      sgap := sgap + 1;
    }

    lemma SlotOrder(i: nat, j: nat)
      requires Ready() && i < j < numb
      ensures At(rec, Members(), Blocks(), i).First() < At(rec, Members(), Blocks(), j).First()
    {
    }

    method SwapSlots(i: nat, j: nat)
      requires Valid() && i <= j < numb
      modifies stripe
      ensures Valid()
      ensures stripe[..] == old(stripe[..])[i := old(stripe[j])][j := old(stripe[i])]
    {
      ghost var s := stripe[..];
      var tmp := stripe[i];
      stripe[i] := stripe[j];
      stripe[j] := tmp;
      assert stripe[..] == s[i := s[j]][j := s[i]];
      SwapKeepsPerm(s, i, j, numb);
    }

    /** Adjust the stripe so that its window has no gap that another block fills. */
    method StripeDgap()
      requires Valid() && FirstLive(stripe[..]) < numb
      modifies this`zero, this`sgap, frag, stripe
      ensures Valid() && zero < sgap <= numb
      ensures old(ReadyAt(FirstLive(stripe[..]))) ==>
                && Blocks() == old(Blocks()) && Members() == old(Members()) && zero == old(FirstLive(stripe[..]))
                && Sorted(rec, Members(), Blocks()) && ValidWindow(rec, Members(), Blocks(), zero, sgap) && Maximal()
    {
      hide Placed, Aligned, Sorted, Consecutive, Members, Blocks;
      StripeZero();
      var jj := FirstPass();
      sgap := jj;
      SecondPass();
    }

    /** Ready, with the first live slot at z. */
    ghost predicate ReadyAt(z: nat)
      reads this, frag, stripe
    {
      && Valid()
      && z < numb
      && Aligned(rec, Members(), Blocks(), z)
      && Sorted(rec, Members(), Blocks())
    }

    /** Pull the members behind slot zero back towards the block in slot zero. */
    method SqueezeSlots()
      requires Valid() && zero < numb
      modifies frag
      ensures Valid()
      ensures Squeezed(rec, msbs, Members(), old(Blocks()), Blocks(), zero, numb)
    {
      hide Placed, Ready, At, Members, Blocks;
      ghost var ord, c := Members(), Blocks();
      var jj := zero + 1;
      while jj < numb
        invariant Valid() && zero < jj <= numb
        invariant Squeezed(rec, msbs, ord, c, Blocks(), zero, jj)
      {
        ghost var d := Blocks();
        var gap := PullSlot(jj, zero);
        SqueezeStep(rec, msbs, ord, c, d, Blocks(), zero, jj);
        jj := jj + 1;
      }
    }

    /** Pull every member back to just after the block in the first live slot, and sort. */
    method StripeSqze()
      requires Valid() && FirstLive(stripe[..]) < numb
      modifies this`zero, this`sgap, frag, stripe
      ensures Valid() && Sorted(rec, Members(), Blocks())
      ensures forall x :: x in stripe[..] <==> x in old(stripe[..])
      ensures old(Sorted(rec, Members(), Blocks()) && FirstLive(stripe[..]) == 0) ==>
                && IsCut(rec, Blocks())
                && CountsBefore(rec, Blocks(), old(At(rec, Members(), Blocks(), 0).First()))
    {
      StripeZero();
      ghost var c := Blocks();
      SqueezeSlots();
      if zero == 0 && Sorted(rec, Members(), c) {
        SqueezedIsCut(rec, msbs, Members(), c, Blocks());
      }
      StripeSort();
    }

    /** The window ends where the slots stop being consecutive. */
    ghost predicate Maximal()
      requires Valid() && zero <= sgap <= numb
      reads this, frag, stripe
    {
      sgap < numb ==> !Follows(rec, Members(), CutOf(rec, Members(), Blocks(), zero), zero, sgap)
    }

    /** The cut in front of the window. */
    ghost function Cut(): seq<nat>
      reads this`zero, frag, stripe
    {
      if Placed(rec, Members(), Blocks()) && zero <= |Members()| then CutOf(rec, Members(), Blocks(), zero) else []
    }

    /** The byte counts say where in the virtual file the window is. */
    ghost predicate Counted()
      requires Valid() && zero <= sgap <= numb
      reads this, frag, stripe
    {
      && bybs == Pos(rec, CutOf(rec, Members(), Blocks(), zero))
      && byis == |Bytes(rec, Members(), Blocks(), zero, sgap)|
      && bygt == TotalBytes(rec)
      && bybs + byis + byas == bygt
    }

    /** The stripe is a window in time order, and its counts say where. */
    ghost predicate InWindow()
      reads this, frag, stripe
    {
      && Valid()
      && Sorted(rec, Members(), Blocks())
      && ValidWindow(rec, Members(), Blocks(), zero, sgap)
      && Maximal()
      && Counted()
    }

    /** Compute where in the virtual file the window lies. */
    method StripeBoff()
      requires Valid() && Sorted(rec, Members(), Blocks()) && ValidWindow(rec, Members(), Blocks(), zero, sgap)
               && Maximal()
      modifies this`bybs, this`byis, this`byas, this`bygt
      ensures InWindow()
    {
      hide WellTimed, FragsOk, Sorted, Aligned, Consecutive, Follows, CutOf, Pos, Bytes, TotalBytes, AtLeast;
      hide MemberOk, PartialCounts, CountsOk, Ord, Blks;
      CountsFromFrags(rec, files, stripe[..], frag[..]);
      var b, i, a := SumSlots(stripe[..], frag[..], zero, sgap, rec, Members(), Blocks());
      AllCounted(rec, Members(), Blocks(), zero, sgap, b, i, a);
      bybs := b;
      byis := i;
      byas := a;
      bygt := b + i + a;
    }

    /** The slots up to the gap are in time order. */
    ghost predicate InOrder()
      reads this, frag, stripe
    {
      forall i :: 0 <= i < sgap ==> Rises(stripe[..], frag[..], i)
    }

    lemma SortedRises(i: nat)
      requires Valid() && Sorted(rec, Members(), Blocks())
      ensures Rises(stripe[..], frag[..], i)
    {
      if i + 1 < numb {
        SlotFrag(i);
        SlotFrag(i + 1);
        assert At(rec, Members(), Blocks(), i).First() < At(rec, Members(), Blocks(), i + 1).First();
      }
    }

    /**
     Check that the slots up to the gap are in time order, and sort slots behind
     it.  Sorted slots are left alone.
     */
    method StripeSchk() returns (err: int)
      requires Valid() && 0 < sgap
      modifies stripe
      ensures Valid()
      ensures err == if old(InOrder()) then 0 else 0x100
      ensures old(Sorted(rec, Members(), Blocks())) ==> err == 0 && stripe[..] == old(stripe[..])
      ensures forall k :: 0 <= k <= sgap && k < numb ==> stripe[k] == old(stripe[k])
    {
      hide Valid, Sorted, Rises, Members, Blocks;
      ghost var sorted, s := Sorted(rec, Members(), Blocks()), stripe[..];
      if sorted {
        forall k: nat
          ensures Rises(s, frag[..], k)
        {
          SortedRises(k);
        }
      }
      var ii := 0;
      while ii < numb - 1
        invariant Valid()
        invariant forall k :: 0 <= k <= sgap && k < numb ==> stripe[k] == s[k]
        invariant sorted ==> stripe[..] == s
        invariant forall k :: 0 <= k < ii && k < sgap ==> Rises(s, frag[..], k)
      {
        SlotFrag(ii);
        SlotFrag(ii + 1);
        SlotRises(ii);
        assert sorted ==> Rises(s, frag[..], ii);
        if frag[stripe[ii].index].ptbe >= frag[stripe[ii + 1].index].ptbe {
          if ii < sgap {
            SameRise(s, stripe[..], frag[..], ii);
            return SORT_CHECK;
          }
          SortTail(ii + 1);
        } else if ii < sgap {
          SameRise(s, stripe[..], frag[..], ii);
        }
        ii := ii + 1;
      }
      LastRises(s, frag[..], numb - 1);
      return 0;
    }

    lemma SlotRises(i: nat)
      requires Valid() && i + 1 < numb
      ensures stripe[i].index < numb == frag.Length == stripe.Length && stripe[i + 1].index < numb
      ensures Rises(stripe[..], frag[..], i) <==> frag[stripe[i].index].ptbe < frag[stripe[i + 1].index].ptbe
    {
      SlotFrag(i);
      SlotFrag(i + 1);
    }

    /** The order check leaves a sorted window as it is. */
    method CheckWindow() returns (err: int)
      requires InWindow()
      modifies stripe
      ensures err == 0 && InWindow()
      ensures Members() == old(Members()) && Blocks() == old(Blocks())
    {
      hide WellTimed, AtLeast, Sorted, Aligned, Consecutive, Placed, FragsOk, MemberOk, Bytes, CutOf, Pos, TotalBytes;
      ghost var s := stripe[..];
      err := StripeSchk();
      assert stripe[..] == s;
    }

    /** Sort the slots from slot k on. */
    method SortTail(k: nat)
      requires Valid() && k <= numb
      modifies stripe
      ensures Valid() && forall i :: 0 <= i < k ==> stripe[i] == old(stripe[i])
    {
      ghost var s := stripe[..];
      TailSorts(s, frag[..], k);
      var t := SortBlocks(stripe[k..], Keys(frag[..]));
      forall i | k <= i < numb {
        stripe[i] := t[i - k];
      }
      assert stripe[..] == s[..k] + t;
    }

    lemma TailSorts(s: seq<SBlock>, fr: seq<Frag>, k: nat)
      requires k <= |s| && IsPerm(Ord(s), |fr|)
      ensures Keyed(s[k..], Keys(fr))
      ensures IsPerm(Ord(s[..k] + SortBlocks(s[k..], Keys(fr))), |fr|)
    {
      forall i | 0 <= i < |s|
        ensures s[i].index < |fr|
      {
        assert Ord(s)[i] < |fr|;
      }
      OnceFromPerm(s, |fr|);
      SortsBlocks(s[k..], Keys(fr));
      var r := SortBlocks(s[k..], Keys(fr));
      var t := s[..k] + r;
      assert s == s[..k] + s[k..];
      forall i, j | 0 <= i < j < |t|
        ensures t[i].index != t[j].index
      {
        if i < k <= j {
          assert r[j - k] in s[k..];
        }
      }
      PermFromOnce(s, t, |fr|);
    }

    /** The marks say which members have ended at a cut. */
    ghost predicate Marked(w: seq<nat>)
      requires Valid() && InRange(rec, w)
      reads this, frag, stripe
    {
      forall x :: x in stripe[..] ==> x.index < |rec| && (x.nread == 0 <==> w[x.index] < |rec[x.index]|)
    }

    /** Sorted slots that show a cut, with the marks set, become the window that follows it. */
    method Settle(ghost w: seq<nat>)
      requires Valid() && Sorted(rec, Members(), Blocks())
      requires IsCut(rec, w) && !Done(rec, w) && Shows(rec, Blocks(), w) && Marked(w)
      modifies this`zero, this`sgap, this`bybs, this`byis, this`byas, this`bygt, frag, stripe
      ensures InWindow()
      ensures Cut() == w
    {
      hide WellTimed, AtLeast, FragsOk, MemberOk, IsCut, Sorted, Shows, Marked, CutOf, ReadyAt, Members, Blocks;
      MarksAlign(w);
      StripeDgap();
      StripeBoff();
    }

    lemma MarksAlign(w: seq<nat>)
      requires Valid() && Sorted(rec, Members(), Blocks())
      requires IsCut(rec, w) && !Done(rec, w) && Shows(rec, Blocks(), w) && Marked(w)
      ensures FirstLive(stripe[..]) < numb
      ensures ReadyAt(FirstLive(stripe[..])) && CutOf(rec, Members(), Blocks(), FirstLive(stripe[..])) == w
    {
      var z := FirstLive(stripe[..]);
      var f :| 0 <= f < |rec| && w[f] != |rec[f]|;
      assert f in Members();
      var i :| 0 <= i < numb && Members()[i] == f;
      assert stripe[..][i] in stripe[..] && stripe[..][i].index == f;
      assert z <= i;
      forall k | 0 <= k <= z
        ensures k < z ==> w[Members()[k]] == |rec[Members()[k]]|
        ensures k == z ==> w[Members()[k]] < |rec[Members()[k]]|
      {
        assert stripe[..][k] in stripe[..] && stripe[..][k].index == Members()[k];
      }
      AlignToCut(rec, w, Members(), Blocks(), z);
    }

    /** Put a new block number and a mark on the member in slot ii. */
    method PlaceSlot(ii: nat, blk: nat, nrd: int)
      requires Valid() && ii < numb && blk < |rec[Members()[ii]]|
      modifies frag, stripe
      ensures Valid() && Members() == old(Members())
      ensures Blocks() == old(Blocks())[Members()[ii] := blk]
      ensures stripe[..] == old(stripe[..])[ii := SBlock(Members()[ii], nrd)]
    {
      ghost var s, before := stripe[..], frag[..];
      var f := stripe[ii].index;
      assert Members()[ii] == f && MemberOk(f);
      var moved := MemberMove(files[f], frag[f], blk, layouts[f]);
      frag[f] := moved;
      stripe[ii] := SBlock(f, nrd);
      assert stripe[..] == s[ii := SBlock(f, nrd)];
      assert Members() == Ord(s);
      assert frag[..] == before[f := moved];
      MovedFrag(before, f);
      assert Blocks() == Blks(before)[f := blk];
    }

    /** One member's step of a walk past tick edge, forward or backward. */
    method WalkSlot(ii: nat, dir: int, edge: int)
      requires Valid() && ii < numb && (dir == 1 || dir == -1)
      modifies frag, stripe
      ensures Valid() && Members() == old(Members())
      ensures Blocks() == old(Blocks())[Members()[ii] := Blocks()[Members()[ii]]]
      ensures stripe[..] == old(stripe[..])[ii := SBlock(Members()[ii], stripe[ii].nread)]
      ensures Walked(rec, Members(), old(Blocks()), dir, edge, ii, Blocks()[Members()[ii]], stripe[ii].nread == -1)
      ensures stripe[ii].nread == 0 || stripe[ii].nread == -1
    {
      hide WellTimed, AtLeast, FragsOk, FragOk, FileOk, BlocksOf;
      SlotFrag(ii);
      SlotFile(ii);
      var f := stripe[ii].index;
      TotalBlocks(files[f], layouts[f]);
      var cblk := frag[f].cblk;
      assert cblk == Blocks()[f];
      var ptbe, pten := frag[f].ptbe, frag[f].pten;
      var nblk := cblk + dir;
      if nblk < 0 {
        nblk := 0;
      }
      if nblk >= files[f].info.totalBlks {
        nblk := files[f].info.totalBlks - 1;
      }
      if cblk == nblk {
        SetMark(ii, if (dir > 0 && pten > edge) || (dir < 0 && ptbe < edge) then 0 else -1);
      } else if dir > 0 && pten > edge {
        SetMark(ii, 0);
      } else if dir < 0 && ptbe < edge {
        SetMark(ii, 0);
      } else {
        PlaceSlot(ii, nblk, 0);
      }
    }

    method SetMark(ii: nat, nrd: int)
      requires Valid() && ii < numb
      modifies stripe
      ensures Valid() && Members() == old(Members())
      ensures stripe[..] == old(stripe[..])[ii := SBlock(Members()[ii], nrd)]
    {
      ghost var s := stripe[..];
      stripe[ii] := stripe[ii].(nread := nrd);
      assert Members()[ii] == stripe[ii].index;
      assert stripe[..] == s[ii := SBlock(Members()[ii], nrd)];
      assert Members() == Ord(s);
    }

    /** Step all members past tick edge. */
    method WalkSlots(dir: int, edge: int)
      requires Valid() && (dir == 1 || dir == -1)
      modifies frag, stripe
      ensures Valid() && Members() == old(Members())
      ensures WalkedTo(rec, Members(), old(Blocks()), dir, edge, stripe[..], Blocks(), numb)
    {
      hide Walked, At;
      ghost var ord, c := Members(), Blocks();
      var ii := 0;
      while ii < numb
        invariant Valid() && Members() == ord && ii <= numb
        invariant WalkedTo(rec, ord, c, dir, edge, stripe[..], Blocks(), ii)
      {
        ghost var s, d := stripe[..], Blocks();
        assert SlotWalked(rec, ord, c, dir, edge, s, d, ii, ii);
        WalkSlot(ii, dir, edge);
        WalkedStep(rec, ord, c, dir, edge, s, d, stripe[..], Blocks(), ii);
        ii := ii + 1;
      }
    }

    /**
     Shift the stripe to the window that immediately follows it.  The new window
     starts where the old one ended, holds some bytes, and is in order.
     */
    method StripeWalk() returns (err: int)
      requires InWindow() && byas > 0
      modifies this`zero, this`sgap, this`bybs, this`byis, this`byas, this`bygt, frag, stripe
      ensures err == 0
      ensures InWindow()
      ensures Cut() == old(EndCut(rec, Members(), Blocks(), zero, sgap))
      ensures bybs == old(bybs) + old(byis) && byis > 0
    {
      hide Valid, Placed, Shows, EndCut, CutOf, WalkedTo, Sorted, Bytes, Members, Blocks;
      ghost var w := BehindWindow();
      SlotFrag(sgap - 1);
      var edge := frag[stripe[sgap - 1].index].pten;
      ghost var ord, c := Members(), Blocks();
      WalkSlots(1, edge);
      WalkedBehind(ord, c, zero, sgap, w);
      StripeSort();
      Settle(w);
      WindowCounts();
      err := CheckWindow();
    }

    /** There is a window behind the window. */
    lemma BehindWindow() returns (w: seq<nat>)
      requires InWindow() && byas > 0
      ensures w == EndCut(rec, Members(), Blocks(), zero, sgap) && 0 < sgap <= numb
      ensures WellTimed(rec) && ValidWindow(rec, Members(), Blocks(), zero, sgap)
      ensures IsCut(rec, w) && !Done(rec, w) && Pos(rec, w) == bybs + byis
    {
      hide WellTimed, IsCut, FragsOk, Consecutive, Aligned, MemberOk;
      w := EndCut(rec, Members(), Blocks(), zero, sgap);
      WindowIsSlice(rec, Members(), Blocks(), zero, sgap);
      NotDone(w);
    }

    lemma WalkedBehind(ord: seq<nat>, c: seq<nat>, z: nat, g: nat, w: seq<nat>)
      requires Valid() && ValidWindow(rec, ord, c, z, g) && w == EndCut(rec, ord, c, z, g)
      requires WalkedTo(rec, ord, c, 1, At(rec, ord, c, g - 1).Final(), stripe[..], Blocks(), numb)
      ensures InRange(rec, w) && Shows(rec, Blocks(), w) && Marked(w)
    {
      hide WellTimed, FragsOk, Consecutive, WalkedTo, EndCut, Shows, Members, Blocks;
      WalkedAll(rec, ord, c, z, g, stripe[..], Blocks());
    }

    /** The first slot of a member walked back to a cut holds a block before the window. */
    lemma WalkedBackMarks(ord: seq<nat>, c: seq<nat>, z: nat, g: nat, w: seq<nat>)
      requires Valid() && ValidWindow(rec, ord, c, z, g) && w == CutOf(rec, ord, c, z)
      requires WalkedTo(rec, ord, c, -1, At(rec, ord, c, z).First(), stripe[..], Blocks(), numb)
      ensures IsCut(rec, w) && Blocks() == Back(w)
      ensures forall x :: x in stripe[..] ==> x.index < |w| && (x.nread == 0 <==> 0 < w[x.index])
    {
      hide WellTimed, FragsOk, Consecutive, WalkedTo, CutOf, Back, Members, Blocks;
      WalkedAllBack(rec, ord, c, z, g, stripe[..], Blocks());
    }

    lemma BackReady(w: seq<nat>)
      requires Valid() && Sorted(rec, Members(), Blocks()) && IsCut(rec, w) && Blocks() == Back(w)
               && Blocks() != w && IsCut(rec, Blocks())
      requires forall x :: x in stripe[..] ==> x.index < |w| && (x.nread == 0 <==> 0 < w[x.index])
      ensures FirstLive(stripe[..]) == 0 && ReadyAt(0) && CutOf(rec, Members(), Blocks(), 0) == Back(w)
    {
      hide WellTimed, FragsOk, IsCut, Sorted, CutOf, Back;
      AlignBack(rec, Members(), Blocks(), w);
      assert stripe[..][0] in stripe[..] && stripe[..][0].index == Members()[0];
    }

    /**
     Shift the stripe backward, when the blocks that its members step back to
     are the blocks behind a cut: then the stripe becomes the window behind that
     cut, and it reaches at least up to where the old window started.
     */
    method StripeWalkBack() returns (err: int)
      requires InWindow()
      requires var w := Cut(); IsCut(rec, Back(w)) && Back(w) != w
      modifies this`zero, this`sgap, this`bybs, this`byis, this`byas, this`bygt, frag, stripe
      ensures err == 0 && InWindow()
      ensures zero == 0 && Blocks() == Cut() == Back(old(Cut()))
      ensures InRange(rec, Cut()) && bybs == Pos(rec, Cut()) < old(bybs) <= bybs + byis
    {
      hide Valid, Placed, CutOf, Back, WalkedTo, Sorted, Consecutive, IsCut, Members, Blocks;
      ghost var ord, c, w := Members(), Blocks(), Cut();
      BackBefore(w);
      SlotFrag(zero);
      var edge := frag[stripe[zero].index].ptbe;
      var bydg := bybs;
      WalkSlots(-1, edge);
      WalkedBackMarks(ord, c, zero, sgap, w);
      StripeSort();
      BackReady(w);
      StripeDgap();
      StripeBoff();
      BackReaches(w);
      // the vernier step sees the edge covered and returns at once
      assert bybs + byis >= bydg;
      err := CheckWindow();
    }

    lemma BackBefore(w: seq<nat>)
      requires InWindow() && w == Cut() && Back(w) != w
      ensures InRange(rec, w) && InRange(rec, Back(w)) && Pos(rec, Back(w)) < Pos(rec, w) == bybs
      ensures ValidWindow(rec, Members(), Blocks(), zero, sgap) && zero < sgap <= numb && WellTimed(rec)
    {
      hide WellTimed, FragsOk, Consecutive, Pos;
      PosLess(rec, Back(w), w);
    }

    lemma BackReaches(w: seq<nat>)
      requires InWindow() && zero == 0
      requires IsCut(rec, w) && Blocks() == Back(w) && CutOf(rec, Members(), Blocks(), 0) == Blocks()
      ensures Pos(rec, Back(w)) == bybs && Pos(rec, w) <= bybs + byis
    {
      hide WellTimed, FragsOk, Consecutive, Sorted, IsCut, Pos, Bytes, CutOf, Back, Follows;
      BackCovers(rec, Members(), Blocks(), w, sgap);
    }

    /** In strict rotation the stripe can step back from any window but the first. */
    lemma BackAllowed()
      requires InWindow() && Rotates(rec) && 0 < bybs
      ensures var w := Cut(); IsCut(rec, Back(w)) && Back(w) != w
    {
      hide WellTimed, FragsOk, Consecutive, Rotates, MemberOk, Members, Blocks;
      var w := Cut();
      RotationBack(rec, w);
      if Back(w) == w {
        SumZeros(Below(rec, w));
      }
    }

    /** Every member is in the window or has not started. */
    ghost predicate FullWindow()
      requires Valid() && zero <= sgap <= numb
      reads this, frag, stripe
    {
      zero == 0 && forall i :: sgap <= i < numb ==> Blocks()[Members()[i]] == 0
    }

    /**
     From a window that holds a block of every member that has started, a step
     backward undoes a step forward; in strict rotation that is every window but
     the last.
     */
    method WalkForthAndBack() returns (err: int)
      requires InWindow() && byas > 0 && (FullWindow() || Rotates(rec))
      modifies this`zero, this`sgap, this`bybs, this`byis, this`byas, this`bygt, frag, stripe
      ensures err == 0 && InWindow()
      ensures Members() == old(Members()) && Blocks() == old(Blocks())
      ensures zero == old(zero) && sgap == old(sgap)
      ensures bybs == old(bybs) && byis == old(byis) && byas == old(byas)
    {
      hide InWindow, Valid, Sorted, CutOf, EndCut, Back, FullWindow, Rotates, Members, Blocks;
      ghost var ord, c, g := Members(), Blocks(), sgap;
      if Rotates(rec) {
        RotationFills();
      }
      FullUndoes();
      err := StripeWalk();
      err := StripeWalkBack();
      SameWindow(ord, c, g);
    }

    /** In strict rotation no member has ended as long as bytes remain behind the window. */
    lemma NoneEnded()
      requires InWindow() && Rotates(rec) && byas > 0
      ensures zero == 0
    {
      hide WellTimed, FragsOk, Sorted, IsCut, Pos, Bytes, CutOf, EndCut, Follows, AtLeast, MemberOk, Rotates;
      hide Members, Blocks, Consecutive;
      if zero > 0 {
        LastRound(rec, Members(), Blocks(), zero, sgap);
        WindowIsSlice(rec, Members(), Blocks(), zero, sgap);
      }
    }

    /** In strict rotation a window in front of other bytes holds a block of every member. */
    lemma RotationFills()
      requires InWindow() && Rotates(rec) && byas > 0
      ensures zero == 0 && sgap == numb && FullWindow()
    {
      hide InWindow, Valid, FullWindow, Sorted, Rotates, Members, Blocks;
      NoneEnded();
      RoundFills();
    }

    /** In strict rotation a window in which no member has ended holds a block of every member. */
    lemma RoundFills()
      requires InWindow() && zero == 0 && Rotates(rec)
      ensures sgap == numb && FullWindow()
    {
      hide WellTimed, FragsOk, Sorted, IsCut, Pos, Bytes, CutOf, Follows, TotalBytes, AtLeast, MemberOk, Rotates;
      hide Members, Blocks;
      if sgap < numb {
        SlotFills(rec, Members(), Blocks(), sgap);
      }
    }

    /** Stepping back the members of the next window gives this one. */
    lemma FullUndoes()
      requires InWindow() && FullWindow()
      ensures var w := EndCut(rec, Members(), Blocks(), zero, sgap);
              && Back(w) == CutOf(rec, Members(), Blocks(), zero) == Blocks() && Back(w) != w && IsCut(rec, Back(w))
              && zero == 0 < sgap <= numb
              && Sorted(rec, Members(), Blocks()) && ValidWindow(rec, Members(), Blocks(), 0, sgap)
              && (sgap < |Members()| ==> !Follows(rec, Members(), CutOf(rec, Members(), Blocks(), 0), 0, sgap))
              && bybs == Pos(rec, Blocks()) && byis == |Bytes(rec, Members(), Blocks(), zero, sgap)|
              && bybs + byis + byas == TotalBytes(rec)
    {
      hide WellTimed, FragsOk, Consecutive, IsCut, Pos, Bytes, TotalBytes, AtLeast, MemberOk, Members, Blocks;
      FullBack(rec, Members(), Blocks(), sgap);
    }

    /** What the slots, their blocks and the start of the window determine. */
    lemma SameWindow(ord: seq<nat>, c: seq<nat>, g: nat)
      requires InWindow() && zero == 0 && Blocks() == c
      requires Placed(rec, ord, c) && Sorted(rec, ord, c) && ValidWindow(rec, ord, c, 0, g)
      requires g < |ord| ==> !Follows(rec, ord, CutOf(rec, ord, c, 0), 0, g)
      ensures Members() == ord && sgap == g
      ensures bybs == Pos(rec, CutOf(rec, ord, c, 0)) && byis == |Bytes(rec, ord, c, 0, g)|
      ensures bybs + byis + byas == TotalBytes(rec)
    {
      hide WellTimed, FragsOk, Sorted, IsCut, Pos, Bytes, CutOf, Follows, TotalBytes, AtLeast, MemberOk, Members;
      hide Blocks;
      SortedOneWay(rec, Members(), ord, c, numb);
      assert Members() == Members()[..numb] && ord == ord[..numb];
      EndUniqueWindow(rec, ord, CutOf(rec, ord, c, 0), 0, g, sgap);
    }

    lemma NotDone(w: seq<nat>)
      requires InRange(rec, w) && Pos(rec, w) < TotalBytes(rec)
      ensures !Done(rec, w)
    {
      if Done(rec, w) {
        EndUnique(rec, w);
      }
    }

    /** Place every slot's member at the given block. */
    method PlaceSlots(cblks: seq<nat>)
      requires Valid() && |cblks| == numb
      requires forall i :: 0 <= i < numb ==> cblks[i] < |rec[Members()[i]]|
      modifies frag, stripe
      ensures Valid() && Members() == old(Members())
      ensures forall x :: x in stripe[..] ==> x.nread == 0
      ensures forall i :: 0 <= i < numb ==> Blocks()[Members()[i]] == cblks[i]
    {
      ghost var ord := Members();
      var ii := 0;
      while ii < numb
        invariant Valid() && Members() == ord && ii <= numb
        invariant forall k :: 0 <= k < ii ==> Blocks()[ord[k]] == cblks[k]
        invariant forall k :: 0 <= k < ii ==> stripe[..][k].nread == 0
      {
        PlaceSlot(ii, cblks[ii], 0);
        ii := ii + 1;
      }
    }

    /**
     Place the stripe at any legal block numbers, one per slot.  Whatever the
     numbers, the result is a window, and it starts with the earliest of the blocks
     aimed at: what lies before it are the blocks that start before that one.
     */
    method StripeSpot(cblks: seq<nat>) returns (err: int, ghost aimed: seq<nat>)
      requires Valid() && |cblks| == numb
      requires forall i :: 0 <= i < numb ==> cblks[i] < |rec[Members()[i]]|
      modifies this`zero, this`sgap, this`bybs, this`byis, this`byas, this`bygt, frag, stripe
      ensures err == 0
      ensures InWindow() && |aimed| == |rec| == numb && AimedAt(rec, aimed, Cut())
      ensures forall i :: 0 <= i < numb ==> aimed[old(Members())[i]] == cblks[i]
    {
      hide WellTimed, AtLeast, FragsOk, CountsBefore, AimedAt, Shows, Marked, CutOf, IsCut, Sorted, InWindow;
      hide Members, Blocks, MemberOk;
      PlaceSlots(cblks);
      aimed := Blocks();
      StripeSort();
      AllLive();
      ghost var ord := Members();
      StripeSqze();
      LiveAtCut();
      FirstIsEarliest(rec, ord, aimed, Blocks());
      Settle(Blocks());
      err := CheckWindow();
    }

    lemma AllLive()
      requires Valid() && forall x :: x in stripe[..] ==> x.nread == 0
      ensures FirstLive(stripe[..]) == 0
    {
      assert stripe[..][0] in stripe[..];
    }

    lemma LiveAtCut()
      requires Valid() && forall x :: x in stripe[..] ==> x.nread == 0
      ensures InRange(rec, Blocks()) && !Done(rec, Blocks()) && Shows(rec, Blocks(), Blocks()) && Marked(Blocks())
    {
      assert Blocks()[0] < |rec[0]|;
      forall x | x in stripe[..]
        ensures x.index < |rec|
      {
        var k :| 0 <= k < numb && stripe[..][k] == x;
        assert Members()[k] == x.index;
      }
    }

    // -------------------------------------------------------------- reading

    /** The request lies in the window. */
    predicate Inside(off: int, len: int)
      reads this
    {
      bybs <= off && off + len <= bybs + byis
    }

    /**
     Copy the request from the window's blocks into the buffer at position
     start.  The full request is copied exactly if it lies in the window;
     nothing outside the buffer range is written.
     */
    method StripeRead(buf: array<Byte>, start: nat) returns (rb: int)
      requires InWindow() && 0 <= size && start + size <= buf.Length
      modifies buf
      ensures InWindow()
      ensures buf[..start] == old(buf[..start]) && buf[start + size..] == old(buf[start + size..])
      ensures rb == (if Inside(roff, size) || size == 0 then size else -14)
      ensures Inside(roff, size) && 0 < size ==> IsSlice(Virtual(rec), roff, buf[start..start + size])
    {
      hide InWindow, Valid, Served, PartOff, IsSlice, Virtual;
      ghost var v := WindowServes();
      rb := ReadParts(buf, start, files, frag[..], stripe[..], zero, sgap, bybs, roff, size, v);
      if rb != size {
        rb := -EFAULT;
      }
    }

    /** The slots of the window serve the virtual file from where the window starts. */
    lemma WindowServes() returns (v: seq<Byte>)
      requires InWindow()
      ensures v == Virtual(rec) && zero < sgap <= numb == |stripe[..]|
      ensures byis == PartOff(stripe[..], frag[..], zero, sgap)
      ensures Served(v, stripe[..], frag[..], files, zero, sgap, bybs)
    {
      v := Virtual(rec);
      hide WellTimed, AtLeast, FragsOk, Placed, Consecutive, Aligned, Follows, Virtual, Served, PartOff, Bytes;
      hide CutOf, Pos, Ord, Blks, MemberOk;
      FragsServe(rec, files, stripe[..], frag[..], Members(), Blocks(), zero, sgap, bybs);
    }

    /** The window is not empty, and its counts add up to the length of the virtual file. */
    lemma WindowCounts()
      requires InWindow()
      ensures bybs + byis + byas == bygt == |Virtual(rec)| && byis > 0
    {
      hide WellTimed, AtLeast, FragsOk, Placed, Aligned, Consecutive, Virtual, Bytes, CutOf, Pos, TotalBytes, Ord;
      hide Blks, MemberOk;
      WindowHoldsBytes(rec, Members(), Blocks(), zero, sgap);
      VirtualLength(rec);
    }

    method SetRequest(off: int, len: int)
      requires InWindow()
      modifies this`roff, this`size
      ensures InWindow() && roff == off && size == len
      ensures Cut() == old(Cut())
    {
      hide WellTimed, FragsOk, Placed, ValidWindow, Follows, Pos, Bytes, CutOf, TotalBytes, AtLeast, MemberOk;
      hide Members, Blocks;
      roff := off;
      size := len;
    }

    /** Read what the window has of the todo bytes that remain of a request, into the buffer behind the bytes read. */
    method ReadPass(buf: array<Byte>, ghost roff0: int, done: nat, todo: nat) returns (rb: int)
      requires InWindow() && 0 < todo && done + todo <= buf.Length
      requires roff == roff0 + done && bybs <= roff < bybs + byis
      requires done > 0 ==> IsSlice(Virtual(rec), roff0, buf[..done])
      modifies this`roff, this`size, buf
      ensures InWindow()
      ensures rb == size && 0 < size <= todo
      ensures size == if bybs + byis - old(roff) > todo then todo else bybs + byis - old(roff)
      ensures roff == old(roff) + size
      ensures IsSlice(Virtual(rec), roff0, buf[..done + size])
      ensures buf[done + todo..] == old(buf[done + todo..])
    {
      hide InWindow, Valid, Virtual, IsSlice, Cut, Members, Blocks;
      SetRequest(roff, if bybs + byis - roff > todo then todo else bybs + byis - roff);
      ghost var had := buf[..done];
      rb := StripeRead(buf, done);
      JoinSlices(Virtual(rec), roff0, had, buf[done..done + size]);
      assert buf[..done + size] == had + buf[done..done + size];
      assert buf[done + todo..] == buf[done + size..][todo - size..];
      SetRequest(roff + rb, size);
    }

    /** Fill the buffer with a request that starts in the window, walking forward as far as it reaches. */
    method StripeRdfw(buf: array<Byte>) returns (r: int)
      requires InWindow() && bybs <= roff < bybs + byis
      requires 0 <= size <= buf.Length && roff + size <= |Virtual(rec)|
      modifies this`zero, this`sgap, this`bybs, this`byis, this`byas, this`bygt, this`roff, this`size, frag, stripe, buf
      ensures InWindow()
      ensures r == old(size) && roff == old(roff) + old(size)
      ensures bybs <= roff <= bybs + byis
      ensures old(size) > 0 ==> bybs < roff && IsSlice(Virtual(rec), old(roff), buf[..old(size)])
      ensures buf[old(size)..] == old(buf[size..])
    {
      hide InWindow, Valid, Virtual, IsSlice, Sorted, Members, Blocks;
      ghost var roff0, v := roff, Virtual(rec);
      var n := size;
      var todo, done := n, 0;
      while todo > 0
        invariant InWindow() && 0 <= todo && done + todo == n
        invariant roff == roff0 + done && bybs <= roff <= bybs + byis
        invariant todo > 0 ==> roff < bybs + byis
        invariant done > 0 ==> IsSlice(v, roff0, buf[..done])
        invariant done > 0 && todo == 0 ==> bybs < roff
        invariant buf[n..] == old(buf[size..])
        decreases todo
      {
        var rb := ReadPass(buf, roff0, done, todo);
        if rb < 0 {
          break;
        }
        todo := todo - rb;
        done := done + rb;
        if todo == 0 {
          break;
        }
        WindowCounts();
        var err := StripeWalk();
        if err != 0 {
          break;
        }
      }
      r := if done != n then -EIO else done;
    }

    // -------------------------------------------------------------- seeking

    /** The blocks at the given fraction of each member: the nearest one that exists. */
    method BlocksAt(ffrac: real) returns (nblks: seq<nat>)
      requires Valid()
      ensures |nblks| == numb && forall i :: 0 <= i < numb ==> nblks[i] < |rec[Members()[i]]|
      ensures forall i :: 0 <= i < numb ==> Near(nblks[i], |rec[Members()[i]]|, ffrac)
    {
      hide Valid, FileOk, FragOk, BlocksOf, Members, Blocks, Near;
      nblks := [];
      var ii := 0;
      while ii < numb
        invariant |nblks| == ii <= numb
        invariant forall i :: 0 <= i < ii ==> nblks[i] < |rec[Members()[i]]|
        invariant forall i :: 0 <= i < ii ==> Near(nblks[i], |rec[Members()[i]]|, ffrac)
      {
        SlotFile(ii);
        var info := files[stripe[ii].index].info;
        TotalBlocks(files[stripe[ii].index], layouts[stripe[ii].index]);
        var nblk := NearestBlock(info.totalBlks, ffrac);
        nblks := nblks + [nblk];
        ii := ii + 1;
      }
    }

    /**
     Place the stripe at the part of the file where the request should be: at the
     blocks which are, in their members, where the middle of the request is in the
     virtual file.
     */
    method StripeFind() returns (err: int)
      requires InWindow() && 0 <= size
      modifies this`zero, this`sgap, this`bybs, this`byis, this`byas, this`bygt, frag, stripe
      ensures InWindow() && err == 0
      ensures Landed(rec, Cut(), roff + size / 2)
    {
      hide Valid, InWindow, Cut, Virtual, Members, Blocks, AimedAt, AimedFor, Near, NearestTo, Fraction;
      WindowCounts();
      SlotOfEach();
      var ffrac := Fraction(roff + size / 2, bygt);
      var nblks := BlocksAt(ffrac);
      ghost var ord := Members();
      var spot;
      ghost var aimed;
      spot, aimed := StripeSpot(nblks);
      LandsNear(ord, nblks, aimed, roff + size / 2, |Virtual(rec)|);
      err := 0;
    }

    lemma SlotOfEach()
      requires InWindow()
      ensures Valid() && IsPerm(Members(), |rec|) && |rec| == numb
    {
    }

    lemma LandsNear(ord: seq<nat>, nblks: seq<nat>, aimed: seq<nat>, m: int, total: nat)
      requires |nblks| == |ord| == |aimed| == |rec| && IsPerm(ord, |rec|) && 0 < total == |Virtual(rec)|
      requires forall i :: 0 <= i < |ord| ==> aimed[ord[i]] == nblks[i]
      requires forall i :: 0 <= i < |ord| ==> Near(nblks[i], |rec[ord[i]]|, Fraction(m, total))
      ensures AimedFor(rec, aimed, m)
    {
      hide Virtual, Near, NearestTo, Fraction;
      forall f | 0 <= f < |rec|
        ensures NearestTo(aimed[f], |rec[f]|, m, total)
      {
        assert f in ord;
        var i :| 0 <= i < |ord| && ord[i] == f;
        NearInFile(nblks[i], |rec[f]|, m, total);
      }
    }

    /** The request is too far from the window to walk there. */
    predicate Far(off: int, len: int)
      reads this
    {
      || (off + len < bybs && bybs - (off + len) - len / 2 > JUMP_TRIGGER)
      || (off + len >= bybs && off > bybs + byis && off - (bybs + byis) + len / 2 > JUMP_TRIGGER)
    }

    /** Jump to a distant request; a stripe near the request stays where it is. */
    method StripeJump() returns (jumped: bool)
      requires InWindow() && 0 <= size
      modifies this`zero, this`sgap, this`bybs, this`byis, this`byas, this`bygt, frag, stripe
      ensures InWindow()
      ensures jumped == old(Far(roff, size))
      ensures jumped <==> old(if roff + size < bybs then bybs - (roff + size) - size / 2 > 262_144_000
                              else bybs + byis < roff && roff - (bybs + byis) + size / 2 > 262_144_000)
      ensures jumped ==> Landed(rec, Cut(), roff + size / 2)
      ensures !jumped ==> bybs == old(bybs) && byis == old(byis) && Cut() == old(Cut())
      ensures !jumped ==> Members() == old(Members()) && Blocks() == old(Blocks())
    {
      hide InWindow, Valid, Cut, Members, Blocks, Landed;
      var dir, distance := 0, 0;
      if roff + size < bybs {
        dir := -1;
        distance := bybs - (roff + size) - size / 2;
      } else if roff > bybs + byis {
        dir := 1;
        distance := roff - (bybs + byis) + size / 2;
      }
      if dir != 0 && distance > JUMP_TRIGGER {
        var err := StripeFind();
        return true;
      }
      return false;
    }

    /**
     The forward part of the seek: every step gets nearer and the order check
     never fails.  The window ends up holding the start of the request, unless
     that lies before it.  The result rv is 0 when the request reaches into the
     window, and otherwise says whether the stripe was moved.
     */
    method SeekForward(rv0: int) returns (rv: int, strikes: int)
      requires InWindow() && 0 <= roff && 0 <= size && roff + size <= |Virtual(rec)| && roff < |Virtual(rec)|
      requires bybs < roff + size
      modifies this`zero, this`sgap, this`bybs, this`byis, this`byas, this`bygt, frag, stripe
      ensures InWindow() && strikes == 0
      ensures roff < bybs + byis && (bybs <= roff || old(roff < bybs))
      ensures rv == (if bybs < roff + size then 0 else 1)
      ensures bybs < roff + size || (size == 0 && bybs == roff)
      ensures old(roff < bybs) ==> bybs == old(bybs) && byis == old(byis) && Cut() == old(Cut())
    {
      hide InWindow, Valid, Virtual, Sorted, Cut, EndCut, Members, Blocks;
      rv, strikes := rv0, 0;
      ghost var b0, i0, w := bybs, byis, Cut();
      var distance := roff - (bybs + byis);
      while distance >= 0
        invariant InWindow() && strikes == 0
        invariant distance == roff - (bybs + byis)
        invariant (bybs == b0 && byis == i0 && Cut() == w) || (rv == 1 && b0 < bybs <= roff)
        decreases distance
      {
        WindowCounts();
        var err := StripeWalk();
        if err != 0 {
          break;
        }
        var newdist := roff - (bybs + byis);
        if newdist > distance {
          strikes := strikes + 1;
          if strikes > 5 {
            break;
          }
        }
        distance := newdist;
        rv := 1;
      }
      if roff < bybs + byis && bybs < roff + size {
        rv := 0;
      }
    }

    /**
     Reposition the stripe so that the request can be read, if that takes no
     backward walk.  The result rv is 0 when the request reaches into the window,
     1 when the stripe was moved but it does not (only possible for an empty
     request).
     */
    method StripeChck() returns (rv: int, strikes: int, back: bool, ghost at: seq<nat>)
      requires InWindow() && 0 <= roff && 0 <= size && roff + size <= |Virtual(rec)| && roff < |Virtual(rec)|
      modifies this`zero, this`sgap, this`bybs, this`byis, this`byas, this`bygt, frag, stripe
      ensures InWindow() && strikes == 0
      ensures if old(Far(roff, size)) then Landed(rec, at, roff + size / 2) else at == old(Cut())
      ensures IsCut(rec, at) && (back <==> Pos(rec, at) >= roff + size)
      ensures Pos(rec, at) <= roff && !back ==> bybs <= roff
      ensures back || roff < Pos(rec, at) ==> Cut() == at && bybs == Pos(rec, at)
      ensures !old(Far(roff, size)) ==> (back <==> old(bybs) >= roff + size)
      ensures !back && size > 0 ==> rv == 0 && roff < bybs + byis && bybs < roff + size
      ensures !back && size == 0 ==> 0 <= rv && bybs <= roff < bybs + byis
      ensures !old(Far(roff, size)) && old(bybs) <= roff && !back ==> bybs <= roff
      ensures !old(Far(roff, size)) && roff < old(bybs) ==> bybs == old(bybs) && byis == old(byis)
      ensures back ==> roff + size <= bybs
    {
      hide InWindow, Valid, Virtual, Sorted, Members, Blocks, Landed, Cut, IsCut, Pos;
      rv, strikes := -1, 0;
      var jumped := StripeJump();
      at := Cut();
      CutShown();
      var distance := bybs - (roff + size);
      back := distance >= 0;
      if !back {
        rv, strikes := SeekForward(rv);
      }
    }

    /** The cut in front of the window is where its counts say. */
    lemma CutShown()
      requires InWindow()
      ensures WellTimed(rec) && IsCut(rec, Cut()) && Pos(rec, Cut()) == bybs
    {
      hide WellTimed, FragsOk, Consecutive, IsCut, Pos, Members, Blocks, MemberOk;
    }

    /**
     The backward part of the seek, in strict rotation: every step gets nearer
     and counts no strike.  The stripe ends up on the first window, going back,
     that starts before the end of the request.  An empty request at the start of
     the file has no such window: then the walk leaves the first one.
     */
    method SeekBack(rv0: int) returns (rv: int, strikes: int, past: bool)
      requires InWindow() && Rotates(rec) && 0 <= roff && 0 <= size
      modifies this`zero, this`sgap, this`bybs, this`byis, this`byas, this`bygt, frag, stripe
      ensures InWindow() && strikes == 0
      ensures InRange(rec, old(Cut())) && Cut() == Sought(rec, old(Cut()), roff + size)
      ensures past <==> roff + size == 0
      ensures !past ==> bybs < roff + size
      ensures roff + size <= old(bybs) && !past ==> rv == 1 && roff + size <= bybs + byis
      ensures old(bybs) < roff + size ==> rv == rv0 && bybs == old(bybs) && byis == old(byis)
    {
      hide InWindow, Valid, Rotates, Sorted, Cut, Back, IsCut, Pos, Members, Blocks;
      rv, strikes, past := rv0, 0, false;
      ghost var b0, i0, u := bybs, byis, Cut();
      CutShown();
      var distance := bybs - (roff + size);
      while distance >= 0
        invariant InWindow() && strikes == 0 && !past
        invariant distance == bybs - (roff + size)
        invariant InRange(rec, Cut()) && Pos(rec, Cut()) == bybs
        invariant Sought(rec, Cut(), roff + size) == Sought(rec, u, roff + size)
        invariant (rv == rv0 && bybs == b0 && byis == i0)
                  || (rv == 1 && roff + size <= b0 && roff + size <= bybs + byis)
        decreases distance
      {
        if bybs == 0 {
          past := true;
          break;
        }
        BackAllowed();
        var err := StripeWalkBack();
        if err != 0 {
          break;
        }
        var newdist := bybs - (roff + size);
        if newdist > distance {
          strikes := strikes + 1;
          if strikes > 5 {
            break;
          }
        }
        distance := newdist;
        rv := 1;
      }
    }

    /**
     The seek without the jump, in strict rotation, first backward and then
     forward.  A request behind the start of the window sought ends up starting in
     the window, and any other leaves the stripe on the window sought.
     */
    method SeekNear() returns (rv: int, strikes: int, past: bool)
      requires InWindow() && Rotates(rec)
      requires 0 <= roff && 0 <= size && roff + size <= |Virtual(rec)| && roff < |Virtual(rec)|
      modifies this`zero, this`sgap, this`bybs, this`byis, this`byas, this`bygt, frag, stripe
      ensures InWindow() && strikes == 0
      ensures past <==> roff + size == 0
      ensures !past ==> 0 <= rv && roff < bybs + byis && (bybs < roff + size || (size == 0 && bybs == roff))
      ensures InRange(rec, old(Cut()))
      ensures !past ==>
                var w := Sought(rec, old(Cut()), roff + size);
                if Pos(rec, w) <= roff then bybs <= roff
                else && Cut() == w && bybs == Pos(rec, w)
                     && (bybs + byis < roff + size <==> old(bybs + byis) < roff + size)
    {
      hide InWindow, Valid, Rotates, Virtual, Sorted, Cut, IsCut, Pos, Members, Blocks;
      CutShown();
      rv, strikes, past := SeekBack(-1);
      if past {
        return;
      }
      CutShown();
      rv, strikes := SeekForward(rv);
    }

    /** The stripe is on one block of every member, and reaches up to where they all move on. */
    ghost predicate OnRound()
      requires InWindow()
      reads this, frag, stripe
    {
      var u := Cut();
      IsCut(rec, u) && bybs == Pos(rec, u) && bybs + byis == RoundEnd(rec, u)
    }

    lemma FullShown()
      requires InWindow() && Rotates(rec) && zero == 0
      ensures OnRound()
    {
      hide WellTimed, FragsOk, Sorted, IsCut, Pos, Bytes, CutOf, Follows, TotalBytes, AtLeast, MemberOk, Rotates;
      hide Members, Blocks, Consecutive;
      RoundFills();
      WindowIsSlice(rec, Members(), Blocks(), 0, numb);
      FullRound(rec, Members(), Blocks());
    }

    /** Walk back to the round before, and ask it for what its start says about a request from roff0 on. */
    method WalkRound(roff0: int) returns (err: int)
      requires InWindow() && Rotates(rec) && 0 < bybs
      modifies this`zero, this`sgap, this`bybs, this`byis, this`byas, this`bygt, this`size, this`roff, frag, stripe
      ensures err == 0 && InWindow() && OnRound() && Cut() == Back(old(Cut())) && bybs < old(bybs)
      ensures roff == old(roff) && size == Unsigned(bybs - roff0)
    {
      hide InWindow, Valid, Rotates, Cut, Back, IsCut, Pos, Members, Blocks, OnRound;
      BackAllowed();
      err := StripeWalkBack();
      SetRequest(roff, Unsigned(bybs - roff0));
      FullShown();
    }

    /** In strict rotation, what remains in front of the window is asked of the blocks that the members step back to. */
    lemma BackwardStarts(u: seq<nat>)
      requires InWindow() && Rotates(rec) && 0 < bybs && u == Back(Cut())
      ensures InRange(rec, u) && Ahead(rec, u, bybs)
    {
      hide WellTimed, FragsOk, Consecutive, Rotates, MemberOk, IsCut, Pos, CutOf, Members, Blocks;
      var w := Cut();
      RotationBack(rec, w);
      AheadOfBack(rec, w, bybs);
    }

    /** What the window has of the bytes roff..q of a request, asked for as many as its start says. */
    lemma RoundDecides(roff: nat, q: int, s: int, goal: BackEnd)
      requires InWindow() && Rotates(rec) && OnRound() && roff < q
      requires Asked(rec, Cut(), roff, q, goal)
      requires s == if bybs < roff || q < bybs then q - roff else bybs - roff
      ensures var ok := s == 0 || Inside(q - s, s);
              && (!ok ==> goal == Refused)
              && (ok && s == q - roff ==> goal == Filled)
              && (ok && s < q - roff && bybs == 0 ==> goal == PastStart)
              && (ok && s < q - roff && bybs > 0 ==> Asked(rec, Back(Cut()), roff, q - s, goal))
    {
      hide ValidWindow, Maximal, Counted, FragsOk, WellTimed, Rotates, MemberOk, IsCut, Pos, Cut, Asked, RoundEnd;
      hide Members, Blocks;
      PieceDecides(rec, Cut(), roff, q, s, goal);
    }

    /** How many bytes a window is asked for: the difference of two sizes, as an unsigned number. */
    lemma PieceSize(todo: nat, roff: nat)
      requires InWindow() && 0 < todo && roff + todo <= |Virtual(rec)| && |Virtual(rec)| + todo <= SIZE_LIMIT
      requires size == Unsigned(bybs - roff)
      ensures (if size > todo then todo else size) == if bybs < roff || roff + todo < bybs then todo else bybs - roff
    {
      hide Valid, Virtual, ValidWindow, Members, Blocks;
      WindowCounts();
    }

    /**
     Fill the buffer from its end with a request that ends in the window and
     starts before it.  The first piece is what the window has.  Every later
     piece is sized by the start of its window, by a difference that as an
     unsigned number is more than enough when it is negative; if the window
     starts behind the request, that many bytes in front of those read before
     are asked of it.  The result past says that the walk leaves the first
     window: then no slot is left, and what follows is not modelled.
     */
    method StripeRdbw(buf: array<Byte>) returns (r: int, past: bool)
      requires InWindow() && Rotates(rec) && 0 <= roff < bybs < roff + size <= bybs + byis
      requires size <= buf.Length && |Virtual(rec)| + size <= SIZE_LIMIT
      modifies this`zero, this`sgap, this`bybs, this`byis, this`byas, this`bygt, this`roff, this`size, frag, stripe, buf
      ensures InWindow()
      ensures InRange(rec, Back(old(Cut())))
      ensures var end := BackwardEnd(rec, Back(old(Cut())), old(roff), old(bybs));
              && r == (if end == Filled then old(size) else -5)
              && (past <==> end == PastStart)
      ensures r == old(size) ==> IsSlice(Virtual(rec), old(roff), buf[..old(size)])
      ensures buf[old(size)..] == old(buf[size..])
    {
      hide InWindow, Valid, Rotates, Virtual, IsSlice, Sorted, Cut, Back, IsCut, Pos, Members, Blocks, OnRound;
      ghost var v, u := Virtual(rec), Back(Cut());
      BackwardStarts(u);
      WindowCounts();
      ghost var goal := BackwardEnd(rec, u, roff, bybs);
      var roff0, n := roff, size;
      var todo, done := n, 0;
      r, past := -EIO, false;
      SetRequest(roff0 + n, roff0 + n - bybs);
      while todo > 0
        invariant InWindow() && 0 < todo && 0 <= done && done + todo == n && roff == roff0 + todo
        invariant done == 0 ==> size == roff - bybs && roff0 < bybs < roff <= bybs + byis
        invariant done == 0 ==> u == Back(Cut()) && Asked(rec, u, roff0, bybs, goal)
        invariant done > 0 ==> size == Unsigned(bybs - roff0) && OnRound()
        invariant done > 0 ==> Asked(rec, Cut(), roff0, roff, goal)
        invariant done > 0 ==> IsSlice(v, roff, buf[todo..n])
        invariant buf[n..] == old(buf[size..])
        decreases bybs
      {
        if done > 0 {
          PieceSize(todo, roff0);
          RoundDecides(roff0, roff, if size > todo then todo else size, goal);
        }
        var rb := ReadBackPass(buf, n, todo);
        if rb < 0 {
          break;
        }
        todo := todo - rb;
        done := done + rb;
        if todo == 0 {
          break;
        }
        if bybs == 0 {
          past := true;
          break;
        }
        var err := WalkRound(roff0);
        if err != 0 {
          break;
        }
      }
      r := if done != n then -EIO else done;
      assert buf[..n] == buf[0..n];
    }

    /** Ask the window for the last of the todo bytes that remain of a request, in front of those read. */
    method ReadBackPass(buf: array<Byte>, ghost n: nat, todo: nat) returns (rb: int)
      requires InWindow() && 0 < todo <= n <= buf.Length && 0 <= size
      requires todo < n ==> IsSlice(Virtual(rec), roff, buf[todo..n])
      modifies this`roff, this`size, buf
      ensures InWindow()
      ensures size == if old(size) > todo then todo else old(size)
      ensures roff == old(roff) - size
      ensures rb == if size == 0 || Inside(roff, size) then size else -14
      ensures 0 <= rb && todo - size < n ==> IsSlice(Virtual(rec), roff, buf[todo - size..n])
      ensures buf[n..] == old(buf[n..])
    {
      hide InWindow, Valid, Virtual, IsSlice, Cut, Members, Blocks;
      if size > todo {
        SetRequest(roff, todo);
      }
      SetRequest(roff - size, size);
      ghost var before := buf[..];
      rb := StripeRead(buf, todo - size);
      assert buf[todo..] == buf[..][todo..] && before[todo..] == old(buf[todo..]);
      if 0 < rb {
        PieceInFront(Virtual(rec), roff, before, buf[..], todo - size, todo, n);
      } else {
        SameEnd(before, buf[..], todo, n);
      }
      assert buf[..][todo - size..n] == buf[todo - size..n] && buf[..][n..] == buf[n..];
    }

    /**
     Check the request against the window.  Some bytes are bad to ask for exactly
     if they start behind the window or reach over both of its ends; none are bad
     only behind the end of the window.
     */
    method StripeAnal() returns (bad: bool)
      ensures 0 < size ==> (bad <==> bybs + byis <= roff || (roff < bybs && bybs + byis < roff + size))
      ensures size == 0 ==> (bad <==> bybs + byis < roff)
    {
      if roff >= bybs && roff + size <= bybs + byis {
        bad := false;
      } else if roff >= bybs && roff < bybs + byis {
        bad := false;
      } else if roff < bybs && roff + size <= bybs + byis {
        bad := false;
      } else {
        bad := true;
      }
    }

    /** The part of a request that lies in the virtual file. */
    ghost function Trimmed(offset: int, rsize: nat): nat {
      if 0 <= offset <= |Virtual(rec)| && offset + rsize > |Virtual(rec)| then |Virtual(rec)| - offset else rsize
    }

    /** Take up a request, cut off at the end of the file; one that starts outside the file is answered at once. */
    method TakeRequest(offset: int, rsize: nat) returns (answered: bool, r: Outcome)
      requires InWindow()
      modifies this`roff, this`size
      ensures InWindow()
      ensures Cut() == old(Cut())
      ensures answered <==> !(0 <= offset < |Virtual(rec)|)
      ensures answered ==> r == if offset < 0 then Fault else Eof
      ensures !answered ==> roff == offset && size == Trimmed(offset, rsize) && roff + size <= |Virtual(rec)|
    {
      hide InWindow, Valid, Virtual, Members, Blocks;
      WindowCounts();
      answered, r := true, Eof;
      SetRequest(offset, rsize);
      if roff < 0 {
        return true, Fault;
      }
      if roff >= bygt {
        return;
      }
      if roff + size > bygt {
        SetRequest(roff, size - (roff + size - bygt));
        if size == 0 {
          return;
        }
      }
      answered := false;
    }

    /**
     Read a request from the window it starts in, walking forward as far as it
     reaches.  What starts before the window is left for a backward read if it
     ends in the window, and refused if it ends behind it.
     */
    method Transfer(buf: array<Byte>) returns (r: Outcome)
      requires InWindow() && 0 <= size <= buf.Length && roff < bybs + byis
      requires 0 <= roff && roff + size <= |Virtual(rec)|
      modifies this`zero, this`sgap, this`bybs, this`byis, this`byas, this`bygt, this`roff, this`size, frag, stripe, buf
      ensures InWindow()
      ensures r == if old(bybs <= roff) then Read(old(size))
                   else if old(roff + size <= bybs + byis) then Backward
                   else IoError
      ensures r.Read? ==> IsSlice(Virtual(rec), old(roff), buf[..r.n])
      ensures r.Read? ==> bybs <= old(roff) + r.n <= bybs + byis && (0 < r.n ==> bybs < old(roff) + r.n)
      ensures buf[old(size)..] == old(buf[size..])
      ensures !r.Read? ==>
                && bybs == old(bybs) && byis == old(byis) && roff == old(roff) && size == old(size)
                && Cut() == old(Cut())
    {
      hide InWindow, Valid, Virtual, IsSlice, Cut, Sorted, Members, Blocks;
      ghost var v, offset := Virtual(rec), roff;
      var bad := StripeAnal();
      if bad {
        return IoError;
      }
      if roff >= bybs && roff + size <= bybs + byis {
        var rb := StripeRead(buf, 0);
        EmptySlice(v, offset);
        return Read(rb);
      }
      if roff >= bybs && roff < bybs + byis {
        var rb := StripeRdfw(buf);
        return Read(rb);
      }
      return Backward;
    }

    /** A window holds at least a block. */
    lemma HoldsBlock(n: nat)
      requires InWindow() && BlocksHold(rec, n)
      ensures n <= byis
    {
      hide WellTimed, AtLeast, FragsOk, Sorted, Aligned, Consecutive, Follows, CutOf, Pos, TotalBytes, MemberOk;
      hide Members, Blocks;
      var m := Members()[sgap - 1];
      assert Has(rec, m, Blocks()[m]);
    }

    /**
     Read from the virtual file.  A read in the file returns exactly the bytes
     asked for, up to the end of the file, and leaves the rest of the buffer
     alone.  A read that starts before the window sought and runs past its end
     is refused, and no other; one that is not longer than any block never is.
     The read seeks from the window behind the cut at, which is the current one or,
     for a distant request, the one where a jump to the middle of the request lands.
     It is complete exactly when it does not start before that window (an empty read:
     when it starts after the window's start), and a read that is not leaves the
     stripe there.
     */
    method ReadSeq(buf: array<Byte>, offset: int, rsize: nat) returns (r: Outcome, ghost at: seq<nat>)
      requires InWindow() && rsize <= buf.Length
      modifies this`zero, this`sgap, this`bybs, this`byis, this`byas, this`bygt, this`roff, this`size, frag, stripe, buf
      ensures InWindow() && r != Lost
      ensures r == Fault <==> offset < 0
      ensures r == Eof <==> offset >= |Virtual(rec)|
      ensures r.Read? ==> r.n == Trimmed(offset, rsize) && IsSlice(Virtual(rec), offset, buf[..r.n])
      ensures r.Read? ==> bybs <= offset + r.n <= bybs + byis && (0 < rsize ==> bybs < offset + r.n)
      ensures buf[Trimmed(offset, rsize)..] == old(buf[Trimmed(offset, rsize)..])
      ensures 0 <= offset < |Virtual(rec)| ==>
                && (r == IoError <==> offset < bybs && bybs + byis < offset + Trimmed(offset, rsize))
                && (r == Backward ==> (offset < bybs && offset + Trimmed(offset, rsize) <= bybs + byis)
                                      || (rsize == 0 && offset == bybs))
      ensures BlocksHold(rec, Trimmed(offset, rsize)) ==> r != IoError
      ensures 0 <= offset < |Virtual(rec)| ==>
                var n := Trimmed(offset, rsize);
                if old(Far(offset, n)) then Landed(rec, at, offset + n / 2) else at == old(Cut())
      ensures 0 <= offset < |Virtual(rec)| ==>
                && IsCut(rec, at)
                && (r.Read? <==> Pos(rec, at) < offset || (Pos(rec, at) == offset && 0 < rsize))
                && (!r.Read? ==> Cut() == at && bybs == Pos(rec, at))
      ensures 0 <= offset < |Virtual(rec)| && !old(Far(offset, Trimmed(offset, rsize))) ==>
                && (r.Read? <==> old(bybs) < offset || (old(bybs) == offset && 0 < rsize))
                && (r == IoError <==> offset < old(bybs) && old(bybs) + old(byis) < offset + Trimmed(offset, rsize))
    {
      hide InWindow, Valid, Virtual, IsSlice, Sorted, BlocksHold, Members, Blocks, Landed, Cut, IsCut, Pos;
      at := Cut();
      var answered;
      answered, r := TakeRequest(offset, rsize);
      if answered {
        return;
      }
      ghost var n: nat := size;
      var sf, strikes, back;
      sf, strikes, back, at := StripeChck();
      if back {
        r := Backward;
        return;
      }
      if sf < 0 {
        r := IoError;
        return;
      }
      if BlocksHold(rec, n) {
        HoldsBlock(n);
      }
      r := Transfer(buf);
    }

    /** In strict rotation a window ends where all members move on, or at the end of the file. */
    lemma RoundShown()
      requires InWindow() && Rotates(rec)
      ensures WellTimed(rec) && IsCut(rec, Cut()) && Pos(rec, Cut()) == bybs && bybs + byis == RoundEnd(rec, Cut())
    {
      hide WellTimed, FragsOk, Sorted, IsCut, Pos, Bytes, CutOf, EndCut, Follows, TotalBytes, AtLeast, MemberOk;
      hide Rotates;
      hide Members, Blocks, Consecutive, Aligned;
      CutShown();
      if zero == 0 {
        FullShown();
      } else {
        EndedShown();
      }
    }

    lemma EndedShown()
      requires InWindow() && Rotates(rec) && zero > 0
      ensures InRange(rec, Cut()) && !InRange(rec, Forth(Cut())) && bybs + byis == TotalBytes(rec)
    {
      hide WellTimed, FragsOk, Sorted, IsCut, Pos, Bytes, EndCut, Follows, TotalBytes, AtLeast, MemberOk, Rotates;
      hide Members, Blocks, Consecutive;
      if byas > 0 {
        NoneEnded();
      }
      var f := Members()[0];
      assert Members()[..zero][0] == f;
      assert Forth(Cut())[f] == |rec[f]| + 1;
    }

    /** In strict rotation a read of some bytes, not more than any block holds, is complete wherever the window is. */
    lemma ShortReads(offset: nat, n: nat)
      requires InWindow() && Rotates(rec) && BlocksHold(rec, n) && 0 < n && offset + n <= |Virtual(rec)|
      ensures WellTimed(rec) && IsCut(rec, Cut()) && ComesFrom(rec, Cut(), offset, n) == Filled
    {
      hide InWindow, Valid, Virtual, Rotates, Sorted, Cut, IsCut, Pos, Back, BackwardEnd, BlocksHold, Members, Blocks;
      RoundShown();
      SomeBlocks();
      SoughtCut(rec, Cut(), offset + n);
      HoldsBlock(n);
      var w := Sought(rec, Cut(), offset + n);
      if offset < Pos(rec, w) {
        ShortBackward(rec, w, offset, n);
      }
    }

    lemma SomeBlocks()
      requires InWindow()
      ensures forall f :: 0 <= f < |rec| ==> 0 < |rec[f]|
    {
    }

    /** Read a request without a jump, in strict rotation, forward or backward. */
    method ReadNear(buf: array<Byte>) returns (r: Outcome)
      requires InWindow() && Rotates(rec) && 0 <= size <= buf.Length && |Virtual(rec)| + size <= SIZE_LIMIT
      requires 0 <= roff < |Virtual(rec)| && roff + size <= |Virtual(rec)|
      modifies this`zero, this`sgap, this`bybs, this`byis, this`byas, this`bygt, this`roff, this`size, frag, stripe, buf
      ensures InWindow()
      ensures WellTimed(rec) && IsCut(rec, old(Cut()))
      ensures r == match ComesFrom(rec, old(Cut()), old(roff), old(size))
                   case Filled => Read(old(size))
                   case Refused => IoError
                   case PastStart => Lost
      ensures r.Read? ==> IsSlice(Virtual(rec), old(roff), buf[..r.n])
      ensures buf[old(size)..] == old(buf[size..])
      ensures old(bybs <= roff && 0 < size) ==> r.Read? && bybs < old(roff + size) <= bybs + byis
    {
      hide InWindow, Valid, Virtual, IsSlice, Rotates, Sorted, Cut, Pos, Back, IsCut, Members, Blocks;
      RoundShown();
      var sf, strikes, past := SeekNear();
      if past {
        return Lost;
      }
      if sf < 0 {
        return IoError;
      }
      r := Transfer(buf);
      if r == Backward {
        var rb;
        rb, past := StripeRdbw(buf);
        r := if past then Lost else if rb < 0 then IoError else Read(rb);
      }
    }

    /**
     Read from the virtual file in strict rotation, forward or backward.  A read
     of some bytes, not more than any block holds, is complete.  Any read seeks from
     the window behind the cut at, which is the current one or, for a distant request,
     the one where a jump to the middle of the request lands.  It is complete exactly
     if it starts in or behind the window sought, or ends in it and is filled from its
     end; a read that fails is refused, or walks off the first window.
     */
    method ReadRotating(buf: array<Byte>, offset: int, rsize: nat) returns (r: Outcome, ghost at: seq<nat>)
      requires InWindow() && Rotates(rec) && rsize <= buf.Length && |Virtual(rec)| + rsize <= SIZE_LIMIT
      modifies this`zero, this`sgap, this`bybs, this`byis, this`byas, this`bygt, this`roff, this`size, frag, stripe, buf
      ensures InWindow() && r != Backward
      ensures r == Fault <==> offset < 0
      ensures r == Eof <==> offset >= |Virtual(rec)|
      ensures r.Read? ==> r.n == Trimmed(offset, rsize) && IsSlice(Virtual(rec), offset, buf[..r.n])
      ensures buf[Trimmed(offset, rsize)..] == old(buf[Trimmed(offset, rsize)..])
      ensures 0 <= offset < |Virtual(rec)| && 0 < rsize && BlocksHold(rec, Trimmed(offset, rsize)) ==> r.Read?
      ensures old(bybs) <= offset < |Virtual(rec)| && 0 < rsize && !old(Far(offset, Trimmed(offset, rsize))) ==>
                r.Read? && bybs < offset + r.n <= bybs + byis
      ensures 0 <= offset < |Virtual(rec)| ==>
                var n := Trimmed(offset, rsize);
                if old(Far(offset, n)) then Landed(rec, at, offset + n / 2) else at == old(Cut())
      ensures 0 <= offset < |Virtual(rec)| ==>
                && WellTimed(rec) && IsCut(rec, at)
                && var end := ComesFrom(rec, at, offset, Trimmed(offset, rsize));
                && (r.Read? <==> end == Filled)
                && (r == IoError <==> end == Refused)
                && (r == Lost <==> end == PastStart)
    {
      hide InWindow, Valid, Virtual, IsSlice, Rotates, Sorted, Cut, Pos, Sought, BackwardEnd, BlocksHold, Members;
      hide Blocks, Landed, IsCut, WellTimed, ComesFrom;
      at := Cut();
      var answered;
      answered, r := TakeRequest(offset, rsize);
      if answered {
        return;
      }
      var jumped := StripeJump();
      at := Cut();
      if 0 < size && BlocksHold(rec, size) {
        ShortReads(roff, size);
      }
      r := ReadNear(buf);
    }

    /**
     Read a freshly opened sequence from start to end in pieces of any size, until
     the end of the file is reported.  No piece ever needs a jump or a backward
     walk, and together they are the whole virtual file.
     */
    method ReadThrough(piece: nat) returns (all: seq<Byte>, last: Outcome)
      requires InWindow() && bybs == 0 && 0 < piece
      modifies this`zero, this`sgap, this`bybs, this`byis, this`byas, this`bygt, this`roff, this`size, frag, stripe
      ensures InWindow()
      ensures all == Virtual(rec) && last == Eof
    {
      hide InWindow, Valid, Virtual, Sorted, Members, Blocks;
      ghost var v := Virtual(rec);
      var buf := new Byte[piece];
      all := [];
      var offset := 0;
      ghost var at;
      last := Read(0);
      while last.Read?
        invariant InWindow()
        invariant 0 <= offset <= |v|
        invariant last.Read? ==> bybs <= offset <= bybs + byis
        invariant last.Read? || (last == Eof && offset == |v|)
        invariant all == v[..offset]
        decreases |v| - offset, last.Read?
      {
        last, at := ReadSeq(buf, offset, piece);
        if last.Read? {
          GrowSlice(v, offset, buf[..last.n]);
          all := all + buf[..last.n];
          offset := offset + last.n;
        }
      }
    }
  }

  function Part(n: nat, ffrac: real): real {
    n as real * ffrac
  }

  function Fraction(m: int, total: nat): real
    requires 0 < total
  {
    m as real / total as real
  }

  function Gap(x: real, y: real): real {
    if x < y then y - x else x - y
  }

  /** Of n blocks, block b is the nearest to the fraction, and the even one if two are. */
  ghost predicate Near(b: nat, n: nat, ffrac: real) {
    && b < n
    && var x := Part(n, ffrac);
       forall d: nat :: d < n && d != b ==> Nearer(b, d, x)
  }

  predicate Nearer(b: nat, d: nat, x: real) {
    Gap(b as real, x) < Gap(d as real, x) || (Gap(b as real, x) == Gap(d as real, x) && b % 2 == 0)
  }

  /** The block at a fraction of n blocks, kept legal. */
  method NearestBlock(n: nat, ffrac: real) returns (nblk: nat)
    requires 0 < n
    ensures nblk < n && Near(nblk, n, ffrac)
  {
    hide Part, Rint;
    var x := Part(n, ffrac);
    RintNear(x);
    var b := Rint(x);
    if b >= n {
      b := n - 1;
    } else if b <= 0 {
      b := 0;
    }
    nblk := b;
  }

  lemma {:induction false} RintNear(x: real)
    ensures -0.5 <= Rint(x) as real - x <= 0.5
    ensures Rint(x) as real - x == -0.5 || Rint(x) as real - x == 0.5 ==> Rint(x) % 2 == 0
  {
  }

  // ---------------------------------------------------------------- where a jump lands

  /** How far block b of n is from byte m of total bytes, in parts of n times total. */
  function Off(b: nat, n: nat, m: int, total: nat): nat {
    if b * total < n * m then n * m - b * total else b * total - n * m
  }

  /** Of n blocks, block b is the nearest to byte m of total bytes, and the even one if two are. */
  ghost predicate NearestTo(b: nat, n: nat, m: int, total: nat) {
    && b < n
    && forall d: nat :: d < n && d != b ==>
         Off(b, n, m, total) < Off(d, n, m, total) || (Off(b, n, m, total) == Off(d, n, m, total) && b % 2 == 0)
  }

  lemma {:induction false} OffIsGap(b: nat, n: nat, m: int, total: nat)
    requires 0 < total
    ensures Off(b, n, m, total) as real == Gap(b as real, Part(n, Fraction(m, total))) * total as real
  {
    var x := Fraction(m, total);
    assert x * total as real == m as real;
    assert Part(n, x) * total as real == n as real * m as real;
    assert (b * total) as real == b as real * total as real && (n * m) as real == n as real * m as real;
  }

  lemma {:induction false} NearInFile(b: nat, n: nat, m: int, total: nat)
    requires 0 < total && Near(b, n, Fraction(m, total))
    ensures NearestTo(b, n, m, total)
  {
    hide Part, Off, Gap, Fraction;
    var x := Part(n, Fraction(m, total));
    OffIsGap(b, n, m, total);
    forall d: nat | d < n && d != b
      ensures Off(b, n, m, total) < Off(d, n, m, total)
              || (Off(b, n, m, total) == Off(d, n, m, total) && b % 2 == 0)
    {
      OffIsGap(d, n, m, total);
      assert Nearer(b, d, x);
      Scaled(Gap(b as real, x), Gap(d as real, x), total as real);
    }
  }

  lemma {:induction false} Scaled(x: real, y: real, t: real)
    requires 0.0 < t
    ensures x < y ==> x * t < y * t
  {
  }

  lemma {:induction false} BlockBelow(x: nat, n: nat, total: nat) returns (d: nat)
    requires x < n * total
    ensures d < n && d * total <= x < d * total + total
  {
    d := 0;
    while x >= d * total + total
      invariant d < n && d * total <= x
      decreases n - d
    {
      d := d + 1;
    }
  }

  /** The nearest block is at most one block away. */
  lemma {:induction false} NearestWithin(b: nat, n: nat, m: nat, total: nat)
    requires NearestTo(b, n, m, total) && 0 < m < total
    ensures Off(b, n, m, total) <= total
  {
    var d := BlockBelow(n * m, n, total);
    assert d == b || Off(b, n, m, total) <= Off(d, n, m, total);
  }

  /** One block of each member, the nearest to where byte m is in the virtual file. */
  ghost predicate AimedFor(rec: Recording, aimed: seq<nat>, m: int) {
    && |aimed| == |rec|
    && forall f :: 0 <= f < |rec| ==> NearestTo(aimed[f], |rec[f]|, m, |Virtual(rec)|)
  }

  /**
   Where a jump to byte m of the virtual file lands: in front of the earliest of
   the blocks nearest to it in each member.
   */
  ghost predicate Landed(rec: Recording, u: seq<nat>, m: int) {
    exists aimed: seq<nat> :: AimedFor(rec, aimed, m) && AimedAt(rec, aimed, u)
  }

  /** With one member that is the nearest block itself. */
  lemma {:induction false} LandsOnNearest(rec: Recording, u: seq<nat>, m: nat)
    requires WellTimed(rec) && |rec| == 1 && Landed(rec, u, m) && 0 < m < |Virtual(rec)|
    ensures |u| == 1 && NearestTo(u[0], |rec[0]|, m, |Virtual(rec)|)
    ensures Off(u[0], |rec[0]|, m, |Virtual(rec)|) <= |Virtual(rec)|
  {
    hide WellTimed, Virtual, NearestTo, AimedAt;
    var aimed :| AimedFor(rec, aimed, m) && AimedAt(rec, aimed, u);
    assert aimed == [aimed[0]];
    OneAim(rec, aimed[0], u);
    NearestWithin(u[0], |rec[0]|, m, |Virtual(rec)|);
  }

  lemma {:induction false} TotalBlocks(file: SgFile, l: Layout)
    requires FileOk(file, l)
    ensures file.info.totalBlks == |BlocksOf(file, l)| > 0
  {
  }

  /** The bytes of the blocks in slots zero..k-1. */
  function PartOff(s: seq<SBlock>, fr: seq<Frag>, zero: nat, k: nat): nat
    requires zero <= k <= |s|
    decreases k
  {
    if k == zero then 0
    else PartOff(s, fr, zero, k - 1) + (if s[k - 1].index < |fr| then fr[s[k - 1].index].byib else 0)
  }

  /** Slot k holds the bytes of the virtual file v from offset soff. */
  ghost predicate Serves(v: seq<Byte>, s: seq<SBlock>, fr: seq<Frag>, files: seq<SgFile>, k: nat, soff: nat) {
    && k < |s| && s[k].index < |fr| == |files|
    && var f := s[k].index;
       && soff + fr[f].byib <= |v|
       && fr[f].addr + fr[f].byib <= |files[f].mem|
       && files[f].mem[fr[f].addr..fr[f].addr + fr[f].byib] == v[soff..soff + fr[f].byib]
  }

  /** The slots of the window hold consecutive parts of the virtual file v from offset bybs. */
  ghost predicate Served(v: seq<Byte>, s: seq<SBlock>, fr: seq<Frag>, files: seq<SgFile>, zero: nat, sgap: nat,
      bybs: nat) {
    sgap <= |s| && forall k :: zero <= k < sgap ==> Serves(v, s, fr, files, k, bybs + PartOff(s, fr, zero, k))
  }

  /** Every slot's member keeps the bytes of its current block where the fragment says. */
  ghost predicate SourcesOk(rec: Recording, ord: seq<nat>, c: seq<nat>, s: seq<SBlock>, fr: seq<Frag>,
      files: seq<SgFile>)
    requires Placed(rec, ord, c)
  {
    && |s| == |ord|
    && forall k :: 0 <= k < |s| ==> SlotSource(rec, ord, c, s, fr, files, k)
  }

  ghost predicate SlotSource(rec: Recording, ord: seq<nat>, c: seq<nat>, s: seq<SBlock>, fr: seq<Frag>,
      files: seq<SgFile>, k: nat)
    requires Placed(rec, ord, c) && k < |s| == |ord|
  {
    && s[k].index < |fr| == |files|
    && var fk, mem := fr[s[k].index], files[s[k].index].mem;
       && fk.byib == |At(rec, ord, c, k).data|
       && fk.addr + fk.byib <= |mem|
       && mem[fk.addr..fk.addr + fk.byib] == At(rec, ord, c, k).data
  }

  lemma {:induction false} SourcesFromFrags(rec: Recording, files: seq<SgFile>, s: seq<SBlock>, fr: seq<Frag>,
      ord: seq<nat>, c: seq<nat>)
    requires FragsOk(rec, files, fr) && Placed(rec, ord, c) && ord == Ord(s) && c == Blks(fr)
    ensures SourcesOk(rec, ord, c, s, fr, files)
  {
    forall k | 0 <= k < |s|
      ensures SlotSource(rec, ord, c, s, fr, files, k)
    {
      var f := s[k].index;
      assert ord[k] == f;
      assert FragOk(rec[f], files[f].mem, fr[f]);
    }
  }

  lemma {:induction false} PartOffIsBytes(rec: Recording, files: seq<SgFile>, s: seq<SBlock>, fr: seq<Frag>,
      ord: seq<nat>, c: seq<nat>, zero: nat, k: nat)
    requires Placed(rec, ord, c) && SourcesOk(rec, ord, c, s, fr, files) && zero <= k <= |s|
    ensures PartOff(s, fr, zero, k) == |Bytes(rec, ord, c, zero, k)|
    decreases k
  {
    if zero < k {
      PartOffIsBytes(rec, files, s, fr, ord, c, zero, k - 1);
      assert SlotSource(rec, ord, c, s, fr, files, k - 1);
    }
  }

  /** Where slot k of the window keeps its part of the virtual file. */
  lemma {:induction false} SlotServes(rec: Recording, files: seq<SgFile>, s: seq<SBlock>, fr: seq<Frag>,
      ord: seq<nat>, c: seq<nat>, zero: nat, sgap: nat, k: nat)
    requires WellTimed(rec) && ValidWindow(rec, ord, c, zero, sgap) && zero <= k < sgap
    requires SourcesOk(rec, ord, c, s, fr, files)
    ensures Serves(Virtual(rec), s, fr, files, k, Pos(rec, CutOf(rec, ord, c, zero)) + PartOff(s, fr, zero, k))
  {
    hide WellTimed, IsCut, Placed, Consecutive, Virtual, Pos, CutOf, Bytes, PartOff;
    assert SlotSource(rec, ord, c, s, fr, files, k);
    PartOffIsBytes(rec, files, s, fr, ord, c, zero, k);
    var f := s[k].index;
    SourceIsSlice(rec, ord, c, zero, sgap, k, files[f].mem, fr[f].addr, fr[f].byib);
  }

  lemma {:induction false} AllServe(rec: Recording, files: seq<SgFile>, s: seq<SBlock>, fr: seq<Frag>,
      ord: seq<nat>, c: seq<nat>, zero: nat, sgap: nat, bybs: nat)
    requires WellTimed(rec) && ValidWindow(rec, ord, c, zero, sgap)
    requires SourcesOk(rec, ord, c, s, fr, files)
    requires bybs == Pos(rec, CutOf(rec, ord, c, zero))
    ensures PartOff(s, fr, zero, sgap) == |Bytes(rec, ord, c, zero, sgap)|
    ensures Served(Virtual(rec), s, fr, files, zero, sgap, bybs)
  {
    hide WellTimed, IsCut, Placed, Consecutive, Virtual, Pos, CutOf, SlotSource, Bytes, PartOff, Serves;
    PartOffIsBytes(rec, files, s, fr, ord, c, zero, sgap);
    forall k | zero <= k < sgap
      ensures Serves(Virtual(rec), s, fr, files, k, bybs + PartOff(s, fr, zero, k))
    {
      SlotServes(rec, files, s, fr, ord, c, zero, sgap, k);
    }
  }

  lemma {:induction false} FragsServe(rec: Recording, files: seq<SgFile>, s: seq<SBlock>, fr: seq<Frag>,
      ord: seq<nat>, c: seq<nat>, zero: nat, sgap: nat, bybs: nat)
    requires WellTimed(rec) && ValidWindow(rec, ord, c, zero, sgap)
    requires FragsOk(rec, files, fr) && ord == Ord(s) && c == Blks(fr)
    requires bybs == Pos(rec, CutOf(rec, ord, c, zero))
    ensures PartOff(s, fr, zero, sgap) == |Bytes(rec, ord, c, zero, sgap)|
    ensures Served(Virtual(rec), s, fr, files, zero, sgap, bybs)
  {
    hide WellTimed, FragsOk, Consecutive, SourcesOk, Virtual, Served, PartOff, Bytes, CutOf, Pos, Ord, Blks;
    SourcesFromFrags(rec, files, s, fr, ord, c);
    AllServe(rec, files, s, fr, ord, c, zero, sgap, bybs);
  }

  lemma {:induction false} PartOffGrows(s: seq<SBlock>, fr: seq<Frag>, zero: nat, k: nat, i: nat)
    requires zero <= k <= i <= |s|
    ensures PartOff(s, fr, zero, zero) == 0 && PartOff(s, fr, zero, k) <= PartOff(s, fr, zero, i)
    decreases i
  {
    if k < i {
      PartOffGrows(s, fr, zero, k, i - 1);
    }
  }

  /** What slot k of the served slots holds, and where the next one goes on. */
  lemma {:induction false} NextPart(v: seq<Byte>, s: seq<SBlock>, fr: seq<Frag>, files: seq<SgFile>, zero: nat,
      sgap: nat, bybs: nat, k: nat)
    requires zero <= k < sgap <= |s| && Served(v, s, fr, files, zero, sgap, bybs)
    ensures s[k].index < |fr| == |files|
    ensures var fk, mem, soff := fr[s[k].index], files[s[k].index].mem, bybs + PartOff(s, fr, zero, k);
            && soff + fk.byib <= |v| && fk.addr + fk.byib <= |mem|
            && mem[fk.addr..fk.addr + fk.byib] == v[soff..soff + fk.byib]
            && bybs + PartOff(s, fr, zero, k + 1) == soff + fk.byib
  {
    assert Serves(v, s, fr, files, k, bybs + PartOff(s, fr, zero, k));
  }

  /** Bytes must come from inside the file and go to inside the buffer. */
  predicate MemoryCheck(at: int, addr: int, todo: int, mem: seq<Byte>, sowb: int, eowb: int) {
    addr < 0 || addr + todo > |mem| || at < sowb || at + todo > eowb
  }

  /**
   Copy the part of a request that lies in the blocks of slots zero..sgap-1;
   the slots serve the bytes v from offset bybs.
   */
  method ReadParts(buf: array<Byte>, start: nat, files: seq<SgFile>, fr: seq<Frag>, s: seq<SBlock>,
      zero: nat, sgap: nat, bybs: nat, roff: int, size: int, ghost v: seq<Byte>)
    returns (rb: int)
    requires zero < sgap <= |s| && 0 <= size && start + size <= buf.Length
    requires Served(v, s, fr, files, zero, sgap, bybs)
    modifies buf
    ensures buf[..start] == old(buf[..start]) && buf[start + size..] == old(buf[start + size..])
    ensures rb == size <==> (bybs <= roff && roff + size <= bybs + PartOff(s, fr, zero, sgap)) || size == 0
    ensures rb == size && 0 < size ==> IsSlice(v, roff, buf[start..start + size])
  {
    hide Served, Serves, IsSlice, PartOff, MemoryCheck;
    PartOffGrows(s, fr, zero, zero, zero);
    ghost var inside := bybs <= roff && roff + size <= bybs + PartOff(s, fr, zero, sgap);
    rb := 0;
    var soff := bybs;
    var ii := zero;
    while ii < sgap && rb < size
      invariant zero <= ii <= sgap && 0 <= rb <= size
      invariant soff == bybs + PartOff(s, fr, zero, ii)
      invariant inside && rb < size ==> soff <= roff + rb
      invariant rb > 0 ==> bybs <= roff && roff + rb <= soff
      invariant buf[..start] == old(buf[..start]) && buf[start + size..] == old(buf[start + size..])
      invariant rb > 0 ==> IsSlice(v, roff, buf[start..start + rb])
    {
      var f := s[ii].index;
      NextPart(v, s, fr, files, zero, sgap, bybs, ii);
      var todo := CopyPart(buf, start, rb, files[f].mem, fr[f].addr, fr[f].byib, soff, roff, size, v);
      rb := rb + todo;
      soff := soff + fr[f].byib;
      ii := ii + 1;
    }
    PartOffGrows(s, fr, zero, ii, sgap);
  }

  /**
   Copy what one block has of a request of which rb bytes are done; the block
   holds the n bytes of v from soff at address base.
   */
  method CopyPart(buf: array<Byte>, start: nat, rb: nat, mem: seq<Byte>, base: nat, n: nat, soff: nat,
      roff: int, size: nat, ghost v: seq<Byte>)
    returns (todo: nat)
    requires rb < size && start + size <= buf.Length
    requires soff + n <= |v| && base + n <= |mem| && mem[base..base + n] == v[soff..soff + n]
    requires rb > 0 ==> IsSlice(v, roff, buf[start..start + rb])
    modifies buf
    ensures buf[..start] == old(buf[..start]) && buf[start + size..] == old(buf[start + size..])
    ensures rb + todo <= size
    ensures todo > 0 <==> soff <= roff + rb < soff + n
    ensures todo > 0 ==> roff + rb + todo == if soff + n < roff + size then soff + n else roff + size
    ensures rb + todo > 0 ==> IsSlice(v, roff, buf[start..start + rb + todo])
  {
    var off := roff + rb;
    todo := 0;
    if soff <= off < soff + n {
      var addr := base + (off - soff);
      todo := soff + n - off;
      if todo > size - rb {
        todo := size - rb;
      }
      assert !MemoryCheck(start + rb, addr, todo, mem, start, start + size);
      hide MemoryCheck, IsSlice;
      ServedPart(v, mem, base, soff, n, off, todo);
      ghost var done := buf[start..start + rb];
      CopyBytes(buf, start, start + rb, mem, addr, todo, size);
      JoinSlices(v, roff, done, mem[addr..addr + todo]);
    }
  }

  /** The bytes lie in v from offset off. */
  ghost predicate IsSlice(v: seq<Byte>, off: int, data: seq<Byte>) {
    0 <= off && off + |data| <= |v| && v[off..off + |data|] == data
  }

  lemma {:induction false} GrowSlice(v: seq<Byte>, off: nat, data: seq<Byte>)
    requires IsSlice(v, off, data)
    ensures off <= off + |data| <= |v| && v[..off] + data == v[..off + |data|]
  {
  }

  lemma {:induction false} SameEnd(s: seq<Byte>, t: seq<Byte>, k: nat, n: nat)
    requires k <= n <= |s| == |t| && s[k..] == t[k..]
    ensures s[k..n] == t[k..n]
  {
    assert s[k..n] == s[k..][..n - k] && t[k..n] == t[k..][..n - k];
  }

  /** A piece read right in front of the bytes read before. */
  lemma {:induction false} PieceInFront(v: seq<Byte>, off: int, before: seq<Byte>, after: seq<Byte>, at: nat,
      todo: nat, n: nat)
    requires |before| == |after| && at < todo <= n <= |after|
    requires after[todo..] == before[todo..] && IsSlice(v, off, after[at..todo])
    requires todo < n ==> IsSlice(v, off + (todo - at), before[todo..n])
    ensures IsSlice(v, off, after[at..n]) && after[n..] == before[n..]
  {
    assert after[todo..n] == after[todo..][..n - todo] == before[todo..][..n - todo] == before[todo..n];
    assert after[n..] == after[todo..][n - todo..] == before[todo..][n - todo..] == before[n..];
    assert after[at..n] == after[at..todo] + after[todo..n];
    JoinSlices(v, off, after[at..todo], after[todo..n]);
  }

  lemma {:induction false} EmptySlice(v: seq<Byte>, off: int)
    requires 0 <= off <= |v|
    ensures IsSlice(v, off, [])
  {
  }

  lemma {:induction false} JoinSlices(v: seq<Byte>, off: int, a: seq<Byte>, b: seq<Byte>)
    requires a != [] ==> IsSlice(v, off, a)
    requires b != [] ==> IsSlice(v, off + |a|, b)
    requires a != [] || b != []
    ensures IsSlice(v, off, a + b)
  {
  }

  lemma {:induction false} ServedPart(v: seq<Byte>, mem: seq<Byte>, addr: nat, soff: nat, n: nat, off: nat, todo: nat)
    requires soff + n <= |v| && addr + n <= |mem| && mem[addr..addr + n] == v[soff..soff + n]
    requires soff <= off && off + todo <= soff + n
    ensures mem[addr + (off - soff)..addr + (off - soff) + todo] == v[off..off + todo]
    ensures IsSlice(v, off, mem[addr + (off - soff)..addr + (off - soff) + todo])
  {
    SliceOfSlice(mem, addr, addr + n, off - soff, off - soff + todo);
    SliceOfSlice(v, soff, soff + n, off - soff, off - soff + todo);
  }

  /** Copy n bytes to position at of the buffer range start..start+size. */
  method CopyBytes(buf: array<Byte>, start: nat, at: nat, mem: seq<Byte>, addr: nat, n: nat, size: nat)
    requires start <= at && at + n <= start + size <= buf.Length && addr + n <= |mem|
    modifies buf
    ensures buf[..start] == old(buf[..start]) && buf[start + size..] == old(buf[start + size..])
    ensures buf[start..at] == old(buf[start..at])
    ensures buf[start..at + n] == buf[start..at] + mem[addr..addr + n]
  {
    forall k | 0 <= k < n {
      buf[at + k] := mem[addr + k];
    }
  }

  /** Step a member back while a gap of mint after pten is left and the block before still starts after pten. */
  method PullFrag(file: SgFile, fr: Frag, pten: int, mint: int, ghost l: Layout) returns (jth: Frag, gap: bool)
    requires FileOk(file, l) && FragOk(BlocksOf(file, l), file.mem, fr)
    ensures FragOk(BlocksOf(file, l), file.mem, jth)
    ensures jth.cblk == Pull(BlocksOf(file, l), fr.cblk, pten, mint)
    ensures gap <==> mint <= jth.ptbe - pten
  {
    ghost var blocks := BlocksOf(file, l);
    FragTimes(blocks, file.mem, fr);
    hide BlocksOf, FileOk, TickAt, FragOk, Pull;
    jth := fr;
    var dt := jth.ptbe - pten;
    while dt >= mint && jth.cblk > 0
      invariant FragOk(blocks, file.mem, jth) && jth.cblk < |blocks|
      invariant dt == jth.ptbe - pten && jth.ptbe == blocks[jth.cblk].First()
      invariant Pull(blocks, jth.cblk, pten, mint) == Pull(blocks, fr.cblk, pten, mint)
      decreases jth.cblk
    {
      PullStep(blocks, jth.cblk, pten, mint);
      var tmp := MemberMove(file, jth, jth.cblk - 1, l);
      FragTimes(blocks, file.mem, tmp);
      var odt := dt;
      dt := tmp.ptbe - pten;
      if dt > 0 {
        jth := tmp;
      } else {
        dt := odt;
        break;
      }
    }
    PullStep(blocks, jth.cblk, pten, mint);
    gap := dt >= mint;
  }

  lemma {:induction false} FragTimes(blocks: seq<Block>, mem: seq<Byte>, fr: Frag)
    requires FragOk(blocks, mem, fr)
    ensures fr.cblk < |blocks| && fr.ptbe == blocks[fr.cblk].First() && fr.pten == blocks[fr.cblk].Final()
  {
  }

  lemma {:induction false} PullStep(blocks: seq<Block>, k: nat, pten: int, mint: int)
    requires k < |blocks|
    ensures Pull(blocks, k, pten, mint) ==
            if mint <= blocks[k].First() - pten && k > 0 && 0 < blocks[k - 1].First() - pten
            then Pull(blocks, k - 1, pten, mint) else k
  {
  }

  /** Whether the member's next block ends before ptbe. */
  method NextEnds(file: SgFile, fr: Frag, ptbe: int, ghost l: Layout, ghost blocks: seq<Block>) returns (ends: bool)
    requires FileOk(file, l) && blocks == BlocksOf(file, l) && FragOk(blocks, file.mem, fr)
    ensures ends <==> BlockEnds(blocks, fr.cblk + 1, ptbe)
  {
    hide BlocksOf, FileOk, FragOk;
    TotalBlocks(file, l);
    ends := false;
    if fr.cblk < file.info.totalBlks - 1 {
      var tmp := MemberMove(file, fr, fr.cblk + 1, l);
      FragTimes(blocks, file.mem, tmp);
      ends := tmp.pten < ptbe;
    }
  }

  /** Slots 0..ii-1 have been walked past the edge in direction dir, the others have not moved. */
  ghost predicate WalkedTo(rec: Recording, ord: seq<nat>, c: seq<nat>, dir: int, edge: int, s: seq<SBlock>,
      d: seq<nat>, ii: nat)
    requires Placed(rec, ord, c)
  {
    && |s| == |ord| && |d| == |c|
    && forall k :: 0 <= k < |ord| ==> SlotWalked(rec, ord, c, dir, edge, s, d, ii, k)
  }

  ghost predicate SlotWalked(rec: Recording, ord: seq<nat>, c: seq<nat>, dir: int, edge: int, s: seq<SBlock>,
      d: seq<nat>, ii: nat, k: nat)
    requires Placed(rec, ord, c) && k < |ord| == |s| && |d| == |c|
  {
    && s[k].index == ord[k]
    && (k < ii ==>
          && Walked(rec, ord, c, dir, edge, k, d[ord[k]], s[k].nread == -1)
          && (s[k].nread == 0 || s[k].nread == -1))
    && (ii <= k ==> d[ord[k]] == c[ord[k]])
  }

  lemma {:induction false} WalkedStep(rec: Recording, ord: seq<nat>, c: seq<nat>, dir: int, edge: int,
      s: seq<SBlock>, d: seq<nat>, s2: seq<SBlock>, d2: seq<nat>, ii: nat)
    requires Placed(rec, ord, c) && Placed(rec, ord, d) && ii < |ord|
    requires WalkedTo(rec, ord, c, dir, edge, s, d, ii)
    requires |s2| == |s| && s2 == s[ii := SBlock(ord[ii], s2[ii].nread)]
    requires |d2| == |d| && d2 == d[ord[ii] := d2[ord[ii]]]
    requires Walked(rec, ord, d, dir, edge, ii, d2[ord[ii]], s2[ii].nread == -1)
    requires s2[ii].nread == 0 || s2[ii].nread == -1
    ensures WalkedTo(rec, ord, c, dir, edge, s2, d2, ii + 1)
  {
    var next := ii + 1;
    assert SlotWalked(rec, ord, c, dir, edge, s, d, ii, ii);
    forall k | 0 <= k < |ord|
      ensures SlotWalked(rec, ord, c, dir, edge, s2, d2, next, k)
    {
      assert SlotWalked(rec, ord, c, dir, edge, s, d, ii, k);
    }
  }

  /** When all slots have been walked past the end of the window, they show the cut behind it. */
  lemma {:induction false} WalkedAll(rec: Recording, ord: seq<nat>, c: seq<nat>, zero: nat, sgap: nat,
      s: seq<SBlock>, d: seq<nat>)
    requires WellTimed(rec) && ValidWindow(rec, ord, c, zero, sgap)
    requires WalkedTo(rec, ord, c, 1, At(rec, ord, c, sgap - 1).Final(), s, d, |ord|)
    ensures var w := EndCut(rec, ord, c, zero, sgap);
            && InRange(rec, w)
            && Shows(rec, d, w)
            && forall x :: x in s ==> x.index < |rec| && (x.nread == 0 <==> w[x.index] < |rec[x.index]|)
  {
    var w := EndCut(rec, ord, c, zero, sgap);
    WindowIsSlice(rec, ord, c, zero, sgap);
    forall f | 0 <= f < |rec|
      ensures d[f] == if w[f] < |rec[f]| then w[f] else |rec[f]| - 1
    {
      assert f in ord;
      var k :| 0 <= k < |ord| && ord[k] == f;
      assert SlotWalked(rec, ord, c, 1, At(rec, ord, c, sgap - 1).Final(), s, d, |ord|, k);
      WalkedShows(rec, ord, c, zero, sgap, k, d[ord[k]], s[k].nread == -1);
    }
    forall x | x in s
      ensures x.index < |rec| && (x.nread == 0 <==> w[x.index] < |rec[x.index]|)
    {
      var k :| 0 <= k < |s| && s[k] == x;
      assert SlotWalked(rec, ord, c, 1, At(rec, ord, c, sgap - 1).Final(), s, d, |ord|, k);
      WalkedShows(rec, ord, c, zero, sgap, k, d[ord[k]], s[k].nread == -1);
    }
  }

  /** Consecutive slots end in one place only. */
  lemma {:induction false} EndUniqueWindow(rec: Recording, ord: seq<nat>, v: seq<nat>, zero: nat, g: nat, h: nat)
    requires zero <= g <= |ord| && zero <= h <= |ord|
    requires Consecutive(rec, ord, v, zero, g) && (g < |ord| ==> !Follows(rec, ord, v, zero, g))
    requires Consecutive(rec, ord, v, zero, h) && (h < |ord| ==> !Follows(rec, ord, v, zero, h))
    ensures g == h
  {
  }

  lemma {:induction false} FullBack(rec: Recording, ord: seq<nat>, c: seq<nat>, sgap: nat)
    requires ValidWindow(rec, ord, c, 0, sgap)
    requires forall i :: sgap <= i < |ord| ==> c[ord[i]] == 0
    ensures var w := EndCut(rec, ord, c, 0, sgap);
            Back(w) == CutOf(rec, ord, c, 0) == c && Back(w) != w && IsCut(rec, c)
  {
    var w := EndCut(rec, ord, c, 0, sgap);
    var v := CutOf(rec, ord, c, 0);
    forall f | 0 <= f < |rec|
      ensures v[f] == c[f] && Back(w)[f] == c[f]
    {
      assert f in ord;
      var k :| 0 <= k < |ord| && ord[k] == f;
      SlotBeyond(rec, ord, c, 0, sgap, k);
      LiveSlot(rec, ord, c, 0, k);
    }
    SlotBeyond(rec, ord, c, 0, sgap, 0);
    assert v == c && Back(w) == c;
  }

  /** When all slots have been walked back before the window, they show each member's last block before it. */
  lemma {:induction false} WalkedAllBack(rec: Recording, ord: seq<nat>, c: seq<nat>, zero: nat, sgap: nat,
      s: seq<SBlock>, d: seq<nat>)
    requires WellTimed(rec) && ValidWindow(rec, ord, c, zero, sgap)
    requires WalkedTo(rec, ord, c, -1, At(rec, ord, c, zero).First(), s, d, |ord|)
    ensures var w := CutOf(rec, ord, c, zero);
            && d == Back(w)
            && forall x :: x in s ==> x.index < |w| && (x.nread == 0 <==> 0 < w[x.index])
  {
    var w := CutOf(rec, ord, c, zero);
    forall f | 0 <= f < |rec|
      ensures d[f] == Back(w)[f]
    {
      assert f in ord;
      var k :| 0 <= k < |ord| && ord[k] == f;
      assert SlotWalked(rec, ord, c, -1, At(rec, ord, c, zero).First(), s, d, |ord|, k);
      WalkedBackShows(rec, ord, c, zero, sgap, k, d[ord[k]], s[k].nread == -1);
    }
    forall x | x in s
      ensures x.index < |w| && (x.nread == 0 <==> 0 < w[x.index])
    {
      var k :| 0 <= k < |s| && s[k] == x;
      assert SlotWalked(rec, ord, c, -1, At(rec, ord, c, zero).First(), s, d, |ord|, k);
      WalkedBackShows(rec, ord, c, zero, sgap, k, d[ord[k]], s[k].nread == -1);
    }
  }

  /** The byte counts of the members are right. */
  ghost predicate CountsOk(rec: Recording, ord: seq<nat>, c: seq<nat>, s: seq<SBlock>, fr: seq<Frag>)
    requires Placed(rec, ord, c)
  {
    && |s| == |ord|
    && forall k :: 0 <= k < |s| ==> SlotCounts(rec, ord, c, s, fr, k)
  }

  ghost predicate SlotCounts(rec: Recording, ord: seq<nat>, c: seq<nat>, s: seq<SBlock>, fr: seq<Frag>, k: nat)
    requires Placed(rec, ord, c) && k < |s| == |ord|
  {
    && s[k].index == ord[k] < |fr|
    && fr[ord[k]].bybb == BytesBelow(rec[ord[k]], c[ord[k]])
    && fr[ord[k]].byib == |At(rec, ord, c, k).data|
    && fr[ord[k]].bybb + fr[ord[k]].byib + fr[ord[k]].byab == BytesBelow(rec[ord[k]], |rec[ord[k]]|)
  }

  lemma {:induction false} CountsFromFrags(rec: Recording, files: seq<SgFile>, s: seq<SBlock>, fr: seq<Frag>)
    requires FragsOk(rec, files, fr) && Placed(rec, Ord(s), Blks(fr))
    ensures CountsOk(rec, Ord(s), Blks(fr), s, fr)
  {
    forall k | 0 <= k < |s|
      ensures SlotCounts(rec, Ord(s), Blks(fr), s, fr, k)
    {
      var f := s[k].index;
      assert Ord(s)[k] == f;
      assert FragOk(rec[f], files[f].mem, fr[f]);
    }
  }

  /** Sum the members' byte counts: those before, in and after the stripe. */
  method SumSlots(s: seq<SBlock>, fr: seq<Frag>, zero: nat, sgap: nat, ghost rec: Recording, ghost ord: seq<nat>,
      ghost c: seq<nat>)
    returns (b: nat, i: nat, a: nat)
    requires Aligned(rec, ord, c, zero) && zero < sgap <= |s| && CountsOk(rec, ord, c, s, fr)
    ensures PartialCounts(rec, ord, c, zero, sgap, |s|, b, i, a)
  {
    hide PartialCounts, Aligned, Placed, SlotCounts;
    NothingCounted(rec, ord, c, zero, sgap);
    b, i, a := 0, 0, 0;
    var ii := 0;
    while ii < zero && ii < |s|
      invariant ii <= zero
      invariant PartialCounts(rec, ord, c, zero, sgap, ii, b, i, a)
    {
      SlotToCount(s, fr, zero, sgap, rec, ord, c, ii, b, i, a);
      var ith := fr[s[ii].index];
      b := b + ith.bybb + ith.byib;
      ii := ii + 1;
    }
    while ii < sgap && ii < |s|
      invariant zero <= ii <= sgap
      invariant PartialCounts(rec, ord, c, zero, sgap, ii, b, i, a)
    {
      SlotToCount(s, fr, zero, sgap, rec, ord, c, ii, b, i, a);
      var ith := fr[s[ii].index];
      b, i, a := b + ith.bybb, i + ith.byib, a + ith.byab;
      ii := ii + 1;
    }
    while ii < |s|
      invariant sgap <= ii <= |s|
      invariant PartialCounts(rec, ord, c, zero, sgap, ii, b, i, a)
    {
      SlotToCount(s, fr, zero, sgap, rec, ord, c, ii, b, i, a);
      var ith := fr[s[ii].index];
      b, a := b + ith.bybb, a + ith.byib + ith.byab;
      ii := ii + 1;
    }
  }

  lemma {:induction false} NothingCounted(rec: Recording, ord: seq<nat>, c: seq<nat>, zero: nat, sgap: nat)
    requires Aligned(rec, ord, c, zero) && zero <= sgap <= |ord|
    ensures PartialCounts(rec, ord, c, zero, sgap, 0, 0, 0, 0)
  {
  }

  /** What counting the member in slot ii in the part of the stripe it belongs to amounts to. */
  lemma {:induction false} SlotToCount(s: seq<SBlock>, fr: seq<Frag>, zero: nat, sgap: nat, rec: Recording,
      ord: seq<nat>, c: seq<nat>,
      ii: nat, b: nat, i: nat, a: nat)
    requires Aligned(rec, ord, c, zero) && zero < sgap <= |s| && CountsOk(rec, ord, c, s, fr) && ii < |s|
    requires PartialCounts(rec, ord, c, zero, sgap, ii, b, i, a)
    ensures s[ii].index < |fr|
    ensures var ith := fr[s[ii].index];
            && (ii < zero ==> PartialCounts(rec, ord, c, zero, sgap, ii + 1, b + ith.bybb + ith.byib, i, a))
            && (zero <= ii < sgap ==>
                 PartialCounts(rec, ord, c, zero, sgap, ii + 1, b + ith.bybb, i + ith.byib, a + ith.byab))
            && (sgap <= ii ==> PartialCounts(rec, ord, c, zero, sgap, ii + 1, b + ith.bybb, i, a + ith.byib + ith.byab))
  {
    assert SlotCounts(rec, ord, c, s, fr, ii);
    var ith := fr[s[ii].index];
    CountSlot(rec, ord, c, zero, sgap, ii, b, i, a, ith.bybb, ith.byib, ith.byab);
  }

  lemma {:induction false} SwapKeepsPerm(s: seq<SBlock>, i: nat, j: nat, n: nat)
    requires i <= j < |s| && IsPerm(Ord(s), n)
    ensures IsPerm(Ord(s[i := s[j]][j := s[i]]), n)
  {
    var t := s[i := s[j]][j := s[i]];
    OnceFromPerm(s, n);
    forall x
      ensures x in t <==> x in s
    {
      if x in s {
        var k :| 0 <= k < |s| && s[k] == x;
        assert t[if k == i then j else if k == j then i else k] == x;
      }
    }
    PermFromOnce(s, t, n);
  }

  /** The window of a stripe of one member is one block of it. */
  lemma {:induction false} OneWindow(s: Stripe) returns (k: nat)
    requires s.InWindow() && |s.rec| == 1
    ensures k < |s.rec[0]| && s.Cut() == [k]
    ensures s.bybs == BytesBelow(s.rec[0], k) && s.byis == |s.rec[0][k].data|
  {
    hide WellTimed, AtLeast, FragsOk, Sorted, Consecutive, Follows, Pos, TotalBytes;
    k := s.Blocks()[0];
    assert s.Members()[0] == 0;
    assert s.Cut() == [k];
    OnePos(s.rec, k);
  }
}
