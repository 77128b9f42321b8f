/**
 What it means for a stripe to be a window on the time order: one block per
 member, kept in slots sorted by time.  Slots below zero hold members that have
 ended, slots zero..sgap-1 are the window, slots from sgap on come later.
 */
module Window {
  import opened Timeline

  /** The members, each once. */
  ghost predicate IsPerm(ord: seq<nat>, n: nat) {
    && |ord| == n
    && (forall i :: 0 <= i < n ==> ord[i] < n)
    && (forall i, j :: 0 <= i < j < n ==> ord[i] != ord[j])
    && (forall f :: 0 <= f < n ==> f in ord)
  }

  ghost predicate Current(rec: Recording, c: seq<nat>) {
    && |c| == |rec|
    && forall f :: 0 <= f < |rec| ==> c[f] < |rec[f]|
  }

  ghost predicate Placed(rec: Recording, ord: seq<nat>, c: seq<nat>) {
    IsPerm(ord, |rec|) && Current(rec, c)
  }

  /** The block in slot i. */
  ghost function At(rec: Recording, ord: seq<nat>, c: seq<nat>, i: nat): Block
    requires Placed(rec, ord, c) && i < |ord|
  {
    rec[ord[i]][c[ord[i]]]
  }

  /** The cut in front of the window: all blocks of ended members, and all earlier blocks of the others. */
  ghost function CutOf(rec: Recording, ord: seq<nat>, c: seq<nat>, zero: nat): (v: seq<nat>)
    requires Placed(rec, ord, c) && zero <= |ord|
    ensures InRange(rec, v)
  {
    seq(|rec|, f requires 0 <= f < |rec| => if f in ord[..zero] then |rec[f]| else c[f])
  }

  ghost predicate Aligned(rec: Recording, ord: seq<nat>, c: seq<nat>, zero: nat) {
    && Placed(rec, ord, c) && zero <= |ord|
    && (forall i :: 0 <= i < zero ==> c[ord[i]] + 1 == |rec[ord[i]]|)
    && IsCut(rec, CutOf(rec, ord, c, zero))
  }

  ghost predicate Sorted(rec: Recording, ord: seq<nat>, c: seq<nat>)
    requires Placed(rec, ord, c)
  {
    forall i, j :: 0 <= i < j < |ord| ==> At(rec, ord, c, i).First() < At(rec, ord, c, j).First()
  }

  /** One more block of each of the members ms. */
  ghost function Advance(v: seq<nat>, ms: seq<nat>): (w: seq<nat>)
    ensures |w| == |v|
  {
    seq(|v|, f requires 0 <= f < |v| => if f in ms then v[f] + 1 else v[f])
  }

  /** The block in slot i is the earliest one after those of the window slots before it. */
  ghost predicate Follows(rec: Recording, ord: seq<nat>, v: seq<nat>, zero: nat, i: nat)
    requires zero <= i < |ord|
  {
    && InRange(rec, Advance(v, ord[zero..i]))
    && IsNext(rec, Advance(v, ord[zero..i]), ord[i])
  }

  ghost predicate Consecutive(rec: Recording, ord: seq<nat>, v: seq<nat>, zero: nat, sgap: nat)
    requires zero <= sgap <= |ord|
  {
    forall i :: zero <= i < sgap ==> Follows(rec, ord, v, zero, i)
  }

  /**
   The window: its blocks are consecutive in the time order and follow the
   cut; ended members sit on their last block before it; members from sgap on
   sit on their earliest block after it.
   */
  ghost predicate ValidWindow(rec: Recording, ord: seq<nat>, c: seq<nat>, zero: nat, sgap: nat) {
    && Aligned(rec, ord, c, zero)
    && zero < sgap <= |ord|
    && Consecutive(rec, ord, CutOf(rec, ord, c, zero), zero, sgap)
  }

  /** The cut behind the window. */
  ghost function EndCut(rec: Recording, ord: seq<nat>, c: seq<nat>, zero: nat, sgap: nat): seq<nat>
    requires Placed(rec, ord, c) && zero <= sgap <= |ord|
  {
    Advance(CutOf(rec, ord, c, zero), ord[zero..sgap])
  }

  // ---------------------------------------------------------------- the window in the stream

  lemma {:induction false} AdvanceStep(v: seq<nat>, ms: seq<nat>, m: nat)
    requires m < |v| && m !in ms
    ensures Advance(v, ms + [m]) == Step(Advance(v, ms), m)
  {
  }

  lemma {:induction false} SliceStep(ord: seq<nat>, zero: nat, i: nat)
    requires zero <= i < |ord|
    requires forall a, b :: 0 <= a < b < |ord| ==> ord[a] != ord[b]
    ensures ord[zero..i + 1] == ord[zero..i] + [ord[i]]
    ensures ord[i] !in ord[zero..i]
  {
  }

  /** The bytes of the window's blocks, slot by slot. */
  ghost function Bytes(rec: Recording, ord: seq<nat>, c: seq<nat>, zero: nat, i: nat): seq<Byte>
    requires Placed(rec, ord, c) && zero <= i <= |ord|
    decreases i
  {
    if i == zero then [] else Bytes(rec, ord, c, zero, i - 1) + At(rec, ord, c, i - 1).data
  }

  /** The cut moves over the window block by block, and the stream loses the window's bytes. */
  lemma {:induction false} WindowStep(rec: Recording, ord: seq<nat>, c: seq<nat>, zero: nat, i: nat)
    requires WellTimed(rec) && Aligned(rec, ord, c, zero) && zero <= i < |ord|
    requires Follows(rec, ord, CutOf(rec, ord, c, zero), zero, i)
    requires IsCut(rec, EndCut(rec, ord, c, zero, i))
    ensures IsCut(rec, EndCut(rec, ord, c, zero, i + 1))
    ensures Stream(rec, EndCut(rec, ord, c, zero, i)) ==
            At(rec, ord, c, i).data + Stream(rec, EndCut(rec, ord, c, zero, i + 1))
    ensures Pos(rec, EndCut(rec, ord, c, zero, i + 1)) ==
            Pos(rec, EndCut(rec, ord, c, zero, i)) + |At(rec, ord, c, i).data|
  {
    var v := CutOf(rec, ord, c, zero);
    var u := EndCut(rec, ord, c, zero, i);
    var m := ord[i];
    SliceStep(ord, zero, i);
    AdvanceStep(v, ord[zero..i], m);
    CutStep(rec, u, m);
    NextUnique(rec, u, m);
    StepPos(rec, u, m);
    LiveSlot(rec, ord, c, zero, i);
  }

  /** The cut in front of the window counts exactly the blocks before the one in a live slot. */
  lemma {:induction false} LiveSlot(rec: Recording, ord: seq<nat>, c: seq<nat>, zero: nat, i: nat)
    requires Placed(rec, ord, c) && zero <= i < |ord|
    ensures CutOf(rec, ord, c, zero)[ord[i]] == c[ord[i]]
    ensures EndCut(rec, ord, c, zero, i)[ord[i]] == c[ord[i]]
  {
  }

  /** The stream at the cut in front of the window starts with the window's bytes. */
  lemma {:induction false} WindowInStream(rec: Recording, ord: seq<nat>, c: seq<nat>, zero: nat, i: nat)
    requires WellTimed(rec) && Aligned(rec, ord, c, zero) && zero <= i <= |ord|
    requires Consecutive(rec, ord, CutOf(rec, ord, c, zero), zero, i)
    ensures IsCut(rec, EndCut(rec, ord, c, zero, i))
    ensures Stream(rec, CutOf(rec, ord, c, zero)) == Bytes(rec, ord, c, zero, i)
            + Stream(rec, EndCut(rec, ord, c, zero, i))
    ensures Pos(rec, EndCut(rec, ord, c, zero, i)) == Pos(rec, CutOf(rec, ord, c, zero)) + |Bytes(rec, ord, c, zero, i)|
    decreases i
  {
    hide WellTimed, IsCut, Stream, Pos, Placed, InRange, At, Follows, CutOf;
    var v := CutOf(rec, ord, c, zero);
    if i == zero {
      assert EndCut(rec, ord, c, zero, i) == v;
    } else {
      hide EndCut;
      WindowInStream(rec, ord, c, zero, i - 1);
      assert Follows(rec, ord, v, zero, i - 1);
      WindowStep(rec, ord, c, zero, i - 1);
      Regroup(Bytes(rec, ord, c, zero, i - 1), At(rec, ord, c, i - 1).data, Stream(rec, EndCut(rec, ord, c, zero, i)));
    }
  }

  lemma {:induction false} Regroup(a: seq<Byte>, b: seq<Byte>, s: seq<Byte>)
    ensures a + (b + s) == (a + b) + s
  {
  }

  /** The bytes in the window are the virtual file from the cut in front of it. */
  lemma {:induction false} WindowIsSlice(rec: Recording, ord: seq<nat>, c: seq<nat>, zero: nat, sgap: nat)
    requires WellTimed(rec) && ValidWindow(rec, ord, c, zero, sgap)
    ensures var p := Pos(rec, CutOf(rec, ord, c, zero));
            var w := Bytes(rec, ord, c, zero, sgap);
            && p + |w| <= |Virtual(rec)|
            && Virtual(rec)[p..p + |w|] == w
            && Pos(rec, EndCut(rec, ord, c, zero, sgap)) == p + |w|
    ensures IsCut(rec, EndCut(rec, ord, c, zero, sgap))
  {
    hide Virtual, Stream, Pos, Bytes, IsCut, Consecutive, CutOf, EndCut, WellTimed;
    var v := CutOf(rec, ord, c, zero);
    WindowInStream(rec, ord, c, zero, sgap);
    CutInVirtual(rec, v);
    var w := Bytes(rec, ord, c, zero, sgap);
    SliceOfSuffix(Virtual(rec), Pos(rec, v), w, Stream(rec, EndCut(rec, ord, c, zero, sgap)));
  }

  lemma {:induction false} SliceOfSuffix(s: seq<Byte>, p: nat, w: seq<Byte>, rest: seq<Byte>)
    requires p <= |s| && s[p..] == w + rest
    ensures p + |w| <= |s| && s[p..p + |w|] == w
  {
    assert |s[p..]| == |w| + |rest|;
    assert s[p..p + |w|] == s[p..][..|w|];
  }

  // ---------------------------------------------------------------- growing the window

  /** Every block holds at least msbs packets. */
  ghost predicate AtLeast(rec: Recording, msbs: nat) {
    forall f, b :: Has(rec, f, b) ==> msbs <= |rec[f][b].ticks|
  }

  /** No block fits between tick e and a block that starts less than msbs later. */
  lemma {:induction false} NothingBetween(rec: Recording, msbs: nat, e: int, f: nat, b: nat, g: nat, d: nat)
    requires WellTimed(rec) && AtLeast(rec, msbs)
    requires Has(rec, f, b) && Has(rec, g, d)
    requires e < rec[g][d].First() && rec[f][b].First() - e < msbs
    ensures rec[f][b].First() <= rec[g][d].First()
  {
    BlockSpan(rec[g][d]);
    BlockSpan(rec[f][b]);
    assert Apart(rec, f, b, g, d) && Apart(rec, g, d, f, b);
    if f == g && b <= d {
      MemberOrder(rec, f, b, d);
    }
  }

  /** A successor of an earlier window block lies behind slot i. */
  ghost predicate SuccessorLater(rec: Recording, ord: seq<nat>, c: seq<nat>, k: nat, i: nat)
    requires Placed(rec, ord, c) && k < |ord| && i < |ord|
  {
    c[ord[k]] + 1 < |rec[ord[k]]| ==> At(rec, ord, c, i).First() <= rec[ord[k]][c[ord[k]] + 1].First()
  }

  /** Slot i follows when the slots are sorted and no successor of an earlier window block comes first. */
  lemma {:induction false} SlotFollows(rec: Recording, ord: seq<nat>, c: seq<nat>, zero: nat, i: nat)
    requires Aligned(rec, ord, c, zero) && Sorted(rec, ord, c) && zero <= i < |ord|
    requires forall k :: zero <= k < i ==> SuccessorLater(rec, ord, c, k, i)
    ensures Follows(rec, ord, CutOf(rec, ord, c, zero), zero, i)
  {
    var v := CutOf(rec, ord, c, zero);
    var u := EndCut(rec, ord, c, zero, i);
    var m := ord[i];
    LiveSlot(rec, ord, c, zero, i);
    forall g | 0 <= g < |rec| && u[g] < |rec[g]|
      ensures rec[m][u[m]].First() <= rec[g][u[g]].First()
    {
      assert g in ord;
      var k :| 0 <= k < |ord| && ord[k] == g;
      SlotBeyond(rec, ord, c, zero, i, k);
      if zero <= k < i {
        assert SuccessorLater(rec, ord, c, k, i);
      } else if i < k {
        assert At(rec, ord, c, i).First() < At(rec, ord, c, k).First();
      }
    }
    assert InRange(rec, u) by {
      forall g | 0 <= g < |rec|
        ensures u[g] <= |rec[g]|
      {
        assert g in ord;
        var k :| 0 <= k < |ord| && ord[k] == g;
        SlotBeyond(rec, ord, c, zero, i, k);
      }
    }
  }

  /** What the cut behind slots zero..i-1 counts of the member in slot k. */
  lemma {:induction false} SlotBeyond(rec: Recording, ord: seq<nat>, c: seq<nat>, zero: nat, i: nat, k: nat)
    requires Placed(rec, ord, c) && zero <= i <= |ord| && k < |ord|
    ensures var u := EndCut(rec, ord, c, zero, i)[ord[k]];
            u == if k < zero then |rec[ord[k]]| else if k < i then c[ord[k]] + 1 else c[ord[k]]
  {
    if k < zero {
      assert ord[..zero][k] == ord[k];
    } else if k < i {
      assert ord[zero..i][k - zero] == ord[k];
    }
  }

  /** A gap shorter than msbs behind slot i - 1 cannot hide a successor of an earlier window block. */
  lemma {:induction false} ClosedGap(rec: Recording, ord: seq<nat>, c: seq<nat>, zero: nat, i: nat, k: nat, msbs: nat)
    requires WellTimed(rec) && AtLeast(rec, msbs)
    requires Aligned(rec, ord, c, zero) && zero <= k < i < |ord|
    requires Follows(rec, ord, CutOf(rec, ord, c, zero), zero, i - 1)
    requires At(rec, ord, c, i).First() - At(rec, ord, c, i - 1).Final() < msbs
    ensures SuccessorLater(rec, ord, c, k, i)
  {
    var f, g := ord[i - 1], ord[k];
    var d := c[g] + 1;
    if d < |rec[g]| {
      var u := EndCut(rec, ord, c, zero, i - 1);
      SlotBeyond(rec, ord, c, zero, i - 1, k);
      SlotBeyond(rec, ord, c, zero, i - 1, i - 1);
      assert Has(rec, g, d) && Has(rec, ord[i], c[ord[i]]);
      NextIsFirst(rec, u, f, g, d);
      NothingBetween(rec, msbs, At(rec, ord, c, i - 1).Final(), ord[i], c[ord[i]], g, d);
    }
  }

  /** A successor that does not end before slot i starts comes later. */
  lemma {:induction false} LateSuccessor(rec: Recording, ord: seq<nat>, c: seq<nat>, k: nat, i: nat)
    requires WellTimed(rec) && Placed(rec, ord, c) && k < |ord| && i < |ord| && k != i
    requires c[ord[k]] + 1 < |rec[ord[k]]| ==> At(rec, ord, c, i).First() <= rec[ord[k]][c[ord[k]] + 1].Final()
    ensures SuccessorLater(rec, ord, c, k, i)
  {
    var g, m := ord[k], ord[i];
    assert g != m;
    if c[g] + 1 < |rec[g]| {
      assert Apart(rec, g, c[g] + 1, m, c[m]);
      assert Has(rec, g, c[g] + 1) && Has(rec, m, c[m]);
      BlockSpan(rec[m][c[m]]);
    }
  }

  ghost predicate BlockEnds(blocks: seq<Block>, b: nat, t: int) {
    b < |blocks| && blocks[b].Final() < t
  }

  /** The successor of the block in slot k ends before tick t. */
  ghost predicate EndsBefore(rec: Recording, ord: seq<nat>, c: seq<nat>, k: nat, t: int)
    requires Placed(rec, ord, c) && k < |ord|
  {
    BlockEnds(rec[ord[k]], c[ord[k]] + 1, t)
  }

  /** No block behind one in slots zero..i-1 ends before tick t. */
  ghost predicate NoneEnds(rec: Recording, ord: seq<nat>, c: seq<nat>, zero: nat, i: nat, t: int)
    requires Placed(rec, ord, c) && i <= |ord|
  {
    forall k :: zero <= k < i ==> !EndsBefore(rec, ord, c, k, t)
  }

  /** The window grows by slot i when the gap in front of it is closed, or real but not filled by a successor. */
  lemma {:induction false} WindowGrows(rec: Recording, ord: seq<nat>, c: seq<nat>, zero: nat, i: nat, msbs: nat)
    requires WellTimed(rec) && AtLeast(rec, msbs)
    requires Aligned(rec, ord, c, zero) && Sorted(rec, ord, c) && zero < i < |ord|
    requires Consecutive(rec, ord, CutOf(rec, ord, c, zero), zero, i)
    requires At(rec, ord, c, i).First() - At(rec, ord, c, i - 1).Final() < msbs
             || NoneEnds(rec, ord, c, zero, i, At(rec, ord, c, i).First())
    ensures Consecutive(rec, ord, CutOf(rec, ord, c, zero), zero, i + 1)
  {
    hide WellTimed, AtLeast, Sorted, CutOf, IsCut, SuccessorLater, InRange;
    assert Follows(rec, ord, CutOf(rec, ord, c, zero), zero, i - 1);
    forall k | zero <= k < i
      ensures SuccessorLater(rec, ord, c, k, i)
    {
      if At(rec, ord, c, i).First() - At(rec, ord, c, i - 1).Final() < msbs {
        ClosedGap(rec, ord, c, zero, i, k, msbs);
      } else {
        assert !EndsBefore(rec, ord, c, k, At(rec, ord, c, i).First());
        LateSuccessor(rec, ord, c, k, i);
      }
    }
    SlotFollows(rec, ord, c, zero, i);
  }

  /** A gap that a successor of an earlier window block fills ends the window. */
  lemma {:induction false} FilledGapEnds(rec: Recording, ord: seq<nat>, c: seq<nat>, zero: nat, i: nat)
    requires WellTimed(rec) && Placed(rec, ord, c) && zero <= i < |ord|
    requires !NoneEnds(rec, ord, c, zero, i, At(rec, ord, c, i).First())
    ensures !Follows(rec, ord, CutOf(rec, ord, c, zero), zero, i)
  {
    var k :| zero <= k < i && EndsBefore(rec, ord, c, k, At(rec, ord, c, i).First());
    LiveSlot(rec, ord, c, zero, i);
    SlotBeyond(rec, ord, c, zero, i, k);
    var g := ord[k];
    assert Has(rec, g, c[g] + 1);
    BlockSpan(rec[g][c[g] + 1]);
  }

  /** The first live slot of sorted, aligned slots starts the window. */
  lemma {:induction false} WindowStarts(rec: Recording, ord: seq<nat>, c: seq<nat>, zero: nat)
    requires Aligned(rec, ord, c, zero) && Sorted(rec, ord, c) && zero < |ord|
    ensures Consecutive(rec, ord, CutOf(rec, ord, c, zero), zero, zero + 1)
  {
    SlotFollows(rec, ord, c, zero, zero);
  }

  // ---------------------------------------------------------------- pulling a member back

  /**
   The block reached from block k by stepping back while a gap of mint remains and
   the block before still starts after pten.
   */
  function Pull(blocks: seq<Block>, k: nat, pten: int, mint: int): (r: nat)
    requires k < |blocks|
    ensures r <= k
  {
    if mint <= blocks[k].First() - pten && k > 0 && 0 < blocks[k - 1].First() - pten
    then Pull(blocks, k - 1, pten, mint)
    else k
  }

  /** Pulling back reaches the member's earliest block after pten. */
  lemma {:induction false} PullIsEarliest(rec: Recording, msbs: nat, f: nat, k: nat, pten: int)
    requires WellTimed(rec) && AtLeast(rec, msbs) && Has(rec, f, k)
    requires pten < rec[f][k].First()
    ensures var r := Pull(rec[f], k, pten, msbs);
            && pten < rec[f][r].First()
            && (r == 0 || rec[f][r - 1].First() <= pten)
  {
    if msbs <= rec[f][k].First() - pten && k > 0 && 0 < rec[f][k - 1].First() - pten {
      PullIsEarliest(rec, msbs, f, k - 1, pten);
    } else if k > 0 && pten < rec[f][k - 1].First() {
      assert Has(rec, f, k - 1);
      NothingBetween(rec, msbs, pten, f, k, f, k - 1);
      MemberOrder(rec, f, k - 1, k);
    }
  }

  /** In an aligned stripe no member can be pulled back behind a live slot. */
  lemma {:induction false} AlignedStays(rec: Recording, ord: seq<nat>, c: seq<nat>, zero: nat, i: nat, j: nat,
      mint: int)
    requires WellTimed(rec) && Aligned(rec, ord, c, zero) && zero <= i < |ord| && zero <= j < |ord|
    ensures Pull(rec[ord[j]], c[ord[j]], At(rec, ord, c, i).Final(), mint) == c[ord[j]]
  {
    var f, g := ord[j], ord[i];
    if c[f] > 0 {
      LiveSlot(rec, ord, c, zero, i);
      LiveSlot(rec, ord, c, zero, j);
      assert Split(rec, CutOf(rec, ord, c, zero), f, c[f] - 1, g, c[g]);
      assert Has(rec, f, c[f] - 1) && Has(rec, g, c[g]);
      BlockSpan(rec[g][c[g]]);
    }
  }

  // ---------------------------------------------------------------- stripes placed at a cut

  /** The blocks a stripe shows for a cut: the first block not counted, or the last block of a member that has ended. */
  ghost predicate Shows(rec: Recording, c: seq<nat>, w: seq<nat>)
    requires InRange(rec, w)
  {
    && |c| == |rec|
    && forall f :: 0 <= f < |rec| ==> c[f] == if w[f] < |rec[f]| then w[f] else |rec[f]| - 1
  }

  /** Sorted slots that show a cut are aligned to it, with the ended members in front. */
  lemma {:induction false} AlignToCut(rec: Recording, w: seq<nat>, ord: seq<nat>, c: seq<nat>, zero: nat)
    requires WellTimed(rec) && IsCut(rec, w)
    requires Placed(rec, ord, c) && Sorted(rec, ord, c) && Shows(rec, c, w)
    requires zero <= |ord|
    requires forall i :: 0 <= i < zero ==> w[ord[i]] == |rec[ord[i]]|
    requires zero < |ord| ==> w[ord[zero]] < |rec[ord[zero]]|
    ensures Aligned(rec, ord, c, zero) && CutOf(rec, ord, c, zero) == w
  {
    forall i | zero <= i < |ord|
      ensures w[ord[i]] < |rec[ord[i]]|
    {
      assert i > zero ==> At(rec, ord, c, zero).First() < At(rec, ord, c, i).First();
      assert Has(rec, ord[i], c[ord[i]]) && Has(rec, ord[zero], c[ord[zero]]);
      assert Split(rec, w, ord[i], c[ord[i]], ord[zero], c[ord[zero]]);
    }
    var v := CutOf(rec, ord, c, zero);
    forall f | 0 <= f < |rec|
      ensures v[f] == w[f]
    {
      assert f in ord;
      var i :| 0 <= i < |ord| && ord[i] == f;
      if i < zero {
        assert ord[..zero][i] == f;
      }
    }
    assert v == w;
  }

  /** Blocks that start before tick t are exactly those counted. */
  lemma {:induction false} CutAtTick(rec: Recording, c: seq<nat>, t: int)
    requires WellTimed(rec) && Current(rec, c)
    requires forall f :: 0 <= f < |rec| ==> t <= rec[f][c[f]].First()
    requires forall f :: 0 <= f < |rec| && c[f] > 0 ==> rec[f][c[f] - 1].First() < t
    ensures IsCut(rec, c) && CountsBefore(rec, c, t)
  {
    forall f, b | Has(rec, f, b)
      ensures b < c[f] <==> rec[f][b].First() < t
    {
      assert Has(rec, f, c[f]);
      if b < c[f] {
        MemberOrder(rec, f, b, c[f] - 1);
      } else {
        MemberOrder(rec, f, c[f], b);
      }
    }
  }

  /** Slots zero+1..jj-1 have been pulled back towards the block in slot zero, the others have not moved. */
  ghost predicate Squeezed(rec: Recording, msbs: nat, ord: seq<nat>, c: seq<nat>, d: seq<nat>, zero: nat, jj: nat)
    requires Placed(rec, ord, c) && Placed(rec, ord, d) && zero < |ord|
  {
    forall k :: 0 <= k < |ord| ==> SqueezedAt(rec, msbs, ord, c, d, zero, jj, k)
  }

  ghost predicate SqueezedAt(rec: Recording, msbs: nat, ord: seq<nat>, c: seq<nat>, d: seq<nat>, zero: nat,
      jj: nat, k: nat)
    requires Placed(rec, ord, c) && Placed(rec, ord, d) && zero < |ord| && k < |ord|
  {
    d[ord[k]] == if zero < k < jj then Pull(rec[ord[k]], c[ord[k]], At(rec, ord, c, zero).Final(), msbs) else c[ord[k]]
  }

  lemma {:induction false} SqueezeStep(rec: Recording, msbs: nat, ord: seq<nat>, c: seq<nat>, d: seq<nat>,
      d2: seq<nat>, zero: nat, jj: nat)
    requires Placed(rec, ord, c) && Placed(rec, ord, d) && Placed(rec, ord, d2) && zero < jj < |ord|
    requires Squeezed(rec, msbs, ord, c, d, zero, jj)
    requires d2 == d[ord[jj] := Pull(rec[ord[jj]], d[ord[jj]], At(rec, ord, d, zero).Final(), msbs)]
    ensures Squeezed(rec, msbs, ord, c, d2, zero, jj + 1)
  {
    assert SqueezedAt(rec, msbs, ord, c, d, zero, jj, zero);
    var next := jj + 1;
    forall k | 0 <= k < |ord|
      ensures SqueezedAt(rec, msbs, ord, c, d2, zero, next, k)
    {
      assert SqueezedAt(rec, msbs, ord, c, d, zero, jj, k);
    }
  }

  /** The cut counts exactly the blocks that start before tick t. */
  ghost predicate CountsBefore(rec: Recording, w: seq<nat>, t: int) {
    InRange(rec, w) && forall f, b :: Has(rec, f, b) ==> (b < w[f] <==> rec[f][b].First() < t)
  }

  /**
   The cut counts exactly the blocks that start before the earliest of those aimed
   at, one of each member.
   */
  ghost predicate AimedAt(rec: Recording, aimed: seq<nat>, w: seq<nat>) {
    && Current(rec, aimed)
    && exists z :: 0 <= z < |rec| && EarliestAim(rec, aimed, z) && CountsBefore(rec, w, rec[z][aimed[z]].First())
  }

  ghost predicate EarliestAim(rec: Recording, aimed: seq<nat>, z: nat) {
    && Current(rec, aimed) && z < |rec|
    && forall f :: 0 <= f < |rec| ==> rec[z][aimed[z]].First() <= rec[f][aimed[f]].First()
  }

  /** The first of sorted slots holds the earliest block. */
  lemma {:induction false} FirstIsEarliest(rec: Recording, ord: seq<nat>, c: seq<nat>, w: seq<nat>)
    requires Placed(rec, ord, c) && Sorted(rec, ord, c) && |ord| > 0 && CountsBefore(rec, w, At(rec, ord, c, 0).First())
    ensures AimedAt(rec, c, w)
  {
    var z := ord[0];
    forall f | 0 <= f < |rec|
      ensures rec[z][c[z]].First() <= rec[f][c[f]].First()
    {
      assert f in ord;
      var j :| 0 <= j < |ord| && ord[j] == f;
      assert 0 < j ==> At(rec, ord, c, 0).First() < At(rec, ord, c, j).First();
    }
    assert EarliestAim(rec, c, z);
  }

  /** With one member the cut is right in front of the block aimed at. */
  lemma {:induction false} OneAim(rec: Recording, b: nat, w: seq<nat>)
    requires WellTimed(rec) && |rec| == 1 && AimedAt(rec, [b], w)
    ensures w == [b]
  {
    assert Has(rec, 0, b);
    if b > 0 {
      MemberOrder(rec, 0, b - 1, b);
      assert Has(rec, 0, b - 1);
    }
  }

  /** Squeezed slots: every member on its earliest block after the one in slot 0. */
  lemma {:induction false} SqueezedIsCut(rec: Recording, msbs: nat, ord: seq<nat>, c: seq<nat>, k: seq<nat>)
    requires WellTimed(rec) && AtLeast(rec, msbs)
    requires Placed(rec, ord, c) && Sorted(rec, ord, c) && |ord| > 0
    requires Current(rec, k) && Squeezed(rec, msbs, ord, c, k, 0, |ord|)
    ensures IsCut(rec, k) && CountsBefore(rec, k, At(rec, ord, c, 0).First())
  {
    var t := At(rec, ord, c, 0).First();
    forall f | 0 <= f < |rec|
      ensures t <= rec[f][k[f]].First() && (k[f] > 0 ==> rec[f][k[f] - 1].First() < t)
    {
      assert f in ord;
      var j :| 0 <= j < |ord| && ord[j] == f;
      assert SqueezedAt(rec, msbs, ord, c, k, 0, |ord|, j);
      SqueezedSlot(rec, msbs, ord, c, k[f], j);
    }
    CutAtTick(rec, k, t);
  }

  lemma {:induction false} SqueezedSlot(rec: Recording, msbs: nat, ord: seq<nat>, c: seq<nat>, r: nat, j: nat)
    requires WellTimed(rec) && AtLeast(rec, msbs)
    requires Placed(rec, ord, c) && Sorted(rec, ord, c) && j < |ord|
    requires r == if j == 0 then c[ord[0]] else Pull(rec[ord[j]], c[ord[j]], At(rec, ord, c, 0).Final(), msbs)
    ensures At(rec, ord, c, 0).First() <= rec[ord[j]][r].First()
    ensures r > 0 ==> rec[ord[j]][r - 1].First() < At(rec, ord, c, 0).First()
  {
    var f, z := ord[j], ord[0];
    assert Has(rec, z, c[z]);
    BlockSpan(rec[z][c[z]]);
    if j == 0 {
      if r > 0 {
        MemberOrder(rec, z, r - 1, r);
      }
    } else {
      assert Has(rec, f, c[f]) && f != z;
      assert Apart(rec, z, c[z], f, c[f]);
      assert At(rec, ord, c, 0).First() < At(rec, ord, c, j).First();
      BlockSpan(rec[f][c[f]]);
      PullIsEarliest(rec, msbs, f, c[f], rec[z][c[z]].Final());
      if r > 0 {
        assert Has(rec, f, r - 1);
        assert Apart(rec, f, r - 1, z, c[z]);
        BlockSpan(rec[f][r - 1]);
      }
    }
  }

  // ---------------------------------------------------------------- sums over slots

  /** The sum of h over the members in the first k slots. */
  function SlotSum(h: seq<nat>, ord: seq<nat>, k: nat): nat
    requires k <= |ord| && forall i :: 0 <= i < |ord| ==> ord[i] < |h|
  {
    if k == 0 then 0 else SlotSum(h, ord, k - 1) + h[ord[k - 1]]
  }

  ghost function Zeroed(h: seq<nat>, ord: seq<nat>, k: nat): seq<nat>
    requires k <= |ord|
  {
    seq(|h|, f requires 0 <= f < |h| => if f in ord[..k] then 0 else h[f])
  }

  lemma {:induction false} ZeroOut(h: seq<nat>, ord: seq<nat>, k: nat)
    requires IsPerm(ord, |h|) && k <= |ord|
    ensures Sum(Zeroed(h, ord, k)) + SlotSum(h, ord, k) == Sum(h)
    decreases k
  {
    if k == 0 {
      assert Zeroed(h, ord, 0) == h;
    } else {
      ZeroOut(h, ord, k - 1);
      var z, m := Zeroed(h, ord, k - 1), ord[k - 1];
      SliceStep(ord, 0, k - 1);
      assert ord[..k] == ord[0..k] && ord[..k - 1] == ord[0..k - 1];
      SumUpdate(z, m, 0);
      assert Zeroed(h, ord, k) == z[m := 0];
    }
  }

  /** Summing over the slots is summing over the members. */
  lemma {:induction false} SumOverSlots(h: seq<nat>, ord: seq<nat>)
    requires IsPerm(ord, |h|)
    ensures SlotSum(h, ord, |ord|) == Sum(h)
  {
    ZeroOut(h, ord, |ord|);
    assert ord[..|ord|] == ord;
    SumZeros(Zeroed(h, ord, |ord|));
  }

  // ---------------------------------------------------------------- counting bytes

  /** The weights that add up to the bytes before, and to all bytes, slot by slot. */
  lemma {:induction false} SlotWeights(rec: Recording, ord: seq<nat>, c: seq<nat>, zero: nat, i: nat)
    requires Aligned(rec, ord, c, zero) && i < |ord|
    ensures var f := ord[i];
            && Below(rec, CutOf(rec, ord, c, zero))[f] ==
               BytesBelow(rec[f], c[f]) + (if i < zero then |At(rec, ord, c, i).data| else 0)
            && Below(rec, End(rec))[f] == BytesBelow(rec[f], |rec[f]|)
            && (i < zero ==> BytesBelow(rec[f], c[f]) + |At(rec, ord, c, i).data| == BytesBelow(rec[f], |rec[f]|))
  {
    if i < zero {
      assert ord[..zero][i] == ord[i];
    } else {
      LiveSlot(rec, ord, c, zero, i);
    }
  }

  /** The three byte counts after ii slots. */
  ghost predicate PartialCounts(rec: Recording, ord: seq<nat>, c: seq<nat>, zero: nat, sgap: nat, ii: nat,
      b: nat, i: nat, a: nat)
    requires Aligned(rec, ord, c, zero) && zero <= sgap <= |ord| && ii <= |ord|
  {
    && b == SlotSum(Below(rec, CutOf(rec, ord, c, zero)), ord, ii)
    && i == (if ii < zero then 0 else |Bytes(rec, ord, c, zero, if ii < sgap then ii else sgap)|)
    && b + i + a == SlotSum(Below(rec, End(rec)), ord, ii)
  }

  /** Counting one more slot, as the three parts of the stripe are counted. */
  lemma {:induction false} CountSlot(rec: Recording, ord: seq<nat>, c: seq<nat>, zero: nat, sgap: nat, ii: nat,
      b: nat, i: nat, a: nat, bybb: nat, byib: nat, byab: nat)
    requires Aligned(rec, ord, c, zero) && zero <= sgap <= |ord| && ii < |ord|
    requires PartialCounts(rec, ord, c, zero, sgap, ii, b, i, a)
    requires bybb == BytesBelow(rec[ord[ii]], c[ord[ii]])
    requires byib == |At(rec, ord, c, ii).data|
    requires bybb + byib + byab == BytesBelow(rec[ord[ii]], |rec[ord[ii]]|)
    ensures ii < zero ==> PartialCounts(rec, ord, c, zero, sgap, ii + 1, b + bybb + byib, i, a)
    ensures zero <= ii < sgap ==> PartialCounts(rec, ord, c, zero, sgap, ii + 1, b + bybb, i + byib, a + byab)
    ensures sgap <= ii ==> PartialCounts(rec, ord, c, zero, sgap, ii + 1, b + bybb, i, a + byib + byab)
  {
    SlotWeights(rec, ord, c, zero, ii);
  }

  lemma {:induction false} AllCounted(rec: Recording, ord: seq<nat>, c: seq<nat>, zero: nat, sgap: nat, b: nat,
      i: nat, a: nat)
    requires Aligned(rec, ord, c, zero) && zero <= sgap <= |ord|
    requires PartialCounts(rec, ord, c, zero, sgap, |ord|, b, i, a)
    ensures b == Pos(rec, CutOf(rec, ord, c, zero))
    ensures i == |Bytes(rec, ord, c, zero, sgap)|
    ensures b + i + a == TotalBytes(rec)
  {
    SumOverSlots(Below(rec, CutOf(rec, ord, c, zero)), ord);
    SumOverSlots(Below(rec, End(rec)), ord);
  }

  lemma {:induction false} EndUnique(rec: Recording, w: seq<nat>)
    requires InRange(rec, w) && Done(rec, w)
    ensures w == End(rec)
  {
  }

  /** How a slot's block lies to the end of the window, and what the cut behind the window counts of its member. */
  lemma {:induction false} SlotAgainstEdge(rec: Recording, ord: seq<nat>, c: seq<nat>, zero: nat, sgap: nat, k: nat)
    requires WellTimed(rec) && ValidWindow(rec, ord, c, zero, sgap) && k < |ord|
    ensures var edge := At(rec, ord, c, sgap - 1).Final();
            var w := EndCut(rec, ord, c, zero, sgap)[ord[k]];
            && (At(rec, ord, c, k).Final() <= edge <==> k < sgap)
            && (k < zero ==> c[ord[k]] + 1 == |rec[ord[k]]| == w)
            && (zero <= k < sgap ==> w == c[ord[k]] + 1)
            && (sgap <= k ==> w == c[ord[k]])
  {
    var v := CutOf(rec, ord, c, zero);
    var e := sgap - 1;
    SlotBeyond(rec, ord, c, zero, sgap, k);
    assert Has(rec, ord[k], c[ord[k]]) && Has(rec, ord[e], c[ord[e]]);
    BlockSpan(At(rec, ord, c, e));
    BlockSpan(At(rec, ord, c, k));
    if k < zero {
      LiveSlot(rec, ord, c, zero, e);
      SlotBeyond(rec, ord, c, zero, zero, k);
      assert EndCut(rec, ord, c, zero, zero) == v;
      assert Split(rec, v, ord[k], c[ord[k]], ord[e], c[ord[e]]);
      assert Apart(rec, ord[k], c[ord[k]], ord[e], c[ord[e]]);
    } else if k < e {
      assert Follows(rec, ord, v, zero, k);
      LiveSlot(rec, ord, c, zero, k);
      SlotBeyond(rec, ord, c, zero, k, e);
      NextIsFirst(rec, EndCut(rec, ord, c, zero, k), ord[k], ord[e], c[ord[e]]);
    } else if e < k {
      assert Follows(rec, ord, v, zero, e);
      LiveSlot(rec, ord, c, zero, e);
      SlotBeyond(rec, ord, c, zero, e, k);
      NextIsFirst(rec, EndCut(rec, ord, c, zero, e), ord[e], ord[k], c[ord[k]]);
    }
  }

  // ---------------------------------------------------------------- walking forward

  /** What a walk past tick edge makes of the member in slot k: its new block, and whether it is marked as outside. */
  ghost predicate Walked(rec: Recording, ord: seq<nat>, c: seq<nat>, dir: int, edge: int, k: nat, block: nat, out: bool)
    requires Placed(rec, ord, c) && k < |ord|
  {
    var b := c[ord[k]];
    if dir > 0 then
      var last, later := b + 1 == |rec[ord[k]]|, edge < At(rec, ord, c, k).Final();
      && block == (if last || later then b else b + 1)
      && (out <==> last && !later)
    else
      var first, early := b == 0, At(rec, ord, c, k).First() < edge;
      && block == (if first || early then b else b - 1)
      && (out <==> first && !early)
  }

  /** The member walked forward shows the cut behind the window. */
  lemma {:induction false} WalkedShows(rec: Recording, ord: seq<nat>, c: seq<nat>, zero: nat, sgap: nat, k: nat,
      block: nat, out: bool)
    requires WellTimed(rec) && ValidWindow(rec, ord, c, zero, sgap) && k < |ord|
    requires Walked(rec, ord, c, 1, At(rec, ord, c, sgap - 1).Final(), k, block, out)
    ensures var w := EndCut(rec, ord, c, zero, sgap)[ord[k]];
            && w <= |rec[ord[k]]|
            && block == (if w < |rec[ord[k]]| then w else |rec[ord[k]]| - 1)
            && (out <==> w == |rec[ord[k]]|)
  {
    SlotAgainstEdge(rec, ord, c, zero, sgap, k);
  }

  /** One block less of each member that has any. */
  ghost function Back(w: seq<nat>): (u: seq<nat>)
    ensures |u| == |w| && forall f :: 0 <= f < |w| ==> u[f] == if w[f] > 0 then w[f] - 1 else 0
  {
    seq(|w|, f requires 0 <= f < |w| => if w[f] > 0 then w[f] - 1 else 0)
  }

  /** The member walked backward shows its last block before the window; it is outside if it has none. */
  lemma {:induction false} WalkedBackShows(rec: Recording, ord: seq<nat>, c: seq<nat>, zero: nat, sgap: nat,
      k: nat, block: nat, out: bool)
    requires WellTimed(rec) && ValidWindow(rec, ord, c, zero, sgap) && k < |ord|
    requires Walked(rec, ord, c, -1, At(rec, ord, c, zero).First(), k, block, out)
    ensures var w := CutOf(rec, ord, c, zero);
            block == Back(w)[ord[k]] && (out <==> w[ord[k]] == 0)
  {
    var v := CutOf(rec, ord, c, zero);
    LiveSlot(rec, ord, c, zero, zero);
    SlotBeyond(rec, ord, c, zero, zero, k);
    assert EndCut(rec, ord, c, zero, zero) == v;
    assert Has(rec, ord[k], c[ord[k]]) && Has(rec, ord[zero], c[ord[zero]]);
    if k < zero {
      assert Split(rec, v, ord[k], c[ord[k]], ord[zero], c[ord[zero]]);
    } else {
      assert Follows(rec, ord, v, zero, zero);
      assert ord[zero..zero] == [] && Advance(v, []) == v;
    }
  }

  lemma {:induction false} LaterSlot(rec: Recording, ord: seq<nat>, c: seq<nat>, i: nat, j: nat)
    requires Placed(rec, ord, c) && Sorted(rec, ord, c) && i < |ord| && j < |ord|
    ensures i < j ==> rec[ord[i]][c[ord[i]]].First() < rec[ord[j]][c[ord[j]]].First()
  {
    assert i < j ==> At(rec, ord, c, i).First() < At(rec, ord, c, j).First();
  }

  /** Slots are sorted in one way only. */
  lemma {:induction false} SortedOneWay(rec: Recording, ord: seq<nat>, ord2: seq<nat>, c: seq<nat>, i: nat)
    requires Placed(rec, ord, c) && Placed(rec, ord2, c) && Sorted(rec, ord, c) && Sorted(rec, ord2, c)
    requires i <= |ord|
    ensures ord[..i] == ord2[..i]
  {
    if i > 0 {
      var n := i - 1;
      SortedOneWay(rec, ord, ord2, c, n);
      assert forall k :: 0 <= k < n ==> ord[k] == ord[..n][k] == ord2[..n][k] == ord2[k];
      assert ord2[n] in ord && ord[n] in ord2;
      var j :| 0 <= j < |ord| && ord[j] == ord2[n];
      var k :| 0 <= k < |ord2| && ord2[k] == ord[n];
      LaterSlot(rec, ord, c, n, j);
      LaterSlot(rec, ord2, c, n, k);
      assert ord[..i] == ord[..n] + [ord[n]] && ord2[..i] == ord2[..n] + [ord2[n]];
    }
  }

  lemma {:induction false} SumGrows(a: seq<nat>, b: seq<nat>)
    requires |a| == |b| && forall i :: 0 <= i < |a| ==> a[i] <= b[i]
    ensures Sum(a) <= Sum(b)
  {
    if |a| > 0 {
      SumGrows(a[..|a| - 1], b[..|b| - 1]);
    }
  }

  lemma {:induction false} BytesGrow(blocks: seq<Block>, a: nat, b: nat)
    requires a <= b <= |blocks|
    ensures BytesBelow(blocks, a) <= BytesBelow(blocks, b)
  {
    if a < b {
      BytesGrow(blocks, a, b - 1);
    }
  }

  lemma {:induction false} PosGrows(rec: Recording, v: seq<nat>, w: seq<nat>)
    requires InRange(rec, v) && InRange(rec, w) && AtMost(v, w)
    ensures Pos(rec, v) <= Pos(rec, w)
  {
    forall f | 0 <= f < |rec|
      ensures Below(rec, v)[f] <= Below(rec, w)[f]
    {
      BytesGrow(rec[f], v[f], w[f]);
    }
    SumGrows(Below(rec, v), Below(rec, w));
  }

  lemma {:induction false} SumLess(a: seq<nat>, b: seq<nat>, k: nat)
    requires |a| == |b| && k < |a| && a[k] < b[k] && forall i :: 0 <= i < |a| ==> a[i] <= b[i]
    ensures Sum(a) < Sum(b)
  {
    var n := |a| - 1;
    if k == n {
      SumGrows(a[..n], b[..n]);
    } else {
      SumLess(a[..n], b[..n], k);
    }
  }

  /** Fewer blocks are fewer bytes. */
  lemma {:induction false} PosLess(rec: Recording, v: seq<nat>, w: seq<nat>)
    requires WellTimed(rec) && InRange(rec, v) && InRange(rec, w) && AtMost(v, w) && v != w
    ensures Pos(rec, v) < Pos(rec, w)
  {
    forall f | 0 <= f < |rec|
      ensures Below(rec, v)[f] <= Below(rec, w)[f]
    {
      BytesGrow(rec[f], v[f], w[f]);
    }
    var f :| 0 <= f < |v| && v[f] != w[f];
    assert Has(rec, f, v[f]);
    BytesGrow(rec[f], v[f] + 1, w[f]);
    SumLess(Below(rec, v), Below(rec, w), f);
  }

  // ---------------------------------------------------------------- strict rotation

  /** Member g has a block between block b of member f and the next. */
  ghost predicate TakesTurn(rec: Recording, f: nat, b: nat, g: nat) {
    Has(rec, f, b) && Has(rec, f, b + 1) && g < |rec| && g != f ==>
      exists d: nat :: Has(rec, g, d) && rec[f][b].First() < rec[g][d].First() < rec[f][b + 1].First()
  }

  /** Between two blocks of a member every other member has its turn. */
  ghost predicate Rotates(rec: Recording) {
    forall f: nat, b: nat, g: nat :: TakesTurn(rec, f, b, g)
  }

  /** In strict rotation every slot follows the slots before it. */
  lemma {:induction false} SlotFills(rec: Recording, ord: seq<nat>, c: seq<nat>, i: nat)
    requires WellTimed(rec) && Rotates(rec) && Aligned(rec, ord, c, 0) && Sorted(rec, ord, c) && i < |ord|
    ensures Follows(rec, ord, CutOf(rec, ord, c, 0), 0, i)
  {
    var m := ord[i];
    LiveSlot(rec, ord, c, 0, i);
    forall k | 0 <= k < i
      ensures SuccessorLater(rec, ord, c, k, i)
    {
      var g := ord[k];
      LiveSlot(rec, ord, c, 0, k);
      if c[g] + 1 < |rec[g]| {
        assert TakesTurn(rec, g, c[g], m);
        var d: nat :| Has(rec, m, d) && rec[g][c[g]].First() < rec[m][d].First() < rec[g][c[g] + 1].First();
        assert Has(rec, g, c[g]) && Split(rec, CutOf(rec, ord, c, 0), m, d, g, c[g]);
        MemberOrder(rec, m, c[m], d);
      }
    }
    SlotFollows(rec, ord, c, 0, i);
  }

  /** In strict rotation, once a member has ended, every other member is on its last block. */
  lemma {:induction false} LastTurn(rec: Recording, ord: seq<nat>, c: seq<nat>, zero: nat, k: nat)
    requires WellTimed(rec) && Rotates(rec) && Aligned(rec, ord, c, zero) && 0 < zero <= k < |ord|
    ensures c[ord[k]] + 1 == |rec[ord[k]]|
  {
    hide IsCut, WellTimed;
    var f, g := ord[0], ord[k];
    var v := CutOf(rec, ord, c, zero);
    LiveSlot(rec, ord, c, zero, k);
    assert ord[..zero][0] == f;
    if c[g] + 1 < |rec[g]| {
      assert TakesTurn(rec, g, c[g], f);
      var d: nat :| Has(rec, f, d) && rec[g][c[g]].First() < rec[f][d].First() < rec[g][c[g] + 1].First();
      EndedBefore(rec, v, f, d, g);
    }
  }

  /** The blocks of a member that has ended come before those that remain. */
  lemma {:induction false} EndedBefore(rec: Recording, v: seq<nat>, f: nat, d: nat, g: nat)
    requires IsCut(rec, v) && Has(rec, f, d) && v[f] == |rec[f]| && g < |rec| && v[g] < |rec[g]|
    ensures rec[f][d].First() < rec[g][v[g]].First()
  {
    assert Split(rec, v, f, d, g, v[g]);
  }

  /** In strict rotation the window in which a member has ended is the last one. */
  lemma {:induction false} LastRound(rec: Recording, ord: seq<nat>, c: seq<nat>, zero: nat, i: nat)
    requires WellTimed(rec) && Rotates(rec) && Aligned(rec, ord, c, zero) && Sorted(rec, ord, c)
             && 0 < zero <= i <= |ord|
    ensures i < |ord| ==> Follows(rec, ord, CutOf(rec, ord, c, zero), zero, i)
    ensures EndCut(rec, ord, c, zero, |ord|) == End(rec)
  {
    hide WellTimed, Rotates, IsCut, Follows, CutOf;
    if i < |ord| {
      forall k | zero <= k < i
        ensures SuccessorLater(rec, ord, c, k, i)
      {
        LastTurn(rec, ord, c, zero, k);
      }
      SlotFollows(rec, ord, c, zero, i);
    }
    forall f | 0 <= f < |rec|
      ensures EndCut(rec, ord, c, zero, |ord|)[f] == |rec[f]|
    {
      assert f in ord;
      var k :| 0 <= k < |ord| && ord[k] == f;
      SlotBeyond(rec, ord, c, zero, |ord|, k);
      if zero <= k {
        LastTurn(rec, ord, c, zero, k);
      }
    }
  }

  // ---------------------------------------------------------------- walking backward

  /** In strict rotation the blocks that the members step back to are the blocks behind a cut. */
  lemma {:induction false} RotationBack(rec: Recording, w: seq<nat>)
    requires WellTimed(rec) && Rotates(rec) && IsCut(rec, w)
    ensures IsCut(rec, Back(w))
  {
    var u := Back(w);
    forall f, b, g, d
      ensures Split(rec, u, f, b, g, d)
    {
      if Has(rec, f, b) && Has(rec, g, d) && b < u[f] && u[g] <= d {
        TurnBefore(rec, w, f, b, g, d);
      }
    }
  }

  lemma {:induction false} TurnBefore(rec: Recording, w: seq<nat>, f: nat, b: nat, g: nat, d: nat)
    requires WellTimed(rec) && Rotates(rec) && IsCut(rec, w)
    requires Has(rec, f, b) && Has(rec, g, d) && b < Back(w)[f] && Back(w)[g] <= d
    ensures rec[f][b].First() < rec[g][d].First()
  {
    if f == g {
      MemberOrder(rec, f, b, d);
    } else {
      assert TakesTurn(rec, f, b, g);
      var e: nat :| Has(rec, g, e) && rec[f][b].First() < rec[g][e].First() < rec[f][b + 1].First();
      assert Split(rec, w, f, b + 1, g, e);
      MemberOrder(rec, g, if e < d then e else d, if e < d then d else e);
    }
  }

  /** Members that have blocks before cut w come before those that have none, and follow each other. */
  lemma {:induction false} StartedFollow(rec: Recording, ord: seq<nat>, c: seq<nat>, w: seq<nat>, i: nat)
    requires WellTimed(rec) && Aligned(rec, ord, c, 0) && Sorted(rec, ord, c) && i < |ord|
    requires IsCut(rec, w) && c == Back(w) && 0 < w[ord[i]]
    ensures forall k :: 0 <= k < i ==> 0 < w[ord[k]]
    ensures Follows(rec, ord, CutOf(rec, ord, c, 0), 0, i)
  {
    var m := ord[i];
    forall k | 0 <= k < i
      ensures 0 < w[ord[k]] && SuccessorLater(rec, ord, c, k, i)
    {
      var g := ord[k];
      assert At(rec, ord, c, k).First() < At(rec, ord, c, i).First();
      assert Has(rec, g, c[g]) && Has(rec, m, c[m]);
      assert Split(rec, w, m, c[m], g, c[g]);
      assert Split(rec, w, m, c[m], g, c[g] + 1);
    }
    SlotFollows(rec, ord, c, 0, i);
  }

  /** A maximal window made of the blocks before cut w reaches up to w. */
  lemma {:induction false} BackCovers(rec: Recording, ord: seq<nat>, c: seq<nat>, w: seq<nat>, sgap: nat)
    requires WellTimed(rec) && ValidWindow(rec, ord, c, 0, sgap) && Sorted(rec, ord, c)
    requires sgap < |ord| ==> !Follows(rec, ord, CutOf(rec, ord, c, 0), 0, sgap)
    requires IsCut(rec, w) && c == Back(w)
    ensures Pos(rec, w) <= Pos(rec, CutOf(rec, ord, c, 0)) + |Bytes(rec, ord, c, 0, sgap)|
  {
    var e := EndCut(rec, ord, c, 0, sgap);
    WindowIsSlice(rec, ord, c, 0, sgap);
    forall f | 0 <= f < |rec|
      ensures w[f] <= e[f]
    {
      assert f in ord;
      var k :| 0 <= k < |ord| && ord[k] == f;
      SlotBeyond(rec, ord, c, 0, sgap, k);
      if sgap <= k && 0 < w[f] {
        StartedFollow(rec, ord, c, w, k);
        if sgap < k {
          StartedFollow(rec, ord, c, w, sgap);
        }
      }
    }
    PosGrows(rec, w, e);
  }

  /** Slots that show the blocks before cut w, which form a cut, are aligned to that cut. */
  lemma {:induction false} AlignBack(rec: Recording, ord: seq<nat>, c: seq<nat>, w: seq<nat>)
    requires WellTimed(rec) && Placed(rec, ord, c) && Sorted(rec, ord, c) && 0 < |ord|
    requires IsCut(rec, w) && c == Back(w) && c != w && IsCut(rec, c)
    ensures Aligned(rec, ord, c, 0) && CutOf(rec, ord, c, 0) == c
    ensures 0 < w[ord[0]]
  {
    assert Shows(rec, c, c);
    AlignToCut(rec, c, ord, c, 0);
    var g :| 0 <= g < |w| && c[g] != w[g];
    var m := ord[0];
    assert g in ord;
    var i :| 0 <= i < |ord| && ord[i] == g;
    assert Has(rec, g, c[g]) && Has(rec, m, c[m]);
    assert Split(rec, w, g, c[g], m, c[m]);
    assert 0 < i ==> At(rec, ord, c, 0).First() < At(rec, ord, c, i).First();
  }

  /** A window is not empty. */
  lemma {:induction false} WindowHoldsBytes(rec: Recording, ord: seq<nat>, c: seq<nat>, zero: nat, sgap: nat)
    requires WellTimed(rec) && ValidWindow(rec, ord, c, zero, sgap)
    ensures 0 < |Bytes(rec, ord, c, zero, sgap)|
  {
    assert Has(rec, ord[sgap - 1], c[ord[sgap - 1]]);
  }

  /** Where in the virtual file the block in window slot k lies. */
  lemma {:induction false} BlockIsSlice(rec: Recording, ord: seq<nat>, c: seq<nat>, zero: nat, sgap: nat, k: nat)
    requires WellTimed(rec) && ValidWindow(rec, ord, c, zero, sgap) && zero <= k < sgap
    ensures var p := Pos(rec, CutOf(rec, ord, c, zero));
            var s := p + |Bytes(rec, ord, c, zero, k)|;
            var n := |At(rec, ord, c, k).data|;
            && |Bytes(rec, ord, c, zero, k + 1)| == |Bytes(rec, ord, c, zero, k)| + n
            && s + n <= p + |Bytes(rec, ord, c, zero, sgap)| <= |Virtual(rec)|
            && Virtual(rec)[s..s + n] == At(rec, ord, c, k).data
  {
    hide Virtual, Pos, CutOf, Bytes, At, Consecutive, WellTimed, EndCut, IsCut;
    WindowIsSlice(rec, ord, c, zero, sgap);
    BytesSlice(rec, ord, c, zero, k, sgap);
    PartOfPart(Virtual(rec), Pos(rec, CutOf(rec, ord, c, zero)), Bytes(rec, ord, c, zero, sgap),
      |Bytes(rec, ord, c, zero, k)|, At(rec, ord, c, k).data);
  }

  lemma {:induction false} PartOfPart(s: seq<Byte>, p: nat, w: seq<Byte>, b: nat, data: seq<Byte>)
    requires p + |w| <= |s| && s[p..p + |w|] == w
    requires b + |data| <= |w| && w[b..b + |data|] == data
    ensures s[p + b..p + b + |data|] == data
  {
    var n := b + |data|;
    SliceOfSlice(s, p, p + |w|, b, n);
    assert s[p + b..p + n] == data;
  }

  lemma {:induction false} SliceOfSlice(s: seq<Byte>, lo: nat, hi: nat, a: nat, b: nat)
    requires lo <= hi <= |s| && a <= b <= hi - lo
    ensures s[lo + a..lo + b] == s[lo..hi][a..b]
  {
    var t := s[lo..hi];
    assert forall k :: a <= k < b ==> t[k] == s[lo + k];
  }

  lemma {:induction false} BytesSlice(rec: Recording, ord: seq<nat>, c: seq<nat>, zero: nat, k: nat, i: nat)
    requires Placed(rec, ord, c) && zero <= k < i <= |ord|
    ensures var b := |Bytes(rec, ord, c, zero, k)|;
            var n := |At(rec, ord, c, k).data|;
            && |Bytes(rec, ord, c, zero, k + 1)| == b + n
            && b + n <= |Bytes(rec, ord, c, zero, i)|
            && Bytes(rec, ord, c, zero, i)[b..b + n] == At(rec, ord, c, k).data
    decreases i
  {
    hide At, Placed;
    if k + 1 < i {
      BytesSlice(rec, ord, c, zero, k, i - 1);
      var a, d := Bytes(rec, ord, c, zero, i - 1), At(rec, ord, c, i - 1).data;
      assert Bytes(rec, ord, c, zero, i) == a + d;
    }
  }

  /** The window block in slot k, read from where its member keeps it. */
  lemma {:induction false} SourceIsSlice(rec: Recording, ord: seq<nat>, c: seq<nat>, zero: nat, sgap: nat, k: nat,
      mem: seq<Byte>, addr: nat, n: nat)
    requires WellTimed(rec) && ValidWindow(rec, ord, c, zero, sgap) && zero <= k < sgap
    requires n == |At(rec, ord, c, k).data| && addr + n <= |mem|
    requires mem[addr..addr + n] == At(rec, ord, c, k).data
    ensures var s := Pos(rec, CutOf(rec, ord, c, zero)) + |Bytes(rec, ord, c, zero, k)|;
            && |Bytes(rec, ord, c, zero, k + 1)| == |Bytes(rec, ord, c, zero, k)| + n
            && s + n <= Pos(rec, CutOf(rec, ord, c, zero)) + |Bytes(rec, ord, c, zero, sgap)| <= |Virtual(rec)|
            && Virtual(rec)[s..s + n] == mem[addr..addr + n]
  {
    BlockIsSlice(rec, ord, c, zero, sgap, k);
  }
}
