/**
 Backward motion in strict rotation: where the windows lie that a stripe steps
 back through, and what becomes of a request that is read from its end.
 */
module Rounds {
  import opened Timeline
  import opened Window

  /** One more block of every member. */
  ghost function Forth(u: seq<nat>): (w: seq<nat>)
    ensures |w| == |u| && forall f :: 0 <= f < |u| ==> w[f] == u[f] + 1
  {
    seq(|u|, f requires 0 <= f < |u| => u[f] + 1)
  }

  /** Where the window of one block of every member behind cut u ends. */
  ghost function RoundEnd(rec: Recording, u: seq<nat>): nat
    requires InRange(rec, u)
  {
    if InRange(rec, Forth(u)) then Pos(rec, Forth(u)) else TotalBytes(rec)
  }

  /** A window of one block of every member ends where they all move on. */
  lemma {:induction false} FullRound(rec: Recording, ord: seq<nat>, c: seq<nat>)
    requires Placed(rec, ord, c)
    ensures EndCut(rec, ord, c, 0, |ord|) == Forth(CutOf(rec, ord, c, 0)) && InRange(rec, Forth(CutOf(rec, ord, c, 0)))
  {
    forall f | 0 <= f < |rec|
      ensures EndCut(rec, ord, c, 0, |ord|)[f] == c[f] + 1 == CutOf(rec, ord, c, 0)[f] + 1
    {
      assert f in ord;
      var k :| 0 <= k < |ord| && ord[k] == f;
      SlotBeyond(rec, ord, c, 0, |ord|, k);
      LiveSlot(rec, ord, c, 0, k);
    }
  }

  lemma {:induction false} PosZero(rec: Recording, u: seq<nat>)
    requires InRange(rec, u) && Pos(rec, u) > 0
    ensures exists f :: 0 <= f < |u| && u[f] > 0
  {
    if forall f :: 0 <= f < |u| ==> u[f] == 0 {
      SumZeros(Below(rec, u));
    }
  }

  /** Stepping back stays in the recording and gets somewhere, except at the start. */
  lemma {:induction false} BackShorter(rec: Recording, u: seq<nat>)
    requires InRange(rec, u) && Pos(rec, u) > 0
    ensures InRange(rec, Back(u)) && Sum(Back(u)) < Sum(u)
  {
    PosZero(rec, u);
    var f :| 0 <= f < |u| && u[f] > 0;
    SumLess(Back(u), u, f);
  }

  lemma {:induction false} BackPos(rec: Recording, u: seq<nat>)
    requires WellTimed(rec) && InRange(rec, u) && Pos(rec, u) > 0
    ensures InRange(rec, Back(u)) && Pos(rec, Back(u)) < Pos(rec, u)
  {
    PosZero(rec, u);
    var f :| 0 <= f < |u| && u[f] > 0;
    assert Back(u)[f] != u[f];
    PosLess(rec, Back(u), u);
  }

  /** In strict rotation the rounds abut, except that the first may overlap the second. */
  lemma {:induction false} ForthBack(rec: Recording, w: seq<nat>)
    requires Rotates(rec) && IsCut(rec, w) && InRange(rec, Back(w)) && Pos(rec, Back(w)) > 0
    ensures Forth(Back(w)) == w && RoundEnd(rec, Back(w)) == Pos(rec, w)
  {
    PosZero(rec, Back(w));
    var f :| 0 <= f < |w| && Back(w)[f] > 0;
    forall g | 0 <= g < |w|
      ensures 0 < w[g]
    {
      if w[g] == 0 {
        var b := w[f] - 2;
        assert TakesTurn(rec, f, b, g);
        var d: nat :| Has(rec, g, d) && rec[f][b].First() < rec[g][d].First() < rec[f][b + 1].First();
        assert Split(rec, w, f, b + 1, g, d);
      }
    }
    assert Forth(Back(w)) == w;
  }

  /** A round before cut w reaches at least up to w. */
  lemma {:induction false} RoundReaches(rec: Recording, w: seq<nat>)
    requires InRange(rec, w) && InRange(rec, Back(w)) && InRange(rec, Forth(Back(w)))
    ensures Pos(rec, w) <= RoundEnd(rec, Back(w))
  {
    PosGrows(rec, w, Forth(Back(w)));
  }

  // ---------------------------------------------------------------- seeking

  /** The first cut, stepping back from w, with less than n bytes before it; the start, if there is none. */
  ghost function Sought(rec: Recording, w: seq<nat>, n: nat): (u: seq<nat>)
    requires InRange(rec, w)
    ensures InRange(rec, u)
    ensures 0 < n ==> Pos(rec, u) < n
    decreases Sum(w)
  {
    if Pos(rec, w) < n || Pos(rec, w) == 0 then w
    else
      BackShorter(rec, w);
      Sought(rec, Back(w), n)
  }

  lemma {:induction false} SoughtCut(rec: Recording, w: seq<nat>, n: nat)
    requires WellTimed(rec) && Rotates(rec) && IsCut(rec, w)
    ensures IsCut(rec, Sought(rec, w, n)) && IsCut(rec, Back(Sought(rec, w, n)))
    decreases Sum(w)
  {
    hide WellTimed, Rotates, IsCut, Pos;
    RotationBack(rec, w);
    if n <= Pos(rec, w) && 0 < Pos(rec, w) {
      BackShorter(rec, w);
      SoughtCut(rec, Back(w), n);
    }
  }

  // ---------------------------------------------------------------- reading

  /** How a read from the end of a request ends: complete, refused by a window, or in front of the first window. */
  datatype BackEnd = Filled | Refused | PastStart

  /**
   What becomes of the bytes roff..q of a request, asked first of the round
   behind cut u.  A round that starts before roff is asked for all of them;
   one that starts s bytes behind roff is asked for the last s of them, and
   the rest of the round before it.
   */
  ghost function BackwardEnd(rec: Recording, u: seq<nat>, roff: nat, q: int): BackEnd
    requires InRange(rec, u)
    decreases Sum(u)
  {
    var p := Pos(rec, u);
    if p == roff then
      if p == 0 then PastStart else Refused
    else if RoundEnd(rec, u) < q || q < p + (p - roff) then Refused
    else if p < roff then Filled
    else
      BackShorter(rec, u);
      BackwardEnd(rec, Back(u), roff, q - (p - roff))
  }

  /** What a read of n bytes comes to that seeks from the window behind cut u. */
  ghost function ComesFrom(rec: Recording, u: seq<nat>, offset: nat, n: nat): BackEnd
    requires WellTimed(rec) && Rotates(rec) && IsCut(rec, u)
  {
    var w := Sought(rec, u, offset + n);
    if offset + n == 0 then PastStart
    else if Pos(rec, w) <= offset then Filled
    else if RoundEnd(rec, u) < offset + n then Refused
    else
      SoughtCut(rec, u, offset + n);
      BackwardEnd(rec, Back(w), offset, Pos(rec, w))
  }

  /** The bytes asked for reach past the next round before. */
  ghost predicate Ahead(rec: Recording, u: seq<nat>, q: int)
    requires InRange(rec, u)
  {
    Pos(rec, u) == 0 || (InRange(rec, Forth(u)) && Pos(rec, Forth(u)) <= q)
  }

  lemma {:induction false} AheadOfBack(rec: Recording, u: seq<nat>, q: int)
    requires Rotates(rec) && IsCut(rec, u) && InRange(rec, Back(u)) && Pos(rec, u) <= q
    ensures Ahead(rec, Back(u), q)
  {
    hide Rotates, IsCut, Pos;
    if Pos(rec, Back(u)) > 0 {
      ForthBack(rec, u);
    }
  }

  /** The round before the one before does not reach the bytes asked for. */
  lemma {:induction false} BehindRound(rec: Recording, u: seq<nat>, q: int)
    requires WellTimed(rec) && InRange(rec, u) && Pos(rec, u) > 0 && Ahead(rec, u, q)
    ensures InRange(rec, Back(u)) && RoundEnd(rec, Back(u)) < q
  {
    hide WellTimed, Pos;
    BackShorter(rec, u);
    PosZero(rec, u);
    var f :| 0 <= f < |u| && u[f] > 0;
    var a, b := Forth(Back(u)), Forth(u);
    assert a[f] != b[f];
    assert InRange(rec, a);
    PosLess(rec, a, b);
  }

  /** The bytes roff..q of a request that comes to goal are asked of the round behind cut u. */
  ghost predicate Asked(rec: Recording, u: seq<nat>, roff: nat, q: int, goal: BackEnd)
    ensures Asked(rec, u, roff, q, goal) ==> InRange(rec, u)
  {
    InRange(rec, u) && Ahead(rec, u, q) && goal == BackwardEnd(rec, u, roff, q)
  }

  /** What the piece of s bytes, asked of the round behind cut u, decides about the bytes roff..q. */
  lemma {:induction false} PieceDecides(rec: Recording, u: seq<nat>, roff: nat, q: int, s: int, goal: BackEnd)
    requires WellTimed(rec) && Rotates(rec) && IsCut(rec, u) && roff < q && Asked(rec, u, roff, q, goal)
    requires var p := Pos(rec, u); s == if p < roff || q < p then q - roff else p - roff
    ensures var p := Pos(rec, u);
            var ok := s == 0 || (p <= q - s && q <= RoundEnd(rec, u));
            && (!ok ==> goal == Refused)
            && (ok && s == q - roff ==> goal == Filled)
            && (ok && s < q - roff && p == 0 ==> goal == PastStart)
            && (ok && s < q - roff && p > 0 ==> Asked(rec, Back(u), roff, q - s, goal))
  {
    hide WellTimed, Rotates, IsCut, Pos, RoundEnd, Ahead;
    var p := Pos(rec, u);
    if 0 < p && roff <= p {
      BackPos(rec, u);
      if s == 0 {
        BehindRound(rec, u, q);
      }
      if p <= q - s {
        AheadOfBack(rec, u, q - s);
      }
    }
  }

  /**
   A request that ends where the round behind cut w starts is read if it starts
   in the round before, and never if it starts exactly where that round starts.
   */
  lemma {:induction false} NearBackward(rec: Recording, w: seq<nat>, roff: nat)
    requires InRange(rec, w) && InRange(rec, Back(w)) && InRange(rec, Forth(Back(w))) && roff < Pos(rec, w)
    ensures Pos(rec, Back(w)) < roff ==> BackwardEnd(rec, Back(w), roff, Pos(rec, w)) == Filled
    ensures Pos(rec, Back(w)) == roff ==>
              BackwardEnd(rec, Back(w), roff, Pos(rec, w)) == if roff == 0 then PastStart else Refused
  {
    hide Pos, RoundEnd;
    RoundReaches(rec, w);
  }

  /** Every block holds at least n bytes. */
  ghost predicate BlocksHold(rec: Recording, n: nat) {
    forall f, b :: Has(rec, f, b) ==> n <= |rec[f][b].data|
  }

  /** A step back passes at least a block. */
  lemma {:induction false} BackPasses(rec: Recording, w: seq<nat>, n: nat)
    requires BlocksHold(rec, n) && InRange(rec, w) && Pos(rec, w) > 0
    ensures InRange(rec, Back(w)) && Pos(rec, Back(w)) + n <= Pos(rec, w)
  {
    PosZero(rec, w);
    var f :| 0 <= f < |w| && w[f] > 0;
    assert Has(rec, f, w[f] - 1);
    StepPos(rec, Back(w), f);
    PosGrows(rec, Step(Back(w), f), w);
  }

  /**
   A request that is not longer than any block is read, if it starts before the
   round behind cut w and ends behind the start of that round.
   */
  lemma {:induction false} ShortBackward(rec: Recording, w: seq<nat>, roff: nat, n: nat)
    requires BlocksHold(rec, n) && InRange(rec, w) && roff < Pos(rec, w) < roff + n
    requires forall f :: 0 <= f < |rec| ==> 0 < |rec[f]|
    ensures InRange(rec, Back(w)) && BackwardEnd(rec, Back(w), roff, Pos(rec, w)) == Filled
  {
    hide Pos, RoundEnd, BackwardEnd, BlocksHold;
    BackPasses(rec, w, n);
    assert InRange(rec, Forth(Back(w)));
    NearBackward(rec, w, roff);
  }

  /** The starts of the rounds, going back from cut u, halve the t bytes behind roff until one starts before roff. */
  ghost predicate Halves(rec: Recording, u: seq<nat>, roff: nat, t: int)
    requires InRange(rec, u)
    decreases Sum(u)
  {
    var p := Pos(rec, u);
    p < roff || (roff < p && 2 * (p - roff) == t && (BackShorter(rec, u); Halves(rec, Back(u), roff, p - roff)))
  }

  /** Behind the first round, where the rounds abut, a request is read exactly if their starts halve it. */
  lemma {:induction false} FilledHalves(rec: Recording, u: seq<nat>, roff: nat)
    requires WellTimed(rec) && Rotates(rec) && IsCut(rec, u)
    requires InRange(rec, Forth(Start(rec))) && Pos(rec, Forth(Start(rec))) <= roff < RoundEnd(rec, u)
    ensures BackwardEnd(rec, u, roff, RoundEnd(rec, u)) == Filled <==> Halves(rec, u, roff, RoundEnd(rec, u) - roff)
    decreases Sum(u)
  {
    hide WellTimed, Rotates, IsCut, Pos, RoundEnd, TotalBytes;
    var p, q := Pos(rec, u), RoundEnd(rec, u);
    if roff < p {
      BackShorter(rec, u);
      LaterRound(rec, u);
      ForthBack(rec, u);
      RotationBack(rec, u);
      FilledHalves(rec, Back(u), roff);
      assert q - (p - roff) > p ==> BackwardEnd(rec, Back(u), roff, q - (p - roff)) != Filled;
    }
  }

  /** Behind the first round every member has started. */
  lemma {:induction false} LaterRound(rec: Recording, u: seq<nat>)
    requires WellTimed(rec) && InRange(rec, u) && InRange(rec, Back(u)) && InRange(rec, Forth(Start(rec)))
    requires Pos(rec, Forth(Start(rec))) < Pos(rec, u)
    ensures 0 < Pos(rec, Back(u))
  {
    hide Pos, WellTimed;
    if forall f :: 0 <= f < |u| ==> u[f] <= 1 {
      PosGrows(rec, u, Forth(Start(rec)));
    }
    var f :| 0 <= f < |u| && 1 < u[f];
    PosAbove(rec, Back(u), f);
  }

  lemma {:induction false} PosAbove(rec: Recording, u: seq<nat>, f: nat)
    requires WellTimed(rec) && InRange(rec, u) && f < |u| && u[f] > 0
    ensures 0 < Pos(rec, u)
  {
    assert Has(rec, f, u[f] - 1);
    SumTerm(Below(rec, u), f);
  }

  // ---------------------------------------------------------------- recordings of one member

  lemma {:induction false} OneRotates(rec: Recording)
    requires |rec| == 1
    ensures Rotates(rec)
  {
  }

  lemma {:induction false} OnePos(rec: Recording, k: nat)
    requires |rec| == 1 && k <= |rec[0]|
    ensures Pos(rec, [k]) == BytesBelow(rec[0], k)
  {
    assert Below(rec, [k])[..0] == [];
    assert Sum(Below(rec, [k])) == Sum(Below(rec, [k])[..0]) + Below(rec, [k])[0];
  }

  lemma {:induction false} OneTotal(rec: Recording)
    requires |rec| == 1
    ensures |Virtual(rec)| == BytesBelow(rec[0], |rec[0]|)
  {
    VirtualLength(rec);
    OnePos(rec, |rec[0]|);
    assert End(rec) == [|rec[0]|];
  }

  /** The rounds of a recording of one member are its blocks. */
  lemma {:induction false} OneRound(rec: Recording, k: nat)
    requires |rec| == 1 && k < |rec[0]|
    ensures Pos(rec, [k]) == BytesBelow(rec[0], k) && RoundEnd(rec, [k]) == BytesBelow(rec[0], k + 1)
    ensures Back([k + 1]) == [k]
  {
    OnePos(rec, k);
    OnePos(rec, k + 1);
    assert Forth([k]) == [k + 1];
  }
}
