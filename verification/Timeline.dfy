/**
 The specification of a recording: several members, each a list of blocks of
 packets, seen as one stream of packets in time order.

 A "cut" says, for every member, how many of its blocks lie before a point in
 time.  The virtual file is obtained by repeatedly taking the earliest block
 that has not been taken yet.  OrderIsTimeOrder and OrderIsUnique tie this merge
 to the plain reading: every block once, in increasing time.
 */
module Timeline {

  type Byte = x: int | 0 <= x < 256

  /** A block: the time tick of each of its packets, and their bytes. */
  datatype Block = Block(ticks: seq<int>, data: seq<Byte>) {
    function First(): int {
      if |ticks| > 0 then ticks[0] else 0
    }

    function Final(): int {
      if |ticks| > 0 then ticks[|ticks| - 1] else 0
    }

    ghost predicate Valid() {
      && |ticks| > 0
      && |data| > 0
      && Increasing(ticks)
    }
  }

  ghost predicate Increasing(ticks: seq<int>) {
    forall i, j :: 0 <= i < j < |ticks| ==> ticks[i] < ticks[j]
  }

  type Recording = seq<seq<Block>>

  ghost predicate Has(rec: Recording, f: int, b: int) {
    0 <= f < |rec| && 0 <= b < |rec[f]|
  }

  /** Blocks of one member follow each other; blocks of different members do not overlap. */
  ghost predicate Apart(rec: Recording, f: int, b: int, g: int, d: int) {
    Has(rec, f, b) && Has(rec, g, d) && (f != g || b < d) ==>
      || rec[f][b].Final() < rec[g][d].First()
      || (f != g && rec[g][d].Final() < rec[f][b].First())
  }

  ghost predicate WellTimed(rec: Recording) {
    && (forall f, b :: Has(rec, f, b) ==> rec[f][b].Valid())
    && (forall f, b, g, d :: Apart(rec, f, b, g, d))
  }

  lemma {:induction false} BlockSpan(block: Block)
    requires block.Valid()
    ensures block.First() + |block.ticks| - 1 <= block.Final()
  {
    SpanFrom(block.ticks, |block.ticks| - 1);
  }

  lemma {:induction false} SpanFrom(ticks: seq<int>, k: nat)
    requires k < |ticks|
    requires Increasing(ticks)
    ensures ticks[0] + k <= ticks[k]
  {
    if k > 0 {
      SpanFrom(ticks, k - 1);
      assert ticks[k - 1] < ticks[k];
    }
  }

  // ---------------------------------------------------------------- sums

  function Sum(s: seq<nat>): nat {
    if |s| == 0 then 0 else Sum(s[..|s| - 1]) + s[|s| - 1]
  }

  lemma {:induction false} SumUpdate(s: seq<nat>, i: nat, x: nat)
    requires i < |s|
    ensures Sum(s[i := x]) == Sum(s) - s[i] + x
  {
    var t := s[i := x];
    if i == |s| - 1 {
      assert t[..|s| - 1] == s[..|s| - 1];
    } else {
      SumUpdate(s[..|s| - 1], i, x);
      assert t[..|s| - 1] == s[..|s| - 1][i := x];
    }
  }

  lemma {:induction false} SumZeros(s: seq<nat>)
    requires forall i :: 0 <= i < |s| ==> s[i] == 0
    ensures Sum(s) == 0
  {
    if |s| > 0 {
      SumZeros(s[..|s| - 1]);
    }
  }

  lemma {:induction false} SumTerm(s: seq<nat>, i: nat)
    requires i < |s|
    ensures s[i] <= Sum(s)
  {
    if i < |s| - 1 {
      SumTerm(s[..|s| - 1], i);
    }
  }

  lemma {:induction false} SumAdd(a: seq<nat>, b: seq<nat>, c: seq<nat>)
    requires |a| == |b| == |c|
    requires forall i :: 0 <= i < |a| ==> c[i] == a[i] + b[i]
    ensures Sum(c) == Sum(a) + Sum(b)
  {
    if |a| > 0 {
      SumAdd(a[..|a| - 1], b[..|a| - 1], c[..|a| - 1]);
    }
  }

  // ---------------------------------------------------------------- cuts

  predicate InRange(rec: Recording, v: seq<nat>) {
    |v| == |rec| && forall f :: 0 <= f < |rec| ==> v[f] <= |rec[f]|
  }

  predicate Done(rec: Recording, v: seq<nat>)
    requires InRange(rec, v)
  {
    forall f :: 0 <= f < |rec| ==> v[f] == |rec[f]|
  }

  function Step(v: seq<nat>, m: nat): seq<nat>
    requires m < |v|
  {
    v[m := v[m] + 1]
  }

  ghost predicate Split(rec: Recording, v: seq<nat>, f: int, b: int, g: int, d: int)
    requires InRange(rec, v)
  {
    Has(rec, f, b) && Has(rec, g, d) && b < v[f] && v[g] <= d ==> rec[f][b].First() < rec[g][d].First()
  }

  /** Every block counted in v starts before every block not counted in v. */
  ghost predicate IsCut(rec: Recording, v: seq<nat>)
    ensures IsCut(rec, v) ==> InRange(rec, v)
  {
    && InRange(rec, v)
    && forall f, b, g, d :: Split(rec, v, f, b, g, d)
  }

  /** The first block of member m not in v is the earliest of all blocks not in v. */
  ghost predicate IsNext(rec: Recording, v: seq<nat>, m: nat)
    requires InRange(rec, v)
  {
    && m < |rec|
    && v[m] < |rec[m]|
    && forall g :: 0 <= g < |rec| && v[g] < |rec[g]| ==> rec[m][v[m]].First() <= rec[g][v[g]].First()
  }

  /** The earliest remaining block among the first k members, or -1. */
  function Earliest(rec: Recording, v: seq<nat>, k: nat): (m: int)
    requires InRange(rec, v) && k <= |rec|
    ensures -1 <= m < k
    ensures m == -1 ==> forall g :: 0 <= g < k ==> v[g] == |rec[g]|
    ensures m >= 0 ==> v[m] < |rec[m]|
    ensures m >= 0 ==> forall g :: 0 <= g < k && v[g] < |rec[g]| ==> rec[m][v[m]].First() <= rec[g][v[g]].First()
  {
    if k == 0 then -1
    else
      var m := Earliest(rec, v, k - 1);
      if v[k - 1] == |rec[k - 1]| then m
      else if m == -1 || rec[k - 1][v[k - 1]].First() < rec[m][v[m]].First() then k - 1
      else m
  }

  function NextOf(rec: Recording, v: seq<nat>): (m: nat)
    requires InRange(rec, v) && !Done(rec, v)
    ensures IsNext(rec, v, m)
  {
    var m := Earliest(rec, v, |rec|);
    m
  }

  lemma {:induction false} NextUnique(rec: Recording, v: seq<nat>, m: nat)
    requires WellTimed(rec) && InRange(rec, v) && IsNext(rec, v, m)
    ensures !Done(rec, v) && m == NextOf(rec, v)
  {
    var n := NextOf(rec, v);
    if m != n {
      assert Has(rec, m, v[m]) && Has(rec, n, v[n]);
      assert Apart(rec, m, v[m], n, v[n]);
      BlockSpan(rec[m][v[m]]);
      BlockSpan(rec[n][v[n]]);
    }
  }

  lemma {:induction false} MemberOrder(rec: Recording, f: nat, b: nat, d: nat)
    requires WellTimed(rec) && Has(rec, f, b) && Has(rec, f, d) && b <= d
    ensures rec[f][b].First() <= rec[f][d].First()
    ensures b < d ==> rec[f][b].First() < rec[f][d].First()
  {
    assert Apart(rec, f, b, f, d);
    BlockSpan(rec[f][b]);
  }

  /** The next block starts before everything else that remains. */
  lemma {:induction false} NextIsFirst(rec: Recording, v: seq<nat>, m: nat, g: nat, d: nat)
    requires WellTimed(rec) && InRange(rec, v) && IsNext(rec, v, m)
    requires Has(rec, g, d) && v[g] <= d
    ensures rec[m][v[m]].First() <= rec[g][d].First()
    ensures g != m || d != v[m] ==> rec[m][v[m]].Final() < rec[g][d].First()
  {
    assert Has(rec, g, v[g]) && Has(rec, m, v[m]);
    assert Apart(rec, m, v[m], g, d);
    MemberOrder(rec, g, v[g], d);
    BlockSpan(rec[g][d]);
    BlockSpan(rec[m][v[m]]);
  }

  lemma {:induction false} CutStep(rec: Recording, v: seq<nat>, m: nat)
    requires WellTimed(rec) && IsCut(rec, v) && IsNext(rec, v, m)
    ensures IsCut(rec, Step(v, m))
  {
    var w := Step(v, m);
    forall f, b, g, d
      ensures Split(rec, w, f, b, g, d)
    {
      assert Split(rec, v, f, b, g, d);
      if Has(rec, f, b) && Has(rec, g, d) && b < w[f] && w[g] <= d && v[f] <= b {
        NextIsFirst(rec, v, m, g, d);
        BlockSpan(rec[m][b]);
      }
    }
  }

  function BytesBelow(blocks: seq<Block>, k: nat): nat
    requires k <= |blocks|
  {
    if k == 0 then 0 else BytesBelow(blocks, k - 1) + |blocks[k - 1].data|
  }

  function Below(rec: Recording, v: seq<nat>): (s: seq<nat>)
    requires InRange(rec, v)
    ensures |s| == |rec|
  {
    seq(|rec|, f requires 0 <= f < |rec| => BytesBelow(rec[f], v[f]))
  }

  /** Bytes of all blocks counted in v. */
  function Pos(rec: Recording, v: seq<nat>): nat
    requires InRange(rec, v)
  {
    Sum(Below(rec, v))
  }

  function Remaining(rec: Recording, v: seq<nat>): (s: seq<nat>)
    requires InRange(rec, v)
    ensures |s| == |rec|
  {
    seq(|rec|, f requires 0 <= f < |rec| => (|rec[f]| - v[f]) as nat)
  }

  function Left(rec: Recording, v: seq<nat>): nat
    requires InRange(rec, v)
  {
    Sum(Remaining(rec, v))
  }

  lemma {:induction false} StepLeft(rec: Recording, v: seq<nat>, m: nat)
    requires InRange(rec, v) && m < |rec| && v[m] < |rec[m]|
    ensures InRange(rec, Step(v, m))
    ensures Left(rec, Step(v, m)) == Left(rec, v) - 1
  {
    SumUpdate(Remaining(rec, v), m, |rec[m]| - v[m] - 1);
    assert Remaining(rec, Step(v, m)) == Remaining(rec, v)[m := |rec[m]| - v[m] - 1];
  }

  lemma {:induction false} StepPos(rec: Recording, v: seq<nat>, m: nat)
    requires InRange(rec, v) && m < |rec| && v[m] < |rec[m]|
    ensures InRange(rec, Step(v, m))
    ensures Pos(rec, Step(v, m)) == Pos(rec, v) + |rec[m][v[m]].data|
  {
    var x := BytesBelow(rec[m], v[m] + 1);
    SumUpdate(Below(rec, v), m, x);
    assert Below(rec, Step(v, m)) == Below(rec, v)[m := x];
  }

  function Start(rec: Recording): (v: seq<nat>)
    ensures InRange(rec, v)
    ensures forall f :: 0 <= f < |rec| ==> v[f] == 0
  {
    seq(|rec|, f => 0)
  }

  function End(rec: Recording): (v: seq<nat>)
    ensures InRange(rec, v) && Done(rec, v)
  {
    seq(|rec|, f requires 0 <= f < |rec| => |rec[f]|)
  }

  // ---------------------------------------------------------------- the merge

  /** The blocks not in v, as (member, block) pairs, earliest first. */
  function Order(rec: Recording, v: seq<nat>): seq<(nat, nat)>
    requires InRange(rec, v)
    decreases Left(rec, v)
  {
    if Done(rec, v) then []
    else
      var m := NextOf(rec, v);
      StepLeft(rec, v, m);
      [(m, v[m])] + Order(rec, Step(v, m))
  }

  /** The bytes of the blocks not in v, earliest block first. */
  function Stream(rec: Recording, v: seq<nat>): seq<Byte>
    requires InRange(rec, v)
    decreases Left(rec, v)
  {
    if Done(rec, v) then []
    else
      var m := NextOf(rec, v);
      StepLeft(rec, v, m);
      rec[m][v[m]].data + Stream(rec, Step(v, m))
  }

  /** The virtual file presented to the reader. */
  function Virtual(rec: Recording): seq<Byte> {
    Stream(rec, Start(rec))
  }

  function TotalBytes(rec: Recording): nat {
    Pos(rec, End(rec))
  }

  lemma {:induction false} StreamLength(rec: Recording, v: seq<nat>)
    requires InRange(rec, v)
    ensures Pos(rec, v) + |Stream(rec, v)| == TotalBytes(rec)
    decreases Left(rec, v)
  {
    if Done(rec, v) {
      assert v == End(rec);
    } else {
      var m := NextOf(rec, v);
      StepLeft(rec, v, m);
      StepPos(rec, v, m);
      StreamLength(rec, Step(v, m));
    }
  }

  lemma {:induction false} StartPos(rec: Recording)
    ensures Pos(rec, Start(rec)) == 0
  {
    SumZeros(Below(rec, Start(rec)));
  }

  lemma {:induction false} StartIsCut(rec: Recording)
    ensures IsCut(rec, Start(rec))
  {
  }

  lemma {:induction false} VirtualLength(rec: Recording)
    ensures |Virtual(rec)| == TotalBytes(rec)
  {
    StartPos(rec);
    StreamLength(rec, Start(rec));
  }

  predicate AtMost(u: seq<nat>, v: seq<nat>) {
    |u| == |v| && forall f :: 0 <= f < |u| ==> u[f] <= v[f]
  }

  /** A merge that has not reached a cut yet does not step over it. */
  lemma {:induction false} NextStaysBelow(rec: Recording, u: seq<nat>, v: seq<nat>)
    requires WellTimed(rec) && InRange(rec, u) && IsCut(rec, v) && AtMost(u, v) && u != v
    ensures !Done(rec, u)
    ensures AtMost(Step(u, NextOf(rec, u)), v)
  {
    var f :| 0 <= f < |u| && u[f] < v[f];
    var m := NextOf(rec, u);
    assert Has(rec, f, u[f]) && Has(rec, m, u[m]);
    assert Split(rec, v, f, u[f], m, u[m]);
    assert rec[m][u[m]].First() <= rec[f][u[f]].First();
  }

  lemma {:induction false} MergeStep(rec: Recording, u: seq<nat>) returns (w: seq<nat>, data: seq<Byte>)
    requires InRange(rec, u) && !Done(rec, u)
    ensures w == Step(u, NextOf(rec, u)) && InRange(rec, w)
    ensures Left(rec, w) < Left(rec, u)
    ensures Stream(rec, u) == data + Stream(rec, w)
    ensures Pos(rec, w) == Pos(rec, u) + |data|
  {
    var m := NextOf(rec, u);
    StepLeft(rec, u, m);
    StepPos(rec, u, m);
    w, data := Step(u, m), rec[m][u[m]].data;
  }

  /** The stream from a cut is what follows the bytes merged on the way to that cut. */
  lemma {:induction false} StreamFrom(rec: Recording, u: seq<nat>, v: seq<nat>) returns (pre: seq<Byte>)
    requires WellTimed(rec) && InRange(rec, u) && IsCut(rec, v) && AtMost(u, v)
    ensures Stream(rec, u) == pre + Stream(rec, v)
    ensures Pos(rec, v) == Pos(rec, u) + |pre|
    decreases Left(rec, u)
  {
    assert InRange(rec, v);
    if u == v {
      pre := [];
    } else {
      NextStaysBelow(rec, u, v);
      var w, data := MergeStep(rec, u);
      var rest := StreamFrom(rec, w, v);
      pre := data + rest;
      assert data + (rest + Stream(rec, v)) == pre + Stream(rec, v);
    }
  }

  lemma {:induction false} CutInVirtual(rec: Recording, v: seq<nat>)
    requires WellTimed(rec) && IsCut(rec, v)
    ensures Pos(rec, v) <= |Virtual(rec)|
    ensures Virtual(rec)[Pos(rec, v)..] == Stream(rec, v)
  {
    assert InRange(rec, v);
    StartPos(rec);
    var pre := StreamFrom(rec, Start(rec), v);
    assert Virtual(rec) == pre + Stream(rec, v);
  }

  // ---------------------------------------------------------------- the merge is the time order

  ghost predicate Earlier(rec: Recording, x: (nat, nat), y: (nat, nat)) {
    && Has(rec, x.0, x.1)
    && Has(rec, y.0, y.1)
    && rec[x.0][x.1].Final() < rec[y.0][y.1].First()
  }

  ghost predicate Lists(list: seq<(nat, nat)>, f: nat, b: nat) {
    (f, b) in list
  }

  /** The list names exactly the blocks not counted in v. */
  ghost predicate Covers(rec: Recording, v: seq<nat>, list: seq<(nat, nat)>)
    requires InRange(rec, v)
  {
    forall f: nat, b: nat :: Lists(list, f, b) <==> Has(rec, f, b) && v[f] <= b
  }

  /** Each block of the list ends before the next ones start. */
  ghost predicate InTimeOrder(rec: Recording, list: seq<(nat, nat)>) {
    forall i, j :: 0 <= i < j < |list| ==> Earlier(rec, list[i], list[j])
  }

  lemma {:induction false} TimeOrderPrepend(rec: Recording, x: (nat, nat), list: seq<(nat, nat)>)
    requires InTimeOrder(rec, list)
    requires forall j :: 0 <= j < |list| ==> Earlier(rec, x, list[j])
    ensures InTimeOrder(rec, [x] + list)
  {
  }

  lemma {:induction false} OrderLists(rec: Recording, v: seq<nat>)
    requires InRange(rec, v)
    ensures Covers(rec, v, Order(rec, v))
    decreases Left(rec, v)
  {
    if !Done(rec, v) {
      var m := NextOf(rec, v);
      StepLeft(rec, v, m);
      var w := Step(v, m);
      OrderLists(rec, w);
      forall f: nat, b: nat
        ensures Lists(Order(rec, v), f, b) <==> Has(rec, f, b) && v[f] <= b
      {
        assert (f, b) in Order(rec, v) <==> (f, b) == (m, v[m]) || Lists(Order(rec, w), f, b);
      }
    }
  }

  lemma {:induction false} OrderListed(rec: Recording, v: seq<nat>, k: nat)
    requires InRange(rec, v) && k < |Order(rec, v)|
    ensures var (f, b) := Order(rec, v)[k]; Has(rec, f, b) && v[f] <= b
  {
    OrderLists(rec, v);
    var (f, b) := Order(rec, v)[k];
    assert Lists(Order(rec, v), f, b);
  }

  lemma {:induction false} OrderSorted(rec: Recording, v: seq<nat>)
    requires WellTimed(rec) && InRange(rec, v)
    ensures InTimeOrder(rec, Order(rec, v))
    decreases Left(rec, v)
  {
    if !Done(rec, v) {
      var m := NextOf(rec, v);
      StepLeft(rec, v, m);
      var w := Step(v, m);
      OrderSorted(rec, w);
      var rest := Order(rec, w);
      forall j | 0 <= j < |rest|
        ensures Earlier(rec, (m, v[m]), rest[j])
      {
        OrderListed(rec, w, j);
        NextIsFirst(rec, v, m, rest[j].0, rest[j].1);
        assert Has(rec, m, v[m]);
      }
      TimeOrderPrepend(rec, (m, v[m]), rest);
    }
  }

  /** The virtual file's block order: every block exactly once, in increasing time. */
  lemma {:induction false} OrderIsTimeOrder(rec: Recording)
    requires WellTimed(rec)
    ensures var list := Order(rec, Start(rec));
            && InTimeOrder(rec, list)
            && Covers(rec, Start(rec), list)
            && (forall i, j :: 0 <= i < j < |list| ==> list[i] != list[j])
  {
    OrderSorted(rec, Start(rec));
    OrderLists(rec, Start(rec));
    var list := Order(rec, Start(rec));
    forall i, j | 0 <= i < j < |list|
      ensures list[i] != list[j]
    {
      assert Earlier(rec, list[i], list[j]);
      BlockSpan(rec[list[i].0][list[i].1]);
    }
  }

  /** Any listing of all the blocks in increasing time is the order of the virtual file. */
  lemma {:induction false} OrderIsUnique(rec: Recording, v: seq<nat>, list: seq<(nat, nat)>)
    requires WellTimed(rec) && InRange(rec, v)
    requires InTimeOrder(rec, list)
    requires Covers(rec, v, list)
    ensures list == Order(rec, v)
    decreases Left(rec, v)
  {
    if Done(rec, v) {
      assert list != [] ==> Lists(list, list[0].0, list[0].1);
    } else {
      var m := NextOf(rec, v);
      StepLeft(rec, v, m);
      HeadIsNext(rec, v, list);
      var rest := list[1..];
      TailCovers(rec, v, list);
      OrderIsUnique(rec, Step(v, m), rest);
      assert list == [list[0]] + rest;
    }
  }

  lemma {:induction false} HeadIsNext(rec: Recording, v: seq<nat>, list: seq<(nat, nat)>)
    requires WellTimed(rec) && InRange(rec, v) && !Done(rec, v)
    requires InTimeOrder(rec, list)
    requires Covers(rec, v, list)
    ensures list != [] && list[0] == (NextOf(rec, v), v[NextOf(rec, v)])
  {
    var m := NextOf(rec, v);
    assert Has(rec, m, v[m]);
    assert Lists(list, m, v[m]);
    var k :| 0 <= k < |list| && list[k] == (m, v[m]);
    var (g, d) := list[0];
    assert Lists(list, g, d);
    if k > 0 {
      assert Earlier(rec, list[0], list[k]);
      NextIsFirst(rec, v, m, g, d);
      BlockSpan(rec[g][d]);
    }
  }

  lemma {:induction false} TailCovers(rec: Recording, v: seq<nat>, list: seq<(nat, nat)>)
    requires WellTimed(rec) && InRange(rec, v) && !Done(rec, v)
    requires InTimeOrder(rec, list) && Covers(rec, v, list)
    requires list != [] && list[0] == (NextOf(rec, v), v[NextOf(rec, v)])
    ensures Covers(rec, Step(v, NextOf(rec, v)), list[1..])
  {
    var rest := list[1..];
    forall f: nat, b: nat
      ensures Lists(rest, f, b) <==> Has(rec, f, b) && Step(v, NextOf(rec, v))[f] <= b
    {
      if (f, b) == list[0] && (f, b) in rest {
        var k :| 0 <= k < |rest| && rest[k] == (f, b);
        assert Earlier(rec, list[0], list[k + 1]);
        BlockSpan(rec[f][b]);
      }
      assert Lists(list, f, b) <==> (f, b) == list[0] || (f, b) in rest;
    }
  }

  function DataOf(rec: Recording, x: (nat, nat)): seq<Byte> {
    if x.0 < |rec| && x.1 < |rec[x.0]| then rec[x.0][x.1].data else []
  }

  /** The bytes of the listed blocks, one block after the other. */
  function Concat(rec: Recording, list: seq<(nat, nat)>): seq<Byte> {
    if list == [] then [] else DataOf(rec, list[0]) + Concat(rec, list[1..])
  }

  lemma {:induction false} StreamIsConcat(rec: Recording, v: seq<nat>)
    requires InRange(rec, v)
    ensures Stream(rec, v) == Concat(rec, Order(rec, v))
    decreases Left(rec, v)
  {
    if !Done(rec, v) {
      var m := NextOf(rec, v);
      StepLeft(rec, v, m);
      StreamIsConcat(rec, Step(v, m));
      assert Order(rec, v)[1..] == Order(rec, Step(v, m));
    }
  }

  /**
   The virtual file is the only byte string obtained by writing all blocks of
   all members one after the other in increasing time.
   */
  lemma {:induction false} VirtualIsTimeMerge(rec: Recording, list: seq<(nat, nat)>)
    requires WellTimed(rec)
    requires InTimeOrder(rec, list)
    requires Covers(rec, Start(rec), list)
    ensures Virtual(rec) == Concat(rec, list)
  {
    OrderIsUnique(rec, Start(rec), list);
    StreamIsConcat(rec, Start(rec));
  }
}
