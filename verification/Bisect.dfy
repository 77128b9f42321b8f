/**
 The search for jumps of a clock reading: bisection with a list of pending
 intervals.  A datum stands for a reading rounded to the resolution searched at,
 so that equal data mean "no jump".
 */
module Bisect {

  /** The packet at the lesser and the bigger offset, their data, and the packet whose time is reported. */
  datatype Interval = Interval(lesser: nat, ldatum: int, bigger: nat, bdatum: int, pkt: nat)

  /** The intervals, those before read being done with, and the offset to read next. */
  datatype Search = Search(stack: seq<Interval>, read: nat, next: nat, midway: nat)

  /** The middle of an interval, in 32-bit unsigned arithmetic. */
  function Mid(a: nat, b: nat): nat {
    (a + b) % 0x1_0000_0000 / 2
  }

  /** The middle stays inside the interval exactly as long as the sum of its ends does not wrap around. */
  lemma {:induction false} MidInside(l: nat, b: nat)
    requires l < b < 0x1_0000_0000
    ensures l <= Mid(l, b) < b <==> l + b < 0x1_0000_0000
    ensures l + b < 0x1_0000_0000 ==> 2 * Mid(l, b) <= l + b <= 2 * Mid(l, b) + 1
  {
    if l + b >= 0x1_0000_0000 {
      assert (l + b) % 0x1_0000_0000 == l + b - 0x1_0000_0000;
    }
  }

  function NextFrom(stack: seq<Interval>, read: nat, midway: nat): nat {
    if read < |stack| then Mid(stack[read].bigger, stack[read].lesser) else midway
  }

  /** What becomes of the current interval: it is done with, replaced, or replaced with a part left for later. */
  datatype Move = Done | Narrow(now: Interval) | Split(now: Interval, later: Interval)

  /** Reconcile the datum md read at m with the interval. */
  function MoveOf(cur: Interval, m: nat, md: int): Move {
    if cur.ldatum == md && md == cur.bdatum then Done
    else if cur.ldatum == md then
      if cur.lesser != m then Narrow(cur.(lesser := m, ldatum := md, pkt := m)) else Done
    else if md == cur.bdatum then
      if cur.bigger != m then Narrow(cur.(bigger := m, bdatum := md, pkt := m)) else Done
    else Split(cur.(bigger := m, bdatum := md), Interval(m, md, cur.bigger, cur.bdatum, m))
  }

  /** Reconcile the datum md read at s.next with the current interval. */
  function Resolve(s: Search, md: int): (t: Search)
    requires s.read < |s.stack|
    ensures |s.stack| <= |t.stack| <= |s.stack| + 1
    ensures s.read <= t.read <= s.read + 1
    ensures t.midway == s.midway && t.next == NextFrom(t.stack, t.read, t.midway)
  {
    var (stack, read) :=
      match MoveOf(s.stack[s.read], s.next, md)
      case Done => (s.stack, s.read + 1)
      case Narrow(now) => (s.stack[s.read := now], s.read)
      case Split(now, later) => (s.stack[s.read := now] + [later], s.read);
    Search(stack, read, NextFrom(stack, read, s.midway), s.midway)
  }

  // ---------------------------------------------------------------- what every step keeps

  /** The data of packets first..final are searched; sums of offsets fit in 32 bits. */
  predicate Range(d: seq<int>, first: nat, final: nat) {
    first < final < |d| && final <= 0x8000_0000
  }

  /** An interval of the range with the data read at its ends. */
  predicate Sound(d: seq<int>, first: nat, final: nat, i: Interval) {
    && first <= i.lesser < i.bigger <= final < |d|
    && i.ldatum == d[i.lesser] && i.bdatum == d[i.bigger]
  }

  /** A jump located exactly: between two adjacent packets. */
  predicate Exact(i: Interval) {
    i.bigger == i.lesser + 1 && i.ldatum != i.bdatum
  }

  predicate Disjoint(i: Interval, j: Interval) {
    i.bigger <= j.lesser || j.bigger <= i.lesser
  }

  /** No difference between the ends of the range was seen. */
  predicate Flat(s: Search) {
    |s.stack| == 1 && s.stack[0].ldatum == s.stack[0].bdatum
  }

  ghost predicate Inv(d: seq<int>, first: nat, final: nat, s: Search) {
    && Range(d, first, final)
    && s.read <= |s.stack| && 0 < |s.stack|
    && s.next == NextFrom(s.stack, s.read, s.midway)
    && (forall i :: 0 <= i < |s.stack| ==> Sound(d, first, final, s.stack[i]))
    && (Flat(s) || forall i :: 0 <= i < |s.stack| ==> s.stack[i].ldatum != s.stack[i].bdatum)
    && (Flat(s) || forall i :: 0 <= i < s.read ==> Exact(s.stack[i]))
    && (forall i, j :: 0 <= i < j < |s.stack| ==> Disjoint(s.stack[i], s.stack[j]))
  }

  /** What is left to do: an interval of n packets needs at most 2n - 1 readings. */
  function Work(stack: seq<Interval>, read: nat): int
    requires read <= |stack|
    decreases |stack| - read
  {
    if read == |stack| then 0
    else 2 * (stack[read].bigger - stack[read].lesser) - 1 + Work(stack, read + 1)
  }

  lemma {:induction false} WorkSame(a: seq<Interval>, b: seq<Interval>, read: nat)
    requires read <= |a| == |b| && forall i :: read <= i < |a| ==> a[i] == b[i]
    ensures Work(a, read) == Work(b, read)
    decreases |a| - read
  {
    if read < |a| {
      WorkSame(a, b, read + 1);
    }
  }

  lemma {:induction false} WorkAppend(a: seq<Interval>, i: Interval, read: nat)
    requires read <= |a|
    ensures Work(a + [i], read) == Work(a, read) + 2 * (i.bigger - i.lesser) - 1
    decreases |a| - read
  {
    if read < |a| {
      WorkAppend(a, i, read + 1);
    }
  }

  lemma {:induction false} WorkPositive(d: seq<int>, first: nat, final: nat, stack: seq<Interval>, read: nat)
    requires read <= |stack| && forall i :: 0 <= i < |stack| ==> Sound(d, first, final, stack[i])
    ensures 0 <= Work(stack, read)
    decreases |stack| - read
  {
    if read < |stack| {
      WorkPositive(d, first, final, stack, read + 1);
    }
  }

  /** What a reading in the middle makes of a sound interval. */
  lemma {:induction false} MoveSound(d: seq<int>, first: nat, final: nat, cur: Interval)
    requires Range(d, first, final) && Sound(d, first, final, cur)
    ensures var m := Mid(cur.bigger, cur.lesser);
            && cur.lesser <= m < cur.bigger
            && match MoveOf(cur, m, d[m])
               case Done => cur.ldatum == cur.bdatum || (Exact(cur) && m == cur.lesser)
               case Narrow(now) =>
                 && Sound(d, first, final, now) && Part(now, cur) && Length(now) < Length(cur)
                 && now.ldatum == cur.ldatum != cur.bdatum == now.bdatum
               case Split(now, later) =>
                 && Sound(d, first, final, now) && Sound(d, first, final, later)
                 && Part(now, cur) && Part(later, cur) && now.bigger == later.lesser
                 && Length(now) + Length(later) == Length(cur)
                 && now.ldatum != now.bdatum && later.ldatum != later.bdatum
  {
    MidInside(cur.lesser, cur.bigger);
  }

  predicate Part(i: Interval, j: Interval) {
    j.lesser <= i.lesser && i.bigger <= j.bigger
  }

  function Length(i: Interval): int {
    i.bigger - i.lesser
  }

  /** The reading to come is in the middle of the current interval, which is sound. */
  lemma {:induction false} CurrentSound(d: seq<int>, first: nat, final: nat, s: Search)
    requires Inv(d, first, final, s) && s.read < |s.stack|
    ensures Sound(d, first, final, s.stack[s.read]) && Range(d, first, final)
    ensures s.next == Mid(s.stack[s.read].bigger, s.stack[s.read].lesser)
  {
  }

  /** Every reading brings the search nearer to its end. */
  lemma {:induction false} ResolveWorks(d: seq<int>, first: nat, final: nat, s: Search)
    requires Inv(d, first, final, s) && s.read < |s.stack|
    ensures s.next < |d|
    ensures var t := Resolve(s, d[s.next]);
            0 <= Work(t.stack, t.read) < Work(s.stack, s.read)
  {
    var cur := s.stack[s.read];
    CurrentSound(d, first, final, s);
    MoveSound(d, first, final, cur);
    WorkPositive(d, first, final, s.stack, s.read + 1);
    hide Inv, MoveOf, Mid;
    match MoveOf(cur, s.next, d[s.next]) {
      case Done =>
      case Narrow(now) =>
        WorkNarrow(s.stack, s.read, now);
      case Split(now, later) =>
        WorkNarrow(s.stack, s.read, now);
        WorkAppend(s.stack[s.read := now], later, s.read);
    }
  }

  lemma {:induction false} WorkNarrow(stack: seq<Interval>, read: nat, now: Interval)
    requires read < |stack|
    ensures Work(stack[read := now], read) == 2 * Length(now) - 1 + Work(stack, read + 1)
  {
    WorkSame(stack[read := now], stack, read + 1);
  }

  /** Every reading keeps the intervals sound, apart, and exact once they are done with. */
  lemma {:induction false} ResolveKeeps(d: seq<int>, first: nat, final: nat, s: Search)
    requires Inv(d, first, final, s) && s.read < |s.stack|
    ensures s.next < |d| && Inv(d, first, final, Resolve(s, d[s.next]))
  {
    var cur := s.stack[s.read];
    CurrentSound(d, first, final, s);
    MoveSound(d, first, final, cur);
    hide MoveOf, Mid;
    match MoveOf(cur, s.next, d[s.next]) {
      case Done =>
      case Narrow(now) =>
        NarrowKeeps(d, first, final, s, now);
      case Split(now, later) =>
        NarrowKeeps(d, first, final, s, now);
        SplitKeeps(d, first, final, s, now, later);
    }
  }

  /** The intervals of a search, apart from where it has got to. */
  ghost predicate Intervals(d: seq<int>, first: nat, final: nat, stack: seq<Interval>) {
    && (forall i :: 0 <= i < |stack| ==> Sound(d, first, final, stack[i]))
    && (forall i, j :: 0 <= i < j < |stack| ==> Disjoint(stack[i], stack[j]))
  }

  lemma {:induction false} NarrowKeeps(d: seq<int>, first: nat, final: nat, s: Search, now: Interval)
    requires Inv(d, first, final, s) && s.read < |s.stack|
    requires Sound(d, first, final, now) && Part(now, s.stack[s.read])
    ensures Intervals(d, first, final, s.stack[s.read := now])
  {
    var stack := s.stack[s.read := now];
    forall i, j | 0 <= i < j < |stack|
      ensures Disjoint(stack[i], stack[j])
    {
      assert Disjoint(s.stack[i], s.stack[j]);
    }
  }

  lemma {:induction false} SplitKeeps(d: seq<int>, first: nat, final: nat, s: Search, now: Interval, later: Interval)
    requires Inv(d, first, final, s) && s.read < |s.stack|
    requires Intervals(d, first, final, s.stack[s.read := now])
    requires Sound(d, first, final, later) && Part(later, s.stack[s.read]) && now.bigger == later.lesser
    ensures Intervals(d, first, final, s.stack[s.read := now] + [later])
  {
    var stack := s.stack[s.read := now];
    forall i | 0 <= i < |stack|
      ensures Disjoint(stack[i], later)
    {
      assert i < s.read ==> Disjoint(s.stack[i], s.stack[s.read]);
      assert s.read < i ==> Disjoint(s.stack[s.read], s.stack[i]);
    }
  }

  // ---------------------------------------------------------------- jumps

  /** Equal data come from one run of packets. */
  ghost predicate Runs(d: seq<int>, first: nat, final: nat)
    requires final < |d|
  {
    forall a, b, c :: first <= a <= b <= c <= final && d[a] == d[c] ==> d[a] == d[b]
  }

  predicate Jump(d: seq<int>, first: nat, final: nat, o: nat)
    requires final < |d|
  {
    first <= o < final && d[o] != d[o + 1]
  }

  predicate Holds(i: Interval, o: nat) {
    i.lesser <= o < i.bigger
  }

  predicate Bracketed(stack: seq<Interval>, o: nat) {
    exists i :: 0 <= i < |stack| && Holds(stack[i], o)
  }

  ghost predicate AllBracketed(d: seq<int>, first: nat, final: nat, stack: seq<Interval>)
    requires final < |d|
  {
    forall o :: Jump(d, first, final, o) ==> Bracketed(stack, o)
  }

  /** No jump slips out of the intervals. */
  lemma {:induction false} ResolveBrackets(d: seq<int>, first: nat, final: nat, s: Search)
    requires Inv(d, first, final, s) && s.read < |s.stack|
    requires Runs(d, first, final) && AllBracketed(d, first, final, s.stack)
    ensures s.next < |d| && AllBracketed(d, first, final, Resolve(s, d[s.next]).stack)
  {
    var cur := s.stack[s.read];
    CurrentSound(d, first, final, s);
    MidInside(cur.lesser, cur.bigger);
    hide Inv;
    var t := Resolve(s, d[s.next]);
    forall o | Jump(d, first, final, o)
      ensures Bracketed(t.stack, o)
    {
      var i :| 0 <= i < |s.stack| && Holds(s.stack[i], o);
      if i != s.read {
        assert Holds(t.stack[i], o);
      } else {
        JumpHeld(d, first, final, cur, o);
        assert Holds(t.stack[i], o) || Holds(t.stack[|t.stack| - 1], o);
      }
    }
  }

  /** A jump in the current interval is in what becomes of it. */
  lemma {:induction false} JumpHeld(d: seq<int>, first: nat, final: nat, cur: Interval, o: nat)
    requires Range(d, first, final) && Sound(d, first, final, cur) && Runs(d, first, final)
    requires Jump(d, first, final, o) && Holds(cur, o)
    ensures var m := Mid(cur.bigger, cur.lesser);
            && m < |d|
            && match MoveOf(cur, m, d[m])
               case Done => true
               case Narrow(now) => Holds(now, o)
               case Split(now, later) => Holds(now, o) || Holds(later, o)
  {
    MidInside(cur.lesser, cur.bigger);
    JumpSide(d, first, final, cur, Mid(cur.bigger, cur.lesser), o);
  }

  /** Between equal data there is no jump. */
  lemma {:induction false} JumpSide(d: seq<int>, first: nat, final: nat, i: Interval, m: nat, o: nat)
    requires Sound(d, first, final, i) && Runs(d, first, final) && Jump(d, first, final, o) && Holds(i, o)
    requires i.lesser <= m <= i.bigger
    ensures d[m] == i.ldatum ==> m <= o
    ensures d[m] == i.bdatum ==> o < m
  {
  }

  /** The interval that says that packets o and o + 1 differ. */
  predicate Located(stack: seq<Interval>, o: nat) {
    exists i :: 0 <= i < |stack| && stack[i].lesser == o && Exact(stack[i])
  }

  /** When all intervals are done with, they are exactly the jumps. */
  lemma {:induction false} ExhaustedFindsJumps(d: seq<int>, first: nat, final: nat, s: Search, o: nat)
    requires Inv(d, first, final, s) && s.read == |s.stack|
    requires Runs(d, first, final) && AllBracketed(d, first, final, s.stack)
    ensures Jump(d, first, final, o) <==> Located(s.stack, o)
  {
    if Jump(d, first, final, o) {
      var i :| 0 <= i < |s.stack| && Holds(s.stack[i], o);
      assert Sound(d, first, final, s.stack[i]);
      JumpSide(d, first, final, s.stack[i], s.stack[i].bigger, o);
      assert Exact(s.stack[i]) && s.stack[i].lesser == o;
    }
    if Located(s.stack, o) {
      var i :| 0 <= i < |s.stack| && s.stack[i].lesser == o && Exact(s.stack[i]);
      assert Sound(d, first, final, s.stack[i]);
    }
  }

  // ---------------------------------------------------------------- stopping

  /** While there is work left, every interval lies on one side of the first middle, and sees a difference. */
  predicate Sided(s: Search) {
    s.read < |s.stack| ==>
      && !Flat(s)
      && forall i :: 0 <= i < |s.stack| ==> s.stack[i].bigger <= s.midway || s.midway <= s.stack[i].lesser
  }

  /** No jump right behind the first middle is done with, except in a range of two packets. */
  predicate SparesMiddle(s: Search, first: nat) {
    && s.read <= |s.stack|
    && (s.midway == first ==> s.read == |s.stack|)
    && (s.midway != first ==> forall i :: 0 <= i < s.read && Exact(s.stack[i]) ==> s.stack[i].lesser != s.midway)
  }

  /** The search of a range before its first middle is read. */
  function Initial(d: seq<int>, first: nat, final: nat): Search
    requires first <= final < |d|
  {
    var mid := Mid(final, first);
    Search([Interval(first, d[first], final, d[final], final)], 0, mid, mid)
  }

  lemma {:induction false} InitialInv(d: seq<int>, first: nat, final: nat)
    requires Range(d, first, final)
    ensures Inv(d, first, final, Initial(d, first, final))
    ensures AllBracketed(d, first, final, Initial(d, first, final).stack)
  {
    var s := Initial(d, first, final);
    assert Sound(d, first, final, s.stack[0]);
    forall o | Jump(d, first, final, o)
      ensures Bracketed(s.stack, o)
    {
      assert Holds(s.stack[0], o);
    }
  }

  lemma {:induction false} FirstStep(d: seq<int>, first: nat, final: nat)
    requires Range(d, first, final)
    ensures var s := Initial(d, first, final);
            s.next < |d| && Sided(Resolve(s, d[s.next])) && SparesMiddle(Resolve(s, d[s.next]), first)
  {
    MidInside(first, final);
  }

  lemma {:induction false} LaterStep(d: seq<int>, first: nat, final: nat, s: Search)
    requires Inv(d, first, final, s) && Sided(s) && SparesMiddle(s, first)
    requires s.next != s.midway
    ensures s.read < |s.stack| && s.next < |d|
    ensures Sided(Resolve(s, d[s.next])) && SparesMiddle(Resolve(s, d[s.next]), first)
  {
    var cur := s.stack[s.read];
    assert Sound(d, first, final, cur);
    MidInside(cur.lesser, cur.bigger);
  }

  /** The search from s on, until the middle it comes to is the first one. */
  ghost function Rest(d: seq<int>, first: nat, final: nat, s: Search): (t: Search)
    requires Inv(d, first, final, s)
    ensures Inv(d, first, final, t) && t.next == t.midway
    decreases Work(s.stack, s.read)
  {
    if s.next == s.midway then s
    else
      ResolveWorks(d, first, final, s);
      ResolveKeeps(d, first, final, s);
      Rest(d, first, final, Resolve(s, d[s.next]))
  }

  ghost function Searched(d: seq<int>, first: nat, final: nat): (t: Search)
    requires Range(d, first, final)
    ensures Inv(d, first, final, t) && t.next == t.midway && t.read <= |t.stack| && 0 < |t.stack|
  {
    InitialInv(d, first, final);
    var s := Initial(d, first, final);
    ResolveKeeps(d, first, final, s);
    Rest(d, first, final, Resolve(s, d[s.next]))
  }

  lemma {:induction false} RestStops(d: seq<int>, first: nat, final: nat, s: Search)
    requires Inv(d, first, final, s) && Sided(s) && SparesMiddle(s, first)
    ensures var t := Rest(d, first, final, s);
            t.midway == s.midway && Sided(t) && SparesMiddle(t, first)
    ensures Runs(d, first, final) && AllBracketed(d, first, final, s.stack) ==>
              AllBracketed(d, first, final, Rest(d, first, final, s).stack)
    decreases Work(s.stack, s.read)
  {
    if s.next != s.midway {
      ResolveWorks(d, first, final, s);
      ResolveKeeps(d, first, final, s);
      LaterStep(d, first, final, s);
      if Runs(d, first, final) && AllBracketed(d, first, final, s.stack) {
        ResolveBrackets(d, first, final, s);
      }
      RestStops(d, first, final, Resolve(s, d[s.next]));
    }
  }

  lemma {:induction false} SearchedStops(d: seq<int>, first: nat, final: nat)
    requires Range(d, first, final)
    ensures var t := Searched(d, first, final);
            && t.midway == Mid(final, first) && Sided(t) && SparesMiddle(t, first)
            && (Runs(d, first, final) ==> AllBracketed(d, first, final, t.stack))
  {
    InitialInv(d, first, final);
    var s := Initial(d, first, final);
    ResolveKeeps(d, first, final, s);
    FirstStep(d, first, final);
    if Runs(d, first, final) {
      ResolveBrackets(d, first, final, s);
    }
    RestStops(d, first, final, Resolve(s, d[s.next]));
  }

  /** A search that stops with work left stopped at a jump right behind the first middle. */
  lemma {:induction false} EarlyStop(d: seq<int>, first: nat, final: nat, t: Search)
    requires Inv(d, first, final, t) && Sided(t) && t.next == t.midway && t.read < |t.stack|
    ensures t.stack[t.read].lesser == t.midway && Exact(t.stack[t.read]) && Jump(d, first, final, t.midway)
  {
    var cur := t.stack[t.read];
    assert Sound(d, first, final, cur);
    MidInside(cur.lesser, cur.bigger);
  }

  /**
   What a finished search has found, if equal data come from one run: every jump
   is in an interval; the search has gone through all intervals exactly if there
   is no jump right behind the first middle (or the range is two packets), and
   then the exact intervals are the jumps.
   */
  lemma {:induction false} SearchFindsJumps(d: seq<int>, first: nat, final: nat)
    requires Range(d, first, final) && Runs(d, first, final)
    ensures var t := Searched(d, first, final);
            var mid := Mid(final, first);
            && AllBracketed(d, first, final, t.stack)
            && (t.read == |t.stack| <==> !Jump(d, first, final, mid) || mid == first)
            && (t.read == |t.stack| ==> forall o :: Jump(d, first, final, o) <==> Located(t.stack, o))
  {
    var t := Searched(d, first, final);
    SearchedStops(d, first, final);
    if t.read < |t.stack| {
      EarlyStop(d, first, final, t);
    } else {
      forall o: nat
        ensures Jump(d, first, final, o) <==> Located(t.stack, o)
      {
        ExhaustedFindsJumps(d, first, final, t, o);
      }
      assert Jump(d, first, final, t.midway) <==> Located(t.stack, t.midway);
    }
  }

  /** One more reading of a search. */
  lemma {:induction false} RestStep(d: seq<int>, first: nat, final: nat, s: Search, t: Search)
    requires Inv(d, first, final, s) && s.next != s.midway && s.next < |d| && s.read < |s.stack|
    requires t == Resolve(s, d[s.next])
    ensures Inv(d, first, final, t) && Rest(d, first, final, s) == Rest(d, first, final, t)
  {
    ResolveWorks(d, first, final, s);
    ResolveKeeps(d, first, final, s);
  }

  lemma {:induction false} SearchedStep(d: seq<int>, first: nat, final: nat, t: Search)
    requires Range(d, first, final) && Mid(final, first) <= final
    requires t == Resolve(Initial(d, first, final), d[Mid(final, first)])
    ensures Inv(d, first, final, t) && Searched(d, first, final) == Rest(d, first, final, t)
  {
    InitialInv(d, first, final);
    ResolveKeeps(d, first, final, Initial(d, first, final));
  }

  // ---------------------------------------------------------------- locating every jump

  /** The interval l..b is bisected leaving only adjacent packets for later. */
  ghost predicate Tidy(d: seq<int>, l: nat, b: nat)
    requires l < b < |d| && b <= 0x8000_0000
    decreases b - l
  {
    MidInside(l, b);
    var m := Mid(b, l);
    if m == l || (d[m] == d[l] && d[m] == d[b]) then true
    else if d[m] == d[l] then Tidy(d, m, b)
    else if d[m] == d[b] then Tidy(d, l, m)
    else b == m + 1 && Tidy(d, l, m)
  }

  lemma {:induction false} FlatIsTidy(d: seq<int>, first: nat, final: nat, l: nat, b: nat)
    requires Range(d, first, final) && Runs(d, first, final) && first <= l < b <= final && d[l] == d[b]
    ensures Tidy(d, l, b)
  {
    MidInside(l, b);
  }

  predicate AllExact(stack: seq<Interval>) {
    forall i :: 0 <= i < |stack| ==> Exact(stack[i])
  }

  ghost predicate TidySlot(d: seq<int>, i: Interval) {
    i.lesser < i.bigger < |d| && i.bigger <= 0x8000_0000 && Tidy(d, i.lesser, i.bigger)
  }

  /** What a search that will stop at slot j leaves behind: exact intervals behind j, and tidy ones up to it. */
  ghost predicate WillBeExact(d: seq<int>, s: Search, j: nat) {
    && (forall k :: s.read <= k <= j && k < |s.stack| ==> TidySlot(d, s.stack[k]))
    && (forall k :: j < k < |s.stack| ==> Exact(s.stack[k]))
  }

  /** A search that has the jump right behind the first middle in slot j. */
  ghost predicate StopsAt(d: seq<int>, first: nat, final: nat, s: Search, j: nat) {
    && Inv(d, first, final, s) && Sided(s) && SparesMiddle(s, first)
    && s.read <= j < |s.stack| && s.stack[j].lesser == s.midway && s.midway != first
    && Jump(d, first, final, s.midway)
  }

  lemma {:induction false} StopSlot(d: seq<int>, first: nat, final: nat, s: Search, j: nat)
    requires StopsAt(d, first, final, s, j) && s.next == s.midway
    ensures s.read == j && TidySlot(d, s.stack[j])
  {
    EarlyStop(d, first, final, s);
    assert Sound(d, first, final, s.stack[s.read]);
    MidInside(s.stack[s.read].lesser, s.stack[s.read].bigger);
    assert s.read < j ==> Disjoint(s.stack[s.read], s.stack[j]);
  }

  /** A step on the way to the stop keeps what will be left behind. */
  lemma {:induction false} StepToStop(d: seq<int>, first: nat, final: nat, s: Search, j: nat)
    requires StopsAt(d, first, final, s, j) && Runs(d, first, final) && s.next != s.midway
    ensures s.next < |d| && s.read < |s.stack|
    ensures var t := Resolve(s, d[s.next]);
            StopsAt(d, first, final, t, j) && (WillBeExact(d, t, j) <==> WillBeExact(d, s, j))
  {
    var cur := s.stack[s.read];
    CurrentSound(d, first, final, s);
    LaterStep(d, first, final, s);
    ResolveKeeps(d, first, final, s);
    NotFlat(d, first, final, s);
    MoveTidy(d, first, final, cur);
    if s.read == j {
      MoveAtJump(d, first, final, s, j);
    }
    StepWillBe(d, s, Resolve(s, d[s.next]), j);
  }

  lemma {:induction false} StepWillBe(d: seq<int>, s: Search, t: Search, j: nat)
    requires s.read <= j < |s.stack| && s.next < |d| && t == Resolve(s, d[s.next])
    requires TidySlot(d, s.stack[s.read]) <==>
             match MoveOf(s.stack[s.read], s.next, d[s.next])
             case Done => true
             case Narrow(now) => TidySlot(d, now)
             case Split(now, later) => TidySlot(d, now) && Exact(later)
    requires MoveOf(s.stack[s.read], s.next, d[s.next]).Done? ==> s.read < j
    ensures WillBeExact(d, t, j) <==> WillBeExact(d, s, j)
  {
    hide MoveOf, TidySlot, Exact, NextFrom;
    if WillBeExact(d, t, j) {
      assert |s.stack| < |t.stack| ==> Exact(t.stack[|s.stack|]);
      forall k | s.read <= k <= j
        ensures TidySlot(d, s.stack[k])
      {
        assert t.read <= k ==> TidySlot(d, t.stack[k]);
        assert k != s.read ==> t.stack[k] == s.stack[k];
      }
      forall k | j < k < |s.stack|
        ensures Exact(s.stack[k])
      {
        assert t.stack[k] == s.stack[k];
      }
    }
  }

  lemma {:induction false} NotFlat(d: seq<int>, first: nat, final: nat, s: Search)
    requires Inv(d, first, final, s) && Sided(s) && s.read < |s.stack|
    ensures s.stack[s.read].ldatum != s.stack[s.read].bdatum
  {
  }

  /** A jump at the lesser end of an interval stays there. */
  lemma {:induction false} MoveAtJump(d: seq<int>, first: nat, final: nat, s: Search, j: nat)
    requires StopsAt(d, first, final, s, j) && Runs(d, first, final) && s.next != s.midway && s.read == j
    ensures s.next < |d|
    ensures match MoveOf(s.stack[j], s.next, d[s.next])
            case Done => false
            case Narrow(now) => now.lesser == s.midway
            case Split(now, later) => now.lesser == s.midway
  {
    var cur := s.stack[j];
    CurrentSound(d, first, final, s);
    MidInside(cur.lesser, cur.bigger);
    NotFlat(d, first, final, s);
  }

  lemma {:induction false} MoveTidy(d: seq<int>, first: nat, final: nat, cur: Interval)
    requires Range(d, first, final) && Sound(d, first, final, cur) && cur.ldatum != cur.bdatum
    ensures var m := Mid(cur.bigger, cur.lesser);
            && m < |d|
            && (TidySlot(d, cur) <==>
                 match MoveOf(cur, m, d[m])
                 case Done => true
                 case Narrow(now) => TidySlot(d, now)
                 case Split(now, later) => TidySlot(d, now) && Exact(later))
  {
    MidInside(cur.lesser, cur.bigger);
  }

  lemma {:induction false} RestToStop(d: seq<int>, first: nat, final: nat, s: Search, j: nat)
    requires StopsAt(d, first, final, s, j) && Runs(d, first, final)
    ensures AllExact(Rest(d, first, final, s).stack) <==> WillBeExact(d, s, j)
    decreases Work(s.stack, s.read)
  {
    if s.next == s.midway {
      StopSlot(d, first, final, s, j);
      EarlyStop(d, first, final, s);
      StopAllExact(d, first, final, s, j);
    } else {
      StepToStop(d, first, final, s, j);
      ResolveWorks(d, first, final, s);
      ResolveKeeps(d, first, final, s);
      RestToStop(d, first, final, Resolve(s, d[s.next]), j);
    }
  }

  lemma {:induction false} StopAllExact(d: seq<int>, first: nat, final: nat, s: Search, j: nat)
    requires Inv(d, first, final, s) && Sided(s) && s.read == j < |s.stack|
    requires TidySlot(d, s.stack[j]) && Exact(s.stack[j])
    ensures AllExact(s.stack) <==> WillBeExact(d, s, j)
  {
  }

  /** Between different data there is a jump. */
  lemma {:induction false} JumpBetween(d: seq<int>, first: nat, final: nat, l: nat, b: nat) returns (o: nat)
    requires first <= l < b <= final < |d| && d[l] != d[b]
    ensures l <= o < b && Jump(d, first, final, o)
    decreases b - l
  {
    if d[l] != d[l + 1] {
      o := l;
    } else {
      o := JumpBetween(d, first, final, l + 1, b);
    }
  }

  ghost predicate AllLocated(d: seq<int>, first: nat, final: nat, stack: seq<Interval>)
    requires final < |d|
  {
    forall o :: Jump(d, first, final, o) ==> Located(stack, o)
  }

  /** All jumps are located exactly if all intervals are exact, once a difference has been seen. */
  lemma {:induction false} LocatedIsExact(d: seq<int>, first: nat, final: nat, s: Search)
    requires Inv(d, first, final, s) && !Flat(s) && AllBracketed(d, first, final, s.stack)
    ensures AllLocated(d, first, final, s.stack) <==> AllExact(s.stack)
  {
    if AllExact(s.stack) {
      forall o | Jump(d, first, final, o)
        ensures Located(s.stack, o)
      {
        assert Bracketed(s.stack, o);
        var i :| 0 <= i < |s.stack| && Holds(s.stack[i], o);
        assert Exact(s.stack[i]);
      }
    }
    if AllLocated(d, first, final, s.stack) {
      forall i | 0 <= i < |s.stack|
        ensures Exact(s.stack[i])
      {
        LocatedInside(d, first, final, s, i);
      }
    }
  }

  lemma {:induction false} LocatedInside(d: seq<int>, first: nat, final: nat, s: Search, i: nat)
    requires Inv(d, first, final, s) && !Flat(s) && AllLocated(d, first, final, s.stack) && i < |s.stack|
    ensures Exact(s.stack[i])
  {
    var x := s.stack[i];
    assert Sound(d, first, final, x);
    var o := JumpBetween(d, first, final, x.lesser, x.bigger);
    assert Located(s.stack, o);
    var j :| 0 <= j < |s.stack| && s.stack[j].lesser == o && Exact(s.stack[j]);
    assert i < j ==> Disjoint(s.stack[i], s.stack[j]);
    assert j < i ==> Disjoint(s.stack[j], s.stack[i]);
  }

  /** After its first reading, a search with a jump right behind the middle has that jump in the last slot. */
  lemma {:induction false} FirstToStop(d: seq<int>, first: nat, final: nat)
    requires Range(d, first, final) && Runs(d, first, final)
    requires Mid(final, first) != first && Jump(d, first, final, Mid(final, first))
    ensures var mid, s := Mid(final, first), Initial(d, first, final);
            && first < mid < final && s.next == mid
            && var t := Resolve(s, d[mid]);
               && StopsAt(d, first, final, t, |t.stack| - 1)
               && (WillBeExact(d, t, |t.stack| - 1) <==> Tidy(d, first, mid) && Tidy(d, mid, final))
  {
    MidInside(first, final);
    InitialInv(d, first, final);
    FirstStep(d, first, final);
    var s := Initial(d, first, final);
    ResolveKeeps(d, first, final, s);
    var mid := s.next;
    if d[first] == d[mid] {
      FlatIsTidy(d, first, final, first, mid);
    }
  }

  /**
   Exactly when a search locates every jump, if equal data come from one run: if
   there is no jump right behind the first middle, or the range is two packets,
   or bisecting either side of the middle leaves only adjacent packets for later.
   */
  lemma {:induction false} SearchLocatesAll(d: seq<int>, first: nat, final: nat)
    requires Range(d, first, final) && Runs(d, first, final)
    ensures var mid := Mid(final, first);
            && first <= mid < final
            && (AllLocated(d, first, final, Searched(d, first, final).stack) <==>
                 !Jump(d, first, final, mid) || mid == first || (Tidy(d, first, mid) && Tidy(d, mid, final)))
  {
    var mid := Mid(final, first);
    MidInside(first, final);
    SearchFindsJumps(d, first, final);
    SearchedStops(d, first, final);
    var t := Searched(d, first, final);
    if Jump(d, first, final, mid) && mid != first {
      FirstToStop(d, first, final);
      var u := Resolve(Initial(d, first, final), d[mid]);
      SearchedStep(d, first, final, u);
      RestToStop(d, first, final, u, |u.stack| - 1);
      LocatedIsExact(d, first, final, t);
    }
  }

  // ---------------------------------------------------------------- the packet lost at the start

  /** A jump right behind the packet in front of the range searched is not located. */
  lemma {:induction false} FirstJumpLost(d: seq<int>, first: nat, final: nat)
    requires Range(d, first + 1, final)
    ensures !Located(Searched(d, first + 1, final).stack, first)
  {
    var t := Searched(d, first + 1, final);
    assert forall i :: 0 <= i < |t.stack| ==> Sound(d, first + 1, final, t.stack[i]);
  }

  /**
   Exactly when a search given packets first..final locates every jump, if equal
   data come from one run: there must be no jump right behind the first packet,
   which is lost, and the search of the others must locate all theirs.
   */
  lemma {:induction false} RunLocatesAll(d: seq<int>, first: nat, final: nat)
    requires Range(d, first + 1, final) && Runs(d, first + 1, final)
    ensures var second, mid := first + 1, Mid(final, first + 1);
            && second <= mid < final
            && (AllLocated(d, first, final, Searched(d, second, final).stack) <==>
                 && d[first] == d[second]
                 && (!Jump(d, second, final, mid) || mid == second || (Tidy(d, second, mid) && Tidy(d, mid, final))))
  {
    var second := first + 1;
    var stack := Searched(d, second, final).stack;
    hide Searched, Tidy, Located, Runs;
    FirstJumpLost(d, first, final);
    SearchLocatesAll(d, second, final);
    assert forall o: nat :: Jump(d, second, final, o) ==> Jump(d, first, final, o);
    assert forall o: nat :: Jump(d, first, final, o) ==> o == first || Jump(d, second, final, o);
    assert d[first] != d[second] ==> Jump(d, first, final, first);
  }

  /** The first packet differs from the three behind it: the jump is not located. */
  lemma {:induction false} FirstPacketLost()
    ensures var d := [0, 1, 1, 1];
            Range(d, 1, 3) && Jump(d, 0, 3, 0) && !Located(Searched(d, 1, 3).stack, 0)
  {
    FirstJumpLost([0, 1, 1, 1], 0, 3);
  }

  // ---------------------------------------------------------------- the reported times

  /** The packet whose time is reported for an interval is at its lesser end, at its bigger end, or elsewhere. */
  datatype Stamp = AtLesser | AtBigger | Astray

  function StampOf(i: Interval): Stamp {
    if i.pkt == i.lesser then AtLesser else if i.pkt == i.bigger then AtBigger else Astray
  }

  /** A time that is not that of an end is that of a packet behind the interval. */
  predicate StampOk(i: Interval) {
    i.pkt == i.lesser || i.bigger <= i.pkt
  }

  /**
   What a reading makes of the reported time: narrowing puts it right, splitting
   keeps it right exactly if it was that of the lesser end, and the part left for
   later has it right.
   */
  lemma {:induction false} ResolveStamps(d: seq<int>, first: nat, final: nat, cur: Interval)
    requires Range(d, first, final) && Sound(d, first, final, cur) && StampOk(cur)
    ensures var m := Mid(cur.bigger, cur.lesser);
            && m < |d|
            && match MoveOf(cur, m, d[m])
               case Done => true
               case Narrow(now) => StampOk(now) && StampOf(now) == (if d[m] == cur.ldatum then AtLesser else AtBigger)
               case Split(now, later) =>
                 && StampOk(now) && StampOf(now) == (if StampOf(cur) == AtLesser then AtLesser else Astray)
                 && StampOk(later) && StampOf(later) == AtLesser
  {
    MidInside(cur.lesser, cur.bigger);
  }

  /** Bisecting l..b, with the reported time at st, ends with a time astray for the jump at o. */
  ghost predicate Strays(d: seq<int>, l: nat, b: nat, st: Stamp, o: nat)
    requires l < b < |d| && b <= 0x8000_0000
    decreases b - l
  {
    MidInside(l, b);
    var m := Mid(b, l);
    if m == l || (d[m] == d[l] && d[m] == d[b]) then st == Astray
    else if d[m] == d[l] then Strays(d, m, b, AtLesser, o)
    else if d[m] == d[b] then Strays(d, l, m, AtBigger, o)
    else if o < m then Strays(d, l, m, if st == AtLesser then AtLesser else Astray, o)
    else Strays(d, m, b, AtLesser, o)
  }

  /** What becomes of the time reported for a jump at o has been decided by the data from the start. */
  ghost predicate Fated(d: seq<int>, first: nat, final: nat, i: Interval, o: nat) {
    Range(d, first, final) && Sound(d, first, final, i) && Holds(i, o) ==>
      (Strays(d, i.lesser, i.bigger, StampOf(i), o) <==> Strays(d, first, final, AtBigger, o))
  }

  ghost predicate StampsFated(d: seq<int>, first: nat, final: nat, stack: seq<Interval>) {
    && (forall i :: 0 <= i < |stack| ==> StampOk(stack[i]))
    && (forall i, o :: 0 <= i < |stack| ==> Fated(d, first, final, stack[i], o))
  }

  ghost predicate FatedAfter(d: seq<int>, first: nat, final: nat, move: Move, o: nat) {
    match move
    case Done => true
    case Narrow(now) => Fated(d, first, final, now, o)
    case Split(now, later) => Fated(d, first, final, now, o) && Fated(d, first, final, later, o)
  }

  lemma {:induction false} MoveFated(d: seq<int>, first: nat, final: nat, cur: Interval, o: nat)
    requires Range(d, first, final) && Sound(d, first, final, cur) && StampOk(cur) && Fated(d, first, final, cur, o)
    ensures var m := Mid(cur.bigger, cur.lesser);
            m < |d| && FatedAfter(d, first, final, MoveOf(cur, m, d[m]), o)
  {
    MidInside(cur.lesser, cur.bigger);
    ResolveStamps(d, first, final, cur);
    MoveSound(d, first, final, cur);
  }

  lemma {:induction false} ResolveFated(d: seq<int>, first: nat, final: nat, s: Search)
    requires Inv(d, first, final, s) && s.read < |s.stack| && StampsFated(d, first, final, s.stack)
    ensures s.next < |d| && StampsFated(d, first, final, Resolve(s, d[s.next]).stack)
  {
    var cur := s.stack[s.read];
    CurrentSound(d, first, final, s);
    ResolveStamps(d, first, final, cur);
    forall o: nat
      ensures FatedAfter(d, first, final, MoveOf(cur, s.next, d[s.next]), o)
    {
      MoveFated(d, first, final, cur, o);
    }
    hide MoveOf, Mid, Fated, StampOk, Inv;
    var t := Resolve(s, d[s.next]);
    forall i, o: nat | 0 <= i < |t.stack|
      ensures Fated(d, first, final, t.stack[i], o)
    {
      assert FatedAfter(d, first, final, MoveOf(cur, s.next, d[s.next]), o);
      assert i < |s.stack| ==> Fated(d, first, final, s.stack[i], o);
    }
  }

  lemma {:induction false} RestFated(d: seq<int>, first: nat, final: nat, s: Search)
    requires Inv(d, first, final, s) && StampsFated(d, first, final, s.stack)
    ensures StampsFated(d, first, final, Rest(d, first, final, s).stack)
    decreases Work(s.stack, s.read)
  {
    if s.next != s.midway {
      ResolveWorks(d, first, final, s);
      ResolveKeeps(d, first, final, s);
      ResolveFated(d, first, final, s);
      RestFated(d, first, final, Resolve(s, d[s.next]));
    }
  }

  /** Exactly which located jumps are reported with the time of a packet that is not at the jump. */
  lemma {:induction false} StrayStamps(d: seq<int>, first: nat, final: nat, i: nat)
    requires Range(d, first, final)
    requires i < |Searched(d, first, final).stack| && Exact(Searched(d, first, final).stack[i])
    ensures var x := Searched(d, first, final).stack[i];
            && x.bigger < |d|
            && (x.pkt == x.lesser || x.pkt >= x.bigger)
            && (x.pkt == x.lesser || x.pkt == x.bigger <==> !Strays(d, first, final, AtBigger, x.lesser))
  {
    InitialInv(d, first, final);
    var s := Initial(d, first, final);
    ResolveKeeps(d, first, final, s);
    ResolveFated(d, first, final, s);
    RestFated(d, first, final, Resolve(s, d[s.next]));
    var x := Searched(d, first, final).stack[i];
    assert Sound(d, first, final, x);
    assert Fated(d, first, final, x, x.lesser);
    MidInside(x.lesser, x.bigger);
  }

  /** Every datum is one of those at the ends of the range. */
  predicate TwoData(d: seq<int>, first: nat, final: nat) {
    final < |d| && forall o :: first <= o <= final ==> d[o] == d[first] || d[o] == d[final]
  }

  lemma {:induction false} TwoDataStays(d: seq<int>, first: nat, final: nat, l: nat, b: nat, st: Stamp, o: nat)
    requires Range(d, first, final) && TwoData(d, first, final)
    requires first <= l < b <= final && d[l] == d[first] && d[b] == d[final] && st != Astray
    ensures !Strays(d, l, b, st, o)
    decreases b - l
  {
    MidInside(l, b);
    var m := Mid(b, l);
    if m != l && d[m] == d[l] && d[m] != d[b] {
      TwoDataStays(d, first, final, m, b, AtLesser, o);
    } else if m != l && d[m] != d[l] {
      TwoDataStays(d, first, final, l, m, AtBigger, o);
    }
  }

  /** A range with no data but those of its ends has every time right. */
  lemma {:induction false} TwoDataStamps(d: seq<int>, first: nat, final: nat, i: nat)
    requires Range(d, first, final) && TwoData(d, first, final)
    requires i < |Searched(d, first, final).stack| && Exact(Searched(d, first, final).stack[i])
    ensures var x := Searched(d, first, final).stack[i];
            x.pkt == x.lesser || x.pkt == x.bigger
  {
    StrayStamps(d, first, final, i);
    TwoDataStays(d, first, final, first, final, AtBigger, Searched(d, first, final).stack[i].lesser);
  }

  lemma {:induction false} MissedRun() returns (d: seq<int>, t: Search, u: Search, v: Search)
    ensures d == [0, 0, 0, 0, 0, 1, 1, 2, 2] && Mid(8, 0) == 4
    ensures t == Search([Interval(4, 0, 8, 2, 4)], 0, 6, 4) == Resolve(Initial(d, 0, 8), d[4])
    ensures u == Search([Interval(4, 0, 6, 1, 4), Interval(6, 1, 8, 2, 6)], 0, 5, 4) == Resolve(t, d[6])
    ensures v == Search([Interval(4, 0, 5, 1, 5), Interval(6, 1, 8, 2, 6)], 0, 4, 4) == Resolve(u, d[5])
  {
    d := [0, 0, 0, 0, 0, 1, 1, 2, 2];
    t := Search([Interval(4, 0, 8, 2, 4)], 0, 6, 4);
    u := Search([Interval(4, 0, 6, 1, 4), Interval(6, 1, 8, 2, 6)], 0, 5, 4);
    v := Search([Interval(4, 0, 5, 1, 5), Interval(6, 1, 8, 2, 6)], 0, 4, 4);
  }

  /** A jump right behind the first middle makes the search miss another one. */
  lemma {:induction false} MissedJump()
    ensures var d := [0, 0, 0, 0, 0, 1, 1, 2, 2];
            && Range(d, 0, 8) && Runs(d, 0, 8)
            && Jump(d, 0, 8, 6) && !Located(Searched(d, 0, 8).stack, 6)
  {
    var d, t, u, v := MissedRun();
    hide Inv, Rest, Searched, Resolve, Initial, Runs;
    SearchedStep(d, 0, 8, t);
    RestStep(d, 0, 8, t, u);
    RestStep(d, 0, 8, u, v);
    RestEnds(d, 0, 8, v);
    SampleRuns();
  }

  lemma {:induction false} RestEnds(d: seq<int>, first: nat, final: nat, s: Search)
    requires Inv(d, first, final, s) && s.next == s.midway
    ensures Rest(d, first, final, s) == s
  {
  }

  lemma {:induction false} SampleRuns()
    ensures Runs([0, 0, 0, 0, 0, 1, 1, 2, 2], 0, 8)
  {
    var d := [0, 0, 0, 0, 0, 1, 1, 2, 2];
    assert forall a, b :: 0 <= a <= b <= 8 ==> d[a] <= d[b];
  }

  lemma {:induction false} AdjacentIsTidy(d: seq<int>, l: nat)
    requires l + 1 < |d| && l < 0x8000_0000
    ensures Tidy(d, l, l + 1)
  {
    MidInside(l, l + 1);
  }

  lemma {:induction false} SmallSample(d: seq<int>)
    requires d == [0, 0, 1]
    ensures Range(d, 0, 2) && Runs(d, 0, 2) && Mid(2, 0) == 1 && Jump(d, 0, 2, 1)
  {
    assert forall a, b :: 0 <= a <= b <= 2 ==> d[a] <= d[b];
  }

  /** A search may stop with work left and still have located every jump. */
  lemma {:induction false} StopsComplete()
    ensures var d := [0, 0, 1];
            && Range(d, 0, 2) && Runs(d, 0, 2) && Jump(d, 0, 2, Mid(2, 0)) && Mid(2, 0) != 0
            && var t := Searched(d, 0, 2);
               t.read < |t.stack| && AllLocated(d, 0, 2, t.stack)
  {
    hide Searched, Rest, Runs, Inv, Tidy, AllLocated, Jump, Mid;
    var d := [0, 0, 1];
    SmallSample(d);
    AdjacentIsTidy(d, 0);
    AdjacentIsTidy(d, 1);
    SearchLocatesAll(d, 0, 2);
    SearchFindsJumps(d, 0, 2);
  }

  lemma {:induction false} StrayRun() returns (d: seq<int>, t: Search, u: Search)
    ensures d == [0, 1, 2] && Mid(2, 0) == 1
    ensures t == Search([Interval(0, 0, 1, 1, 2), Interval(1, 1, 2, 2, 1)], 0, 0, 1) == Resolve(Initial(d, 0, 2), d[1])
    ensures u == Search([Interval(0, 0, 1, 1, 2), Interval(1, 1, 2, 2, 1)], 1, 1, 1) == Resolve(t, d[0])
  {
    d := [0, 1, 2];
    t := Search([Interval(0, 0, 1, 1, 2), Interval(1, 1, 2, 2, 1)], 0, 0, 1);
    u := Search([Interval(0, 0, 1, 1, 2), Interval(1, 1, 2, 2, 1)], 1, 1, 1);
  }

  /** The packet whose time is reported for a jump need not be at the jump. */
  lemma {:induction false} StrayStamp()
    ensures var d := [0, 1, 2];
            Range(d, 0, 2) && Searched(d, 0, 2).stack[0] == Interval(0, 0, 1, 1, 2)
  {
    var d, t, u := StrayRun();
    hide Inv, Rest, Searched, Resolve, Initial;
    SearchedStep(d, 0, 2, t);
    RestStep(d, 0, 2, t, u);
    RestEnds(d, 0, 2, u);
  }

  // ---------------------------------------------------------------- the search state

  const SRCH_ALLOC := 1000

  /** What a packet says: nothing, or a datum. */
  datatype Reading = Invalid | Valid(datum: int)

  datatype SrchData = SrchData(offset: nat, zdatum: int, count: nat)

  datatype Phase = Begin | First | Final | Searching | Finish

  /** The readings kept are those of the packets read; a repeated reading is not counted. */
  ghost predicate Kept(d: seq<int>, past: seq<SrchData>, lastDatum: int) {
    && (forall i :: 0 <= i < |past| ==>
          past[i].offset < |d| && past[i] == SrchData(past[i].offset, d[past[i].offset], 1))
    && (past != [] ==> lastDatum == past[|past| - 1].zdatum)
  }

  /** The readings kept after reading datum at offset o. */
  function Remember(past: seq<SrchData>, o: nat, datum: int): seq<SrchData> {
    if past != [] && past[|past| - 1].offset == o then past else past + [SrchData(o, datum, 1)]
  }

  /** A visit repeated at once: the reading that leaves two adjacent packets is made again, and is not counted. */
  lemma {:induction false} RepeatedVisit(past: seq<SrchData>)
    ensures var s := Search([Interval(3, 0, 5, 1, 3)], 0, 4, 2);
            && Resolve(s, 0).next == s.next
            && Remember(past + [SrchData(s.next, 0, 1)], Resolve(s, 0).next, 0) == past + [SrchData(s.next, 0, 1)]
  {
    assert MoveOf(Interval(3, 0, 5, 1, 3), 4, 0) == Narrow(Interval(4, 0, 5, 1, 4));
    assert Mid(5, 4) == 4;
  }

  /**
   When the first reading kept is that of the final packet, as in a search given
   two packets, the final reading is not kept: the entry used for it was never
   written.
   */
  lemma {:induction false} OnePacket(o: nat, datum: int)
    ensures |Remember(Remember([], o, datum), o, datum)| == 1
  {
  }

  /** A true reading keeps the history true, and the last datum is that of the packet read. */
  lemma {:induction false} KeptStep(d: seq<int>, past: seq<SrchData>, last: int, o: nat, now: int)
    requires Kept(d, past, last) && o < |d|
    requires now == if Remember(past, o, d[o]) == past then last else d[o]
    ensures Kept(d, Remember(past, o, d[o]), now) && now == d[o]
  {
  }

  lemma {:induction false} BothKept(d: seq<int>, first: nat, final: nat)
    requires first < final < |d|
    ensures var a, b := SrchData(first, d[first], 1), SrchData(final, d[final], 1);
            Remember([a], final, d[final]) == [a, b] && Kept(d, [a, b], d[final])
  {
  }

  /** Where a reading that was not valid is made up for: a packet nearer to the end on its side of the first middle. */
  function Stepped(first: nat, midway: nat, final: nat, next: nat): nat {
    if first < next < midway then next - 1
    else if midway < next < final then next + 1
    else next
  }

  /**
   The search is started by the reading datum of packet o: it is kept, and the range
   with the first two data kept becomes an interval.
   */
  ghost predicate Started(s: Search, t: Search, past: seq<SrchData>, now: seq<SrchData>, last: int, lastNow: int,
      first: nat, final: nat, o: nat, datum: int)
  {
    && now == Remember(past, o, datum) && lastNow == (if now == past then last else datum)
    && t.read == s.read && |t.stack| == |s.stack| + 1
    && (2 <= |now| ==> t.stack == s.stack + [Interval(first, now[0].zdatum, final, now[1].zdatum, o)])
    && t.next == t.midway == NextFrom(t.stack, t.read, s.midway)
  }

  class SrchState {
    var where: Phase
    var reading: Reading
    var lastDatum: int
    var lastPkt: nat
    var first: nat
    var final: nat
    var next: nat
    var midway: nat
    var sRead: nat
    var swrite: nat
    var stack: array<Interval>
    var hwrite: nat
    var history: array<SrchData>

    /** Get ready to search packets first..final. */
    constructor (first: nat, final: nat)
      ensures Ready() && this.first == first && this.final == final
      ensures fresh(stack) && fresh(history)
    {
      where, reading := Begin, Invalid;
      lastDatum, lastPkt := 0, 0;
      this.first, this.final, next, midway := first, final, first, 0;
      sRead, swrite, hwrite := 0, 0, 0;
      var noInterval := Interval(0, 0, 0, 0, 0);
      var noData := SrchData(0, 0, 0);
      stack := new Interval[SRCH_ALLOC](_ => noInterval);
      history := new SrchData[SRCH_ALLOC](_ => noData);
    }

    /** There is room for one more entry in the arrays. */
    ghost predicate Room()
      reads this
    {
      sRead <= swrite < stack.Length && hwrite < history.Length && 1 < history.Length
    }

    ghost predicate Ready()
      reads this
    {
      Room() && where.Begin? && next == first && sRead == swrite == hwrite == 0
    }

    ghost function View(): Search
      requires Room()
      reads this, stack
    {
      Search(stack[..swrite], sRead, next, midway)
    }

    ghost function Past(): seq<SrchData>
      requires Room()
      reads this, history
    {
      history[..hwrite]
    }

    /** Allocate more of the stack; a reading not used yet is lost. */
    method MoreStack()
      requires swrite <= stack.Length
      modifies this`stack, this`reading
      ensures reading == Invalid
      ensures fresh(stack) && stack.Length == old(stack.Length) + SRCH_ALLOC
      ensures stack[..swrite] == old(stack[..swrite])
    {
      reading := Invalid;
      var noInterval := Interval(0, 0, 0, 0, 0);
      var a := new Interval[stack.Length + SRCH_ALLOC](_ => noInterval);
      forall i | 0 <= i < swrite {
        a[i] := stack[i];
      }
      assert a[..swrite] == stack[..swrite];
      stack := a;
    }

    /** Allocate more of the history; a reading not used yet is lost. */
    method MoreHistory()
      requires hwrite <= history.Length
      modifies this`history, this`reading
      ensures reading == Invalid
      ensures fresh(history) && history.Length == old(history.Length) + SRCH_ALLOC
      ensures history[..hwrite] == old(history[..hwrite])
    {
      reading := Invalid;
      var noData := SrchData(0, 0, 0);
      var a := new SrchData[history.Length + SRCH_ALLOC](_ => noData);
      forall i | 0 <= i < hwrite {
        a[i] := history[i];
      }
      assert a[..hwrite] == history[..hwrite];
      history := a;
    }

    /** Start the search: allocate both arrays, which loses the reading made before. */
    method EhsBegin()
      requires Ready()
      modifies this`where, this`reading, this`hwrite, this`swrite, this`sRead, this`stack, this`history
      ensures Room() && fresh(stack) && fresh(history)
      ensures where == First && reading == Invalid && sRead == swrite == hwrite == 0
    {
      MoreHistory();
      MoreStack();
      hwrite, swrite, sRead := 0, 0, 0;
      where := First;
    }

    /** Keep the datum read at next.  A repeated visit is counted in an entry that is not in use. */
    method UpdateEhsHis(datum: int)
      requires Room()
      modifies this`reading, this`lastDatum, this`hwrite, this`history, history
      ensures Room() && (history == old(history) || fresh(history))
      ensures reading == Invalid
      ensures Past() == Remember(old(Past()), next, datum)
      ensures lastDatum == if Past() == old(Past()) then old(lastDatum) else datum
    {
      ghost var past := Past();
      reading := Invalid;
      if hwrite > 0 && history[hwrite - 1].offset == next {
        history[hwrite] := history[hwrite].(count := history[hwrite].count + 1);
        assert history[..hwrite] == past;
      } else {
        history[hwrite] := SrchData(next, datum, 1);
        lastDatum := datum;
        hwrite := hwrite + 1;
        assert history[..hwrite] == past + [SrchData(next, datum, 1)];
        if hwrite >= history.Length {
          MoreHistory();
        }
      }
    }

    method AppendEhsStk(i: Interval)
      requires Room()
      modifies this`reading, this`swrite, this`stack, stack
      ensures Room() && (stack == old(stack) || fresh(stack))
      ensures swrite == old(swrite) + 1
      ensures stack[..swrite] == old(stack[..swrite]) + [i]
    {
      ghost var s := stack[..swrite];
      stack[swrite] := i;
      swrite := swrite + 1;
      assert stack[..swrite] == s + [i];
      if swrite >= stack.Length {
        MoreStack();
      }
    }

    method NextFromEhsStack() returns (spot: nat)
      requires Room()
      ensures spot == NextFrom(stack[..swrite], sRead, midway)
    {
      if sRead < swrite {
        spot := Mid(stack[sRead].bigger, stack[sRead].lesser);
      } else {
        spot := midway;
      }
    }

    /** Change the current interval. */
    method Narrow(i: Interval)
      requires Room() && sRead < swrite
      modifies stack
      ensures stack[..swrite] == old(stack[..swrite])[sRead := i]
    {
      ghost var s := stack[..swrite];
      stack[sRead] := i;
      assert stack[..swrite] == s[sRead := i];
    }

    /** Reconcile the last datum with the current interval, and find out where to read next. */
    method ResolveEhsStk() returns (spot: nat)
      requires Room() && sRead < swrite && lastPkt == next
      modifies this`reading, this`sRead, this`swrite, this`stack, stack
      ensures Room() && (stack == old(stack) || fresh(stack))
      ensures View().(next := spot) == Resolve(old(View()), lastDatum)
    {
      var cur := stack[sRead];
      var ld, md, bd := cur.ldatum, lastDatum, cur.bdatum;
      if ld == md && md == bd {
        sRead := sRead + 1;
        if sRead == swrite {
          return midway;
        }
      } else if ld == md {
        if cur.lesser != next {
          Narrow(cur.(lesser := next, ldatum := lastDatum, pkt := lastPkt));
        } else {
          sRead := sRead + 1;
        }
      } else if md == bd {
        if cur.bigger != next {
          Narrow(cur.(bigger := next, bdatum := lastDatum, pkt := lastPkt));
        } else {
          sRead := sRead + 1;
        }
      } else {
        AppendEhsStk(Interval(next, lastDatum, cur.bigger, cur.bdatum, lastPkt));
        Narrow(cur.(bigger := next, bdatum := lastDatum));
      }
      spot := NextFromEhsStack();
    }

    /** Record the first reading, or step to the next packet if there is none. */
    method EhsFirst()
      requires Room()
      modifies this`where, this`reading, this`next, this`first, this`lastDatum, this`hwrite, this`history, history
      ensures Room() && (history == old(history) || fresh(history))
      ensures old(reading.Invalid?) ==>
                where == First && first == next == (old(first) + 1) % 0x1_0000_0000 && Past() == old(Past())
      ensures old(reading.Valid?) ==>
                && where == Final && next == final && first == old(first)
                && Past() == Remember(old(Past()), old(next), old(reading).datum)
                && lastDatum == if Past() == old(Past()) then old(lastDatum) else old(reading).datum
    {
      if reading.Invalid? {
        first := (first + 1) % 0x1_0000_0000;
        next := first;
        where := First;
        return;
      }
      UpdateEhsHis(reading.datum);
      next := final;
      where := Final;
    }

    /** Record the final reading and start with one interval, or step to the packet before if there is none. */
    method EhsFinal()
      requires Room() && lastPkt == next
      modifies this`where, this`reading, this`next, this`midway, this`final, this`lastDatum, this`hwrite,
               this`history, history, this`swrite, this`stack, stack
      ensures Room() && (history == old(history) || fresh(history)) && (stack == old(stack) || fresh(stack))
      ensures old(reading.Invalid?) ==>
                && final == next == (old(final) + 0xFFFF_FFFF) % 0x1_0000_0000 && where == old(where)
                && Past() == old(Past()) && lastDatum == old(lastDatum) && swrite == old(swrite)
      ensures old(reading.Valid?) ==>
                && where == Searching && final == old(final)
                && Started(old(View()), View(), old(Past()), Past(), old(lastDatum), lastDatum, first, final, lastPkt,
                           old(reading).datum)
    {
      hide NextFrom, Mid, Remember;
      if reading.Invalid? {
        final := (final + 0xFFFF_FFFF) % 0x1_0000_0000;
        next := final;
        return;
      }
      UpdateEhsHis(reading.datum);
      AppendEhsStk(Interval(first, history[0].zdatum, final, history[1].zdatum, lastPkt));
      next := NextFromEhsStack();
      midway := next;
      where := Searching;
    }

    /** Record a reading and find out where to read next; returns whether the search is over. */
    method EhsSearch() returns (bail: bool)
      requires Room() && lastPkt == next && sRead < swrite
      modifies this`where, this`reading, this`next, this`lastDatum, this`hwrite, this`history, history,
               this`sRead, this`swrite, this`stack, stack
      ensures Room() && (history == old(history) || fresh(history)) && (stack == old(stack) || fresh(stack))
      ensures old(reading.Invalid?) ==>
                && (bail <==> !(first < old(next) < midway || midway < old(next) < final))
                && View() == old(View()).(next := Stepped(first, midway, final, old(next)))
                && Past() == old(Past()) && lastDatum == old(lastDatum)
      ensures old(reading.Valid?) ==>
                && Past() == Remember(old(Past()), old(next), old(reading).datum)
                && lastDatum == (if Past() == old(Past()) then old(lastDatum) else old(reading).datum)
                && View() == Resolve(old(View()), lastDatum)
                && (bail <==> next == midway)
      ensures where == (if bail then Finish else old(where)) && (!bail ==> sRead < swrite)
    {
      hide Mid, Remember, MoveOf;
      bail := false;
      if reading.Invalid? {
        if next > first && next < midway {
          next := next - 1;
        } else if next < final && next > midway {
          next := next + 1;
        } else {
          where := Finish;
          bail := true;
        }
        return;
      }
      UpdateEhsHis(reading.datum);
      var spot := ResolveEhsStk();
      next := spot;
      if next == midway {
        where := Finish;
        bail := true;
      }
    }

    /** Where a search of valid readings d has got to. */
    ghost predicate Going(d: seq<int>)
      requires Room()
      reads this, stack, history
    {
      && Range(d, if where == Begin then first + 1 else first, final)
      && Kept(d, Past(), lastDatum)
      && match where
         case Begin => next == first && Past() == [] && sRead == swrite == 0
         case First => next == first && Past() == [] && sRead == swrite == 0
         case Final => next == final && Past() == [SrchData(first, d[first], 1)] && sRead == swrite == 0
         case Searching => OnTrack(d, first, final, View())
         case Finish => View() == Searched(d, first, final)
    }

    ghost function Rank(): nat
      reads this
    {
      match where case Begin => 4 case First => 3 case Final => 2 case Searching => 1 case Finish => 0
    }

    /** There is an interval to search, if that is where the search has got to. */
    ghost predicate Running()
      reads this
    {
      Room() && where != Finish && (where == Begin ==> Ready()) && (where == Searching ==> sRead < swrite)
    }

    /** The next reading of a search of d. */
    ghost predicate Reads(d: seq<int>, r: Reading)
      requires Room()
      reads this, stack, history
    {
      Going(d) && next < |d| && r == Valid(d[next])
    }

    ghost function Left(): int
      requires Room()
      reads this, stack
    {
      Work(stack[..swrite], sRead)
    }

    /** The first step loses its reading, and moves on from the first packet. */
    method LoseReading(r: Reading, ghost d: seq<int>)
      requires Ready()
      modifies this, stack, history
      ensures Running() && where == First && fresh(stack) && fresh(history)
      ensures first == next == (old(first) + 1) % 0x1_0000_0000 && final == old(final)
      ensures Past() == [] && sRead == swrite == 0
      ensures old(Reads(d, r)) ==> Going(d)
    {
      lastPkt := next;
      reading := r;
      EhsBegin();
      EhsFirst();
    }

    method FirstReading(r: Reading, ghost d: seq<int>)
      requires Room() && where == First
      modifies this, history
      ensures Running() && where != Searching && where != Begin
      ensures stack == old(stack) && (history == old(history) || fresh(history))
      ensures final == old(final) && sRead == old(sRead) && swrite == old(swrite)
      ensures r.Valid? ==> first == old(first) && where == Final && next == final
      ensures r.Invalid? ==>
                where == First && first == next == (old(first) + 1) % 0x1_0000_0000 && Past() == old(Past())
      ensures r.Valid? ==>
                && Past() == Remember(old(Past()), old(next), r.datum)
                && lastDatum == if Past() == old(Past()) then old(lastDatum) else r.datum
      ensures old(Reads(d, r)) ==> Going(d) && where == Final
    {
      lastPkt := next;
      reading := r;
      EhsFirst();
    }

    method FinalReading(r: Reading, ghost d: seq<int>)
      requires Room() && where == Final
      modifies this, stack, history
      ensures Running() && where != Begin
      ensures (stack == old(stack) || fresh(stack)) && (history == old(history) || fresh(history))
      ensures r.Valid? ==> first == old(first) && final == old(final) && where == Searching && next == midway
      ensures r.Invalid? ==>
                && where == Final && final == next == (old(final) + 0xFFFF_FFFF) % 0x1_0000_0000
                && first == old(first) && Past() == old(Past()) && lastDatum == old(lastDatum)
                && sRead == old(sRead) && swrite == old(swrite)
      ensures r.Valid? ==>
                Started(old(View()), View(), old(Past()), Past(), old(lastDatum), lastDatum, first, final, old(next),
                        r.datum)
      ensures old(Reads(d, r)) ==> Going(d) && where == Searching
    {
      hide Inv, Rest, Searched, OnTrack, Resolve, Work, Kept, Remember, Mid, NextFrom, Initial;
      ghost var s, past, last := View(), Past(), lastDatum;
      lastPkt := next;
      reading := r;
      EhsFinal();
      if old(Reads(d, r)) {
        StartedInitial(d, first, final, s, View(), past, Past(), last, lastDatum);
      }
    }

    method NextReading(r: Reading, ghost d: seq<int>) returns (bail: bool)
      requires Running() && where == Searching
      modifies this, stack, history
      ensures Room() && (bail <==> where == Finish) && (!bail ==> where == Searching && Running())
      ensures (stack == old(stack) || fresh(stack)) && (history == old(history) || fresh(history))
      ensures first == old(first) && final == old(final) && midway == old(midway)
      ensures r.Invalid? ==>
                && (bail <==> !(first < old(next) < midway || midway < old(next) < final))
                && View() == old(View()).(next := Stepped(first, midway, final, old(next)))
                && Past() == old(Past()) && lastDatum == old(lastDatum)
      ensures r.Valid? ==>
                && Past() == Remember(old(Past()), old(next), r.datum)
                && lastDatum == (if Past() == old(Past()) then old(lastDatum) else r.datum)
                && View() == Resolve(old(View()), lastDatum)
                && (bail <==> next == midway)
      ensures old(Reads(d, r)) ==> Going(d) && 0 <= Left() < old(Left())
    {
      hide Inv, Rest, Searched, OnTrack, Resolve, Work, Kept, Remember;
      ghost var past, last, o := Past(), lastDatum, next;
      lastPkt := next;
      if Reads(d, r) {
        OnTrackStep(d, first, final, View());
      }
      reading := r;
      bail := EhsSearch();
      if old(Reads(d, r)) {
        KeptStep(d, past, last, o, lastDatum);
      }
    }

    /**
     One reading of the search, valid or not; returns whether it is over.  The
     first one is lost.  A valid reading of the data d brings a search of d nearer
     to its result.
     */
    method ExtendedHdrSearch(r: Reading, ghost d: seq<int>) returns (bail: bool)
      requires Running()
      modifies this, stack, history
      ensures Room() && (bail <==> where == Finish) && (!bail ==> Running())
      ensures (history == old(history) || fresh(history)) && (stack == old(stack) || fresh(stack))
      ensures old(where) == Begin ==>
                && where == First && first == next == (old(first) + 1) % 0x1_0000_0000 && final == old(final)
                && Past() == [] && sRead == swrite == 0
      ensures old(where) != Begin ==> where != Begin && (r.Valid? ==> first == old(first) && final == old(final))
      ensures old(where) == First ==> final == old(final) && sRead == old(sRead) && swrite == old(swrite)
      ensures old(where) == First && r.Invalid? ==>
                where == First && first == next == (old(first) + 1) % 0x1_0000_0000 && Past() == old(Past())
      ensures old(where) == First && r.Valid? ==>
                && where == Final && next == final && Past() == Remember(old(Past()), old(next), r.datum)
                && lastDatum == if Past() == old(Past()) then old(lastDatum) else r.datum
      ensures old(where) == Final && r.Invalid? ==>
                && where == Final && final == next == (old(final) + 0xFFFF_FFFF) % 0x1_0000_0000
                && first == old(first) && Past() == old(Past()) && lastDatum == old(lastDatum)
                && sRead == old(sRead) && swrite == old(swrite)
      ensures old(where) == Final && r.Valid? ==>
                && where == Searching
                && Started(old(View()), View(), old(Past()), Past(), old(lastDatum), lastDatum, first, final, old(next),
                           r.datum)
      ensures old(where) == Searching ==>
                first == old(first) && final == old(final) && midway == old(midway) && (bail || where == Searching)
      ensures old(where) == Searching && r.Invalid? ==>
                && (bail <==> !(first < old(next) < midway || midway < old(next) < final))
                && View() == old(View()).(next := Stepped(first, midway, final, old(next)))
                && Past() == old(Past()) && lastDatum == old(lastDatum)
      ensures old(where) == Searching && r.Valid? ==>
                && Past() == Remember(old(Past()), old(next), r.datum)
                && lastDatum == (if Past() == old(Past()) then old(lastDatum) else r.datum)
                && View() == Resolve(old(View()), lastDatum)
                && (bail <==> next == midway)
      ensures old(Reads(d, r)) ==>
                Going(d) && (Rank() < old(Rank()) || (Rank() == old(Rank()) && 0 <= Left() < old(Left())))
    {
      hide Going, Left, Started, Remember, Resolve, Mid;
      bail := false;
      match where {
        case Begin =>
          LoseReading(r, d);
        case First =>
          FirstReading(r, d);
        case Final =>
          FinalReading(r, d);
        case Searching =>
          bail := NextReading(r, d);
      }
    }

    /** Search valid readings to the end.  The search is that of the packets behind the first. */
    method Run(d: seq<int>)
      requires Ready() && Range(d, first + 1, final)
      modifies this, stack, history
      ensures Room() && where == Finish && first == old(first) + 1 && final == old(final)
      ensures View() == Searched(d, first, final)
      ensures Kept(d, Past(), lastDatum)
    {
      var bail := false;
      while !bail
        invariant Room() && Going(d) && final == old(final)
        invariant first == if where == Begin then old(first) else old(first) + 1
        invariant !bail ==> Running()
        invariant (history == old(history) || fresh(history)) && (stack == old(stack) || fresh(stack))
        invariant bail <==> where == Finish
        decreases Rank(), Left()
      {
        NextInRange(d);
        bail := ExtendedHdrSearch(Valid(d[next]), d);
      }
    }

    lemma NextInRange(d: seq<int>)
      requires Room() && Going(d) && where != Finish
      ensures next < |d|
    {
      if where == Searching {
        OnTrackStep(d, first, final, View());
      }
    }
  }

  /** A search of valid readings starts with the whole range. */
  lemma {:induction false} StartedInitial(d: seq<int>, first: nat, final: nat, s: Search, t: Search,
      past: seq<SrchData>, now: seq<SrchData>, last: int, lastNow: int)
    requires Range(d, first, final) && past == [SrchData(first, d[first], 1)] && s.stack == [] && s.read == 0
    requires Started(s, t, past, now, last, lastNow, first, final, final, d[final])
    ensures t == Initial(d, first, final) && Kept(d, now, lastNow) && OnTrack(d, first, final, t)
  {
    hide Inv, Rest, Searched, Mid, OnTrack;
    InitialOnTrack(d, first, final);
    BothKept(d, first, final);
  }

  /** A search on its way to the result. */
  ghost predicate OnTrack(d: seq<int>, first: nat, final: nat, s: Search) {
    && Inv(d, first, final, s)
    && (s == Initial(d, first, final) || (s.next != s.midway && Searched(d, first, final) == Rest(d, first, final, s)))
  }

  lemma {:induction false} InitialOnTrack(d: seq<int>, first: nat, final: nat)
    requires Range(d, first, final)
    ensures OnTrack(d, first, final, Initial(d, first, final))
  {
    InitialInv(d, first, final);
  }

  lemma {:induction false} OnTrackStep(d: seq<int>, first: nat, final: nat, s: Search)
    requires Range(d, first, final) && OnTrack(d, first, final, s)
    ensures s.read < |s.stack| && s.next < |d|
    ensures var t := Resolve(s, d[s.next]);
            && 0 <= Work(t.stack, t.read) < Work(s.stack, s.read)
            && (if t.next == t.midway then t == Searched(d, first, final) else OnTrack(d, first, final, t))
  {
    ResolveWorks(d, first, final, s);
    ResolveKeeps(d, first, final, s);
    var t := Resolve(s, d[s.next]);
    if s == Initial(d, first, final) {
      SearchedStep(d, first, final, t);
    } else {
      RestStep(d, first, final, s, t);
    }
    if t.next == t.midway {
      RestEnds(d, first, final, t);
    }
  }
}
