/**
 The search for clock jumps when some packets have no valid reading.  The middle of
 an interval may then be unread, and the search steps away from the first middle
 until it can read a packet.  It keeps its intervals sound all the same; an interval
 done with tells two neighbours that differ, or has a half in which nothing can be
 read.
 */
module Blind {
  import opened Bisect

  predicate Readable(d: seq<Reading>, o: nat) {
    o < |d| && d[o].Valid?
  }

  /** None of the packets a..b, b not included, has a valid reading. */
  ghost predicate Unread(d: seq<Reading>, a: int, b: int) {
    forall k :: a <= k < b && 0 <= k < |d| ==> d[k].Invalid?
  }

  /** Packets f and g are the first and the last of those behind start, up to end, that can be read. */
  ghost predicate Ends(d: seq<Reading>, start: nat, end: nat, f: nat, g: nat) {
    && start < f < g <= end < |d| && end <= 0x8000_0000
    && d[f].Valid? && d[g].Valid?
    && Unread(d, start + 1, f) && Unread(d, g + 1, end + 1)
  }

  /** An interval of packets f..g with the data read at its ends. */
  ghost predicate True(d: seq<Reading>, f: nat, g: nat, i: Interval) {
    && f <= i.lesser < i.bigger <= g < |d|
    && d[i.lesser] == Valid(i.ldatum) && d[i.bigger] == Valid(i.bdatum)
  }

  function Middle(i: Interval): nat {
    Mid(i.bigger, i.lesser)
  }

  /** An interval done with: its ends differ, and between its middle and one of them nothing can be read. */
  ghost predicate Closed(d: seq<Reading>, i: Interval) {
    && i.ldatum != i.bdatum
    && (Unread(d, i.lesser + 1, Middle(i) + 1) || Unread(d, Middle(i), i.bigger))
  }

  /** Where every packet can be read, that tells two neighbours that differ. */
  lemma {:induction false} ClosedIsExact(d: seq<Reading>, f: nat, g: nat, i: Interval)
    requires True(d, f, g, i) && Closed(d, i) && g <= 0x8000_0000
    requires forall k :: i.lesser <= k <= i.bigger ==> d[k].Valid?
    ensures Exact(i)
  {
    MidInside(i.lesser, i.bigger);
    var atMiddle := d[Middle(i)];
  }

  /** A jump between packets 3 and 4 that is told no nearer than 1 to 4, as 2 cannot be read, although 3 can. */
  lemma {:induction false} WideLeap()
    ensures var d := [Valid(0), Valid(0), Invalid, Valid(0), Valid(1), Valid(1), Valid(1), Valid(1), Valid(2)];
            var i := Interval(1, 0, 4, 1, 1);
            && Leap(d, 0, 8, 3, 4) && True(d, 0, 8, i)
            && d[Middle(i)].Invalid? && Stepped(0, 4, 8, Middle(i)) == i.lesser
            && MoveOf(i, i.lesser, 0) == Done && Closed(d, i) && !Exact(i)
  {
    assert Mid(4, 1) == 2;
  }

  /**
   What packet o is to be read for: the middle of the interval, or a packet between
   it and the end far from midway.
   */
  ghost predicate OnTheWay(d: seq<Reading>, i: Interval, midway: nat, o: nat) {
    || o == Middle(i)
    || (i.bigger <= midway && i.lesser <= o < Middle(i) && Unread(d, o + 1, Middle(i) + 1))
    || (midway <= i.lesser && Middle(i) < o <= i.bigger && Unread(d, Middle(i), o))
  }

  /** A jump of what can be read: packets a and b differ, and none between them can be read. */
  ghost predicate Leap(d: seq<Reading>, f: nat, g: nat, a: nat, b: nat) {
    && f <= a < b <= g < |d| && d[a].Valid? && d[b].Valid? && d[a] != d[b] && Unread(d, a + 1, b)
  }

  /** Equal data come from one run of the packets that can be read. */
  ghost predicate OneRun(d: seq<Reading>, f: nat, g: nat) {
    forall a, b, c :: f <= a <= b <= c <= g < |d| && d[b].Valid? && d[a].Valid? && d[a] == d[c] ==> d[a] == d[b]
  }

  predicate Spans(i: Interval, a: nat, b: nat) {
    i.lesser <= a && b <= i.bigger
  }

  ghost predicate Spanned(stack: seq<Interval>, a: nat, b: nat) {
    exists i :: 0 <= i < |stack| && Spans(stack[i], a, b)
  }

  ghost predicate AllSpanned(d: seq<Reading>, f: nat, g: nat, stack: seq<Interval>) {
    forall a, b :: Leap(d, f, g, a, b) ==> Spanned(stack, a, b)
  }

  /** What every reading keeps. */
  ghost predicate Held(d: seq<Reading>, f: nat, g: nat, s: Search) {
    && f < g < |d| && g <= 0x8000_0000
    && s.read <= |s.stack| && 0 < |s.stack|
    && (forall i :: 0 <= i < |s.stack| ==> True(d, f, g, s.stack[i]))
    && (forall i, j :: 0 <= i < j < |s.stack| ==> Disjoint(s.stack[i], s.stack[j]))
    && (Flat(s) || forall i :: 0 <= i < |s.stack| ==> s.stack[i].ldatum != s.stack[i].bdatum)
    && (Flat(s) || forall i :: 0 <= i < s.read ==> Closed(d, s.stack[i]))
    && (OneRun(d, f, g) ==> AllSpanned(d, f, g, s.stack))
  }

  /** The search of packets f..g before its first middle is read. */
  ghost predicate AtStart(d: seq<Reading>, f: nat, g: nat, s: Search) {
    && f < g < |d| && d[f].Valid? && d[g].Valid?
    && s.midway == s.next == Mid(g, f)
    && s.stack == [Interval(f, d[f].datum, g, d[g].datum, g)] && s.read == 0
  }

  /** A search that is not over. */
  ghost predicate Under(d: seq<Reading>, f: nat, g: nat, s: Search) {
    && Held(d, f, g, s)
    && s.read < |s.stack| && OnTheWay(d, s.stack[s.read], s.midway, s.next)
    && s.midway == Mid(g, f)
    && (AtStart(d, f, g, s) || (s.next != s.midway && Sided(s) && Readable(d, s.midway)))
  }

  /**
   A search that is over.  If the first middle cannot be read that is where it
   ended; otherwise no interval is left, or the one to come is a jump right behind
   that middle.
   */
  ghost predicate Over(d: seq<Reading>, f: nat, g: nat, s: Search) {
    && Held(d, f, g, s) && s.next == s.midway == Mid(g, f)
    && if Readable(d, s.midway)
       then s.read == |s.stack| || (Exact(s.stack[s.read]) && s.stack[s.read].lesser == s.midway)
       else AtStart(d, f, g, s)
  }

  // ---------------------------------------------------------------- steps

  lemma {:induction false} StartsUnder(d: seq<Reading>, f: nat, g: nat, s: Search)
    requires AtStart(d, f, g, s) && g <= 0x8000_0000
    ensures Under(d, f, g, s)
  {
    forall a, b | Leap(d, f, g, a, b)
      ensures Spanned(s.stack, a, b)
    {
      assert Spans(s.stack[0], a, b);
    }
  }

  /** The packet to read is in the interval; the search reads on where it is. */
  lemma {:induction false} ReadsInside(d: seq<Reading>, f: nat, g: nat, s: Search)
    requires Under(d, f, g, s)
    ensures var cur := s.stack[s.read];
            True(d, f, g, cur) && cur.lesser <= s.next <= cur.bigger <= g < |d|
                && cur.lesser <= Middle(cur) < cur.bigger
  {
    var cur := s.stack[s.read];
    MidInside(cur.lesser, cur.bigger);
  }

  /** How far the packet to read is from the end of the interval that the search steps to. */
  function Distance(s: Search): int
    requires s.read < |s.stack|
  {
    var cur := s.stack[s.read];
    if cur.bigger <= s.midway then s.next - cur.lesser else cur.bigger - s.next
  }

  /** A middle that cannot be read ends the search if it is the first, and otherwise is stepped away from. */
  lemma {:induction false} BlindStep(d: seq<Reading>, f: nat, g: nat, s: Search)
    requires Under(d, f, g, s) && s.next < |d| && d[s.next].Invalid?
    ensures var t := s.(next := Stepped(f, s.midway, g, s.next));
            if !(f < s.next < s.midway || s.midway < s.next < g) then t == s && Over(d, f, g, t)
            else Under(d, f, g, t) && 0 <= Distance(t) < Distance(s)
    ensures s.next == s.midway <==> !(f < s.next < s.midway || s.midway < s.next < g)
  {
    ReadsInside(d, f, g, s);
    hide AllSpanned, OneRun, Mid;
    var cur := s.stack[s.read];
    assert s.next != cur.lesser && s.next != cur.bigger;
    assert AtStart(d, f, g, s) || cur.bigger <= s.midway || s.midway <= cur.lesser;
  }

  /** What a reading at packet o, on the way from the middle, makes of an interval. */
  lemma {:induction false} MoveHolds(d: seq<Reading>, f: nat, g: nat, cur: Interval, midway: nat, o: nat)
    requires True(d, f, g, cur) && g <= 0x8000_0000 && OnTheWay(d, cur, midway, o) && o < |d| && d[o].Valid?
    ensures cur.lesser <= o <= cur.bigger
    ensures match MoveOf(cur, o, d[o].datum)
            case Done => cur.ldatum == cur.bdatum || Closed(d, cur)
            case Narrow(now) =>
              && True(d, f, g, now) && Part(now, cur) && Length(now) < Length(cur)
              && now.ldatum == cur.ldatum != cur.bdatum == now.bdatum
            case Split(now, later) =>
              && True(d, f, g, now) && True(d, f, g, later)
              && Part(now, cur) && Part(later, cur) && now.bigger == later.lesser == o
              && Length(now) + Length(later) == Length(cur)
              && now.ldatum != now.bdatum && later.ldatum != later.bdatum
  {
    MidInside(cur.lesser, cur.bigger);
  }

  /** A leap in an interval is in what a reading makes of it. */
  lemma {:induction false} LeapHeld(d: seq<Reading>, f: nat, g: nat, cur: Interval, o: nat, a: nat, b: nat)
    requires True(d, f, g, cur) && OneRun(d, f, g) && cur.lesser <= o <= cur.bigger && d[o].Valid?
    requires Leap(d, f, g, a, b) && Spans(cur, a, b)
    ensures match MoveOf(cur, o, d[o].datum)
            case Done => true
            case Narrow(now) => Spans(now, a, b)
            case Split(now, later) => Spans(now, a, b) || Spans(later, a, b)
  {
    assert o <= a || b <= o;
  }

  /** A valid reading lowers the work left, and keeps the search going or ends it. */
  lemma {:induction false} ReadStep(d: seq<Reading>, f: nat, g: nat, s: Search)
    requires Under(d, f, g, s) && s.next < |d| && d[s.next].Valid?
    ensures var t := Resolve(s, d[s.next].datum);
            && Work(t.stack, t.read) < Work(s.stack, s.read)
            && if t.next == t.midway then Over(d, f, g, t) else Under(d, f, g, t)
  {
    ReadHolds(d, f, g, s);
    ReadWorks(d, f, g, s);
    ReadSides(d, f, g, s);
    var t := Resolve(s, d[s.next].datum);
    hide Resolve, AllSpanned, OneRun, Work;
    if t.read < |t.stack| {
      var cur := t.stack[t.read];
      assert True(d, f, g, cur);
      MidInside(cur.lesser, cur.bigger);
    }
  }

  lemma {:induction false} ReadWorks(d: seq<Reading>, f: nat, g: nat, s: Search)
    requires Under(d, f, g, s) && s.next < |d| && d[s.next].Valid?
    ensures var t := Resolve(s, d[s.next].datum);
            Work(t.stack, t.read) < Work(s.stack, s.read)
  {
    hide MoveOf, Mid, Work, Resolve, Closed, AtStart, OnTheWay, Sided, AllSpanned, OneRun;
    var cur := s.stack[s.read];
    assert True(d, f, g, cur);
    MoveHolds(d, f, g, cur, s.midway, s.next);
    MoveWorks(s, d[s.next].datum);
  }

  lemma {:induction false} MoveWorks(s: Search, datum: int)
    requires s.read < |s.stack| && 0 < Length(s.stack[s.read])
    requires match MoveOf(s.stack[s.read], s.next, datum)
             case Done => true
             case Narrow(now) => Length(now) < Length(s.stack[s.read])
             case Split(now, later) => Length(now) + Length(later) == Length(s.stack[s.read])
    ensures var t := Resolve(s, datum);
            Work(t.stack, t.read) < Work(s.stack, s.read)
  {
    hide MoveOf, Mid;
    match MoveOf(s.stack[s.read], s.next, datum) {
      case Done =>
      case Narrow(now) =>
        WorkNarrow(s.stack, s.read, now);
      case Split(now, later) =>
        WorkNarrow(s.stack, s.read, now);
        WorkAppend(s.stack[s.read := now], later, s.read);
    }
  }

  /** While there is work left, the intervals lie on one side of the first middle. */
  lemma {:induction false} ReadSides(d: seq<Reading>, f: nat, g: nat, s: Search)
    requires Under(d, f, g, s) && s.next < |d| && d[s.next].Valid?
    ensures Sided(Resolve(s, d[s.next].datum))
  {
    var cur := s.stack[s.read];
    ReadsInside(d, f, g, s);
    MoveHolds(d, f, g, cur, s.midway, s.next);
    hide OnTheWay, AllSpanned, OneRun, Closed, True;
  }

  lemma {:induction false} ReadHolds(d: seq<Reading>, f: nat, g: nat, s: Search)
    requires Under(d, f, g, s) && s.next < |d| && d[s.next].Valid?
    ensures Held(d, f, g, Resolve(s, d[s.next].datum))
  {
    hide OnTheWay, AllSpanned, OneRun, Closed, MoveOf, AtStart, Sided, Disjoint, Part, Mid, NextFrom;
    var cur := s.stack[s.read];
    assert True(d, f, g, cur);
    MoveHolds(d, f, g, cur, s.midway, s.next);
    if OneRun(d, f, g) {
      ReadSpans(d, f, g, s);
    }
    match MoveOf(cur, s.next, d[s.next].datum) {
      case Done =>
      case Narrow(now) =>
        StaysApart(s.stack, s.read, now);
      case Split(now, later) =>
        StaysApart(s.stack, s.read, now);
        AddedApart(s.stack, s.read, now, later);
    }
  }

  ghost predicate AllDisjoint(stack: seq<Interval>) {
    forall i, j :: 0 <= i < j < |stack| ==> Disjoint(stack[i], stack[j])
  }

  lemma {:induction false} StaysApart(stack: seq<Interval>, read: nat, now: Interval)
    requires read < |stack| && AllDisjoint(stack) && Part(now, stack[read])
    ensures AllDisjoint(stack[read := now])
  {
    var t := stack[read := now];
    forall i, j | 0 <= i < j < |t|
      ensures Disjoint(t[i], t[j])
    {
      assert Disjoint(stack[i], stack[j]);
    }
  }

  lemma {:induction false} AddedApart(stack: seq<Interval>, read: nat, now: Interval, later: Interval)
    requires read < |stack| && AllDisjoint(stack) && AllDisjoint(stack[read := now])
    requires Part(later, stack[read]) && now.bigger == later.lesser && later.lesser < later.bigger
    ensures AllDisjoint(stack[read := now] + [later])
  {
    var t := stack[read := now];
    forall i | 0 <= i < |t|
      ensures Disjoint(t[i], later)
    {
      assert i < read ==> Disjoint(stack[i], stack[read]);
      assert read < i ==> Disjoint(stack[read], stack[i]);
    }
  }

  /** No leap slips out of the intervals. */
  lemma {:induction false} ReadSpans(d: seq<Reading>, f: nat, g: nat, s: Search)
    requires Under(d, f, g, s) && s.next < |d| && d[s.next].Valid? && OneRun(d, f, g)
    ensures AllSpanned(d, f, g, Resolve(s, d[s.next].datum).stack)
  {
    var cur := s.stack[s.read];
    ReadsInside(d, f, g, s);
    var t := Resolve(s, d[s.next].datum);
    forall a, b | Leap(d, f, g, a, b)
      ensures Spanned(t.stack, a, b)
    {
      assert Spanned(s.stack, a, b);
      var i :| 0 <= i < |s.stack| && Spans(s.stack[i], a, b);
      if i != s.read {
        assert Spans(t.stack[i], a, b);
      } else {
        LeapHeld(d, f, g, cur, s.next, a, b);
        assert Spans(t.stack[i], a, b) || Spans(t.stack[|t.stack| - 1], a, b);
      }
    }
  }

  // ---------------------------------------------------------------- the whole search

  /** The readings kept are true. */
  ghost predicate Noted(d: seq<Reading>, past: seq<SrchData>, last: int) {
    && (forall i :: 0 <= i < |past| ==> past[i].offset < |d| && d[past[i].offset] == Valid(past[i].zdatum))
    && (past != [] ==> last == past[|past| - 1].zdatum)
  }

  lemma {:induction false} NotedNone(d: seq<Reading>, last: int)
    ensures Noted(d, [], last)
  {
  }

  lemma {:induction false} NotedStep(d: seq<Reading>, past: seq<SrchData>, last: int, o: nat, now: int)
    requires Noted(d, past, last) && o < |d| && d[o].Valid?
    requires now == if Remember(past, o, d[o].datum) == past then last else d[o].datum
    ensures Noted(d, Remember(past, o, d[o].datum), now) && now == d[o].datum
  {
  }

  /** The readings kept are of packets that were read. */
  ghost predicate Visited(past: seq<SrchData>, trail: seq<nat>) {
    forall i :: 0 <= i < |past| ==> past[i].offset in trail
  }

  lemma {:induction false} VisitedStep(past: seq<SrchData>, trail: seq<nat>, o: nat, datum: int)
    requires Visited(past, trail)
    ensures Visited(past, trail + [o]) && Visited(Remember(past, o, datum), trail + [o]) && Visited([], trail + [o])
  {
  }

  /** Where a search of packets start..end, with f and g the ends that can be read, has got to. */
  ghost predicate Reached(s: SrchState, d: seq<Reading>, start: nat, end: nat, f: nat, g: nat)
    requires s.Room()
    reads s, s.stack, s.history
  {
    && Ends(d, start, end, f, g)
    && Noted(d, s.Past(), s.lastDatum)
    && (s.where.Begin? || s.where.First? || s.where.Final? ==> s.sRead == s.swrite == 0)
    && match s.where
       case Begin => s.first == s.next == start && s.final == end && s.Past() == []
       case First => start < s.first == s.next <= f && s.final == end && s.Past() == []
       case Final =>
         && s.first == f && g <= s.final == s.next <= end
         && s.Past() == [SrchData(f, d[f].datum, 1)]
       case Searching => s.first == f && s.final == g && Under(d, f, g, s.View())
       case Finish => s.first == f && s.final == g && Over(d, f, g, s.View())
  }

  lemma {:induction false} StartedAt(d: seq<Reading>, f: nat, g: nat, s: Search, t: Search,
      past: seq<SrchData>, now: seq<SrchData>, last: int, lastNow: int)
    requires f < g < |d| && d[f].Valid? && d[g].Valid?
    requires past == [SrchData(f, d[f].datum, 1)] && s.stack == [] && s.read == 0
    requires Started(s, t, past, now, last, lastNow, f, g, g, d[g].datum)
    ensures AtStart(d, f, g, t) && Noted(d, now, lastNow)
  {
  }

  /** The first and the last packets that can be read are where the steps from either end stop. */
  lemma {:induction false} EndReached(d: seq<Reading>, start: nat, end: nat, f: nat, g: nat, o: nat)
    requires Ends(d, start, end, f, g) && o < |d|
    ensures start < o <= f ==> (d[o].Valid? <==> o == f)
    ensures g <= o <= end ==> (d[o].Valid? <==> o == g)
    ensures f < g < |d| && end <= 0x8000_0000 && d[f].Valid? && d[g].Valid? && start < f && g <= end
  {
  }

  /** One reading between the ends. */
  method SearchStep(s: SrchState, d: seq<Reading>, ghost f: nat, ghost g: nat) returns (bail: bool)
    requires s.Running() && s.where == Searching && s.first == f && s.final == g && s.next < |d|
    requires Noted(d, s.Past(), s.lastDatum) && Under(d, f, g, s.View())
    modifies s, s.stack, s.history
    ensures s.Room() && s.where == (if bail then Finish else Searching) && (!bail ==> s.Running())
    ensures (s.history == old(s.history) || fresh(s.history)) && (s.stack == old(s.stack) || fresh(s.stack))
    ensures s.first == f && s.final == g && Noted(d, s.Past(), s.lastDatum)
    ensures s.Past() == if d[old(s.next)].Valid? then Remember(old(s.Past()), old(s.next), d[old(s.next)].datum)
                        else old(s.Past())
    ensures if bail then Over(d, f, g, s.View()) else Under(d, f, g, s.View())
  {
    hide Under, Over, Resolve, Noted, Remember;
    ghost var view, past, last, o := s.View(), s.Past(), s.lastDatum, s.next;
    if d[o].Valid? {
      NotedStep(d, past, last, o, if Remember(past, o, d[o].datum) == past then last else d[o].datum);
      ReadStep(d, f, g, view);
    } else {
      BlindStep(d, f, g, view);
    }
    bail := s.ExtendedHdrSearch(d[s.next], []);
  }

  /** One reading of the search. */
  method Step(s: SrchState, d: seq<Reading>, ghost start: nat, ghost end: nat, ghost f: nat, ghost g: nat,
      ghost trail: seq<nat>)
    returns (bail: bool)
    requires s.Running() && Reached(s, d, start, end, f, g) && s.next < |d| && Visited(s.Past(), trail)
    modifies s, s.stack, s.history
    ensures s.Room() && (bail <==> s.where == Finish) && (!bail ==> s.Running())
    ensures (s.history == old(s.history) || fresh(s.history)) && (s.stack == old(s.stack) || fresh(s.stack))
    ensures Reached(s, d, start, end, f, g) && Visited(s.Past(), trail + [old(s.next)])
  {
    hide Under, Over, Resolve, AtStart, Ends, Visited;
    VisitedStep(s.Past(), trail, s.next, if d[s.next].Valid? then d[s.next].datum else 0);
    if s.where == Searching {
      bail := SearchStep(s, d, f, g);
      return;
    }
    EndReached(d, start, end, f, g, s.next);
    ghost var where, view, past, last, o := s.where, s.View(), s.Past(), s.lastDatum, s.next;
    bail := s.ExtendedHdrSearch(d[s.next], []);
    if where == Final && d[o].Valid? {
      StartedAt(d, f, g, view, s.View(), past, s.Past(), last, s.lastDatum);
      StartsUnder(d, f, g, s.View());
    }
    assert Noted(d, s.Past(), s.lastDatum);
  }

  /**
   The search as it is driven: one reading for each packet of the range at most.
   Two of the packets behind the first are to have a valid reading; f and g are the
   first and the last of them, and trail lists the packets read.  A search that is
   over is so in one of the ways said above; one that has used up its readings is
   stopped as it is.
   */
  method CheckSearch(s: SrchState, d: seq<Reading>, ghost f: nat, ghost g: nat)
    returns (bail: bool, ghost trail: seq<nat>)
    requires s.Ready() && Ends(d, s.first, s.final, f, g)
    modifies s, s.stack, s.history
    ensures s.Room() && (bail <==> s.where == Finish)
    ensures Noted(d, s.Past(), s.lastDatum) && Visited(s.Past(), trail)
    ensures 0 < |trail| <= old(s.final - s.first + 1) && trail[0] == old(s.first)
    ensures forall o :: o in trail ==> old(s.first) <= o <= old(s.final)
    ensures bail ==> s.first == f && s.final == g && Over(d, f, g, s.View())
    ensures !bail ==> |trail| == old(s.final - s.first + 1)
    ensures !bail && s.where == Searching ==> s.first == f && s.final == g && Under(d, f, g, s.View())
  {
    NotedNone(d, s.lastDatum);
    assert Visited(s.Past(), []);
    hide Under, Over, Noted, Visited;
    ghost var start, end := s.first, s.final;
    var numCheck := s.final - s.first + 1;
    bail, trail := false, [];
    var tt := 0;
    assert Reached(s, d, start, end, f, g);
    hide Reached, Ends;
    NextInside(s, d, start, end, f, g);
    while tt < numCheck && !bail
      invariant |trail| == tt <= numCheck && (tt > 0 ==> trail[0] == start)
      invariant forall o :: o in trail ==> start <= o <= end
      invariant tt == 0 ==> s.next == start && !bail
      invariant s.Room() && Reached(s, d, start, end, f, g) && (!bail ==> s.Running())
      invariant Visited(s.Past(), trail)
      invariant bail <==> s.where == Finish
      invariant (s.history == old(s.history) || fresh(s.history)) && (s.stack == old(s.stack) || fresh(s.stack))
    {
      NextInside(s, d, start, end, f, g);
      ghost var at := s.next;
      bail := Step(s, d, start, end, f, g, trail);
      trail := trail + [at];
      tt := tt + 1;
    }
    Outcome(s, d, start, end, f, g);
  }

  lemma {:induction false} Outcome(s: SrchState, d: seq<Reading>, start: nat, end: nat, f: nat, g: nat)
    requires s.Room() && Reached(s, d, start, end, f, g)
    ensures Noted(d, s.Past(), s.lastDatum)
    ensures s.where == Finish ==> s.first == f && s.final == g && Over(d, f, g, s.View())
    ensures s.where == Searching ==> s.first == f && s.final == g && Under(d, f, g, s.View())
  {
  }

  lemma {:induction false} NextInside(s: SrchState, d: seq<Reading>, start: nat, end: nat, f: nat, g: nat)
    requires s.Running() && Reached(s, d, start, end, f, g)
    ensures start <= s.next <= end < |d| && start < end
  {
    if s.where == Searching {
      ReadsInside(d, f, g, s.View());
    }
  }

  /** A search that goes through all intervals finds every leap, in an interval done with; each of those holds one. */
  lemma {:induction false} AllClosed(d: seq<Reading>, f: nat, g: nat, s: Search, a: nat, b: nat)
    requires Over(d, f, g, s) && s.read == |s.stack| && OneRun(d, f, g) && Leap(d, f, g, a, b)
    ensures exists i :: 0 <= i < |s.stack| && Spans(s.stack[i], a, b) && Closed(d, s.stack[i])
  {
    assert Spanned(s.stack, a, b);
    var i :| 0 <= i < |s.stack| && Spans(s.stack[i], a, b);
    assert True(d, f, g, s.stack[i]);
    assert !Flat(s) && Closed(d, s.stack[i]);
  }
}
