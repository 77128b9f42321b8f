/**
 The metadata cache: one growing array of entries.  A directory or sequence
 entry keeps the indices of its children in a chain of continuation entries,
 each holding up to MAX_SEQI of them and the index of the next.
 */
module Cache {

  const MAX_SEQI := 56
  const CACHE_CHUNK := 8

  datatype EType = Invalid | Fragment | Sequence | Directory | Params | Ancillary

  datatype SType = Null | Vdif | Sgv2 | Info | Sdir | Part

  /** A cache entry; nlink is used in directories and sequences, vseqi in continuations. */
  datatype Entry = Entry(etype: EType, stype: SType, cindex: nat, ccount: nat, nlink: nat, vseqi: seq<nat>)

  function Zeros(n: nat): (s: seq<nat>)
    ensures |s| == n && forall i :: 0 <= i < n ==> s[i] == 0
  {
    seq(n, i => 0)
  }

  function ZeroEntry(): Entry {
    Entry(Invalid, Null, 0, 0, 0, Zeros(MAX_SEQI))
  }

  // ---------------------------------------------------------------- chains

  /** Entry x has a continuation, later in the cache. */
  predicate Continued(c: seq<Entry>, x: nat) {
    x < |c| && x < c[x].cindex < |c|
  }

  predicate Counted(e: Entry) {
    |e.vseqi| == MAX_SEQI && e.ccount <= MAX_SEQI
  }

  /** The children in the continuations of entry x, in chain order. */
  function Kids(c: seq<Entry>, x: nat): seq<nat>
    decreases |c| - x
  {
    if Continued(c, x) then
      var e := c[c[x].cindex];
      (if Counted(e) then e.vseqi[..e.ccount] else []) + Kids(c, c[x].cindex)
    else []
  }

  /** The end of the chain of entry x. */
  function Last(c: seq<Entry>, x: nat): (k: nat)
    ensures x <= k && (x < |c| ==> k < |c|)
    ensures !Continued(c, k)
    decreases |c| - x
  {
    if Continued(c, x) then Last(c, c[x].cindex) else x
  }

  /**
   Entry x belongs to own[x]: a continuation to the entry at the head of its
   chain, any other entry to itself.  Links go to later continuations of the same
   owner; only the last of a chain has room; what is not in use is zero.
   */
  ghost predicate EntryOk(c: seq<Entry>, own: seq<nat>, x: nat)
    requires x < |c| == |own|
  {
    && (c[x].cindex != 0 ==> Continued(c, x) && c[c[x].cindex].etype == Ancillary && own[c[x].cindex] == own[x])
    && (c[x].etype == Ancillary ==>
          && Counted(c[x])
          && (c[x].cindex != 0 ==> c[x].ccount == MAX_SEQI)
          && (forall i :: 0 <= i < MAX_SEQI ==> (c[x].vseqi[i] == 0 <==> c[x].ccount <= i)))
    && (c[x].etype != Ancillary ==> own[x] == x)
  }

  ghost predicate Linked(c: seq<Entry>, own: seq<nat>) {
    && |own| == |c|
    && forall x :: 0 <= x < |c| ==> EntryOk(c, own, x)
  }

  /** The chain of an entry depends only on what belongs to the same owner. */
  lemma {:induction false} KidsFrame(c: seq<Entry>, d: seq<Entry>, own: seq<nat>, x: nat)
    requires Linked(c, own) && x < |c| <= |d|
    requires forall y :: 0 <= y < |c| && own[y] == own[x] ==> d[y] == c[y]
    ensures Kids(d, x) == Kids(c, x) && Last(d, x) == Last(c, x)
    decreases |c| - x
  {
    assert EntryOk(c, own, x);
    if Continued(c, x) {
      KidsFrame(c, d, own, c[x].cindex);
    }
  }

  lemma {:induction false} LastOwner(c: seq<Entry>, own: seq<nat>, x: nat)
    requires Linked(c, own) && x < |c|
    ensures own[Last(c, x)] == own[x]
    ensures Last(c, x) != x ==> c[Last(c, x)].etype == Ancillary
    decreases |c| - x
  {
    assert EntryOk(c, own, x);
    if Continued(c, x) {
      LastOwner(c, own, c[x].cindex);
      assert EntryOk(c, own, c[x].cindex);
    }
  }

  /** The continuation e with one more child. */
  function WithChild(e: Entry, child: nat): Entry
    requires Counted(e) && e.ccount < MAX_SEQI
  {
    e.(vseqi := e.vseqi[e.ccount := child], ccount := e.ccount + 1)
  }

  /** A child put at the end of a chain comes last. */
  lemma {:induction false} AppendAtEnd(c: seq<Entry>, x: nat, child: nat)
    requires x < |c| && Last(c, x) != x
    requires Counted(c[Last(c, x)]) && c[Last(c, x)].ccount < MAX_SEQI
    ensures var k := Last(c, x);
            Kids(c[k := WithChild(c[k], child)], x) == Kids(c, x) + [child]
    decreases |c| - x
  {
    var k := Last(c, x);
    var d := c[k := WithChild(c[k], child)];
    var n := c[x].cindex;
    assert Continued(c, x) && Continued(d, x);
    if n == k {
      assert d[k].vseqi[..d[k].ccount] == c[k].vseqi[..c[k].ccount] + [child];
      assert Kids(c, k) == [] == Kids(d, k);
    } else {
      AppendAtEnd(c, n, child);
      assert d[n] == c[n];
    }
  }

  /** An empty continuation put at the end of a chain adds no child. */
  lemma {:induction false} LinkAtEnd(c: seq<Entry>, x: nat, e: Entry)
    requires x < |c| && e.ccount == 0 && e.cindex == 0
    ensures var k := Last(c, x);
            var d := c[k := c[k].(cindex := |c|)] + [e];
            Kids(d, x) == Kids(c, x) && Last(d, x) == |c|
    decreases |c| - x
  {
    var k := Last(c, x);
    var d := c[k := c[k].(cindex := |c|)] + [e];
    if Continued(c, x) {
      LinkAtEnd(c, c[x].cindex, e);
      assert d[x] == c[x];
      var n := c[x].cindex;
      assert d[n].vseqi == c[n].vseqi && d[n].ccount == c[n].ccount;
    } else {
      assert Kids(d, |c|) == [];
      assert Continued(d, x);
    }
  }

  /** The heads of chains keep their children, head x with kid added if there is one. */
  ghost predicate SameKids(c: seq<Entry>, d: seq<Entry>, x: nat, kid: seq<nat>) {
    && |c| <= |d|
    && (forall y :: 0 <= y < |c| ==> d[y].etype == c[y].etype)
    && forall y :: 0 <= y < |c| && c[y].etype != Ancillary ==> KeptHead(c, d, y, x, if y == x then kid else [])
  }

  ghost predicate KeptHead(c: seq<Entry>, d: seq<Entry>, y: nat, x: nat, kid: seq<nat>) {
    && y < |c| <= |d|
    && (y != x ==> d[y] == c[y])
    && d[y] == c[y].(cindex := d[y].cindex, nlink := d[y].nlink, stype := d[y].stype)
    && Kids(d, y) == Kids(c, y) + kid
  }

  /** A fresh continuation. */
  function Chunk(stype: SType): Entry {
    Entry(Ancillary, stype, 0, 0, 0, Zeros(MAX_SEQI))
  }

  function LinkedAt(c: seq<Entry>, k: nat, stype: SType): seq<Entry>
    requires k < |c|
  {
    c[k := c[k].(cindex := |c|)] + [Chunk(stype)]
  }

  /** Linking a fresh continuation behind the full end of a chain keeps all children of all heads. */
  lemma {:induction false} LinkKeeps(c: seq<Entry>, own: seq<nat>, x: nat, stype: SType)
    requires Linked(c, own) && x < |c| && c[x].etype != Ancillary
    requires Last(c, x) == x || c[Last(c, x)].ccount == MAX_SEQI
    ensures var d := LinkedAt(c, Last(c, x), stype);
            Linked(d, own + [x]) && SameKids(c, d, x, []) && Last(d, x) == |c|
  {
    var k := Last(c, x);
    var d := LinkedAt(c, k, stype);
    LastOwner(c, own, x);
    LinkAtEnd(c, x, Chunk(stype));
    assert EntryOk(c, own, x);
    LinkLinked(c, own, x, k, stype);
    forall y | 0 <= y < |c| && c[y].etype != Ancillary
      ensures KeptHead(c, d, y, x, [])
    {
      if y != x {
        assert EntryOk(c, own, y);
        KidsFrame(c, d, own, y);
      }
    }
  }

  lemma {:induction false} LinkLinked(c: seq<Entry>, own: seq<nat>, x: nat, k: nat, stype: SType)
    requires Linked(c, own) && x < |c| && k < |c| && own[k] == own[x] == x
    requires c[k].etype == Ancillary ==> c[k].ccount == MAX_SEQI
    ensures Linked(LinkedAt(c, k, stype), own + [x])
  {
    var d := LinkedAt(c, k, stype);
    forall y | 0 <= y < |d|
      ensures EntryOk(d, own + [x], y)
    {
      if y < |c| {
        assert EntryOk(c, own, y);
        if c[y].cindex != 0 {
          assert d[c[y].cindex].etype == c[c[y].cindex].etype;
        }
      }
    }
  }

  /** Putting a child into the end of the chain of x adds it to the children of x, and to nobody else's. */
  lemma {:induction false} AppendKeeps(c: seq<Entry>, own: seq<nat>, x: nat, child: nat)
    requires Linked(c, own) && x < |c| && c[x].etype != Ancillary && 0 < child
    requires Last(c, x) != x && c[Last(c, x)].ccount < MAX_SEQI && Counted(c[Last(c, x)])
    ensures var k := Last(c, x);
            var d := c[k := WithChild(c[k], child)];
            Linked(d, own) && SameKids(c, d, x, [child])
  {
    var k := Last(c, x);
    var d := c[k := WithChild(c[k], child)];
    LastOwner(c, own, x);
    AppendAtEnd(c, x, child);
    forall y | 0 <= y < |d|
      ensures EntryOk(d, own, y)
    {
      assert EntryOk(c, own, y);
    }
    forall y | 0 <= y < |c| && c[y].etype != Ancillary
      ensures KeptHead(c, d, y, x, if y == x then [child] else [])
    {
      assert EntryOk(c, own, x) && EntryOk(c, own, y);
      if y != x {
        KidsFrame(c, d, own, y);
      }
    }
  }

  /** Counting a link, or setting the subtype, changes no chain. */
  lemma {:induction false} MarkKeeps(c: seq<Entry>, own: seq<nat>, x: nat, nlink: nat, stype: SType)
    requires Linked(c, own) && x < |c|
    ensures var d := c[x := c[x].(nlink := nlink, stype := stype)];
            Linked(d, own) && SameKids(c, d, x, []) && forall y :: 0 <= y < |c| ==> Last(d, y) == Last(c, y)
  {
    var d := c[x := c[x].(nlink := nlink, stype := stype)];
    forall y | 0 <= y < |d|
      ensures EntryOk(d, own, y)
    {
      assert EntryOk(c, own, y);
    }
    forall y | 0 <= y < |c|
      ensures Kids(d, y) == Kids(c, y) && Last(d, y) == Last(c, y)
    {
      MarkFrame(c, d, y);
    }
  }

  lemma {:induction false} MarkFrame(c: seq<Entry>, d: seq<Entry>, y: nat)
    requires |c| == |d|
    requires forall z :: 0 <= z < |c| ==> d[z] == c[z].(nlink := d[z].nlink, stype := d[z].stype)
    ensures Kids(d, y) == Kids(c, y) && Last(d, y) == Last(c, y)
    decreases |c| - y
  {
    if Continued(c, y) {
      MarkFrame(c, d, c[y].cindex);
    }
  }

  class MetaCache {
    var entries: array<Entry>
    var num: nat
    /** The chain each entry belongs to. */
    ghost var own: seq<nat>
    /** Where the last listing call left off. */
    var sndx: nat
    var vseq: nat

    ghost predicate Valid()
      reads this, entries
    {
      && num < entries.Length
      && (forall i :: num <= i < entries.Length - 1 ==> entries[i] == ZeroEntry())
      && Linked(entries[..num], own)
    }

    ghost function Used(): seq<Entry>
      requires num <= entries.Length
      reads this, entries
    {
      entries[..num]
    }

    /** The cache with its parameters and its three top directories. */
    constructor Create()
      ensures Valid() && fresh(entries) && num == 4
      ensures forall x :: 1 <= x < 4 ==> Used()[x].etype == Directory
      ensures forall x :: 0 <= x < 4 ==> Used()[x].etype != Ancillary && Kids(Used(), x) == []
    {
      entries := new Entry[CACHE_CHUNK](_ => ZeroEntry());
      num := 4;
      own := [0, 1, 2, 3];
      sndx, vseq := 0, 0;
      new;
      entries[0] := ZeroEntry().(etype := Params);
      entries[1] := ZeroEntry().(etype := Directory);
      entries[2] := ZeroEntry().(etype := Directory);
      entries[3] := ZeroEntry().(etype := Directory);
      forall x | 0 <= x < 4
        ensures EntryOk(entries[..num], own, x) && Kids(entries[..num], x) == []
      {
      }
    }

    /** Get more space, and clear a chunk of it from the first unused entry on. */
    method ExtendVdCache()
      requires num < entries.Length
      modifies this`entries
      ensures fresh(entries) && entries.Length == old(entries.Length) + CACHE_CHUNK
      ensures entries[..num] == old(entries[..num])
      ensures forall i :: num <= i < num + CACHE_CHUNK ==> entries[i] == ZeroEntry()
    {
      var a := new Entry[entries.Length + CACHE_CHUNK];
      forall i | 0 <= i < entries.Length {
        a[i] := entries[i];
      }
      forall i | num <= i < num + CACHE_CHUNK {
        a[i] := ZeroEntry();
      }
      assert a[..num] == entries[..num];
      entries := a;
    }

    /** Hand out the next entry, which is zero. */
    method CreateCacheEntry() returns (x: nat)
      requires Valid()
      modifies this`entries, this`num, this`own, entries
      ensures Valid() && (entries == old(entries) || fresh(entries))
      ensures x == old(num) && num == old(num) + 1
      ensures Used() == old(Used()) + [ZeroEntry()] && own == old(own) + [x]
    {
      if num + 1 >= entries.Length {
        ExtendVdCache();
      }
      x := num;
      entries[x] := entries[x].(etype := Invalid);
      num := num + 1;
      ghost var c, o := old(Used()), own;
      own := own + [x];
      assert entries[..num] == c + [ZeroEntry()];
      NewEntry(c, o);
    }

    /** Make an entry without children. */
    method CreateHead(etype: EType) returns (x: nat)
      requires Valid() && etype != Ancillary
      modifies this`entries, this`num, this`own, entries
      ensures Valid() && (entries == old(entries) || fresh(entries))
      ensures x == old(num) && num == old(num) + 1
      ensures Used() == old(Used()) + [ZeroEntry().(etype := etype)]
      ensures Kids(Used(), x) == [] && forall y :: 0 <= y < x ==> Kids(Used(), y) == Kids(old(Used()), y)
    {
      ghost var c, o := Used(), own;
      x := CreateCacheEntry();
      entries[x] := entries[x].(etype := etype, stype := Null, nlink := 0, cindex := 0, ccount := 0);
      assert entries[..num] == c + [ZeroEntry().(etype := etype)];
      NewHead(c, o, etype);
    }

    /** Continue the full entry vx. */
    method AddContinuation(vx: nat, stype: SType, ghost head: nat) returns (vc: nat)
      requires Valid() && head < num && Used()[head].etype != Ancillary && vx == Last(Used(), head)
      requires vx != head ==> Used()[vx].ccount == MAX_SEQI
      modifies this`entries, this`num, this`own, entries
      ensures Valid() && (entries == old(entries) || fresh(entries))
      ensures vc == old(num) && num == vc + 1
      ensures Used() == LinkedAt(old(Used()), vx, stype) && own == old(own) + [head]
      ensures Used()[vc] == Chunk(stype) && Used()[head] == old(Used())[head].(cindex := Used()[head].cindex)
      ensures SameKids(old(Used()), Used(), head, []) && Last(Used(), head) == vc
    {
      hide Linked, Kids, SameKids, Last, KeptHead;
      ghost var c, o := Used(), own;
      LinkKeeps(c, o, head, stype);
      vc := CreateCacheEntry();
      entries[vc] := entries[vc].(etype := Ancillary, vseqi := Zeros(MAX_SEQI), stype := stype, cindex := 0,
          ccount := 0);
      entries[vx] := entries[vx].(cindex := vc);
      own := o + [head];
      assert entries[..num] == LinkedAt(c, vx, stype);
    }

    /** Find the continuation at the end of the chain of head, with room for a child. */
    method CheckContinuation(head: nat, stype: SType) returns (vx: nat)
      requires Valid() && head < num && Used()[head].etype != Ancillary
      modifies this`entries, this`num, this`own, entries
      ensures Valid() && (entries == old(entries) || fresh(entries)) && old(num) <= num
      ensures SameKids(old(Used()), Used(), head, [])
      ensures head != vx == Last(Used(), head) && vx < num
      ensures Counted(Used()[vx]) && Used()[vx].ccount < MAX_SEQI
      ensures Used()[head] == old(Used())[head].(cindex := Used()[head].cindex)
      ensures forall y :: old(num) <= y < num ==> Used()[y].etype == Ancillary && Used()[y].stype == stype
    {
      hide Kids, SameKids, KeptHead, LinkedAt;
      ghost var c := Used();
      assert EntryOk(c, own, head);
      vx := head;
      if entries[vx].cindex == 0 {
        vx := AddContinuation(vx, stype, head);
      } else {
        vx := entries[vx].cindex;
        while entries[vx].ccount == MAX_SEQI && entries[vx].cindex > 0 && entries[vx].cindex < num
          invariant head != vx < num && Last(c, vx) == Last(c, head)
          invariant entries[vx].etype == Ancillary
          decreases num - vx
        {
          assert c[vx] == entries[vx] && EntryOk(c, own, vx);
          vx := entries[vx].cindex;
        }
        assert c[vx] == entries[vx] && EntryOk(c, own, vx);
        if entries[vx].ccount == MAX_SEQI {
          vx := AddContinuation(vx, stype, head);
        } else {
          NothingMoved(c, head);
        }
      }
    }

    /** Put a child into continuation vx, the end of the chain of head. */
    method PutChild(head: nat, vx: nat, child: nat)
      requires Valid() && head < num && Used()[head].etype != Ancillary && 0 < child
      requires head != vx == Last(Used(), head) && vx < num
      requires Counted(Used()[vx]) && Used()[vx].ccount < MAX_SEQI
      modifies entries
      ensures Valid() && SameKids(old(Used()), Used(), head, [child])
      ensures Used()[head] == old(Used())[head]
      ensures forall y :: 0 <= y < num ==>
                Used()[y].etype == old(Used())[y].etype && Used()[y].stype == old(Used())[y].stype
    {
      ghost var c := Used();
      AppendKeeps(c, own, head, child);
      var e := entries[vx];
      assert e == c[vx];
      entries[vx] := e.(vseqi := e.vseqi[e.ccount := child], ccount := e.ccount + 1);
      assert entries[..num] == c[vx := WithChild(c[vx], child)];
    }

    /** Set the link count and the subtype of an entry. */
    method Mark(x: nat, nlink: nat, stype: SType)
      requires Valid() && x < num
      modifies entries
      ensures Valid() && SameKids(old(Used()), Used(), x, [])
      ensures Used()[x] == old(Used())[x].(nlink := nlink, stype := stype)
      ensures forall y :: 0 <= y < num ==> Last(Used(), y) == Last(old(Used()), y)
      ensures forall y :: 0 <= y < num && y != x ==> Used()[y] == old(Used())[y]
    {
      ghost var c := Used();
      MarkKeeps(c, own, x, nlink, stype);
      entries[x] := entries[x].(nlink := nlink, stype := stype);
      assert entries[..num] == c[x := c[x].(nlink := nlink, stype := stype)];
    }

    /**
     Add directory or sequence child to parent vp: it becomes the last of the
     parent's children, and no other entry's children change.
     */
    method AddToParentDir(vp: nat, child: nat)
      requires Valid() && vp < num && Used()[vp].etype != Ancillary && 0 < child
      modifies this`entries, this`num, this`own, entries
      ensures Valid() && (entries == old(entries) || fresh(entries)) && old(num) <= num
      ensures SameKids(old(Used()), Used(), vp, [child])
      ensures Used()[vp].nlink == old(Used())[vp].nlink + 1 && Used()[vp].stype == old(Used())[vp].stype
      ensures forall y :: old(num) <= y < num ==> Used()[y].etype == Ancillary && Used()[y].stype == Sdir
    {
      ghost var c0 := Used();
      var vx := CheckContinuation(vp, Sdir);
      ghost var c1 := Used();
      assert KeptHead(c0, c1, vp, vp, []);
      Mark(vp, entries[vp].nlink + 1, entries[vp].stype);
      ghost var c2 := Used();
      PutChild(vp, vx, child);
      SameKidsChain(c0, c1, c2, Used(), vp, [child]);
    }

    /**
     Attach fragment vz to sequence vp.  The first fragment gives the sequence its
     subtype; one of another subtype is refused, and changes no children.
     */
    method TfragSadd(vp: nat, vz: nat) returns (added: bool)
      requires Valid() && vp < num && Used()[vp].etype != Ancillary && 0 < vz < num
               && Used()[vz].etype != Ancillary && vz != vp
      modifies this`entries, this`num, this`own, entries
      ensures Valid() && (entries == old(entries) || fresh(entries)) && old(num) <= num
      ensures added <==> old(Used())[vp].stype == Null || old(Used())[vp].stype == old(Used())[vz].stype
      ensures SameKids(old(Used()), Used(), vp, if added then [vz] else [])
      ensures added ==> Used()[vp].nlink == old(Used())[vp].nlink + 1 && Used()[vp].stype == old(Used())[vz].stype
      ensures !added ==> Used()[vp].stype == old(Used())[vp].stype
      ensures forall y :: old(num) <= y < num ==> Used()[y].etype == Ancillary && Used()[y].stype == Part
    {
      ghost var c0 := Used();
      var stype := entries[vz].stype;
      assert stype == c0[vz].stype && entries[vp].stype == c0[vp].stype;
      var own := entries[vp].stype;
      var vx := CheckContinuation(vp, Part);
      ghost var c1 := Used();
      if own != Null && own != stype {
        return false;
      }
      assert KeptHead(c0, c1, vp, vp, []);
      Mark(vp, entries[vp].nlink + 1, stype);
      ghost var c2 := Used();
      PutChild(vp, vx, vz);
      SameKidsChain(c0, c1, c2, Used(), vp, [vz]);
      added := true;
    }

    /** Make one addition to an entry there was in c; the subtypes are those after the additions before. */
    method AddOne(add: Addition, ghost c: seq<Entry>, ghost before: seq<Addition>)
      requires Valid() && |c| <= num && Addable(c, add)
      requires TypesAre(c, Used(), before) && AllGained(c, Used(), before)
      modifies this`entries, this`num, this`own, entries
      ensures Valid() && (entries == old(entries) || fresh(entries)) && old(num) <= num
      ensures TypesAre(c, Used(), before + [add]) && AllGained(c, Used(), before + [add])
    {
      hide Kids, Linked, EntryOk, Types, Accepted, ChildrenIn;
      ghost var b := Used();
      HeadThere(c, b, before, add.parent);
      var added := true;
      match add {
        case Subdir(p, kid) =>
          AddToParentDir(p, kid);
        case Fragment(p, kid) =>
          HeadThere(c, b, before, kid);
          added := TfragSadd(p, kid);
      }
      MoreTypes(c, b, Used(), before, add, added);
      MoreGained(c, b, Used(), before, add, added);
    }

    /**
     Make the additions in the given order, whatever the interleaving of
     directories and fragments: each entry gets the children added to it, less the
     fragments refused.
     */
    method AddAll(adds: seq<Addition>)
      requires Valid() && forall i :: 0 <= i < |adds| ==> Addable(Used(), adds[i])
      modifies this`entries, this`num, this`own, entries
      ensures Valid() && (entries == old(entries) || fresh(entries)) && old(num) <= num
      ensures forall x :: 0 <= x < old(num) && old(Used())[x].etype != Ancillary ==>
                && Kids(Used(), x) == Kids(old(Used()), x) + ChildrenIn(Accepted(old(Used()), adds), x)
                && Used()[x].stype == Types(old(Used()), adds)[x]
    {
      hide Kids, Linked, EntryOk;
      ghost var c := Used();
      var i := 0;
      while i < |adds|
        invariant i <= |adds| && Valid() && (entries == old(entries) || fresh(entries)) && |c| <= num
        invariant TypesAre(c, Used(), adds[..i]) && AllGained(c, Used(), adds[..i])
      {
        AddOne(adds[i], c, adds[..i]);
        assert adds[..i + 1] == adds[..i] + [adds[i]];
        i := i + 1;
      }
      assert adds[..i] == adds;
      forall x | 0 <= x < |c| && c[x].etype != Ancillary
        ensures Kids(Used(), x) == Kids(c, x) + ChildrenIn(Accepted(c, adds), x)
      {
        assert Gained(c, Used(), Accepted(c, adds), x);
      }
    }

    // -------------------------------------------------------------- listing

    /** The last listing call returned a child. */
    ghost predicate Standing()
      reads this, entries
    {
      Valid() && 0 < vseq < num && InChunk(entries[..num], vseq, sndx + 1)
    }

    /** The children still to be listed. */
    ghost function Remaining(): seq<nat>
      requires Standing()
      reads this, entries
    {
      After(entries[..num], vseq, sndx + 1)
    }

    /**
     List the next child of a directory or sequence; a first call names the entry,
     later ones the continuation reached.
     */
    method GetVdifuseSubdir(ii: nat) returns (r: nat, kid: nat)
      requires Valid() && ii < num
      requires entries[ii].etype != Sequence && entries[ii].etype != Directory ==> Standing() && ii == vseq
      modifies this`sndx, this`vseq
      ensures Valid() && Used() == old(Used())
      ensures var all := if old(entries[ii].etype == Sequence || entries[ii].etype == Directory) then Kids(Used(), ii)
                         else old(Remaining());
              && (r == 0 <==> all == [])
              && (r != 0 ==> Standing() && r == vseq && entries[r].etype == Ancillary && all == [kid] + Remaining())
    {
      hide Kids, EntryOk, After, Linked;
      ghost var c := entries[..num];
      r, kid := 0, 0;
      var first := entries[ii].etype == Sequence || entries[ii].etype == Directory;
      if first {
        ChainStarts(c, own, ii);
        if entries[ii].cindex == 0 {
          return;
        }
        vseq := entries[ii].cindex;
        sndx := 0;
      } else {
        sndx := sndx + 1;
        if sndx == MAX_SEQI {
          ChainStarts(c, own, vseq);
          ChunkEnds(c, vseq);
          if entries[vseq].cindex == 0 {
            return;
          }
          vseq := entries[vseq].cindex;
          sndx := 0;
        }
      }
      ChunkNext(c, own, vseq, sndx);
      var sdir := entries[vseq].vseqi[sndx];
      if sdir != 0 {
        r, kid := vseq, sdir;
      }
    }

    /** List a directory: its children in the order they were added, and then the end. */
    method ListDir(ii: nat) returns (names: seq<nat>)
      requires Valid() && ii < num && (entries[ii].etype == Sequence || entries[ii].etype == Directory)
      modifies this`sndx, this`vseq
      ensures Valid() && names == Kids(Used(), ii)
    {
      hide Kids, EntryOk, After, Linked;
      ghost var c, all := Used(), Kids(Used(), ii);
      names := [];
      var ndx, kid := GetVdifuseSubdir(ii);
      while ndx > 0
        invariant Valid() && Used() == c && 0 <= ndx
        invariant ndx > 0 ==>
                  && Standing() && ndx == vseq && entries[ndx].etype == Ancillary
                  && all == names + [kid] + Remaining()
        invariant ndx == 0 ==> all == names
        decreases |all| - |names|, ndx
      {
        ghost var rest := Remaining();
        names := names + [kid];
        ndx, kid := GetVdifuseSubdir(ndx);
        assert if ndx > 0 then names + rest == names + [kid] + Remaining() else names + rest == names;
      }
    }

    /** Visit the fragments of a sequence as they are opened. */
    method Members(vs: nat) returns (frags: seq<nat>)
      requires Valid() && vs < num && Used()[vs].nlink == |Kids(Used(), vs)|
      ensures frags == Kids(Used(), vs)
    {
      hide Kids, EntryOk, After, Linked;
      ghost var c := Used();
      ghost var all := Kids(c, vs);
      ChainStarts(c, own, vs);
      frags := [];
      var vsanc: nat, ccount: nat := entries[vs].cindex, 0;
      while |frags| < entries[vs].nlink
        invariant |frags| <= |all|
        invariant |frags| < |all| ==> vsanc < num && InChunk(c, vsanc, ccount) && all == frags + After(c, vsanc, ccount)
        invariant |frags| == |all| ==> all == frags
      {
        if ccount == MAX_SEQI {
          ChunkEnds(c, vsanc);
          ChainStarts(c, own, vsanc);
          vsanc := entries[vsanc].cindex;
          ccount := 0;
        }
        ChunkNext(c, own, vsanc, ccount);
        var vfrag := entries[vsanc].vseqi[ccount];
        assert vfrag == c[vsanc].vseqi[ccount];
        OneMore(frags, After(c, vsanc, ccount), vfrag);
        frags := frags + [vfrag];
        ccount := ccount + 1;
      }
    }
  }

  lemma {:induction false} OneMore(s: seq<nat>, rest: seq<nat>, x: nat)
    requires rest != [] ==> rest[0] == x
    ensures rest != [] ==> s + rest == s + [x] + rest[1..]
    ensures rest == [] ==> s + rest == s
  {
  }

  /** Position n lies in what continuation k uses, or right behind it. */
  predicate InChunk(c: seq<Entry>, k: nat, n: nat) {
    k < |c| && c[k].etype == Ancillary && Counted(c[k]) && n <= c[k].ccount
  }

  /** The children from position n of continuation k on. */
  function After(c: seq<Entry>, k: nat, n: nat): seq<nat>
    requires InChunk(c, k, n)
  {
    c[k].vseqi[n..c[k].ccount] + Kids(c, k)
  }

  lemma {:induction false} ChainStarts(c: seq<Entry>, own: seq<nat>, x: nat)
    requires Linked(c, own) && x < |c|
    ensures c[x].cindex == 0 ==> Kids(c, x) == []
    ensures c[x].cindex != 0 ==> InChunk(c, c[x].cindex, 0) && Kids(c, x) == After(c, c[x].cindex, 0)
  {
    assert EntryOk(c, own, x);
    if c[x].cindex != 0 {
      assert EntryOk(c, own, c[x].cindex);
    }
  }

  lemma {:induction false} ChunkEnds(c: seq<Entry>, k: nat)
    requires InChunk(c, k, MAX_SEQI)
    ensures After(c, k, MAX_SEQI) == Kids(c, k)
  {
  }

  /** The first unused position of a continuation reads as zero, and then there are no more children. */
  lemma {:induction false} ChunkNext(c: seq<Entry>, own: seq<nat>, k: nat, n: nat)
    requires Linked(c, own) && InChunk(c, k, n) && n < MAX_SEQI
    ensures c[k].vseqi[n] == 0 <==> After(c, k, n) == []
    ensures c[k].vseqi[n] != 0 ==> InChunk(c, k, n + 1) && After(c, k, n) == [c[k].vseqi[n]] + After(c, k, n + 1)
  {
    assert EntryOk(c, own, k);
    if c[k].vseqi[n] == 0 {
      ChainStarts(c, own, k);
    }
  }

  /** The children that a list of additions gives to entry x. */
  function ChildrenIn(adds: seq<(nat, nat)>, x: nat): seq<nat> {
    if adds == [] then []
    else
      var n := |adds| - 1;
      ChildrenIn(adds[..n], x) + (if adds[n].0 == x then [adds[n].1] else [])
  }

  ghost predicate Gained(c: seq<Entry>, d: seq<Entry>, adds: seq<(nat, nat)>, x: nat) {
    && x < |c| <= |d|
    && d[x].etype == c[x].etype
    && Kids(d, x) == Kids(c, x) + ChildrenIn(adds, x)
  }

  /** A directory or sequence put into its parent, or a fragment attached to its sequence. */
  datatype Addition = Subdir(parent: nat, kid: nat) | Fragment(parent: nat, kid: nat)

  ghost predicate Addable(c: seq<Entry>, add: Addition) {
    && add.parent < |c| && c[add.parent].etype != Ancillary && 0 < add.kid
    && (add.Fragment? ==> add.kid < |c| && c[add.kid].etype != Ancillary && add.kid != add.parent)
  }

  /** The subtypes of the entries after some additions: the first fragment of a sequence sets its subtype. */
  function Types(c: seq<Entry>, adds: seq<Addition>): (t: seq<SType>)
    ensures |t| == |c|
  {
    if adds == [] then seq(|c|, x requires 0 <= x < |c| => c[x].stype)
    else
      var n := |adds| - 1;
      var (t, add) := (Types(c, adds[..n]), adds[n]);
      if add.Fragment? && add.parent < |c| && add.kid < |c| && t[add.parent] == Null
      then t[add.parent := t[add.kid]]
      else t
  }

  /** An addition is refused exactly if it is a fragment of another subtype than its sequence. */
  predicate Accepts(t: seq<SType>, add: Addition) {
    add.Fragment? && add.parent < |t| && add.kid < |t| ==> t[add.parent] == Null || t[add.parent] == t[add.kid]
  }

  /** The additions that are not refused. */
  function Accepted(c: seq<Entry>, adds: seq<Addition>): seq<(nat, nat)> {
    if adds == [] then []
    else
      var n := |adds| - 1;
      Accepted(c, adds[..n]) + (if Accepts(Types(c, adds[..n]), adds[n]) then [(adds[n].parent, adds[n].kid)] else [])
  }

  ghost predicate TypesAre(c: seq<Entry>, d: seq<Entry>, adds: seq<Addition>) {
    |c| <= |d| && forall x :: 0 <= x < |c| && c[x].etype != Ancillary ==> d[x].stype == Types(c, adds)[x]
  }

  ghost predicate AllGained(c: seq<Entry>, d: seq<Entry>, adds: seq<Addition>) {
    forall x :: 0 <= x < |c| && c[x].etype != Ancillary ==> Gained(c, d, Accepted(c, adds), x)
  }

  lemma {:induction false} HeadThere(c: seq<Entry>, b: seq<Entry>, before: seq<Addition>, x: nat)
    requires AllGained(c, b, before) && x < |c| && c[x].etype != Ancillary
    ensures x < |b| && b[x].etype != Ancillary
  {
    assert Gained(c, b, Accepted(c, before), x);
  }

  lemma {:induction false} MoreTypes(c: seq<Entry>, b: seq<Entry>, d: seq<Entry>, before: seq<Addition>,
      add: Addition, added: bool)
    requires TypesAre(c, b, before) && AllGained(c, b, before) && Addable(c, add)
    requires SameKids(b, d, add.parent, if added then [add.kid] else []) && add.parent < |b|
    requires add.Fragment? && added ==> add.kid < |b| && d[add.parent].stype == b[add.kid].stype
    requires !(add.Fragment? && added) ==> d[add.parent].stype == b[add.parent].stype
    requires added <==> add.Subdir? || b[add.parent].stype == Null || b[add.parent].stype == b[add.kid].stype
    ensures TypesAre(c, d, before + [add]) && (added <==> Accepts(Types(c, before), add))
  {
    var more := before + [add];
    assert more[..|before|] == before;
    forall x | 0 <= x < |c| && c[x].etype != Ancillary
      ensures d[x].stype == Types(c, more)[x]
    {
      assert Gained(c, b, Accepted(c, before), x);
      assert KeptHead(b, d, x, add.parent, if x == add.parent then (if added then [add.kid] else []) else []);
    }
  }

  lemma {:induction false} MoreGained(c: seq<Entry>, b: seq<Entry>, d: seq<Entry>, before: seq<Addition>,
      add: Addition, added: bool)
    requires AllGained(c, b, before) && SameKids(b, d, add.parent, if added then [add.kid] else [])
    requires added <==> Accepts(Types(c, before), add)
    ensures AllGained(c, d, before + [add])
  {
    var more, pairs := before + [add], Accepted(c, before);
    assert more[..|before|] == before;
    assert (pairs + [(add.parent, add.kid)])[..|pairs|] == pairs && pairs + [] == pairs;
    forall x | 0 <= x < |c| && c[x].etype != Ancillary
      ensures Gained(c, d, Accepted(c, more), x)
    {
      assert Gained(c, b, pairs, x);
      assert KeptHead(b, d, x, add.parent, if x == add.parent then (if added then [add.kid] else []) else []);
    }
  }

  lemma {:induction false} SameKidsChain(c0: seq<Entry>, c1: seq<Entry>, c2: seq<Entry>, c3: seq<Entry>, x: nat,
      kid: seq<nat>)
    requires SameKids(c0, c1, x, []) && SameKids(c1, c2, x, []) && SameKids(c2, c3, x, kid)
    ensures SameKids(c0, c3, x, kid)
  {
    forall y | 0 <= y < |c0| && c0[y].etype != Ancillary
      ensures KeptHead(c0, c3, y, x, if y == x then kid else [])
    {
      assert KeptHead(c0, c1, y, x, []);
      assert KeptHead(c1, c2, y, x, []);
      assert KeptHead(c2, c3, y, x, if y == x then kid else []);
    }
  }

  lemma {:induction false} NothingMoved(c: seq<Entry>, head: nat)
    ensures SameKids(c, c, head, [])
  {
    forall y | 0 <= y < |c| && c[y].etype != Ancillary
      ensures KeptHead(c, c, y, head, [])
    {
    }
  }

  lemma {:induction false} NewEntry(c: seq<Entry>, own: seq<nat>)
    requires Linked(c, own)
    ensures Linked(c + [ZeroEntry()], own + [|c|])
  {
    assert ZeroEntry().(etype := Invalid) == ZeroEntry();
    NewHead(c, own, Invalid);
  }

  lemma {:induction false} NewHead(c: seq<Entry>, own: seq<nat>, etype: EType)
    requires Linked(c, own) && etype != Ancillary
    ensures var d := c + [ZeroEntry().(etype := etype)];
            && Linked(d, own + [|c|])
            && Kids(d, |c|) == []
            && forall y :: 0 <= y < |c| ==> Kids(d, y) == Kids(c, y)
  {
    var d := c + [ZeroEntry().(etype := etype)];
    forall y | 0 <= y < |c|
      ensures Kids(d, y) == Kids(c, y)
    {
      KidsFrame(c, d, own, y);
    }
    forall y | 0 <= y < |d|
      ensures EntryOk(d, own + [|c|], y)
    {
      if y < |c| {
        assert EntryOk(c, own, y);
      }
    }
  }
}
