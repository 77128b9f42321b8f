/**
 The slots of a stripe, and sorting them by the start time of the current
 blocks: key gives the time for a member.
 */
module Slots {

  /** A slot: the member it shows, and the reads made from it, or -1 if the member has ended. */
  datatype SBlock = SBlock(index: nat, nread: int)

  predicate Keyed(s: seq<SBlock>, key: seq<int>) {
    forall i :: 0 <= i < |s| ==> s[i].index < |key|
  }

  ghost predicate Ascending(s: seq<SBlock>, key: seq<int>)
    requires Keyed(s, key)
  {
    forall i, j :: 0 <= i < j < |s| ==> key[s[i].index] <= key[s[j].index]
  }

  ghost predicate OncePerMember(s: seq<SBlock>) {
    forall i, j :: 0 <= i < j < |s| ==> s[i].index != s[j].index
  }

  function Insert(e: SBlock, s: seq<SBlock>, key: seq<int>): (r: seq<SBlock>)
    requires Keyed(s, key) && e.index < |key|
    ensures |r| == |s| + 1 && Keyed(r, key)
    ensures forall x :: x in r <==> x == e || x in s
  {
    if s == [] then [e]
    else if key[e.index] <= key[s[0].index] then [e] + s
    else [s[0]] + Insert(e, s[1..], key)
  }

  lemma {:induction false} InsertAscends(e: SBlock, s: seq<SBlock>, key: seq<int>)
    requires Keyed(s, key) && e.index < |key| && Ascending(s, key)
    ensures Ascending(Insert(e, s, key), key)
  {
    if s != [] && key[s[0].index] < key[e.index] {
      InsertAscends(e, s[1..], key);
      var t := Insert(e, s[1..], key);
      forall j | 0 <= j < |t|
        ensures key[s[0].index] <= key[t[j].index]
      {
        assert t[j] in t;
      }
    }
  }

  lemma {:induction false} InsertOnce(e: SBlock, s: seq<SBlock>, key: seq<int>)
    requires Keyed(s, key) && e.index < |key| && OncePerMember(s)
    requires forall x :: x in s ==> x.index != e.index
    ensures OncePerMember(Insert(e, s, key))
  {
    if s != [] && key[s[0].index] < key[e.index] {
      InsertOnce(e, s[1..], key);
      var t := Insert(e, s[1..], key);
      forall j | 0 <= j < |t|
        ensures s[0].index != t[j].index
      {
        assert t[j] in t;
        assert s[0] in s;
      }
    }
  }

  /** The slots sorted by key, as a library sort leaves them. */
  function SortBlocks(s: seq<SBlock>, key: seq<int>): (r: seq<SBlock>)
    requires Keyed(s, key)
    ensures |r| == |s| && Keyed(r, key)
    ensures forall x :: x in r <==> x in s
  {
    if s == [] then [] else Insert(s[0], SortBlocks(s[1..], key), key)
  }

  lemma {:induction false} SortsBlocks(s: seq<SBlock>, key: seq<int>)
    requires Keyed(s, key)
    ensures Ascending(SortBlocks(s, key), key)
    ensures OncePerMember(s) ==> OncePerMember(SortBlocks(s, key))
  {
    if s != [] {
      SortsBlocks(s[1..], key);
      InsertAscends(s[0], SortBlocks(s[1..], key), key);
      if OncePerMember(s) {
        InsertOnce(s[0], SortBlocks(s[1..], key), key);
      }
    }
  }

  /** The first slot whose member has not ended. */
  function FirstLive(s: seq<SBlock>): (r: nat)
    ensures r <= |s|
    ensures r < |s| ==> s[r].nread == 0
    ensures forall i :: 0 <= i < r ==> s[i].nread != 0
  {
    if s == [] || s[0].nread == 0 then 0 else FirstLive(s[1..]) + 1
  }
}
