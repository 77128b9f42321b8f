/**
 Building the directory tree of the sequences: the paths are visited in the
 order of their names, each gets a cache entry, and the entry is added to the
 entry of its parent path, or to the top directory if there is none.
 */
module Hierarchy {
  import opened Cache

  const TOPDIR_SEQUENCE := 3

  /** The order of names as strings are compared. */
  predicate Less(a: string, b: string) {
    b != [] && (a == [] || a[0] < b[0] || (a[0] == b[0] && Less(a[1..], b[1..])))
  }

  lemma {:induction false} PrefixIsLess(p: string, q: string)
    requires q != []
    ensures Less(p, p + q)
  {
    if p != [] {
      PrefixIsLess(p[1..], q);
      assert (p + q)[1..] == p[1..] + q;
    }
  }

  lemma {:induction false} LessOneWay(a: string, b: string)
    requires Less(a, b)
    ensures !Less(b, a)
  {
    if a != [] && a[0] == b[0] {
      LessOneWay(a[1..], b[1..]);
    }
  }

  /** Paths are in order if the first character in which they differ is, or one is the beginning of the other. */
  ghost predicate FirstDiffer(a: string, b: string, k: nat) {
    && k <= |a| && k < |b| && a[..k] == b[..k]
    && (k < |a| ==> a[k] < b[k])
  }

  lemma {:induction false} NameOrder(a: string, b: string)
    ensures Less(a, b) <==> exists k: nat :: FirstDiffer(a, b, k)
  {
    if Less(a, b) {
      var k := WhereLess(a, b);
      assert FirstDiffer(a, b, k);
    }
    forall k: nat | FirstDiffer(a, b, k)
      ensures Less(a, b)
    {
      LessWhere(a, b, k);
    }
  }

  lemma {:induction false} WhereLess(a: string, b: string) returns (k: nat)
    requires Less(a, b)
    ensures FirstDiffer(a, b, k)
  {
    k := 0;
    if a != [] && a[0] == b[0] {
      var n := WhereLess(a[1..], b[1..]);
      k := n + 1;
      assert a[..k] == [a[0]] + a[1..][..n] && b[..k] == [b[0]] + b[1..][..n];
    }
  }

  lemma {:induction false} LessWhere(a: string, b: string, k: nat)
    requires FirstDiffer(a, b, k)
    ensures Less(a, b)
  {
    if k > 0 {
      assert a[0] == a[..k][0] && b[0] == b[..k][0];
      assert a[1..][..k - 1] == a[..k][1..] && b[1..][..k - 1] == b[..k][1..];
      LessWhere(a[1..], b[1..], k - 1);
    }
  }

  ghost predicate Ascending(paths: seq<string>) {
    forall i, j :: 0 <= i < j < |paths| ==> Less(paths[i], paths[j])
  }

  /** The position of the last slash, or -1. */
  function LastSlash(path: string): (r: int)
    ensures -1 <= r < |path|
    ensures r >= 0 ==> path[r] == '/'
    ensures forall i :: r < i < |path| ==> path[i] != '/'
  {
    if path == [] then -1
    else if path[|path| - 1] == '/' then |path| - 1
    else LastSlash(path[..|path| - 1])
  }

  /** The path of the directory a path is in. */
  function ParentPath(path: string): string {
    var s := LastSlash(path);
    if s < 0 then path else path[..s]
  }

  /** Where a path is in the list, or -1. */
  function Find(paths: seq<string>, path: string): (r: int)
    ensures -1 <= r < |paths|
    ensures r >= 0 ==> paths[r] == path
    ensures r == -1 <==> path !in paths
  {
    if paths == [] then -1
    else if paths[|paths| - 1] == path then |paths| - 1
    else Find(paths[..|paths| - 1], path)
  }

  /** In the order of names a directory comes before everything in it. */
  lemma {:induction false} ParentEarlier(paths: seq<string>, i: nat)
    requires Ascending(paths) && i < |paths| && LastSlash(paths[i]) >= 0
    ensures Find(paths, ParentPath(paths[i])) < i
  {
    var j := Find(paths, ParentPath(paths[i]));
    var s := LastSlash(paths[i]);
    if j >= i {
      assert paths[i] == paths[i][..s] + paths[i][s..];
      PrefixIsLess(paths[i][..s], paths[i][s..]);
      LessOneWay(paths[j], paths[i]);
    }
  }

  /** The entry a path belongs under, given the entries of the paths. */
  function ParentEntry(paths: seq<string>, hv: seq<nat>, i: nat): nat
    requires i < |paths|
  {
    var j := Find(paths, ParentPath(paths[i]));
    if 0 <= j < |hv| then hv[j] else TOPDIR_SEQUENCE
  }

  /** The additions that the first n paths ask for. */
  function AddsOf(paths: seq<string>, hv: seq<nat>, n: nat): seq<(nat, nat)>
    requires n <= |hv| <= |paths|
  {
    if n == 0 then []
    else AddsOf(paths, hv, n - 1)
         + (if LastSlash(paths[n - 1]) >= 0 then [(ParentEntry(paths, hv, n - 1), hv[n - 1])] else [])
  }

  /** Later entries do not matter to the additions of earlier paths. */
  lemma {:induction false} AddsGrow(paths: seq<string>, hv: seq<nat>, x: nat, n: nat)
    requires Ascending(paths) && n <= |hv| < |paths|
    ensures AddsOf(paths, hv + [x], n) == AddsOf(paths, hv, n)
  {
    if n > 0 {
      AddsGrow(paths, hv, x, n - 1);
      if LastSlash(paths[n - 1]) >= 0 {
        ParentEarlier(paths, n - 1);
      }
    }
  }

  /** Every head of a chain has its children of before, and those added. */
  ghost predicate Built(c: seq<Entry>, d: seq<Entry>, adds: seq<(nat, nat)>, x: nat) {
    && x < |d|
    && Kids(d, x) == (if x < |c| then Kids(c, x) else []) + ChildrenIn(adds, x)
  }

  ghost predicate AllBuilt(c: seq<Entry>, d: seq<Entry>, adds: seq<(nat, nat)>) {
    && |c| <= |d|
    && (forall x :: 0 <= x < |c| && c[x].etype != Ancillary ==> d[x].etype == c[x].etype)
    && forall x :: 0 <= x < |d| && d[x].etype != Ancillary ==> Built(c, d, adds, x)
  }

  /** The entries of the first paths are heads of chains created since. */
  ghost predicate Created(c: seq<Entry>, d: seq<Entry>, hv: seq<nat>) {
    && (forall i :: 0 <= i < |hv| ==> |c| <= hv[i] < |d| && d[hv[i]].etype != Ancillary)
    && (forall i, j :: 0 <= i < j < |hv| ==> hv[i] < hv[j])
  }

  lemma {:induction false} BuildStep(c: seq<Entry>, b: seq<Entry>, d: seq<Entry>, adds: seq<(nat, nat)>, p: nat,
      kid: nat)
    requires AllBuilt(c, b, adds) && SameKids(b, d, p, [kid])
    requires forall y :: |b| <= y < |d| ==> d[y].etype == Ancillary
    ensures AllBuilt(c, d, adds + [(p, kid)])
  {
    var more := adds + [(p, kid)];
    assert more[..|adds|] == adds;
    forall x | 0 <= x < |d| && d[x].etype != Ancillary
      ensures Built(c, d, more, x)
    {
      assert x < |b|;
      assert b[x].etype != Ancillary ==> KeptHead(b, d, x, p, if x == p then [kid] else []);
      assert Built(c, b, adds, x);
    }
  }

  lemma {:induction false} HeadStep(c: seq<Entry>, b: seq<Entry>, d: seq<Entry>, adds: seq<(nat, nat)>)
    requires AllBuilt(c, b, adds) && |d| == |b| + 1 && d[..|b|] == b
    requires Kids(d, |b|) == [] && forall y :: 0 <= y < |b| ==> Kids(d, y) == Kids(b, y)
    requires forall i :: 0 <= i < |adds| ==> adds[i].0 < |b|
    ensures AllBuilt(c, d, adds)
  {
    NoChildrenIn(adds, |b|);
    forall x | 0 <= x < |d| && d[x].etype != Ancillary
      ensures Built(c, d, adds, x)
    {
      assert x < |b| ==> Built(c, b, adds, x);
    }
  }

  lemma {:induction false} AddsBelow(paths: seq<string>, hv: seq<nat>, n: nat, top: nat)
    requires n <= |hv| <= |paths| && TOPDIR_SEQUENCE < top
    requires forall i :: 0 <= i < |hv| ==> hv[i] < top
    ensures forall i :: 0 <= i < |AddsOf(paths, hv, n)| ==> AddsOf(paths, hv, n)[i].0 < top
  {
    if n > 0 {
      AddsBelow(paths, hv, n - 1, top);
    }
  }

  lemma {:induction false} NoChildrenIn(adds: seq<(nat, nat)>, x: nat)
    requires forall i :: 0 <= i < |adds| ==> adds[i].0 < x
    ensures ChildrenIn(adds, x) == []
  {
    if adds != [] {
      NoChildrenIn(adds[..|adds| - 1], x);
    }
  }

  /** The entries of sequences are sequences, and those of directories directories. */
  ghost predicate Typed(d: seq<Entry>, hv: seq<nat>, isSeq: seq<bool>) {
    |hv| <= |isSeq| && forall i :: 0 <= i < |hv| ==> TypedAt(d, hv, isSeq, i)
  }

  ghost predicate TypedAt(d: seq<Entry>, hv: seq<nat>, isSeq: seq<bool>, i: nat) {
    && i < |hv| && i < |isSeq| && hv[i] < |d|
    && d[hv[i]].etype == if isSeq[i] then Sequence else Directory
  }

  lemma {:induction false} TypedStep(b: seq<Entry>, d: seq<Entry>, hv: seq<nat>, x: nat, isSeq: seq<bool>)
    requires Typed(b, hv, isSeq) && |hv| < |isSeq| && |d| == |b| + 1 && d[..|b|] == b && x == |b|
    requires d[x].etype == if isSeq[|hv|] then Sequence else Directory
    ensures Typed(d, hv + [x], isSeq)
  {
    forall i | 0 <= i < |hv| + 1
      ensures TypedAt(d, hv + [x], isSeq, i)
    {
      assert i < |hv| ==> TypedAt(b, hv, isSeq, i) && d[hv[i]] == b[hv[i]];
    }
  }

  lemma {:induction false} TypedStays(b: seq<Entry>, d: seq<Entry>, hv: seq<nat>, isSeq: seq<bool>, p: nat,
      kid: seq<nat>)
    requires Typed(b, hv, isSeq) && SameKids(b, d, p, kid)
    ensures Typed(d, hv, isSeq)
  {
    forall i | 0 <= i < |hv|
      ensures TypedAt(d, hv, isSeq, i)
    {
      assert TypedAt(b, hv, isSeq, i);
    }
  }

  lemma {:induction false} HeadStays(c: seq<Entry>, d: seq<Entry>, adds: seq<(nat, nat)>, x: nat)
    requires AllBuilt(c, d, adds) && x < |c| && c[x].etype != Ancillary
    ensures x < |d| && d[x].etype == c[x].etype
  {
  }

  lemma {:induction false} CreatedBelow(c: seq<Entry>, d: seq<Entry>, hv: seq<nat>)
    requires Created(c, d, hv)
    ensures forall i :: 0 <= i < |hv| ==> hv[i] < |d|
  {
  }

  lemma {:induction false} CreatedStep(c: seq<Entry>, b: seq<Entry>, d: seq<Entry>, hv: seq<nat>, x: nat)
    requires Created(c, b, hv) && |c| <= |b| && |d| == |b| + 1 && d[..|b|] == b && x == |b| && d[x].etype != Ancillary
    ensures Created(c, d, hv + [x])
  {
    assert forall i :: 0 <= i < |b| ==> d[i] == b[i];
  }

  lemma {:induction false} CreatedStays(c: seq<Entry>, b: seq<Entry>, d: seq<Entry>, hv: seq<nat>, p: nat,
      kid: seq<nat>)
    requires Created(c, b, hv) && SameKids(b, d, p, kid)
    ensures Created(c, d, hv)
  {
  }

  /** The parent of a path being visited has an entry, made before. */
  lemma {:induction false} ParentKnown(c: seq<Entry>, d: seq<Entry>, paths: seq<string>, hv: seq<nat>, i: nat)
    requires Ascending(paths) && i < |paths| && LastSlash(paths[i]) >= 0 && |hv| == i + 1
    requires Created(c, d, hv) && TOPDIR_SEQUENCE < |c| <= |d| && d[TOPDIR_SEQUENCE].etype != Ancillary
    ensures var j := Find(paths, ParentPath(paths[i]));
            var p := ParentEntry(paths, hv, i);
            && j < i && p == (if j < 0 then TOPDIR_SEQUENCE else hv[j])
            && p < hv[i] < |d| && d[p].etype != Ancillary
  {
    ParentEarlier(paths, i);
  }

  /** The entries of those of the first n paths that lie in directory dir. */
  function InDirectory(paths: seq<string>, hv: seq<nat>, dir: string, n: nat): seq<nat>
    requires n <= |hv| <= |paths|
  {
    if n == 0 then []
    else InDirectory(paths, hv, dir, n - 1)
         + (if LastSlash(paths[n - 1]) >= 0 && ParentPath(paths[n - 1]) == dir then [hv[n - 1]] else [])
  }

  /** A path belongs under the entry of path k exactly if path k is its directory. */
  lemma {:induction false} UnderEntry(paths: seq<string>, hv: seq<nat>, k: nat, i: nat)
    requires Ascending(paths) && |hv| == |paths| && k < |paths| && i < |paths|
    requires forall j :: 0 <= j < |hv| ==> TOPDIR_SEQUENCE < hv[j]
    requires forall j, m :: 0 <= j < m < |hv| ==> hv[j] < hv[m]
    ensures ParentEntry(paths, hv, i) == hv[k] <==> ParentPath(paths[i]) == paths[k]
  {
    hide ParentPath, Less;
    var j := Find(paths, ParentPath(paths[i]));
    if j >= 0 && j != k && paths[j] == paths[k] {
      LessOneWay(paths[j], paths[k]);
    }
  }

  /** A path's entry gets as children exactly the entries of the paths in it, in the order of their names. */
  lemma {:induction false} ChildrenOfPath(paths: seq<string>, hv: seq<nat>, k: nat, n: nat)
    requires Ascending(paths) && n <= |hv| == |paths| && k < |paths|
    requires forall i :: 0 <= i < |hv| ==> TOPDIR_SEQUENCE < hv[i]
    requires forall i, j :: 0 <= i < j < |hv| ==> hv[i] < hv[j]
    ensures ChildrenIn(AddsOf(paths, hv, n), hv[k]) == InDirectory(paths, hv, paths[k], n)
  {
    hide Less, LastSlash, ParentPath, ParentEntry, Ascending;
    if n > 0 {
      ChildrenOfPath(paths, hv, k, n - 1);
      UnderEntry(paths, hv, k, n - 1);
      var adds, add := AddsOf(paths, hv, n - 1), (ParentEntry(paths, hv, n - 1), hv[n - 1]);
      assert (adds + [add])[..|adds|] == adds && adds + [] == adds;
    }
  }

  // ---------------------------------------------------------------- entering the paths

  /** The path of a fragment: the top directory and the parts of its name. */
  function PathOf(top: string, parts: seq<string>): string {
    if parts == [] then top else PathOf(top, parts[..|parts| - 1]) + "/" + parts[|parts| - 1]
  }

  /** The paths on the way to a fragment, and its own. */
  function OnTheWay(top: string, parts: seq<string>): set<string> {
    if parts == [] then {} else OnTheWay(top, parts[..|parts| - 1]) + {PathOf(top, parts)}
  }

  predicate NoSlash(part: string) {
    forall i :: 0 <= i < |part| ==> part[i] != '/'
  }

  /** The directory of a path made by adding a part is what it was added to. */
  lemma {:induction false} ParentOfPart(dir: string, part: string)
    requires NoSlash(part)
    ensures LastSlash(dir + "/" + part) == |dir| && ParentPath(dir + "/" + part) == dir
  {
    var path := dir + "/" + part;
    assert path[|dir|] == '/' && forall i :: |dir| < i < |path| ==> path[i] == part[i - |dir| - 1];
    assert path[..|dir|] == dir;
  }

  /** Every path lies in the top directory, or in a directory that is in the tree. */
  ghost predicate Closed(top: string, tree: set<string>) {
    forall p :: p in tree ==> |top| < |p| && LastSlash(p) >= 0 && (ParentPath(p) == top || ParentPath(p) in tree)
  }

  /** The tree of directories and sequences, by their paths. */
  class HierTree {
    const top: string
    var tree: set<string>
    var seqs: set<string>
    var tmp: string

    constructor (top: string)
      ensures this.top == top && tree == seqs == {} && Closed(top, tree)
    {
      this.top, tree, seqs, tmp := top, {}, {}, "";
    }

    /** Enter the path so far with one more part. */
    method DirHierAdd(part: string)
      requires NoSlash(part) && Closed(top, tree) && |top| <= |tmp| && (tmp == top || tmp in tree)
      modifies this`tree, this`tmp
      ensures Closed(top, tree) && tmp == old(tmp) + "/" + part && tree == old(tree) + {tmp}
    {
      ParentOfPart(tmp, part);
      tmp := tmp + "/" + part;
      tree := tree + {tmp};
    }

    /**
     Enter a fragment whose name has the given parts: every directory on the way,
     and nothing else; its own path becomes that of a sequence.  Returns whether it
     is in the tree.
     */
    method FragmentInHierarchy(parts: seq<string>) returns (found: bool)
      requires Closed(top, tree) && forall i :: 0 <= i < |parts| ==> NoSlash(parts[i])
      modifies this`tree, this`seqs, this`tmp
      ensures Closed(top, tree)
      ensures tree == old(tree) + OnTheWay(top, parts)
      ensures seqs == old(seqs) + if parts == [] then {} else {PathOf(top, parts)}
      ensures tmp == PathOf(top, parts) && (found <==> parts != [])
    {
      hide LastSlash, ParentPath, NoSlash;
      ghost var before := tree;
      tmp := top;
      var depth := 0;
      while depth < |parts|
        invariant depth <= |parts| && Closed(top, tree)
        invariant tmp == PathOf(top, parts[..depth]) && |top| <= |tmp|
                  && (if depth == 0 then tmp == top else tmp in tree)
        invariant tree == before + OnTheWay(top, parts[..depth]) && seqs == old(seqs)
      {
        assert parts[..depth + 1][..depth] == parts[..depth];
        assert parts[..depth + 1][depth] == parts[depth];
        DirHierAdd(parts[depth]);
        depth := depth + 1;
      }
      assert parts[..depth] == parts;
      found := tmp in tree;
      if found {
        seqs := seqs + {tmp};
      }
    }
  }

  /**
   In the tree entered this way a path at the first level goes under the top
   directory's entry, and every other path under the entry of its own directory.
   */
  lemma {:induction false} TrueParent(top: string, tree: set<string>, paths: seq<string>, hv: seq<nat>, i: nat)
    requires Closed(top, tree) && (forall p :: p in paths <==> p in tree) && |hv| == |paths| && i < |paths|
    ensures LastSlash(paths[i]) >= 0
    ensures var dir, j := ParentPath(paths[i]), Find(paths, ParentPath(paths[i]));
            && (dir == top <==> j < 0)
            && (dir == top ==> ParentEntry(paths, hv, i) == 3)
            && (dir != top ==> 0 <= j && paths[j] == dir && ParentEntry(paths, hv, i) == hv[j])
  {
    assert paths[i] in tree;
    assert top !in tree;
  }

  /** The search tree of paths, in the order it is walked, with the entry of each path or 0. */
  class PathTree {
    const paths: seq<string>
    const isSeq: seq<bool>
    const hvdei: array<nat>
    const cache: MetaCache
    var errors: nat

    constructor (paths: seq<string>, isSeq: seq<bool>, cache: MetaCache)
      requires |paths| == |isSeq|
      ensures this.paths == paths && this.isSeq == isSeq && this.cache == cache
      ensures fresh(hvdei) && hvdei.Length == |paths| && errors == 0
    {
      this.paths, this.isSeq, this.cache := paths, isSeq, cache;
      hvdei := new nat[|paths|](_ => 0);
      errors := 0;
    }

    /** The entry of the parent of a path: that of its directory, or the top directory; -1 if it has none. */
    method FindSeqParent(path: string) returns (vp: int)
      requires hvdei.Length == |paths|
      ensures vp == if LastSlash(path) < 0 then -1
                    else var j := Find(paths, ParentPath(path)); if j < 0 then 3 else hvdei[j]
    {
      if LastSlash(path) < 0 {
        return -1;
      }
      var hp := Find(paths, ParentPath(path));
      vp := if hp < 0 then TOPDIR_SEQUENCE else hvdei[hp];
    }

    /** The first n paths have been visited, starting from cache c. */
    ghost predicate Visited(c: seq<Entry>, n: nat)
      reads this, hvdei, cache, cache.entries
    {
      && n <= |paths| == |isSeq| == hvdei.Length
      && Ascending(paths)
      && cache.Valid()
      && TOPDIR_SEQUENCE < |c| <= cache.num && c[TOPDIR_SEQUENCE].etype == Directory
      && Created(c, cache.Used(), hvdei[..n])
      && Typed(cache.Used(), hvdei[..n], isSeq)
      && AllBuilt(c, cache.Used(), AddsOf(paths, hvdei[..n], n))
    }

    /** The first n paths have been visited, and path n has its entry. */
    ghost predicate Made(c: seq<Entry>, n: nat)
      reads this, hvdei, cache, cache.entries
    {
      && n < |paths| == |isSeq| == hvdei.Length
      && Ascending(paths)
      && cache.Valid()
      && TOPDIR_SEQUENCE < |c| <= cache.num && c[TOPDIR_SEQUENCE].etype == Directory
      && Created(c, cache.Used(), hvdei[..n + 1])
      && Typed(cache.Used(), hvdei[..n + 1], isSeq)
      && AllBuilt(c, cache.Used(), AddsOf(paths, hvdei[..n + 1], n))
    }

    /** Make the entry of a path, a sequence or a directory. */
    method MakeEntry(i: nat, ghost c: seq<Entry>) returns (vc: nat)
      requires i < |paths| && Visited(c, i)
      modifies hvdei, cache, cache.entries
      ensures (cache.entries == old(cache.entries) || fresh(cache.entries))
      ensures Made(c, i) && hvdei[..i] == old(hvdei[..i]) && hvdei[i] == vc
    {
      hide AllBuilt, SameKids, Created, Typed, ParentEntry, Ascending, LastSlash, Less, Kids;
      ghost var hv, b := hvdei[..i], cache.Used();
      CreatedBelow(c, b, hv);
      AddsBelow(paths, hv, i, |b|);
      vc := cache.CreateHead(if isSeq[i] then Sequence else Directory);
      hvdei[i] := vc;
      assert hvdei[..i + 1] == hv + [vc];
      ghost var d := cache.Used();
      HeadStep(c, b, d, AddsOf(paths, hv, i));
      AddsGrow(paths, hv, vc, i);
      CreatedStep(c, b, d, hv, vc);
      TypedStep(b, d, hv, vc, isSeq);
    }

    /** Visit a path: make its entry and add it to its parent's. */
    method ThierSdir(i: nat, ghost c: seq<Entry>)
      requires i < |paths| && Visited(c, i)
      modifies this`errors, hvdei, cache, cache.entries
      ensures (cache.entries == old(cache.entries) || fresh(cache.entries))
      ensures Visited(c, i + 1)
      ensures hvdei[..i] == old(hvdei[..i])
      ensures errors == old(errors) + if LastSlash(paths[i]) < 0 then 1 else 0
    {
      hide AllBuilt, SameKids, Created, Typed, ParentEntry, Ascending, LastSlash, Less, Kids;
      var vc := MakeEntry(i, c);
      ghost var hv, b := hvdei[..i + 1], cache.Used();
      ghost var adds := AddsOf(paths, hv, i);
      var vp := FindSeqParent(paths[i]);
      if vp < 0 {
        errors := errors + 1;
        assert adds + [] == adds;
        return;
      }
      HeadStays(c, b, adds, TOPDIR_SEQUENCE);
      ParentKnown(c, b, paths, hv, i);
      assert vp == ParentEntry(paths, hv, i);
      cache.AddToParentDir(vp, vc);
      BuildStep(c, b, cache.Used(), adds, vp, vc);
      CreatedStays(c, b, cache.Used(), hv, vp, [vc]);
      TypedStays(b, cache.Used(), hv, isSeq, vp, [vc]);
    }

    /**
     Walk the tree in order: every path gets an entry, and becomes a child of the
     entry of its directory, or of the top directory if its directory is not in
     the tree; nothing else changes.
     */
    method TwalkThierSdir()
      requires |paths| == |isSeq| == hvdei.Length && Ascending(paths) && errors == 0
      requires cache.Valid() && TOPDIR_SEQUENCE < cache.num && cache.Used()[TOPDIR_SEQUENCE].etype == Directory
      modifies this`errors, hvdei, cache, cache.entries
      ensures Visited(old(cache.Used()), |paths|)
      ensures forall k :: 0 <= k < |paths| ==>
                && hvdei[k] < cache.num
                && cache.Used()[hvdei[k]].etype == if isSeq[k] then Sequence else Directory
      ensures errors == 0 <==> forall i :: 0 <= i < |paths| ==> LastSlash(paths[i]) >= 0
    {
      ghost var c := cache.Used();
      StartVisit(c);
      hide Visited, Ascending, LastSlash;
      var i := 0;
      while i < |paths|
        invariant i <= |paths| && Visited(c, i)
        invariant cache.entries == old(cache.entries) || fresh(cache.entries)
        invariant 0 <= errors && (errors == 0 <==> forall k :: 0 <= k < i ==> LastSlash(paths[k]) >= 0)
      {
        ThierSdir(i, c);
        i := i + 1;
      }
      AllTyped(c);
    }

    lemma AllTyped(c: seq<Entry>)
      requires Visited(c, |paths|)
      ensures forall k :: 0 <= k < |paths| ==>
                && hvdei[k] < cache.num
                && cache.Used()[hvdei[k]].etype == if isSeq[k] then Sequence else Directory
    {
      hide Created, AllBuilt, Ascending;
      assert hvdei[..|paths|] == hvdei[..];
      forall k | 0 <= k < |paths|
        ensures hvdei[k] < cache.num && cache.Used()[hvdei[k]].etype == if isSeq[k] then Sequence else Directory
      {
        assert TypedAt(cache.Used(), hvdei[..], isSeq, k) && hvdei[..][k] == hvdei[k];
      }
    }

    lemma StartVisit(c: seq<Entry>)
      requires |paths| == |isSeq| == hvdei.Length && Ascending(paths)
      requires cache.Valid() && c == cache.Used() && TOPDIR_SEQUENCE < |c| && c[TOPDIR_SEQUENCE].etype == Directory
      ensures Visited(c, 0)
    {
      forall x | 0 <= x < |c|
        ensures Built(c, c, [], x)
      {
      }
    }
  }
}
