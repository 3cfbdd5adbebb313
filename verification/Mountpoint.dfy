/**
 The main mount of a filesystem that is mounted several times (findMainMount,
 util/mountpoint/mountpoint.go:151-223, 263-271), in the host namespace.

 A clean absolute path is the list of its components: the root is the empty list, filepath.Dir drops
 the last component, and a path lies below another when that one is a proper prefix of it.
 */
module Mountpoint {
  import opened Wrappers
  import opened Sorting

  type Path = seq<string>

  datatype Mount = Mount(path: Path, subtree: Path, readOnly: bool, device: string)

  /** The mounts of one filesystem by path. */
  type Mounts = map<Path, Mount>

  function Dir(p: Path): Path
    requires p != []
  {
    p[..|p| - 1]
  }

  // ---------------------------------------------------------------- what is asked for

  ghost predicate IsRoot(ms: Mounts, p: Path) {
    p in ms && forall q :: q in ms ==> !(q < p)
  }

  function Subtrees(ms: Mounts): set<Path> {
    set p | p in ms :: ms[p].subtree
  }

  /** The subtrees that lie below no other one. */
  ghost function Uncontained(all: set<Path>): set<Path> {
    set t | t in all && forall u :: u in all ==> !(u < t)
  }

  /** The subtree is mounted at the path or below it. */
  ghost predicate MountedUnder(ms: Mounts, p: Path, t: Path) {
    exists q :: q in ms && p <= q && ms[q].subtree == t
  }

  /** A root below which every uncontained subtree is mounted. */
  ghost predicate Eligible(ms: Mounts, p: Path) {
    IsRoot(ms, p) && forall t :: t in Uncontained(Subtrees(ms)) ==> MountedUnder(ms, p, t)
  }

  ghost predicate Ambiguous(ms: Mounts) {
    exists p, q :: Eligible(ms, p) && Eligible(ms, q) && ms[p].subtree != ms[q].subtree
  }

  // ---------------------------------------------------------------- the forest of mount points

  /** q is the nearest mount point above p. */
  ghost predicate IsParent(ms: Mounts, p: Path, q: Path) {
    q in ms && q < p && forall r :: r in ms && r < p ==> |r| <= |q|
  }

  ghost predicate LinkedFor(ms: Mounts, parent: map<Path, Path>, p: Path) {
    if p in parent then IsParent(ms, p, parent[p]) else IsRoot(ms, p)
  }

  ghost predicate ChildrenAgree(ms: Mounts, parent: map<Path, Path>, children: map<Path, seq<Path>>) {
    && children.Keys == ms.Keys
    && forall q, c :: q in ms ==> (c in children[q] <==> c in parent && parent[c] == q)
  }

  ghost predicate Linked(ms: Mounts, parent: map<Path, Path>, children: map<Path, seq<Path>>) {
    && parent.Keys <= ms.Keys
    && (forall p :: p in ms ==> LinkedFor(ms, parent, p))
    && ChildrenAgree(ms, parent, children)
  }

  /** The mounts looked at so far are linked, the others are not. */
  ghost predicate PartlyLinked(ms: Mounts, done: set<Path>, parent: map<Path, Path>, children: map<Path, seq<Path>>) {
    && parent.Keys <= done
    && (forall p :: p in done ==> LinkedFor(ms, parent, p))
    && ChildrenAgree(ms, parent, children)
  }

  lemma LinkOne(ms: Mounts, done: set<Path>, parent: map<Path, Path>, children: map<Path, seq<Path>>, p: Path,
                q: Option<Path>)
    requires PartlyLinked(ms, done, parent, children) && p in ms && p !in done
    requires if q.Some? then IsParent(ms, p, q.value) else IsRoot(ms, p)
    ensures q.None? ==> PartlyLinked(ms, done + {p}, parent, children)
    ensures q.Some? ==> PartlyLinked(ms, done + {p}, parent[p := q.value], children[q.value := children[q.value] + [p]])
  {
    if q.Some? {
      AddChild(ms, parent, children, p, q.value);
      forall r | r in done
        ensures LinkedFor(ms, parent[p := q.value], r)
      {
        assert LinkedFor(ms, parent, r);
      }
    }
  }

  lemma PrefixesCompare(p: Path, q: Path, r: Path)
    requires p <= r && q <= r && |p| <= |q|
    ensures p <= q
  {
    assert p == r[..|p|] && q == r[..|q|];
  }

  /** A mount point below p lies at or below one of the children of p. */
  lemma {:induction false} BelowAChild(ms: Mounts, parent: map<Path, Path>, children: map<Path, seq<Path>>, p: Path,
                                       n: Path)
      returns (c: Path)
    requires Linked(ms, parent, children) && p in ms && n in ms && p < n
    ensures c in children[p] && c <= n
    decreases |n|
  {
    assert LinkedFor(ms, parent, n);
    var q := parent[n];
    if q == p {
      c := n;
    } else {
      PrefixesCompare(p, q, n);
      c := BelowAChild(ms, parent, children, p, q);
    }
  }

  lemma ChildIsBelow(ms: Mounts, parent: map<Path, Path>, children: map<Path, seq<Path>>, p: Path, c: Path)
    requires Linked(ms, parent, children) && p in ms && c in children[p]
    ensures c in ms && p < c
  {
    assert LinkedFor(ms, parent, c);
  }

  class Forest {
    const mounts: Mounts
    var parent: map<Path, Path>
    var children: map<Path, seq<Path>>

    constructor (ms: Mounts)
      ensures mounts == ms && Linked(ms, parent, children)
    {
      mounts := ms;
      parent := map[];
      children := map p | p in ms :: [];
      new;
      Link();
    }

    /** Divide the mounts into trees: walk up from each mount point to the nearest one above. */
    method Link()
      requires PartlyLinked(mounts, {}, parent, children)
      modifies this
      ensures Linked(mounts, parent, children)
    {
      var todo := mounts.Keys;
      while todo != {}
        invariant todo <= mounts.Keys
        invariant PartlyLinked(mounts, mounts.Keys - todo, parent, children)
        decreases todo
      {
        var p :| p in todo;
        var q := Nearest(p);
        LinkOne(mounts, mounts.Keys - todo, parent, children, p, q);
        assert mounts.Keys - (todo - {p}) == mounts.Keys - todo + {p};
        if q.Some? {
          parent := parent[p := q.value];
          children := children[q.value := children[q.value] + [p]];
        }
        todo := todo - {p};
      }
    }

    method Nearest(p: Path) returns (q: Option<Path>)
      requires p in mounts
      ensures q.Some? ==> IsParent(mounts, p, q.value)
      ensures q.None? ==> IsRoot(mounts, p)
    {
      var path := p;
      q := None;
      while path != []
        invariant path <= p
        invariant forall r :: r in mounts && r < p ==> |r| < |path|
        decreases |path|
      {
        ghost var below := path;
        path := Dir(path);
        forall r | r in mounts && r < p
          ensures |r| <= |path| && (|r| == |path| ==> r == path)
        {
          assert r == p[..|r|] && path == p[..|path|];
        }
        if path in mounts {
          return Some(path);
        }
      }
    }

    /** Collect the uncontained subtrees mounted at p or below it. */
    method AddUncontained(dst: set<Path>, p: Path, all: set<Path>, ghost bound: nat) returns (r: set<Path>)
      requires Linked(mounts, parent, children) && p in mounts
      requires forall q :: q in mounts ==> |q| <= bound
      ensures CollectedUnder(mounts, p, all, dst, r)
      decreases bound - |p|
    {
      r := dst;
      if mounts[p].subtree in all {
        r := r + {mounts[p].subtree};
      }
      var cs := children[p];
      CollectedFirst(mounts, p, all, dst);
      for i := 0 to |cs|
        invariant Collected(mounts, p, cs[..i], all, dst, r)
      {
        ChildIsBelow(mounts, parent, children, p, cs[i]);
        var more := AddUncontained(r, cs[i], all, bound);
        PrefixSnoc(cs, i);
        CollectedOneMore(mounts, p, cs[..i], cs[i], all, dst, r, more);
        r := more;
      }
      assert cs[..|cs|] == cs;
      CollectedAll(mounts, parent, children, p, all, dst, r);
    }
  }

  lemma PrefixSnoc<T>(s: seq<T>, i: nat)
    requires i < |s|
    ensures s[..i + 1] == s[..i] + [s[i]]
  {
  }

  /** What has been collected after visiting p and the children cs. */
  ghost predicate Collected(ms: Mounts, p: Path, cs: seq<Path>, all: set<Path>, dst: set<Path>, r: set<Path>) {
    forall t :: t in r <==> t in dst || (t in all && MountedUnderSome(ms, p, cs, t))
  }

  ghost predicate CollectedUnder(ms: Mounts, p: Path, all: set<Path>, dst: set<Path>, r: set<Path>) {
    forall t :: t in r <==> t in dst || (t in all && MountedUnder(ms, p, t))
  }

  lemma CollectedFirst(ms: Mounts, p: Path, all: set<Path>, dst: set<Path>)
    requires p in ms
    ensures Collected(ms, p, [], all, dst, if ms[p].subtree in all then dst + {ms[p].subtree} else dst)
  {
  }

  lemma CollectedAll(ms: Mounts, parent: map<Path, Path>, children: map<Path, seq<Path>>, p: Path,
                     all: set<Path>, dst: set<Path>, r: set<Path>)
    requires Linked(ms, parent, children) && p in ms && Collected(ms, p, children[p], all, dst, r)
    ensures CollectedUnder(ms, p, all, dst, r)
  {
    forall t
      ensures t in r <==> t in dst || (t in all && MountedUnder(ms, p, t))
    {
      SomeIsAll(ms, parent, children, p, t);
    }
  }

  lemma CollectedOneMore(ms: Mounts, p: Path, cs: seq<Path>, c: Path, all: set<Path>, dst: set<Path>, r: set<Path>,
                         more: set<Path>)
    requires Collected(ms, p, cs, all, dst, r) && CollectedUnder(ms, c, all, r, more)
    ensures Collected(ms, p, cs + [c], all, dst, more)
  {
    forall t
      ensures MountedUnderSome(ms, p, cs + [c], t) <==> MountedUnderSome(ms, p, cs, t) || MountedUnder(ms, c, t)
    {
      assert forall x :: x in cs + [c] <==> x in cs || x == c;
    }
  }

  ghost predicate MountedUnderSome(ms: Mounts, p: Path, cs: seq<Path>, t: Path) {
    (p in ms && ms[p].subtree == t) || exists c :: c in cs && MountedUnder(ms, c, t)
  }

  /** What is mounted below p is mounted at p or below one of its children. */
  lemma SomeIsAll(ms: Mounts, parent: map<Path, Path>, children: map<Path, seq<Path>>, p: Path, t: Path)
    requires Linked(ms, parent, children) && p in ms
    ensures MountedUnderSome(ms, p, children[p], t) <==> MountedUnder(ms, p, t)
  {
    if MountedUnder(ms, p, t) {
      var q :| q in ms && p <= q && ms[q].subtree == t;
      if p != q {
        var c := BelowAChild(ms, parent, children, p, q);
        assert MountedUnder(ms, c, t);
      }
    }
    if exists c :: c in children[p] && MountedUnder(ms, c, t) {
      var c :| c in children[p] && MountedUnder(ms, c, t);
      var q :| q in ms && c <= q && ms[q].subtree == t;
      ChildIsBelow(ms, parent, children, p, c);
      assert p <= q;
    }
  }

  lemma AddChild(ms: Mounts, parent: map<Path, Path>, children: map<Path, seq<Path>>, p: Path, q: Path)
    requires ChildrenAgree(ms, parent, children) && q in ms && p !in parent
    ensures ChildrenAgree(ms, parent[p := q], children[q := children[q] + [p]])
  {
  }

  // ---------------------------------------------------------------- uncontained subtrees

  method IsContained(all: set<Path>, subtree: Path) returns (contained: bool)
    ensures contained <==> exists u :: u in all && u < subtree
  {
    contained := false;
    var t := subtree;
    while t != [] && !contained
      invariant t <= subtree
      invariant contained ==> t in all && t < subtree
      invariant !contained ==> forall u :: u in all && u < subtree ==> |u| < |t|
      decreases |t|
    {
      t := Dir(t);
      forall u | u in all && u < subtree
        ensures |u| == |t| ==> u == t
      {
        assert u == subtree[..|u|] && t == subtree[..|t|];
      }
      contained := t in all;
    }
  }

  method UncontainedSubtrees(all: set<Path>) returns (r: set<Path>)
    ensures r == Uncontained(all)
  {
    r := {};
    var todo := all;
    while todo != {}
      invariant todo <= all
      invariant forall t :: t in r <==> t in all - todo && t in Uncontained(all)
      decreases todo
    {
      var t :| t in todo;
      todo := todo - {t};
      var contained := IsContained(all, t);
      if !contained {
        r := r + {t};
      }
    }
  }

  // ---------------------------------------------------------------- the main mount

  lemma {:induction false} HasBound(paths: set<Path>) returns (bound: nat)
    ensures forall q :: q in paths ==> |q| <= bound
  {
    bound := 0;
    if paths != {} {
      var p :| p in paths;
      bound := HasBound(paths - {p});
      bound := if bound < |p| then |p| else bound;
    }
  }

  /** Whether the root covers all uncontained subtrees, by counting them. */
  method Covers(f: Forest, p: Path, all: set<Path>) returns (yes: bool)
    requires Linked(f.mounts, f.parent, f.children) && IsRoot(f.mounts, p)
    requires all == Uncontained(Subtrees(f.mounts))
    ensures yes <==> Eligible(f.mounts, p)
  {
    ghost var bound := HasBound(f.mounts.Keys);
    var found := f.AddUncontained({}, p, all, bound);
    assert found <= all;
    yes := |found| == |all|;
    if yes {
      SubsetOfSameSize(found, all);
    } else {
      assert found != all;
    }
  }

  /** Everything seen so far agrees with the choice made. */
  ghost predicate Choice(ms: Mounts, seen: set<Path>, main: Option<Path>) {
    && (main.Some? ==> main.value in seen && Eligible(ms, main.value))
    && (forall p :: p in seen && Eligible(ms, p) ==>
          && main.Some? && ms[p].subtree == ms[main.value].subtree
          && (ms[main.value].readOnly ==> ms[p].readOnly))
  }

  /** The answer the choice stands for once all mounts have been seen. */
  ghost predicate IsMain(ms: Mounts, main: Option<Path>) {
    && (main.None? <==> (!exists p :: Eligible(ms, p)) || Ambiguous(ms))
    && (main.Some? ==> Eligible(ms, main.value)
                       && (ms[main.value].readOnly ==> forall p :: Eligible(ms, p) ==> ms[p].readOnly))
  }

  lemma ChoiceIsMain(ms: Mounts, main: Option<Path>)
    requires Choice(ms, ms.Keys, main)
    ensures IsMain(ms, main)
  {
    forall p, q | Eligible(ms, p) && Eligible(ms, q)
      ensures ms[p].subtree == ms[q].subtree
    {
      assert p in ms.Keys && q in ms.Keys;
    }
  }

  /** Choose among the mounts, visited in any order. */
  method Choose(f: Forest, all: set<Path>) returns (main: Option<Path>)
    requires Linked(f.mounts, f.parent, f.children)
    requires all == Uncontained(Subtrees(f.mounts))
    ensures IsMain(f.mounts, main)
  {
    var ms := f.mounts;
    main := None;
    var todo := ms.Keys;
    while todo != {}
      invariant todo <= ms.Keys
      invariant Choice(ms, ms.Keys - todo, main)
      decreases todo
    {
      var p :| p in todo;
      todo := todo - {p};
      assert LinkedFor(ms, f.parent, p);
      if p in f.parent {
        continue;
      }
      var yes := Covers(f, p, all);
      if !yes {
        continue;
      }
      if main.Some? && ms[main.value].subtree != ms[p].subtree {
        assert Ambiguous(ms);
        return None;
      }
      if main.None? || ms[main.value].readOnly {
        main := Some(p);
      }
    }
    assert ms.Keys - {} == ms.Keys;
    ChoiceIsMain(ms, main);
  }

  method FindMainMount(filesystemMounts: seq<Mount>) returns (main: Option<Mount>)
    requires forall i, j :: 0 <= i < j < |filesystemMounts| ==> filesystemMounts[i].path != filesystemMounts[j].path
    ensures IsMain(ByPath(filesystemMounts), if main.Some? then Some(main.value.path) else None)
    ensures main.Some? ==> main.value in filesystemMounts
    ensures forall m: Mount :: m in filesystemMounts <==> Find(ByPath(filesystemMounts), m.path) == Some(m)
  {
    ByPathHoldsAll(filesystemMounts);
    var ms := Index(filesystemMounts);
    var f := new Forest(ms);
    var all := UncontainedSubtrees(Subtrees(ms));
    var chosen := Choose(f, all);
    main := if chosen.Some? then Some(ms[chosen.value]) else None;
  }

  function ByPath(list: seq<Mount>): Mounts {
    if list == [] then map[] else ByPath(list[..|list| - 1])[list[|list| - 1].path := list[|list| - 1]]
  }

  /** With distinct paths exactly the listed mounts are found, each under its path. */
  lemma {:induction false} ByPathHoldsAll(list: seq<Mount>)
    requires forall i, j :: 0 <= i < j < |list| ==> list[i].path != list[j].path
    ensures forall m: Mount :: m in list <==> Find(ByPath(list), m.path) == Some(m)
    ensures forall p :: p in ByPath(list) ==> ByPath(list)[p].path == p
  {
    if list != [] {
      var init, last := list[..|list| - 1], list[|list| - 1];
      ByPathHoldsAll(init);
      forall m: Mount
        ensures m in list <==> Find(ByPath(list), m.path) == Some(m)
      {
        assert m in list <==> m in init || m == last;
        assert m in init ==> m.path != last.path;
      }
    }
  }

  method Index(list: seq<Mount>) returns (ms: Mounts)
    ensures ms == ByPath(list)
    ensures forall p :: p in ms ==> ms[p] in list && ms[p].path == p
  {
    ms := map[];
    for i := 0 to |list|
      invariant ms == ByPath(list[..i])
      invariant forall p :: p in ms ==> ms[p] in list && ms[p].path == p
    {
      assert list[..i + 1][..i] == list[..i];
      ms := ms[list[i].path := list[i]];
    }
    assert list[..|list|] == list;
  }
}
