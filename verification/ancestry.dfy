/**
 What one-parent-per-record implies for a built forest. Every record has at
 most one parent link, so following links upward is a function; a record on
 a parent cycle (a record naming itself as parent is the shortest one) can
 therefore never reach a root, and walking children down from a root can
 never revisit a record. Without cycles, every record's chain ends at a
 root (`AcyclicReachesRoot`).
 */
module Ancestry {
  import opened Wrappers
  import opened LexOrder
  import opened Forest

  function ParentOf(nodes: map<string, Record>, k: string): Option<string>
  {
    if k in nodes then nodes[k].parent else None
  }

  /** The record `n` parent links above `k`, if the chain is that long. */
  function Ancestor(nodes: map<string, Record>, k: string, n: nat): Option<string>
    decreases n
  {
    if n == 0 then Some(k)
    else match ParentOf(nodes, k)
      case None => None
      case Some(q) => Ancestor(nodes, q, n - 1)
  }

  predicate IsRoot(nodes: map<string, Record>, k: string)
  {
    k in nodes && nodes[k].parent.None?
  }

  /** Climbing `a + b` links is climbing `a`, then `b`. */
  lemma {:induction false} AncestorAdd(nodes: map<string, Record>, k: string, a: nat, b: nat)
    ensures Ancestor(nodes, k, a + b)
         == match Ancestor(nodes, k, a) case None => None case Some(y) => Ancestor(nodes, y, b)
    decreases a
  {
    if a > 0 {
      match ParentOf(nodes, k)
      case None =>
      case Some(q) => AncestorAdd(nodes, q, a - 1, b);
    }
  }

  /** If the chain from `k` reaches `n + m` links with `m > 0`, the record
      `n` links up exists and has a parent. */
  lemma {:induction false} ChainPasses(nodes: map<string, Record>, k: string, n: nat, m: nat)
    requires m > 0 && Ancestor(nodes, k, n + m).Some?
    ensures Ancestor(nodes, k, n).Some?
    ensures ParentOf(nodes, Ancestor(nodes, k, n).value).Some?
    decreases n
  {
    if n > 0 {
      ChainPasses(nodes, ParentOf(nodes, k).value, n - 1, m);
    }
  }

  /** Every record above a record on a cycle exists and has a parent. */
  lemma {:induction false} CycleEverywhere(nodes: map<string, Record>, k: string, period: nat, n: nat)
    requires period > 0 && Ancestor(nodes, k, period) == Some(k)
    ensures Ancestor(nodes, k, n).Some?
    ensures !IsRoot(nodes, Ancestor(nodes, k, n).value)
    decreases n
  {
    if n >= period {
      AncestorAdd(nodes, k, period, n - period);
      CycleEverywhere(nodes, k, period, n - period);
    } else {
      ChainPasses(nodes, k, n, period - n);
    }
  }

  /** A record on a parent cycle is not a root, and no root lies above it. */
  lemma CycleNeverRoot(nodes: map<string, Record>, k: string, period: nat)
    requires period > 0 && Ancestor(nodes, k, period) == Some(k)
    ensures !IsRoot(nodes, k)
    ensures forall n: nat :: Ancestor(nodes, k, n).Some? && !IsRoot(nodes, Ancestor(nodes, k, n).value)
  {
    forall n: nat
      ensures Ancestor(nodes, k, n).Some? && !IsRoot(nodes, Ancestor(nodes, k, n).value)
    {
      CycleEverywhere(nodes, k, period, n);
    }
    assert Ancestor(nodes, k, 0) == Some(k);
  }

  /** Following parent links from `x` ends at a root. */
  ghost predicate ReachesRoot(nodes: map<string, Record>, x: string)
  {
    exists n: nat :: Ancestor(nodes, x, n).Some? && IsRoot(nodes, Ancestor(nodes, x, n).value)
  }

  /** No record lies on a parent cycle. */
  ghost predicate Acyclic(nodes: map<string, Record>)
  {
    forall k, n: nat :: k in nodes && n > 0 ==> Ancestor(nodes, k, n) != Some(k)
  }

  /** A parent chain meets at most one root, at one distance. */
  lemma RootUnique(nodes: map<string, Record>, x: string, a: nat, b: nat, r1: string, r2: string)
    requires Ancestor(nodes, x, a) == Some(r1) && IsRoot(nodes, r1)
    requires Ancestor(nodes, x, b) == Some(r2) && IsRoot(nodes, r2)
    ensures a == b && r1 == r2
  {
    var gap: nat := if a < b then b - a else a - b;
    if a < b {
      AncestorAdd(nodes, x, a, gap);
    } else if b < a {
      AncestorAdd(nodes, x, b, gap);
    }
  }

  /** Two records above `x` that are the same distance below one root are
      the same record, at the same distance above `x`. */
  lemma AboveUnique(nodes: map<string, Record>, x: string, y1: string, y2: string, a: nat, b: nat, m: nat, r: string)
    requires Ancestor(nodes, x, a) == Some(y1) && Ancestor(nodes, y1, m) == Some(r)
    requires Ancestor(nodes, x, b) == Some(y2) && Ancestor(nodes, y2, m) == Some(r)
    requires IsRoot(nodes, r)
    ensures a == b && y1 == y2
  {
    ChainsJoin(nodes, x, y1, y2, a, b, m, r);
    ChainsMeet(nodes, x, y1, y2, a, b, m, r);
  }

  lemma ChainsJoin(nodes: map<string, Record>, x: string, y1: string, y2: string, a: nat, b: nat, m: nat, r: string)
    requires Ancestor(nodes, x, a) == Some(y1) && Ancestor(nodes, y1, m) == Some(r)
    requires Ancestor(nodes, x, b) == Some(y2) && Ancestor(nodes, y2, m) == Some(r)
    ensures Ancestor(nodes, x, a + m) == Some(r)
    ensures Ancestor(nodes, x, b + m) == Some(r)
  {
    AncestorJoin(nodes, x, y1, r, a, m);
    AncestorJoin(nodes, x, y2, r, b, m);
  }

  lemma ChainsMeet(nodes: map<string, Record>, x: string, y1: string, y2: string, a: nat, b: nat, m: nat, r: string)
    requires Ancestor(nodes, x, a) == Some(y1) && Ancestor(nodes, x, b) == Some(y2)
    requires Ancestor(nodes, x, a + m) == Some(r) && Ancestor(nodes, x, b + m) == Some(r)
    requires IsRoot(nodes, r)
    ensures a == b && y1 == y2
  {
    var u, v := a + m, b + m;
    RootUnique(nodes, x, u, v, r, r);
  }

  /** `a` links up to `y`, then `m` links up to `z`, is `a + m` links up to `z`. */
  lemma AncestorJoin(nodes: map<string, Record>, x: string, y: string, z: string, a: nat, m: nat)
    requires Ancestor(nodes, x, a) == Some(y) && Ancestor(nodes, y, m) == Some(z)
    ensures Ancestor(nodes, x, a + m) == Some(z)
  {
    AncestorAdd(nodes, x, a, m);
  }

  /** Every parent names a record of the arena. */
  ghost predicate ParentsInArena(nodes: map<string, Record>)
  {
    forall k {:trigger nodes[k]} :: k in nodes && nodes[k].parent.Some? ==> nodes[k].parent.value in nodes
  }

  /** A chain that never meets a root stays in the arena at every length. */
  lemma {:induction false} ChainInArena(nodes: map<string, Record>, x: string, i: nat)
    requires ParentsInArena(nodes) && x in nodes && !ReachesRoot(nodes, x)
    ensures Ancestor(nodes, x, i).Some? && Ancestor(nodes, x, i).value in nodes
  {
    if i > 0 {
      ChainInArena(nodes, x, i - 1);
      var y := Ancestor(nodes, x, i - 1).value;
      assert !IsRoot(nodes, y);
      AncestorAdd(nodes, x, i - 1, 1);
    }
  }

  /** Without parent cycles every record's chain ends at a root: a chain
      longer than the arena would have to revisit a record. */
  lemma AcyclicReachesRoot(nodes: map<string, Record>, x: string)
    requires ParentsInArena(nodes) && Acyclic(nodes) && x in nodes
    ensures ReachesRoot(nodes, x)
  {
    if !ReachesRoot(nodes, x) {
      var n := |nodes|;
      forall i: nat | i <= n
        ensures Ancestor(nodes, x, i).Some? && Ancestor(nodes, x, i).value in nodes
      {
        ChainInArena(nodes, x, i);
      }
      var s := seq(n + 1, i requires 0 <= i <= n => Ancestor(nodes, x, i).value);
      forall i, j | 0 <= i < j < |s|
        ensures s[i] != s[j]
      {
        AncestorAdd(nodes, x, i, j - i);
        assert Ancestor(nodes, s[i], j - i) == Some(s[j]);
      }
      DistinctCard(s);
      SubsetCard((set y | y in s), nodes.Keys);
      assert false;
    }
  }

  /** Without parent cycles every record of the arena climbs to a root. */
  lemma AcyclicAllReach(nodes: map<string, Record>)
    requires ParentsInArena(nodes) && Acyclic(nodes)
    ensures forall x :: x in nodes ==> ReachesRoot(nodes, x)
  {
    forall x | x in nodes
      ensures ReachesRoot(nodes, x)
    {
      AcyclicReachesRoot(nodes, x);
    }
  }

  /** Children lists point back along parent links. */
  ghost predicate ChildLinks(f: Forest)
  {
    forall k, c :: k in f.subnodes && c in f.subnodes[k] ==> ParentOf(f.nodes, c) == Some(k)
  }

  /** Listed roots are records without a parent. */
  ghost predicate RootsAreRoots(f: Forest)
  {
    forall r :: r in f.roots ==> IsRoot(f.nodes, r)
  }

  lemma WellFormedLinks(f: Forest)
    requires WellFormed(f)
    ensures ChildLinks(f) && RootsAreRoots(f)
  {
    WellFormedChildLinks(f);
    WellFormedRoots(f);
  }

  lemma WellFormedParents(f: Forest)
    requires WellFormed(f)
    ensures ParentsInArena(f.nodes)
  {
  }

  lemma WellFormedChildLinks(f: Forest)
    requires WellFormed(f)
    ensures ChildLinks(f)
  {
    forall k, c | k in f.subnodes && c in f.subnodes[k]
      ensures ParentOf(f.nodes, c) == Some(k)
    {
      assert c in f.nodes && f.nodes[c].parent == Some(k);
    }
  }

  lemma WellFormedRoots(f: Forest)
    requires WellFormed(f)
    ensures RootsAreRoots(f)
  {
    forall r | r in f.roots
      ensures IsRoot(f.nodes, r)
    {
    }
  }

  /** A downward path through children lists. */
  ghost predicate IsWalk(f: Forest, w: seq<string>)
  {
    && |w| >= 1
    && w[0] in f.nodes
    && forall i :: 0 <= i < |w| - 1 ==> w[i] in f.subnodes && w[i + 1] in f.subnodes[w[i]]
  }

  /** Walking down `d` steps is the reverse of climbing `d` parent links. */
  lemma {:induction false} WalkClimbsBack(f: Forest, w: seq<string>)
    requires ChildLinks(f) && IsWalk(f, w)
    ensures forall i :: 0 <= i < |w| ==> Ancestor(f.nodes, w[|w| - 1], |w| - 1 - i) == Some(w[i])
  {
    if |w| > 1 {
      var w' := w[..|w| - 1];
      assert IsWalk(f, w');
      WalkClimbsBack(f, w');
      var last := w[|w| - 1];
      assert ParentOf(f.nodes, last) == Some(w[|w| - 2]);
      forall i | 0 <= i < |w|
        ensures Ancestor(f.nodes, last, |w| - 1 - i) == Some(w[i])
      {
        if i < |w| - 1 {
          assert w'[i] == w[i];
        }
      }
    }
  }

  /** A record on a parent cycle is never reached by walking children from a root. */
  lemma CycleUnreachable(f: Forest, k: string, period: nat)
    requires WellFormed(f)
    requires period > 0 && Ancestor(f.nodes, k, period) == Some(k)
    ensures k !in f.roots
    ensures forall w :: IsWalk(f, w) && w[0] in f.roots ==> w[|w| - 1] != k
  {
    WellFormedLinks(f);
    CycleNeverRoot(f.nodes, k, period);
    forall w | IsWalk(f, w) && w[0] in f.roots
      ensures w[|w| - 1] != k
    {
      WalkClimbsBack(f, w);
      assert Ancestor(f.nodes, w[|w| - 1], |w| - 1) == Some(w[0]);
    }
  }

  lemma WalkPrefix(f: Forest, w: seq<string>, n: nat)
    requires IsWalk(f, w) && 1 <= n <= |w|
    ensures IsWalk(f, w[..n])
  {
    var u := w[..n];
    forall i | 0 <= i < |u| - 1 ensures u[i] in f.subnodes && u[i + 1] in f.subnodes[u[i]] {
      assert u[i] == w[i] && u[i + 1] == w[i + 1];
    }
  }

  lemma NoRepeat(f: Forest, w: seq<string>, i: nat, j: nat)
    requires ChildLinks(f) && RootsAreRoots(f) && IsWalk(f, w) && w[0] in f.roots
    requires i < j < |w|
    ensures w[i] != w[j]
  {
    var u := w[..j + 1];
    WalkPrefix(f, w, j + 1);
    assert u[0] in f.roots && u[|u| - 1] == w[j] && u[i] == w[i];
    WalkClimbsBack(f, u);
    assert Ancestor(f.nodes, w[j], j - i) == Some(w[i]);
    if w[i] == w[j] {
      CycleNeverRoot(f.nodes, w[j], j - i);
      assert false;
    }
  }

  /** Walking children from a root never revisits a record. */
  lemma WalkDistinct(f: Forest, w: seq<string>)
    requires WellFormed(f) && IsWalk(f, w) && w[0] in f.roots
    ensures Distinct(w)
  {
    WellFormedLinks(f);
    WalkDistinctCore(f, w);
  }

  lemma WalkDistinctCore(f: Forest, w: seq<string>)
    requires ChildLinks(f) && RootsAreRoots(f) && IsWalk(f, w) && w[0] in f.roots
    ensures Distinct(w)
  {
    forall i, j | 0 <= i < j < |w|
      ensures w[i] != w[j]
    {
      NoRepeat(f, w, i, j);
    }
  }

  /** Every record on a walk is in the arena. */
  lemma WalkInArena(f: Forest, w: seq<string>)
    requires ChildLinks(f) && IsWalk(f, w)
    ensures forall x :: x in w ==> x in f.nodes
  {
    forall x | x in w ensures x in f.nodes {
      var i :| 0 <= i < |w| && w[i] == x;
      if i > 0 {
        assert w[i] in f.subnodes[w[i - 1]];
        assert ParentOf(f.nodes, w[i]).Some?;
      }
    }
  }

  lemma {:induction false} DistinctCard(w: seq<string>)
    requires Distinct(w)
    ensures |set x | x in w| == |w|
  {
    if w != [] {
      var t := w[1..];
      assert Distinct(t);
      DistinctCard(t);
      assert (set x | x in w) == (set x | x in t) + {w[0]};
      assert w[0] !in t;
    }
  }

  /** Walking children from a root is finite: no walk is longer than the arena. */
  lemma WalkBounded(f: Forest, w: seq<string>)
    requires WellFormed(f) && IsWalk(f, w) && w[0] in f.roots
    ensures |w| <= |f.nodes|
  {
    WellFormedLinks(f);
    WalkBoundedCore(f, w);
  }

  lemma WalkBoundedCore(f: Forest, w: seq<string>)
    requires ChildLinks(f) && RootsAreRoots(f) && IsWalk(f, w) && w[0] in f.roots
    ensures |w| <= |f.nodes|
  {
    WalkDistinctCore(f, w);
    DistinctCard(w);
    WalkInArena(f, w);
    SubsetCard((set x | x in w), f.nodes.Keys);
  }

  lemma {:induction false} SubsetCard(a: set<string>, b: set<string>)
    requires a <= b
    ensures |a| <= |b|
    decreases a
  {
    if a != {} {
      var x :| x in a;
      SubsetCard(a - {x}, b - {x});
    }
  }
}
