/**
 From the arena to printable trees. The program hands `format_tree` a root
 `Node` object and lets it follow `subnodes` references; here the same tree
 is read off the arena by `TreeOf`, which formats each record's payload and
 descends into its sorted children. `TreeOf` carries the set of records on
 the path above it and skips a child already on that path, which is what
 makes it terminate on any forest; for a built forest walked from a root the
 guard never fires (`RootTreeMirrors`), so the tree is exactly the one the
 program traverses.
 */
module Subtrees {
  import opened Wrappers
  import opened LexOrder
  import opened NodeFormat
  import opened Forest
  import opened Render
  import opened Ancestry

  function ChildKeys(f: Forest, k: string): seq<string>
  {
    if k in f.subnodes then f.subnodes[k] else []
  }

  /** The subtree below record `k`; `path` holds the records above it. */
  function TreeOf(f: Forest, fmt: NodeFormatter, k: string, path: set<string>): (r: Tree)
    requires k in f.nodes && k !in path
    ensures r.payload == FormatNode(fmt, f.nodes[k].line, f.nodes[k].fields)
    ensures |r.kids| <= |ChildKeys(f, k)|
    decreases f.nodes.Keys - path, 0
  {
    var rec := f.nodes[k];
    Node(FormatNode(fmt, rec.line, rec.fields), KidsOf(f, fmt, ChildKeys(f, k), path + {k}))
  }

  /** The subtrees of the children `cs`, skipping any already on `path` or
      missing from the arena. */
  function KidsOf(f: Forest, fmt: NodeFormatter, cs: seq<string>, path: set<string>): (r: seq<Tree>)
    ensures |r| <= |cs|
    decreases f.nodes.Keys - path, 1, |cs|
  {
    if cs == [] then []
    else
      var c := cs[0];
      (if c in f.nodes && c !in path then [TreeOf(f, fmt, c, path)] else []) + KidsOf(f, fmt, cs[1..], path)
  }

  /** `t` is the tree of `Node` objects reachable from record `k`: each node
      shows its record's formatted payload and has exactly that record's
      children, in order. */
  ghost predicate Mirrors(f: Forest, fmt: NodeFormatter, k: string, t: Tree)
    decreases t
  {
    && k in f.nodes
    && t.payload == FormatNode(fmt, f.nodes[k].line, f.nodes[k].fields)
    && |t.kids| == |ChildKeys(f, k)|
    && forall i :: 0 <= i < |t.kids| ==> Mirrors(f, fmt, ChildKeys(f, k)[i], t.kids[i])
  }

  /** Mirroring determines the tree: there is only one tree below a record. */
  lemma {:induction false} MirrorsUnique(f: Forest, fmt: NodeFormatter, k: string, t1: Tree, t2: Tree)
    requires Mirrors(f, fmt, k, t1) && Mirrors(f, fmt, k, t2)
    ensures t1 == t2
    decreases t1
  {
    forall i | 0 <= i < |t1.kids|
      ensures t1.kids[i] == t2.kids[i]
    {
      MirrorsUnique(f, fmt, ChildKeys(f, k)[i], t1.kids[i], t2.kids[i]);
    }
  }

  /** One step of `KidsOf` on a child that is in the arena and off the path. */
  lemma KidsOfCons(f: Forest, fmt: NodeFormatter, cs: seq<string>, path: set<string>)
    requires cs != [] && cs[0] in f.nodes && cs[0] !in path
    ensures KidsOf(f, fmt, cs, path) == [TreeOf(f, fmt, cs[0], path)] + KidsOf(f, fmt, cs[1..], path)
  {
  }

  /** When no child is on the path, every child gets its subtree, in order. */
  lemma {:induction false} KidsOfAll(f: Forest, fmt: NodeFormatter, cs: seq<string>, path: set<string>)
    requires forall c :: c in cs ==> c in f.nodes && c !in path
    ensures |KidsOf(f, fmt, cs, path)| == |cs|
    ensures forall i :: 0 <= i < |cs| ==> KidsOf(f, fmt, cs, path)[i] == TreeOf(f, fmt, cs[i], path)
  {
    if cs != [] {
      var rest := cs[1..];
      forall c | c in rest
        ensures c in f.nodes && c !in path
      {
        assert c in cs;
      }
      KidsOfAll(f, fmt, rest, path);
      assert cs[0] in cs;
      KidsOfCons(f, fmt, cs, path);
      var r := KidsOf(f, fmt, cs, path);
      var tail := KidsOf(f, fmt, rest, path);
      forall i | 0 <= i < |cs|
        ensures r[i] == TreeOf(f, fmt, cs[i], path)
      {
        if i > 0 {
          assert r[i] == tail[i - 1];
          assert cs[i] == rest[i - 1];
        }
      }
    }
  }

  /** The records of a walk, as a set. */
  function Members(w: seq<string>): set<string>
  {
    set x | x in w
  }

  /** A walk extended by a child of its last record is a walk. */
  lemma WalkExtend(f: Forest, w: seq<string>, c: string)
    requires IsWalk(f, w) && w[|w| - 1] in f.subnodes && c in f.subnodes[w[|w| - 1]]
    ensures IsWalk(f, w + [c])
  {
    var w' := w + [c];
    forall i | 0 <= i < |w'| - 1 ensures w'[i] in f.subnodes && w'[i + 1] in f.subnodes[w'[i]] {
      if i < |w| - 1 {
        assert w'[i] == w[i] && w'[i + 1] == w[i + 1];
      }
    }
  }

  /** The end of a walk from a root is a record not met earlier on the walk. */
  lemma WalkEndFresh(f: Forest, w: seq<string>)
    requires WellFormed(f) && IsWalk(f, w) && w[0] in f.roots
    ensures w[|w| - 1] in f.nodes && w[|w| - 1] !in Members(w[..|w| - 1])
    ensures Members(w) == Members(w[..|w| - 1]) + {w[|w| - 1]}
  {
    var k := w[|w| - 1];
    WalkDistinct(f, w);
    WellFormedLinks(f);
    WalkInArena(f, w);
    assert k in w;
    assert w == w[..|w| - 1] + [k];
  }

  /** No child of the end of a walk from a root lies on the walk. */
  lemma ChildrenFresh(f: Forest, w: seq<string>)
    requires WellFormed(f) && IsWalk(f, w) && w[0] in f.roots
    ensures forall c :: c in ChildKeys(f, w[|w| - 1]) ==> c in f.nodes && c !in Members(w)
  {
    forall c | c in ChildKeys(f, w[|w| - 1])
      ensures c in f.nodes && c !in Members(w)
    {
      WalkExtend(f, w, c);
      WalkEndFresh(f, w + [c]);
      assert (w + [c])[..|w|] == w;
    }
  }

  /** Below the end of a walk from a root, `TreeOf` mirrors the arena. */
  lemma {:induction false} WalkTreeMirrors(f: Forest, fmt: NodeFormatter, w: seq<string>)
    requires WellFormed(f) && IsWalk(f, w) && w[0] in f.roots
    ensures w[|w| - 1] in f.nodes && w[|w| - 1] !in Members(w[..|w| - 1])
    ensures Mirrors(f, fmt, w[|w| - 1], TreeOf(f, fmt, w[|w| - 1], Members(w[..|w| - 1])))
    decreases f.nodes.Keys - Members(w[..|w| - 1])
  {
    var k := w[|w| - 1];
    WalkEndFresh(f, w);
    ChildrenFresh(f, w);
    var cs := ChildKeys(f, k);
    KidsOfAll(f, fmt, cs, Members(w));
    var t := TreeOf(f, fmt, k, Members(w[..|w| - 1]));
    forall i | 0 <= i < |t.kids|
      ensures Mirrors(f, fmt, cs[i], t.kids[i])
    {
      WalkExtend(f, w, cs[i]);
      assert (w + [cs[i]])[..|w|] == w;
      WalkTreeMirrors(f, fmt, w + [cs[i]]);
    }
  }

  /** The tree of a root is exactly the tree of `Node` objects the program
      prints from it. */
  lemma RootTreeMirrors(f: Forest, fmt: NodeFormatter, r: string)
    requires WellFormed(f) && r in f.roots
    ensures r in f.nodes
    ensures Mirrors(f, fmt, r, TreeOf(f, fmt, r, {}))
  {
    var w := [r];
    assert IsWalk(f, w);
    assert Members(w[..0]) == {};
    WalkTreeMirrors(f, fmt, w);
  }
}
