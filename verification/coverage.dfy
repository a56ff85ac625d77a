/**
 Which records the output shows. A root's tree mirrors the arena
 (`Subtrees.RootTreeMirrors`), so each of its nodes stands for one record;
 `MirrorKeys` lists those records in pre-order, the order their lines are
 printed in. The records listed under a root are exactly those whose parent
 chain climbs to that root, each listed once. A record on a parent cycle, or
 whose chain runs into one, climbs to no root and is listed under none.
 */
module Coverage {
  import opened Wrappers
  import opened LexOrder
  import opened NodeFormat
  import opened Forest
  import opened Render
  import opened Ancestry
  import opened Subtrees

  /** Record `k`'s payload, as the node formatter shows it. */
  function Show(f: Forest, fmt: NodeFormatter, k: string): string
    requires k in f.nodes
  {
    FormatNode(fmt, f.nodes[k].line, f.nodes[k].fields)
  }

  /** `t` has the shape of the arena below `k`: one subtree per child, each
      of the child's shape. Mirroring implies it (`MirrorsShaped`). */
  ghost predicate Shaped(f: Forest, k: string, t: Tree)
    decreases t
  {
    && k in f.nodes
    && |t.kids| == |ChildKeys(f, k)|
    && forall j :: 0 <= j < |t.kids| ==> Shaped(f, ChildKeys(f, k)[j], t.kids[j])
  }

  /** Each tree of `kids` has the shape below the record at the same
      position of `cs`. */
  ghost predicate ShapedAll(f: Forest, cs: seq<string>, kids: seq<Tree>)
  {
    |cs| == |kids| && forall j :: 0 <= j < |kids| ==> Shaped(f, cs[j], kids[j])
  }

  lemma {:induction false} MirrorsShaped(f: Forest, fmt: NodeFormatter, k: string, t: Tree)
    requires Mirrors(f, fmt, k, t)
    ensures Shaped(f, k, t)
    decreases t
  {
    forall j | 0 <= j < |t.kids|
      ensures Shaped(f, ChildKeys(f, k)[j], t.kids[j])
    {
      MirrorsShaped(f, fmt, ChildKeys(f, k)[j], t.kids[j]);
    }
  }

  /** The records behind the nodes of `t`, in pre-order, when `t` has the
      shape below `k`. */
  ghost function MirrorKeys(f: Forest, k: string, t: Tree): seq<string>
    requires Shaped(f, k, t)
    decreases t, 1
  {
    [k] + KidsKeys(f, ChildKeys(f, k), t.kids, 0)
  }

  ghost function KidsKeys(f: Forest, cs: seq<string>, kids: seq<Tree>, i: nat): seq<string>
    requires ShapedAll(f, cs, kids)
    decreases kids, 0, |kids| - i
  {
    if i >= |kids| then [] else MirrorKeys(f, cs[i], kids[i]) + KidsKeys(f, cs, kids, i + 1)
  }

  /** Node `j` of a mirroring tree, in pre-order, shows the payload of the
      `j`-th listed record. */
  lemma {:induction false} MirrorKeysShow(f: Forest, fmt: NodeFormatter, k: string, t: Tree)
    requires Mirrors(f, fmt, k, t)
    ensures Shaped(f, k, t)
    ensures |MirrorKeys(f, k, t)| == |Payloads(t)|
    ensures forall j :: 0 <= j < |Payloads(t)| ==>
              MirrorKeys(f, k, t)[j] in f.nodes && Payloads(t)[j] == Show(f, fmt, MirrorKeys(f, k, t)[j])
    decreases t, 1
  {
    MirrorsShaped(f, fmt, k, t);
    var cs := ChildKeys(f, k);
    KidsKeysShow(f, fmt, cs, t.kids, 0);
    var keys, shown := KidsKeys(f, cs, t.kids, 0), KidsPayloads(t.kids, 0);
    assert MirrorKeys(f, k, t) == [k] + keys;
    assert Payloads(t) == [t.payload] + shown;
    forall j | 0 <= j < |Payloads(t)|
      ensures MirrorKeys(f, k, t)[j] in f.nodes && Payloads(t)[j] == Show(f, fmt, MirrorKeys(f, k, t)[j])
    {
      if j > 0 {
        assert MirrorKeys(f, k, t)[j] == keys[j - 1] && Payloads(t)[j] == shown[j - 1];
      }
    }
  }

  lemma {:induction false} KidsKeysShow(f: Forest, fmt: NodeFormatter, cs: seq<string>, kids: seq<Tree>, i: nat)
    requires ShapedAll(f, cs, kids) && forall j :: 0 <= j < |kids| ==> Mirrors(f, fmt, cs[j], kids[j])
    ensures |KidsKeys(f, cs, kids, i)| == |KidsPayloads(kids, i)|
    ensures forall j :: 0 <= j < |KidsPayloads(kids, i)| ==>
              KidsKeys(f, cs, kids, i)[j] in f.nodes
              && KidsPayloads(kids, i)[j] == Show(f, fmt, KidsKeys(f, cs, kids, i)[j])
    decreases kids, 0, |kids| - i
  {
    if i < |kids| {
      MirrorKeysShow(f, fmt, cs[i], kids[i]);
      KidsKeysShow(f, fmt, cs, kids, i + 1);
      var keys, keys' := MirrorKeys(f, cs[i], kids[i]), KidsKeys(f, cs, kids, i + 1);
      var shown, shown' := Payloads(kids[i]), KidsPayloads(kids, i + 1);
      assert KidsKeys(f, cs, kids, i) == keys + keys';
      assert KidsPayloads(kids, i) == shown + shown';
      forall j | 0 <= j < |shown + shown'|
        ensures (keys + keys')[j] in f.nodes && (shown + shown')[j] == Show(f, fmt, (keys + keys')[j])
      {
        if j >= |shown| {
          assert (keys + keys')[j] == keys'[j - |shown|];
        }
      }
    }
  }

  /** The records listed for children `i..` are those listed for one of them. */
  lemma {:induction false} KidsKeysMembers(f: Forest, cs: seq<string>, kids: seq<Tree>, i: nat)
    requires ShapedAll(f, cs, kids)
    ensures forall x :: x in KidsKeys(f, cs, kids, i) <==>
              exists j :: i <= j < |kids| && x in MirrorKeys(f, cs[j], kids[j])
    decreases |kids| - i
  {
    if i < |kids| {
      KidsKeysMembers(f, cs, kids, i + 1);
      var here, later := MirrorKeys(f, cs[i], kids[i]), KidsKeys(f, cs, kids, i + 1);
      assert KidsKeys(f, cs, kids, i) == here + later;
      forall x | x in here
        ensures exists j :: i <= j < |kids| && x in MirrorKeys(f, cs[j], kids[j])
      {
        assert x in MirrorKeys(f, cs[i], kids[i]);
      }
    }
  }

  /** A record listed in the children lists of `k` has `k` as its parent. */
  lemma ChildParent(f: Forest, k: string, c: string)
    requires ChildLinks(f) && c in ChildKeys(f, k)
    ensures Ancestor(f.nodes, c, 1) == Some(k)
  {
  }

  /** Every record listed under `k` is in the arena and climbs to `k`; those
      listed under its children climb to it by at least one link. */
  lemma {:induction false} MirrorKeysBelow(f: Forest, k: string, t: Tree)
    requires ChildLinks(f) && Shaped(f, k, t)
    ensures forall x :: x in KidsKeys(f, ChildKeys(f, k), t.kids, 0) ==> x in f.nodes && StrictlyBelow(f.nodes, x, k)
    ensures forall x :: x in MirrorKeys(f, k, t) ==> x in f.nodes && Below(f.nodes, x, k)
    decreases t
  {
    var cs := ChildKeys(f, k);
    KidsKeysMembers(f, cs, t.kids, 0);
    forall x | x in KidsKeys(f, cs, t.kids, 0)
      ensures x in f.nodes && StrictlyBelow(f.nodes, x, k)
    {
      var j :| 0 <= j < |t.kids| && x in MirrorKeys(f, cs[j], t.kids[j]);
      MirrorKeysBelow(f, cs[j], t.kids[j]);
      var n: nat :| Ancestor(f.nodes, x, n) == Some(cs[j]);
      ChildParent(f, k, cs[j]);
      AncestorJoin(f.nodes, x, cs[j], k, n, 1);
      assert Ancestor(f.nodes, x, n + 1) == Some(k);
    }
    assert MirrorKeys(f, k, t) == [k] + KidsKeys(f, cs, t.kids, 0);
    forall x | x in MirrorKeys(f, k, t)
      ensures x in f.nodes && Below(f.nodes, x, k)
    {
      if x == k {
        assert Ancestor(f.nodes, k, 0) == Some(k);
      }
    }
  }

  /** `x`'s parent chain climbs to `k`, possibly in no step. */
  ghost predicate Below(nodes: map<string, Record>, x: string, k: string)
  {
    exists n: nat :: Ancestor(nodes, x, n) == Some(k)
  }

  /** `x`'s parent chain climbs to `k` in at least one step. */
  ghost predicate StrictlyBelow(nodes: map<string, Record>, x: string, k: string)
  {
    exists n: nat :: n > 0 && Ancestor(nodes, x, n) == Some(k)
  }

  /** The record one link below `k` on the chain from `x`. */
  lemma StepDown(nodes: map<string, Record>, x: string, n: nat, k: string) returns (c: string)
    requires n > 0 && Ancestor(nodes, x, n) == Some(k)
    ensures Ancestor(nodes, x, n - 1) == Some(c)
    ensures c in nodes && nodes[c].parent == Some(k)
  {
    AncestorAdd(nodes, x, n - 1, 1);
    c := Ancestor(nodes, x, n - 1).value;
  }

  /** In a well-formed forest a record is listed among its parent's children. */
  lemma ParentListsChild(f: Forest, k: string, c: string)
    requires WellFormed(f) && c in f.nodes && f.nodes[c].parent == Some(k)
    ensures c in ChildKeys(f, k)
  {
  }

  /** Every record whose parent chain climbs to `k` is listed under `k`. */
  lemma {:induction false} MirrorKeysComplete(f: Forest, k: string, t: Tree, x: string, n: nat)
    requires WellFormed(f) && Shaped(f, k, t)
    requires Ancestor(f.nodes, x, n) == Some(k)
    ensures x in MirrorKeys(f, k, t)
    decreases n
  {
    if n == 0 {
      assert x == k;
    } else {
      var cs := ChildKeys(f, k);
      var c := StepDown(f.nodes, x, n, k);
      ParentListsChild(f, k, c);
      var j :| 0 <= j < |cs| && cs[j] == c;
      MirrorKeysComplete(f, c, t.kids[j], x, n - 1);
      KidsKeysMembers(f, cs, t.kids, 0);
    }
  }

  /** Below a record that climbs to a root, no record is listed twice. */
  lemma {:induction false} MirrorKeysDistinct(f: Forest, k: string, t: Tree, d: nat, r: string)
    requires WellFormed(f) && Shaped(f, k, t)
    requires Ancestor(f.nodes, k, d) == Some(r) && IsRoot(f.nodes, r)
    ensures Distinct(MirrorKeys(f, k, t))
    decreases t, 1
  {
    var rest := KidsKeys(f, ChildKeys(f, k), t.kids, 0);
    KidsKeysDistinct(f, k, t, 0, d, r);
    assert k !in rest by {
      WellFormedChildLinks(f);
      MirrorKeysBelow(f, k, t);
      if k in rest {
        var n: nat :| n > 0 && Ancestor(f.nodes, k, n) == Some(k);
        CycleNeverRoot(f.nodes, k, n);
        assert false;
      }
    }
    DistinctAppend([k], rest);
  }

  lemma {:induction false} KidsKeysDistinct(f: Forest, k: string, t: Tree, i: nat, d: nat, r: string)
    requires WellFormed(f) && Shaped(f, k, t)
    requires Ancestor(f.nodes, k, d) == Some(r) && IsRoot(f.nodes, r)
    ensures Distinct(KidsKeys(f, ChildKeys(f, k), t.kids, i))
    decreases t, 0, |t.kids| - i
  {
    if i < |t.kids| {
      var cs := ChildKeys(f, k);
      var c := cs[i];
      WellFormedChildLinks(f);
      ChildrenDistinct(f, k);
      ChildClimbs(f, k, c, d, r);
      MirrorKeysDistinct(f, c, t.kids[i], d + 1, r);
      KidsKeysDistinct(f, k, t, i + 1, d, r);
      var here, later := MirrorKeys(f, c, t.kids[i]), KidsKeys(f, cs, t.kids, i + 1);
      forall x | x in here
        ensures x !in later
      {
        SiblingsApart(f, k, t, i, d, r, x);
      }
      DistinctAppend(here, later);
    }
  }

  /** A child of a record `d` links below a root is `d + 1` links below it. */
  lemma ChildClimbs(f: Forest, k: string, c: string, d: nat, r: string)
    requires ChildLinks(f) && c in ChildKeys(f, k)
    requires Ancestor(f.nodes, k, d) == Some(r)
    ensures Ancestor(f.nodes, c, 1 + d) == Some(r)
  {
    ChildParent(f, k, c);
    AncestorJoin(f.nodes, c, k, r, 1, d);
  }

  /** Distinct children of a record that climbs to a root list no record in
      common. */
  lemma SiblingsApart(f: Forest, k: string, t: Tree, i: nat, d: nat, r: string, x: string)
    requires ChildLinks(f) && Shaped(f, k, t) && Distinct(ChildKeys(f, k))
    requires Ancestor(f.nodes, k, d) == Some(r) && IsRoot(f.nodes, r)
    requires i < |t.kids| && x in MirrorKeys(f, ChildKeys(f, k)[i], t.kids[i])
    ensures x !in KidsKeys(f, ChildKeys(f, k), t.kids, i + 1)
  {
    var cs := ChildKeys(f, k);
    KidsKeysMembers(f, cs, t.kids, i + 1);
    if x in KidsKeys(f, cs, t.kids, i + 1) {
      var j :| i + 1 <= j < |t.kids| && x in MirrorKeys(f, cs[j], t.kids[j]);
      SameDepthSameChild(f, k, t, i, j, d, r, x);
      assert false;
    }
  }

  lemma ChildrenDistinct(f: Forest, k: string)
    requires WellFormed(f)
    ensures Distinct(ChildKeys(f, k))
  {
    if k in f.subnodes {
      StrictlyDistinct(f.subnodes[k]);
    }
  }

  /** A record listed under two children of `k` climbs to both at the same
      distance, so they are the same child. */
  lemma SameDepthSameChild(f: Forest, k: string, t: Tree, i: nat, j: nat, d: nat, r: string, x: string)
    requires ChildLinks(f) && Shaped(f, k, t)
    requires Ancestor(f.nodes, k, d) == Some(r) && IsRoot(f.nodes, r)
    requires i < |t.kids| && x in MirrorKeys(f, ChildKeys(f, k)[i], t.kids[i])
    requires j < |t.kids| && x in MirrorKeys(f, ChildKeys(f, k)[j], t.kids[j])
    ensures ChildKeys(f, k)[i] == ChildKeys(f, k)[j]
  {
    var cs := ChildKeys(f, k);
    MirrorKeysBelow(f, cs[i], t.kids[i]);
    MirrorKeysBelow(f, cs[j], t.kids[j]);
    var a: nat :| Ancestor(f.nodes, x, a) == Some(cs[i]);
    var b: nat :| Ancestor(f.nodes, x, b) == Some(cs[j]);
    ChildClimbs(f, k, cs[i], d, r);
    ChildClimbs(f, k, cs[j], d, r);
    AboveUnique(f.nodes, x, cs[i], cs[j], a, b, 1 + d, r);
  }

  /** A root's tree has the shape of the arena below the root. */
  lemma RootTreeShaped(f: Forest, fmt: NodeFormatter, r: string)
    requires WellFormed(f) && r in f.roots
    ensures Shaped(f, r, TreeOf(f, fmt, r, {}))
  {
    RootTreeMirrors(f, fmt, r);
    MirrorsShaped(f, fmt, r, TreeOf(f, fmt, r, {}));
  }

  /** The records behind the lines printed for roots `rs`, root after root,
      each root's records in pre-order. */
  ghost function ForestKeys(f: Forest, fmt: NodeFormatter, rs: seq<string>): seq<string>
    requires WellFormed(f) && forall r :: r in rs ==> r in f.roots
  {
    if rs == [] then []
    else
      var r := rs[|rs| - 1];
      RootTreeShaped(f, fmt, r);
      ForestKeys(f, fmt, rs[..|rs| - 1]) + MirrorKeys(f, r, TreeOf(f, fmt, r, {}))
  }

  /** `x`'s parent chain climbs to one of the records `rs`. */
  ghost predicate ClimbsInto(nodes: map<string, Record>, x: string, rs: seq<string>)
  {
    exists n: nat :: Ancestor(nodes, x, n).Some? && Ancestor(nodes, x, n).value in rs
  }

  /** An element other than the last lies in the front of the sequence. */
  lemma InFront(s: seq<string>, v: string)
    requires v in s && v != s[|s| - 1]
    ensures v in s[..|s| - 1]
  {
  }

  /** The records listed for roots `rs` are those whose parent chain climbs to
      one of them. */
  lemma ForestKeysMembers(f: Forest, fmt: NodeFormatter, rs: seq<string>)
    requires WellFormed(f) && forall r :: r in rs ==> r in f.roots
    ensures forall x :: x in ForestKeys(f, fmt, rs) <==> x in f.nodes && ClimbsInto(f.nodes, x, rs)
  {
    forall x
      ensures x in ForestKeys(f, fmt, rs) <==> x in f.nodes && ClimbsInto(f.nodes, x, rs)
    {
      if x in ForestKeys(f, fmt, rs) {
        ForestKeysSound(f, fmt, rs, x);
      }
      if x in f.nodes && ClimbsInto(f.nodes, x, rs) {
        var n: nat :| Ancestor(f.nodes, x, n).Some? && Ancestor(f.nodes, x, n).value in rs;
        ForestKeysComplete(f, fmt, rs, x, n);
      }
    }
  }

  lemma {:induction false} ForestKeysSound(f: Forest, fmt: NodeFormatter, rs: seq<string>, x: string)
    requires WellFormed(f) && (forall r :: r in rs ==> r in f.roots) && x in ForestKeys(f, fmt, rs)
    ensures x in f.nodes && ClimbsInto(f.nodes, x, rs)
    decreases |rs|
  {
    var rs', r := rs[..|rs| - 1], rs[|rs| - 1];
    RootTreeShaped(f, fmt, r);
    var t := TreeOf(f, fmt, r, {});
    assert ForestKeys(f, fmt, rs) == ForestKeys(f, fmt, rs') + MirrorKeys(f, r, t);
    if x in MirrorKeys(f, r, t) {
      WellFormedChildLinks(f);
      MirrorKeysBelow(f, r, t);
      var n: nat :| Ancestor(f.nodes, x, n) == Some(r);
      assert Ancestor(f.nodes, x, n).value in rs;
    } else {
      ForestKeysSound(f, fmt, rs', x);
      var n: nat :| Ancestor(f.nodes, x, n).Some? && Ancestor(f.nodes, x, n).value in rs';
      assert Ancestor(f.nodes, x, n).value in rs;
    }
  }

  lemma {:induction false} ForestKeysComplete(f: Forest, fmt: NodeFormatter, rs: seq<string>, x: string, n: nat)
    requires WellFormed(f) && forall r :: r in rs ==> r in f.roots
    requires Ancestor(f.nodes, x, n).Some? && Ancestor(f.nodes, x, n).value in rs
    ensures x in ForestKeys(f, fmt, rs)
    decreases |rs|
  {
    var rs', r := rs[..|rs| - 1], rs[|rs| - 1];
    RootTreeShaped(f, fmt, r);
    var t := TreeOf(f, fmt, r, {});
    assert ForestKeys(f, fmt, rs) == ForestKeys(f, fmt, rs') + MirrorKeys(f, r, t);
    var top := Ancestor(f.nodes, x, n).value;
    if top == r {
      MirrorKeysComplete(f, r, t, x, n);
    } else {
      InFront(rs, top);
      ForestKeysComplete(f, fmt, rs', x, n);
    }
  }

  /** Roots listed once give records listed once. */
  lemma {:induction false} ForestKeysDistinct(f: Forest, fmt: NodeFormatter, rs: seq<string>)
    requires WellFormed(f) && (forall r :: r in rs ==> r in f.roots) && Distinct(rs)
    ensures Distinct(ForestKeys(f, fmt, rs))
  {
    if rs != [] {
      var rs', r := rs[..|rs| - 1], rs[|rs| - 1];
      ForestKeysDistinct(f, fmt, rs');
      RootTreeShaped(f, fmt, r);
      var t := TreeOf(f, fmt, r, {});
      assert Ancestor(f.nodes, r, 0) == Some(r);
      MirrorKeysDistinct(f, r, t, 0, r);
      assert ForestKeys(f, fmt, rs) == ForestKeys(f, fmt, rs') + MirrorKeys(f, r, t);
      forall x | x in ForestKeys(f, fmt, rs')
        ensures x !in MirrorKeys(f, r, t)
      {
        RootsApart(f, fmt, rs', r, t, x);
      }
      DistinctAppend(ForestKeys(f, fmt, rs'), MirrorKeys(f, r, t));
    }
  }

  /** A record listed for some roots is not listed for a root outside them. */
  lemma RootsApart(f: Forest, fmt: NodeFormatter, rs: seq<string>, r: string, t: Tree, x: string)
    requires WellFormed(f) && (forall r' :: r' in rs ==> r' in f.roots)
    requires r in f.roots && r !in rs && Shaped(f, r, t)
    requires x in ForestKeys(f, fmt, rs)
    ensures x !in MirrorKeys(f, r, t)
  {
    ForestKeysMembers(f, fmt, rs);
    var n: nat :| Ancestor(f.nodes, x, n).Some? && Ancestor(f.nodes, x, n).value in rs;
    var r' := Ancestor(f.nodes, x, n).value;
    if x in MirrorKeys(f, r, t) {
      WellFormedChildLinks(f);
      MirrorKeysBelow(f, r, t);
      var a: nat :| Ancestor(f.nodes, x, a) == Some(r);
      RootUnique(f.nodes, x, a, n, r, r');
      assert false;
    }
  }
}
