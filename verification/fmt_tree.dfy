/**
 The whole run of `fmt-tree`: reject equal ID and parent positions, build
 the forest from the rows, then print every root's tree, roots in ID order,
 one block of lines after another.
 */
module FmtTree {
  import opened Wrappers
  import opened PyStr
  import opened LexOrder
  import opened FixedWidth
  import opened NodeFormat
  import opened Forest
  import opened Render
  import opened Ancestry
  import opened Subtrees
  import opened Coverage

  /** The command-line options that shape the output. */
  datatype Options = Options(id: int, parent: int, fullText: bool, separator: string, style: Style)

  /** `--full-text` prints whole lines; otherwise the fields other than the ID
      and parent positions are joined by the output separator. */
  function Formatter(o: Options): (r: NodeFormatter)
    ensures r.FullText? <==> o.fullText
    ensures r.FieldJoin? ==> r.separator == o.separator
    ensures r.FieldJoin? ==> forall i: int :: i in r.exclude <==> i == o.id || i == o.parent
  {
    if o.fullText then FullText else FieldJoin(o.separator, [o.id, o.parent])
  }

  /** The lines printed for the roots `rs`: each root's tree in turn. */
  function ForestLines(f: Forest, fmt: NodeFormatter, st: Style, rs: seq<string>): seq<string>
    requires forall r :: r in rs ==> r in f.nodes
  {
    if rs == [] then []
    else ForestLines(f, fmt, st, rs[..|rs| - 1]) + TreeLines(st, TreeOf(f, fmt, rs[|rs| - 1], {}), [])
  }

  /** Reads rows with the fixed-width extractor (`-w`). */
  method FixedWidthRows(lines: seq<string>, widths: seq<int>) returns (rows: seq<Row>)
    ensures |rows| == |lines|
    ensures forall i :: 0 <= i < |lines| ==> rows[i].line == lines[i] && |rows[i].fields| == |widths|
    ensures forall i, j :: 0 <= i < |lines| && 0 <= j < |widths| ==> rows[i].fields[j] == Column(lines[i], widths, j)
  {
    rows := [];
    var i := 0;
    while i < |lines|
      invariant 0 <= i <= |lines| && |rows| == i
      invariant forall a :: 0 <= a < i ==> rows[a].line == lines[a] && |rows[a].fields| == |widths|
      invariant forall a, j :: 0 <= a < i && 0 <= j < |widths| ==> rows[a].fields[j] == Column(lines[a], widths, j)
    {
      var fields := GetFields(lines[i], widths);
      rows := rows + [Row(lines[i], fields)];
      i := i + 1;
    }
  }

  /** `main` from the ID check on: the printed lines, or why nothing is printed. */
  method Run(o: Options, rows: seq<Row>) returns (r: Result<seq<string>, BuildError>)
    ensures r == Failure(SameIndex) <==> o.id == o.parent
    ensures o.id != o.parent && !AllHaveField(rows, o.id) ==> r == Failure(MissingIdField)
    ensures r == Failure(MissingParentField) ==>
              o.id != o.parent && AllHaveField(rows, o.id) && !AllHaveField(rows, o.parent)
    ensures o.id != o.parent && AllHaveField(rows, o.id) ==> (r.Success? <==> KeptHaveField(rows, o.id, o.parent))
    ensures o.id != o.parent && AllHaveField(rows, o.id) && !KeptHaveField(rows, o.id, o.parent) ==>
              r == Failure(MissingParentField)
    ensures AllHaveField(rows, o.parent) && r.Failure? ==> r.error != MissingParentField
    ensures r.Success? ==>
              && Build(rows, o.id, o.parent).Success?
              && var f := Build(rows, o.id, o.parent).value;
                 (forall k :: k in f.roots ==> k in f.nodes)
                 && r.value == ForestLines(f, Formatter(o), o.style, f.roots)
  {
    if o.id == o.parent {
      return Failure(SameIndex);
    }
    var built := Build(rows, o.id, o.parent);
    if built.Failure? {
      r := Failure(built.error);
    } else {
      RootsInArena(built.value);
      var out := PrintRoots(built.value, Formatter(o), o.style);
      r := Success(out);
    }
  }

  lemma RootsInArena(f: Forest)
    requires WellFormed(f)
    ensures forall k :: k in f.roots ==> k in f.nodes
  {
  }

  /** The loop `for node in roots: print(format_tree(node))`. */
  method PrintRoots(f: Forest, fmt: NodeFormatter, st: Style) returns (out: seq<string>)
    requires forall k :: k in f.roots ==> k in f.nodes
    ensures out == ForestLines(f, fmt, st, f.roots)
  {
    out := [];
    var i := 0;
    while i < |f.roots|
      invariant 0 <= i <= |f.roots|
      invariant out == ForestLines(f, fmt, st, f.roots[..i])
    {
      var lines := FormatTree(st, TreeOf(f, fmt, f.roots[i], {}));
      ForestLinesSnoc(f, fmt, st, f.roots, i);
      out := out + lines;
      i := i + 1;
    }
    assert f.roots[..i] == f.roots;
  }

  lemma ForestLinesSnoc(f: Forest, fmt: NodeFormatter, st: Style, rs: seq<string>, i: nat)
    requires forall r :: r in rs ==> r in f.nodes
    requires i < |rs|
    ensures ForestLines(f, fmt, st, rs[..i + 1])
         == ForestLines(f, fmt, st, rs[..i]) + TreeLines(st, TreeOf(f, fmt, rs[i], {}), [])
  {
    assert rs[..i + 1][..i] == rs[..i];
  }

  /** With a non-negative output width no printed line is wider than it. */
  lemma {:induction false} OutputFits(f: Forest, fmt: NodeFormatter, st: Style, rs: seq<string>)
    requires forall r :: r in rs ==> r in f.nodes
    requires st.width >= 0
    ensures forall j :: 0 <= j < |ForestLines(f, fmt, st, rs)| ==> |ForestLines(f, fmt, st, rs)[j]| <= st.width
  {
    if rs != [] {
      var rs' := rs[..|rs| - 1];
      OutputFits(f, fmt, st, rs');
      LinesFit(st, TreeOf(f, fmt, rs[|rs| - 1], {}), []);
    }
  }

  /** Each root contributes one line per record of its tree. */
  lemma {:induction false} OutputCount(f: Forest, fmt: NodeFormatter, st: Style, rs: seq<string>)
    requires forall r :: r in rs ==> r in f.nodes
    ensures |ForestLines(f, fmt, st, rs)| == RootsSize(f, fmt, rs)
  {
    if rs != [] {
      OutputCount(f, fmt, st, rs[..|rs| - 1]);
      LineCount(st, TreeOf(f, fmt, rs[|rs| - 1], {}), []);
    }
  }

  function RootsSize(f: Forest, fmt: NodeFormatter, rs: seq<string>): nat
    requires forall r :: r in rs ==> r in f.nodes
  {
    if rs == [] then 0 else RootsSize(f, fmt, rs[..|rs| - 1]) + Size(TreeOf(f, fmt, rs[|rs| - 1], {}))
  }

  /** The guide flags behind each line printed for roots `rs`: each root's
      nodes in pre-order, the root itself with none. */
  ghost function ForestPaths(f: Forest, fmt: NodeFormatter, rs: seq<string>): seq<seq<bool>>
    requires forall r :: r in rs ==> r in f.nodes
  {
    if rs == [] then [] else ForestPaths(f, fmt, rs[..|rs| - 1]) + Paths(TreeOf(f, fmt, rs[|rs| - 1], {}), [])
  }

  /** Line `j` printed for roots `rs` is the payload of the `j`-th record
      listed for them, behind the guides of its place in the tree and cut to
      the width; no line is left over. */
  lemma {:induction false} OutputShowsRecords(f: Forest, fmt: NodeFormatter, st: Style, rs: seq<string>)
    requires WellFormed(f) && forall r :: r in rs ==> r in f.roots
    ensures forall r :: r in rs ==> r in f.nodes
    ensures |ForestLines(f, fmt, st, rs)| == |ForestKeys(f, fmt, rs)| == |ForestPaths(f, fmt, rs)|
    ensures forall j :: 0 <= j < |ForestKeys(f, fmt, rs)| ==>
              ForestKeys(f, fmt, rs)[j] in f.nodes
              && ForestLines(f, fmt, st, rs)[j]
                 == LineFor(st, ForestPaths(f, fmt, rs)[j], Show(f, fmt, ForestKeys(f, fmt, rs)[j]))
  {
    if rs != [] {
      var rs', r := rs[..|rs| - 1], rs[|rs| - 1];
      OutputShowsRecords(f, fmt, st, rs');
      RootTreeMirrors(f, fmt, r);
      RootTreeShaped(f, fmt, r);
      var t := TreeOf(f, fmt, r, {});
      TreeShowsRecords(f, fmt, st, r, t);
      LinesConcat(f, fmt, st, ForestLines(f, fmt, st, rs'), ForestPaths(f, fmt, rs'), ForestKeys(f, fmt, rs'),
                  TreeLines(st, t, []), Paths(t, []), MirrorKeys(f, r, t));
    }
  }

  /** Line `j` of one root's tree is the payload of the `j`-th record listed
      under the root, behind the guides of its place. */
  lemma TreeShowsRecords(f: Forest, fmt: NodeFormatter, st: Style, k: string, t: Tree)
    requires Mirrors(f, fmt, k, t)
    ensures Shaped(f, k, t)
    ensures |TreeLines(st, t, [])| == |MirrorKeys(f, k, t)| == |Paths(t, [])|
    ensures forall j :: 0 <= j < |MirrorKeys(f, k, t)| ==>
              MirrorKeys(f, k, t)[j] in f.nodes
              && TreeLines(st, t, [])[j] == LineFor(st, Paths(t, [])[j], Show(f, fmt, MirrorKeys(f, k, t)[j]))
  {
    MirrorKeysShow(f, fmt, k, t);
    LinesShowPayloads(st, t, []);
  }

  lemma LinesConcat(f: Forest, fmt: NodeFormatter, st: Style,
                    lines: seq<string>, paths: seq<seq<bool>>, keys: seq<string>,
                    lines': seq<string>, paths': seq<seq<bool>>, keys': seq<string>)
    requires |lines| == |keys| == |paths| && |lines'| == |keys'| == |paths'|
    requires forall j :: 0 <= j < |keys| ==>
               keys[j] in f.nodes && lines[j] == LineFor(st, paths[j], Show(f, fmt, keys[j]))
    requires forall j :: 0 <= j < |keys'| ==>
               keys'[j] in f.nodes && lines'[j] == LineFor(st, paths'[j], Show(f, fmt, keys'[j]))
    ensures forall j :: 0 <= j < |keys + keys'| ==>
              (keys + keys')[j] in f.nodes
              && (lines + lines')[j] == LineFor(st, (paths + paths')[j], Show(f, fmt, (keys + keys')[j]))
  {
    forall j | 0 <= j < |keys + keys'|
      ensures (keys + keys')[j] in f.nodes
              && (lines + lines')[j] == LineFor(st, (paths + paths')[j], Show(f, fmt, (keys + keys')[j]))
    {
      if j >= |keys| {
        var i := j - |keys|;
        assert (keys + keys')[j] == keys'[i] && (lines + lines')[j] == lines'[i] && (paths + paths')[j] == paths'[i];
      }
    }
  }

  /** Over all the roots no record is printed twice, and the records printed
      are exactly those whose parent chain climbs to a record without a
      parent. A record on a parent cycle, or whose chain runs into one, is
      not printed. */
  lemma PrintedRecords(f: Forest, fmt: NodeFormatter)
    requires WellFormed(f)
    ensures Distinct(ForestKeys(f, fmt, f.roots))
    ensures forall x :: x in ForestKeys(f, fmt, f.roots) <==> x in f.nodes && ReachesRoot(f.nodes, x)
  {
    StrictlyDistinct(f.roots);
    ForestKeysDistinct(f, fmt, f.roots);
    ForestKeysMembers(f, fmt, f.roots);
    forall x | x in f.nodes
      ensures ClimbsInto(f.nodes, x, f.roots) <==> ReachesRoot(f.nodes, x)
    {
      if ClimbsInto(f.nodes, x, f.roots) {
        var n: nat :| Ancestor(f.nodes, x, n).Some? && Ancestor(f.nodes, x, n).value in f.roots;
        assert IsRoot(f.nodes, Ancestor(f.nodes, x, n).value);
      }
      if ReachesRoot(f.nodes, x) {
        var n: nat :| Ancestor(f.nodes, x, n).Some? && IsRoot(f.nodes, Ancestor(f.nodes, x, n).value);
        assert Ancestor(f.nodes, x, n).value in f.roots;
      }
    }
  }

  /** When no record is its own ancestor every record is printed, once: the
      output has exactly one line per record. */
  lemma EveryRecordPrinted(f: Forest, fmt: NodeFormatter, st: Style)
    requires WellFormed(f) && Acyclic(f.nodes)
    ensures (set x | x in ForestKeys(f, fmt, f.roots)) == f.nodes.Keys
    ensures |ForestLines(f, fmt, st, f.roots)| == |f.nodes|
  {
    AllRecordsListed(f, fmt);
    OutputShowsRecords(f, fmt, st, f.roots);
    ListedOnceCard(ForestKeys(f, fmt, f.roots), f.nodes);
  }

  lemma AllRecordsListed(f: Forest, fmt: NodeFormatter)
    requires WellFormed(f) && Acyclic(f.nodes)
    ensures Distinct(ForestKeys(f, fmt, f.roots))
    ensures forall x :: x in ForestKeys(f, fmt, f.roots) <==> x in f.nodes
  {
    WellFormedParents(f);
    AcyclicAllReach(f.nodes);
    PrintedRecords(f, fmt);
  }

  /** A list naming every record of the arena once is as long as the arena. */
  lemma ListedOnceCard(keys: seq<string>, nodes: map<string, Record>)
    requires Distinct(keys) && forall x :: x in keys <==> x in nodes
    ensures (set x | x in keys) == nodes.Keys
    ensures |keys| == |nodes|
  {
    DistinctCard(keys);
    assert (set x | x in keys) == nodes.Keys;
  }


  /** The ID check compares positions as written, so a negative parent
      position naming the same field as the ID slips through: every record is
      then its own parent, there are no roots, and nothing is printed. */
  lemma AliasedPositionsPrintNothing(o: Options, rows: seq<Row>)
    requires o.id != o.parent
    requires forall i :: 0 <= i < |rows| ==>
               Item(rows[i].fields, o.id).Some? && Item(rows[i].fields, o.id) == Item(rows[i].fields, o.parent)
    ensures Build(rows, o.id, o.parent).Success?
    ensures Build(rows, o.id, o.parent).value.roots == []
  {
    assert AllHaveField(rows, o.parent);
    var f := Build(rows, o.id, o.parent).value;
    SelfParents(rows, o.id, o.parent, f.nodes);
    assert forall k :: k !in f.roots;
    NonEmptyHasElement(f.roots);
  }

  lemma SelfParents(rows: seq<Row>, id: int, p: int, nodes: map<string, Record>)
    requires forall i :: 0 <= i < |rows| ==>
               Item(rows[i].fields, id).Some? && Item(rows[i].fields, id) == Item(rows[i].fields, p)
    requires HoldsLastRows(rows, id, nodes) && ParentsResolved(nodes, p)
    ensures forall k :: k in nodes ==> nodes[k].parent == Some(k)
  {
    forall k | k in nodes
      ensures nodes[k].parent == Some(k)
    {
      var row := Row(nodes[k].line, nodes[k].fields);
      assert LastWith(rows, id, k, row);
      var i :| 0 <= i < |rows| && rows[i] == row && KeyOf(rows[i], id) == k
        && forall j :: i < j < |rows| ==> KeyOf(rows[j], id) != k;
      assert Item(nodes[k].fields, p).value == k;
    }
  }

  /** A row too short for the parent position does no harm once a later row
      with the same ID replaces it: only surviving records are linked. */
  lemma ShadowedShortRow()
    ensures var rows := [Row("1", ["1"]), Row("1 0 x", ["1", "0", "x"])];
            && !AllHaveField(rows, 1)
            && Build(rows, 0, 1).Success?
  {
    var rows := [Row("1", ["1"]), Row("1 0 x", ["1", "0", "x"])];
    assert Item(rows[0].fields, 1).None?;
    assert AllHaveField(rows, 0);
    assert !Kept(rows, 0, 0) by {
      assert KeyOf(rows[1], 0) == KeyOf(rows[0], 0);
    }
    assert KeptHaveField(rows, 0, 1);
  }

  /** Three rows: a root and two children, given in ID order. */
  function ExampleRows(): seq<Row>
  {
    [ Row("1 0 root", ["1", "0", "root"]),
      Row("2 1 child-a", ["2", "1", "child-a"]),
      Row("3 1 child-b", ["3", "1", "child-b"]) ]
  }

  /** The arena the example rows produce. */
  predicate ExampleArena(nodes: map<string, Record>)
  {
    && nodes.Keys == {"1", "2", "3"}
    && nodes["1"] == Record("1 0 root", ["1", "0", "root"], None)
    && nodes["2"] == Record("2 1 child-a", ["2", "1", "child-a"], Some("1"))
    && nodes["3"] == Record("3 1 child-b", ["3", "1", "child-b"], Some("1"))
  }

  /** The records of the example and their links. */
  lemma ExampleRecords(nodes: map<string, Record>)
    requires HoldsLastRows(ExampleRows(), 0, nodes) && ParentsResolved(nodes, 1)
    ensures ExampleArena(nodes)
  {
    var rows := ExampleRows();
    assert KeyOf(rows[0], 0) == "1" && KeyOf(rows[1], 0) == "2" && KeyOf(rows[2], 0) == "3";
    forall k | k in nodes
      ensures exists i :: 0 <= i < 3 && rows[i] == Row(nodes[k].line, nodes[k].fields) && KeyOf(rows[i], 0) == k
    {
      assert LastWith(rows, 0, k, Row(nodes[k].line, nodes[k].fields));
    }
    ExampleKeys(nodes, rows);
  }

  lemma ExampleKeys(nodes: map<string, Record>, rows: seq<Row>)
    requires rows == ExampleRows() && AllHaveField(rows, 0) && ParentsResolved(nodes, 1)
    requires forall i :: 0 <= i < |rows| ==> KeyOf(rows[i], 0) in nodes
    requires forall k :: k in nodes ==>
               exists i :: 0 <= i < 3 && rows[i] == Row(nodes[k].line, nodes[k].fields) && KeyOf(rows[i], 0) == k
    ensures ExampleArena(nodes)
  {
    assert KeyOf(rows[0], 0) == "1" && KeyOf(rows[1], 0) == "2" && KeyOf(rows[2], 0) == "3";
    assert {"1", "2", "3"} <= nodes.Keys;
    forall k | k in nodes
      ensures k == "1" || k == "2" || k == "3"
    {
      var i :| 0 <= i < 3 && rows[i] == Row(nodes[k].line, nodes[k].fields) && KeyOf(rows[i], 0) == k;
    }
  }

  /** The example forest: one root with two leaf children. */
  lemma ExampleShape(f: Forest)
    requires WellFormed(f) && ExampleArena(f.nodes)
    ensures f.roots == ["1"]
    ensures ChildKeys(f, "1") == ["2", "3"] && ChildKeys(f, "2") == [] && ChildKeys(f, "3") == []
  {
    ExampleRoots(f.roots, f.nodes);
    ExampleChildren(f.subnodes, f.nodes);
  }

  lemma ExampleRoots(roots: seq<string>, nodes: map<string, Record>)
    requires ExampleArena(nodes) && StrictlySorted(roots)
    requires forall k :: k in roots <==> k in nodes && nodes[k].parent.None?
    ensures roots == ["1"]
  {
    assert forall k :: k in roots <==> k in ["1"];
    StrictlySortedUnique(roots, ["1"]);
  }

  lemma ExampleChildren(subnodes: map<string, seq<string>>, nodes: map<string, Record>)
    requires ExampleArena(nodes) && subnodes.Keys == nodes.Keys
    requires forall k :: k in subnodes ==> StrictlySorted(subnodes[k])
    requires forall k, c :: k in subnodes ==> (c in subnodes[k] <==> c in nodes && nodes[c].parent == Some(k))
    ensures subnodes["1"] == ["2", "3"] && subnodes["2"] == [] && subnodes["3"] == []
  {
    assert LexLess("2", "3");
    forall c
      ensures c in subnodes["1"] <==> c in ["2", "3"]
      ensures c !in subnodes["2"] && c !in subnodes["3"]
    {
      if c in nodes {
        assert c == "1" || c == "2" || c == "3";
      }
    }
    StrictlySortedUnique(subnodes["1"], ["2", "3"]);
    NonEmptyHasElement(subnodes["2"]);
    NonEmptyHasElement(subnodes["3"]);
  }

  /** Field formatting of the example rows drops the ID and parent fields. */
  lemma ExamplePayloads(sep: string)
    ensures FormatNode(FieldJoin(sep, [0, 1]), "1 0 root", ["1", "0", "root"]) == "root"
    ensures FormatNode(FieldJoin(sep, [0, 1]), "2 1 child-a", ["2", "1", "child-a"]) == "child-a"
    ensures FormatNode(FieldJoin(sep, [0, 1]), "3 1 child-b", ["3", "1", "child-b"]) == "child-b"
  {
    assert KeptIndices(3, [0, 1]) == [2];
  }

  /** The example rows build, and into the example arena. */
  lemma ExampleBuilds()
    ensures Build(ExampleRows(), 0, 1).Success?
    ensures WellFormed(Build(ExampleRows(), 0, 1).value)
    ensures ExampleArena(Build(ExampleRows(), 0, 1).value.nodes)
  {
    var rows := ExampleRows();
    assert AllHaveField(rows, 0) && AllHaveField(rows, 1);
    assert KeptHaveField(rows, 0, 1);
    ExampleRecords(Build(rows, 0, 1).value.nodes);
  }

  /** The tree printed from the example's root. */
  lemma ExampleTree(f: Forest, sep: string)
    requires WellFormed(f) && ExampleArena(f.nodes) && "1" in f.roots
    ensures TreeOf(f, FieldJoin(sep, [0, 1]), "1", {})
         == Node("root", [Node("child-a", []), Node("child-b", [])])
  {
    var fmt := FieldJoin(sep, [0, 1]);
    var t := Node("root", [Node("child-a", []), Node("child-b", [])]);
    ExampleShape(f);
    ExampleMirrors(f, sep);
    RootTreeMirrors(f, fmt, "1");
    MirrorsUnique(f, fmt, "1", t, TreeOf(f, fmt, "1", {}));
  }

  lemma ExampleMirrors(f: Forest, sep: string)
    requires ExampleArena(f.nodes)
    requires ChildKeys(f, "1") == ["2", "3"] && ChildKeys(f, "2") == [] && ChildKeys(f, "3") == []
    ensures Mirrors(f, FieldJoin(sep, [0, 1]), "1", Node("root", [Node("child-a", []), Node("child-b", [])]))
  {
    var fmt := FieldJoin(sep, [0, 1]);
    ExampleNodePayloads(f.nodes, sep);
    var a, c := Node("child-a", []), Node("child-b", []);
    LeafMirrors(f, fmt, "2", a);
    LeafMirrors(f, fmt, "3", c);
    PairMirrors(f, fmt, "1", Node("root", [a, c]), "2", "3");
  }

  /** The example records' payloads under the field formatter. */
  lemma ExampleNodePayloads(nodes: map<string, Record>, sep: string)
    requires ExampleArena(nodes)
    ensures FormatNode(FieldJoin(sep, [0, 1]), nodes["1"].line, nodes["1"].fields) == "root"
    ensures FormatNode(FieldJoin(sep, [0, 1]), nodes["2"].line, nodes["2"].fields) == "child-a"
    ensures FormatNode(FieldJoin(sep, [0, 1]), nodes["3"].line, nodes["3"].fields) == "child-b"
  {
    ExamplePayloads(sep);
  }

  /** A record with two children is mirrored by a node whose two subtrees
      mirror them. */
  lemma PairMirrors(f: Forest, fmt: NodeFormatter, k: string, t: Tree, c1: string, c2: string)
    requires k in f.nodes && ChildKeys(f, k) == [c1, c2] && |t.kids| == 2
    requires t.payload == FormatNode(fmt, f.nodes[k].line, f.nodes[k].fields)
    requires Mirrors(f, fmt, c1, t.kids[0]) && Mirrors(f, fmt, c2, t.kids[1])
    ensures Mirrors(f, fmt, k, t)
  {
    var cs := ChildKeys(f, k);
    forall i | 0 <= i < |t.kids|
      ensures Mirrors(f, fmt, cs[i], t.kids[i])
    {
      if i == 0 {
        assert cs[i] == c1;
      } else {
        assert cs[i] == c2;
      }
    }
  }

  /** A record without children is mirrored by a leaf showing its payload. */
  lemma LeafMirrors(f: Forest, fmt: NodeFormatter, k: string, t: Tree)
    requires k in f.nodes && ChildKeys(f, k) == [] && t.kids == []
    requires t.payload == FormatNode(fmt, f.nodes[k].line, f.nodes[k].fields)
    ensures Mirrors(f, fmt, k, t)
  {
  }

  /** The whole run on the example prints the root, a tee and a corner. */
  lemma ExampleRun()
    ensures var o := Options(0, 1, false, " ", DefaultStyle(120));
            var b := Build(ExampleRows(), 0, 1);
            && b.Success?
            && (forall k :: k in b.value.roots ==> k in b.value.nodes)
            && ForestLines(b.value, Formatter(o), o.style, b.value.roots)
               == ["root", "  \U{251c}\U{2500} child-a", "  \U{2514}\U{2500} child-b"]
  {
    ExampleBuilds();
    var f := Build(ExampleRows(), 0, 1).value;
    ExampleShape(f);
    ExampleTree(f, " ");
    ExampleTwoChildren();
    assert ["1"][..0] == [];
  }
}
