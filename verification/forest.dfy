/**
 Forest construction, the body of `main` once the input has been read:
 records are indexed by their ID field (last write wins), linked to the
 record named by their parent field when that ID exists, collected into
 roots and children lists, and every list is sorted by ID string.

 The result is an arena: `nodes` maps each ID to its record, and links are
 keys into it, never references.
 */
module Forest {
  import opened Wrappers
  import opened PyStr
  import opened LexOrder

  /** One stripped input line and the fields extracted from it. */
  datatype Row = Row(line: string, fields: seq<string>)

  /** A `Node` after linking: the line, its fields and the resolved parent key. */
  datatype Record = Record(line: string, fields: seq<string>, parent: Option<string>)

  /** Why a run produces no tree: equal ID and parent positions (rejected before
      any input is read), or a record too short for the ID or parent position
      (Python's `IndexError`). */
  datatype BuildError = SameIndex | MissingIdField | MissingParentField

  /** The dict `nodes` while indexing: its entries and its key order (Python
      dicts iterate in first-insertion order; overwriting keeps the position). */
  datatype Dict = Dict(order: seq<string>, entries: map<string, Row>)

  /** The linked forest: arena, sorted roots, sorted children of every record. */
  datatype Forest = Forest(nodes: map<string, Record>, roots: seq<string>, subnodes: map<string, seq<string>>)

  predicate AllHaveField(rows: seq<Row>, pos: int)
  {
    forall i :: 0 <= i < |rows| ==> Item(rows[i].fields, pos).Some?
  }

  function KeyOf(row: Row, id: int): string
    requires Item(row.fields, id).Some?
  {
    Item(row.fields, id).value
  }

  /** `row` is the last of `rows` whose ID field is `k`. */
  ghost predicate LastWith(rows: seq<Row>, id: int, k: string, row: Row)
    requires AllHaveField(rows, id)
  {
    exists i :: 0 <= i < |rows| && rows[i] == row && KeyOf(rows[i], id) == k
      && forall j :: i < j < |rows| ==> KeyOf(rows[j], id) != k
  }

  /** `d` is what the indexing loop leaves after reading `rows`. */
  ghost predicate IndexedBy(rows: seq<Row>, id: int, d: Dict)
  {
    && AllHaveField(rows, id)
    && (forall i :: 0 <= i < |rows| ==> KeyOf(rows[i], id) in d.entries)
    && (forall k :: k in d.entries ==> LastWith(rows, id, k, d.entries[k]))
    && Distinct(d.order)
    && (forall k :: k in d.order <==> k in d.entries)
  }

  /** Where `k` first appears as an ID in `rows`, or `|rows|` when it does not. */
  function FirstPos(rows: seq<Row>, id: int, k: string): (r: nat)
    requires AllHaveField(rows, id)
    ensures r <= |rows|
    ensures r < |rows| ==> KeyOf(rows[r], id) == k
    ensures forall j :: 0 <= j < r && j < |rows| ==> KeyOf(rows[j], id) != k
  {
    if rows == [] then 0
    else if KeyOf(rows[0], id) == k then 0
    else
      var rest := rows[1..];
      assert forall j :: 0 <= j < |rest| ==> rest[j] == rows[j + 1];
      1 + FirstPos(rest, id, k)
  }

  /** `order` lists keys by where they first appear, as a dict's keys iterate. */
  ghost predicate FirstInsertionOrder(rows: seq<Row>, id: int, order: seq<string>)
    requires AllHaveField(rows, id)
  {
    forall a, b :: 0 <= a < b < |order| ==> FirstPos(rows, id, order[a]) < FirstPos(rows, id, order[b])
  }

  /** Reading one more row moves no key's first appearance; a key new with that
      row first appears there. */
  lemma FirstPosSnoc(rows: seq<Row>, id: int, x: Row, k: string)
    requires AllHaveField(rows + [x], id) && Item(x.fields, id).Some?
    ensures AllHaveField(rows, id)
    ensures FirstPos(rows, id, k) < |rows| ==> FirstPos(rows + [x], id, k) == FirstPos(rows, id, k)
    ensures FirstPos(rows, id, k) == |rows| && KeyOf(x, id) == k ==> FirstPos(rows + [x], id, k) == |rows|
  {
    var all := rows + [x];
    assert forall j :: 0 <= j < |rows| ==> all[j] == rows[j];
    assert all[|rows|] == x;
    var r := FirstPos(rows, id, k);
    var r' := FirstPos(all, id, k);
    if r < |rows| {
      assert KeyOf(all[r], id) == k;
    }
  }

  /** A key some row carries first appears inside `rows`. */
  lemma FirstPosFound(rows: seq<Row>, id: int, k: string, i: int)
    requires AllHaveField(rows, id) && 0 <= i < |rows| && KeyOf(rows[i], id) == k
    ensures FirstPos(rows, id, k) <= i
  {
  }

  /** The indexing loop keeps the key order by first appearance. */
  lemma OrderStep(rows: seq<Row>, id: int, d: Dict, x: Row)
    requires IndexedBy(rows, id, d) && FirstInsertionOrder(rows, id, d.order)
    requires Item(x.fields, id).Some?
    ensures AllHaveField(rows + [x], id)
    ensures FirstInsertionOrder(rows + [x], id, AddRow(d, KeyOf(x, id), x).order)
  {
    var kx := KeyOf(x, id);
    IndexStepKeys(rows, id, d, x);
    ListedKeysStay(rows, id, d, x);
    OrderTransfers(rows, rows + [x], id, d.order);
    if kx !in d.entries {
      assert forall j :: 0 <= j < |rows| ==> KeyOf(rows[j], id) != kx;
      FirstPosSnoc(rows, id, x, kx);
      AppendLater(rows + [x], id, d.order, kx);
    }
  }

  /** Reading one more row leaves every indexed key's first appearance where it was. */
  lemma ListedKeysStay(rows: seq<Row>, id: int, d: Dict, x: Row)
    requires IndexedBy(rows, id, d) && Item(x.fields, id).Some? && AllHaveField(rows + [x], id)
    ensures forall k :: k in d.order ==> FirstPos(rows, id, k) < |rows| && FirstPos(rows + [x], id, k) == FirstPos(rows, id, k)
  {
    forall k | k in d.order
      ensures FirstPos(rows, id, k) < |rows| && FirstPos(rows + [x], id, k) == FirstPos(rows, id, k)
    {
      IndexedKeyAppears(rows, id, d, k);
      FirstPosSnoc(rows, id, x, k);
    }
  }

  /** The order by first appearance carries over when no listed key moves. */
  lemma OrderTransfers(rows: seq<Row>, rows': seq<Row>, id: int, order: seq<string>)
    requires AllHaveField(rows, id) && AllHaveField(rows', id) && FirstInsertionOrder(rows, id, order)
    requires forall k :: k in order ==> FirstPos(rows', id, k) == FirstPos(rows, id, k)
    ensures FirstInsertionOrder(rows', id, order)
  {
    forall a, b | 0 <= a < b < |order|
      ensures FirstPos(rows', id, order[a]) < FirstPos(rows', id, order[b])
    {
      assert order[a] in order && order[b] in order;
    }
  }

  /** An indexed key first appears inside `rows`. */
  lemma IndexedKeyAppears(rows: seq<Row>, id: int, d: Dict, k: string)
    requires IndexedBy(rows, id, d) && k in d.order
    ensures FirstPos(rows, id, k) < |rows|
  {
    assert LastWith(rows, id, k, d.entries[k]);
    var i :| 0 <= i < |rows| && rows[i] == d.entries[k] && KeyOf(rows[i], id) == k
      && forall j :: i < j < |rows| ==> KeyOf(rows[j], id) != k;
    FirstPosFound(rows, id, k, i);
  }

  /** Appending a key that first appears after every listed key keeps the order. */
  lemma AppendLater(rows: seq<Row>, id: int, order: seq<string>, k: string)
    requires AllHaveField(rows, id) && FirstInsertionOrder(rows, id, order)
    requires forall q :: q in order ==> FirstPos(rows, id, q) < FirstPos(rows, id, k)
    ensures FirstInsertionOrder(rows, id, order + [k])
  {
    var o' := order + [k];
    forall a, b | 0 <= a < b < |o'|
      ensures FirstPos(rows, id, o'[a]) < FirstPos(rows, id, o'[b])
    {
      assert o'[a] == order[a] && o'[a] in order;
      if b < |order| {
        assert o'[b] == order[b];
      }
    }
  }

  /** `nodes[k] = row`: the entry for `k` becomes `row`, every other entry
      stays, and a key already present keeps its position in the order. */
  function AddRow(d: Dict, k: string, row: Row): (r: Dict)
    ensures r.entries.Keys == d.entries.Keys + {k}
    ensures r.entries[k] == row
    ensures forall q :: q in d.entries && q != k ==> r.entries[q] == d.entries[q]
    ensures k in d.entries ==> r.order == d.order
    ensures k !in d.entries ==> r.order == d.order + [k]
  {
    Dict(if k in d.entries then d.order else d.order + [k], d.entries[k := row])
  }

  lemma IndexStep(rows: seq<Row>, id: int, d: Dict, x: Row)
    requires IndexedBy(rows, id, d)
    requires Item(x.fields, id).Some?
    ensures IndexedBy(rows + [x], id, AddRow(d, KeyOf(x, id), x))
  {
    var d' := AddRow(d, KeyOf(x, id), x);
    IndexStepKeys(rows, id, d, x);
    IndexStepOrder(d, KeyOf(x, id), x);
    forall k | k in d'.entries
      ensures LastWith(rows + [x], id, k, d'.entries[k])
    {
      IndexStepLast(rows, id, d, x, k);
    }
  }

  lemma IndexStepKeys(rows: seq<Row>, id: int, d: Dict, x: Row)
    requires IndexedBy(rows, id, d)
    requires Item(x.fields, id).Some?
    ensures AllHaveField(rows + [x], id)
    ensures forall i :: 0 <= i < |rows + [x]| ==> KeyOf((rows + [x])[i], id) in AddRow(d, KeyOf(x, id), x).entries
  {
    assert forall i :: 0 <= i < |rows| ==> (rows + [x])[i] == rows[i];
  }

  lemma IndexStepOrder(d: Dict, k: string, x: Row)
    requires Distinct(d.order) && forall q :: q in d.order <==> q in d.entries
    ensures Distinct(AddRow(d, k, x).order)
    ensures forall q :: q in AddRow(d, k, x).order <==> q in AddRow(d, k, x).entries
  {
  }

  lemma IndexStepLast(rows: seq<Row>, id: int, d: Dict, x: Row, k: string)
    requires IndexedBy(rows, id, d)
    requires Item(x.fields, id).Some?
    requires AllHaveField(rows + [x], id)
    requires k in AddRow(d, KeyOf(x, id), x).entries
    ensures LastWith(rows + [x], id, k, AddRow(d, KeyOf(x, id), x).entries[k])
  {
    var d' := AddRow(d, KeyOf(x, id), x);
    if k == KeyOf(x, id) {
      assert (rows + [x])[|rows|] == x;
    } else {
      assert k in d.entries && d'.entries[k] == d.entries[k];
      assert LastWith(rows, id, k, d.entries[k]);
      LastStays(rows, id, x, k, d.entries[k]);
    }
  }

  /** A later row with another ID leaves the last row with ID `k` in place. */
  lemma LastStays(rows: seq<Row>, id: int, x: Row, k: string, row: Row)
    requires AllHaveField(rows, id) && AllHaveField(rows + [x], id)
    requires Item(x.fields, id).Some? && KeyOf(x, id) != k
    requires LastWith(rows, id, k, row)
    ensures LastWith(rows + [x], id, k, row)
  {
    var rows' := rows + [x];
    var i :| 0 <= i < |rows| && rows[i] == row && KeyOf(rows[i], id) == k
      && forall j :: i < j < |rows| ==> KeyOf(rows[j], id) != k;
    assert rows'[i] == row;
    forall j | i < j < |rows'| ensures KeyOf(rows'[j], id) != k {
      if j < |rows| {
        assert rows'[j] == rows[j];
      } else {
        assert rows'[j] == x;
      }
    }
  }

  /** The indexing loop (`nodes[node.fields[id]] = node` for every row). */
  function IndexRows(rows: seq<Row>, id: int): (r: Result<Dict, BuildError>)
    ensures r.Failure? <==> !AllHaveField(rows, id)
    ensures r.Failure? ==> r.error == MissingIdField
    ensures r.Success? ==> IndexedBy(rows, id, r.value)
    ensures r.Success? ==> FirstInsertionOrder(rows, id, r.value.order)
  {
    if rows == [] then Success(Dict([], map[]))
    else
      var prefix := rows[..|rows| - 1];
      var x := rows[|rows| - 1];
      assert rows == prefix + [x];
      match IndexRows(prefix, id)
      case Failure(e) => Failure(e)
      case Success(d) =>
        match Item(x.fields, id)
        case None => Failure(MissingIdField)
        case Some(k) =>
          IndexStep(prefix, id, d, x);
          OrderStep(prefix, id, d, x);
          Success(AddRow(d, k, x))
  }

  /** The parent a record resolves to: its parent field, when that is an indexed ID. */
  function ResolveParent(entries: map<string, Row>, fields: seq<string>, p: int): (r: Option<string>)
    requires Item(fields, p).Some?
    ensures r.Some? <==> Item(fields, p).value in entries
    ensures r.Some? ==> r.value == Item(fields, p).value && r.value in entries
  {
    var pk := Item(fields, p).value;
    if pk in entries then Some(pk) else None
  }

  /** Every record's parent is set exactly when its parent field names an
      indexed ID, and then it is that ID. */
  ghost predicate ParentsResolved(nodes: map<string, Record>, p: int)
  {
    forall k :: k in nodes ==>
      && Item(nodes[k].fields, p).Some?
      && nodes[k].parent == (var pk := Item(nodes[k].fields, p).value; if pk in nodes then Some(pk) else None)
  }

  /** The linking loop (`node.parent = nodes[node.fields[parent]]`). */
  function Link(entries: map<string, Row>, p: int): (r: Result<map<string, Record>, BuildError>)
    ensures r.Failure? <==> exists k :: k in entries && Item(entries[k].fields, p).None?
    ensures r.Failure? ==> r.error == MissingParentField
    ensures r.Success? ==> r.value.Keys == entries.Keys
    ensures r.Success? ==> forall k :: k in entries ==>
              r.value[k].line == entries[k].line && r.value[k].fields == entries[k].fields
    ensures r.Success? ==> ParentsResolved(r.value, p)
  {
    if exists k :: k in entries && Item(entries[k].fields, p).None? then Failure(MissingParentField)
    else
      var nodes := map k | k in entries :: Record(entries[k].line, entries[k].fields, ResolveParent(entries, entries[k].fields, p));
      assert nodes.Keys == entries.Keys;
      Success(nodes)
  }

  /** The elements of `s` that satisfy `keep`, in order (a list comprehension). */
  function Filter(s: seq<string>, keep: string -> bool): (r: seq<string>)
    ensures forall x :: x in r <==> x in s && keep(x)
    ensures Distinct(s) ==> Distinct(r)
  {
    if s == [] then []
    else
      assert forall x :: x in s <==> x == s[0] || x in s[1..];
      var rest := Filter(s[1..], keep);
      assert Distinct(s) ==> s[0] !in s[1..];
      (if keep(s[0]) then [s[0]] else []) + rest
  }

  /** `sorted` by ID of a list of distinct keys: the same keys, strictly increasing. */
  function SortKeys(s: seq<string>): (r: seq<string>)
    requires Distinct(s)
    ensures StrictlySorted(r)
    ensures forall x :: x in r <==> x in s
  {
    SortDistinctIsStrict(s);
    var r := Sort(s);
    assert forall x :: x in r <==> x in multiset(s);
    r
  }

  /** The shape every built forest has. */
  ghost predicate WellFormed(f: Forest)
  {
    && (forall k {:trigger f.nodes[k]} :: k in f.nodes && f.nodes[k].parent.Some? ==> f.nodes[k].parent.value in f.nodes)
    && StrictlySorted(f.roots)
    && (forall k {:trigger k in f.roots} {:trigger f.nodes[k]} :: k in f.roots <==> k in f.nodes && f.nodes[k].parent.None?)
    && f.subnodes.Keys == f.nodes.Keys
    && (forall k :: k in f.subnodes ==> StrictlySorted(f.subnodes[k]))
    && (forall k, c {:trigger c in f.subnodes[k]} :: k in f.subnodes ==> (c in f.subnodes[k] <==> c in f.nodes && f.nodes[c].parent == Some(k)))
  }

  /** The arena `nodes` holds, under each ID, the last row carrying that ID. */
  ghost predicate HoldsLastRows(rows: seq<Row>, id: int, nodes: map<string, Record>)
  {
    && AllHaveField(rows, id)
    && (forall i :: 0 <= i < |rows| ==> KeyOf(rows[i], id) in nodes)
    && (forall k :: k in nodes ==> LastWith(rows, id, k, Row(nodes[k].line, nodes[k].fields)))
  }

  function Children(order: seq<string>, nodes: map<string, Record>, k: string): (r: seq<string>)
    requires Distinct(order)
    ensures StrictlySorted(r)
    ensures forall c :: c in r <==> c in order && c in nodes && nodes[c].parent == Some(k)
  {
    SortKeys(Filter(order, c => c in nodes && nodes[c].parent == Some(k)))
  }

  function Roots(order: seq<string>, nodes: map<string, Record>): (r: seq<string>)
    requires Distinct(order)
    ensures StrictlySorted(r)
    ensures forall c :: c in r <==> c in order && c in nodes && nodes[c].parent.None?
  {
    SortKeys(Filter(order, c => c in nodes && nodes[c].parent.None?))
  }

  /** Index, link, collect roots and children, sort (fmt-tree.py lines 64-90). */
  function Build(rows: seq<Row>, id: int, p: int): (r: Result<Forest, BuildError>)
    ensures !AllHaveField(rows, id) ==> r == Failure(MissingIdField)
    ensures r == Failure(MissingParentField) ==> !AllHaveField(rows, p)
    ensures AllHaveField(rows, id) ==> (r.Success? <==> KeptHaveField(rows, id, p))
    ensures AllHaveField(rows, id) && !KeptHaveField(rows, id, p) ==> r == Failure(MissingParentField)
    ensures r.Success? ==> WellFormed(r.value)
    ensures r.Success? ==> HoldsLastRows(rows, id, r.value.nodes)
    ensures r.Success? ==> ParentsResolved(r.value.nodes, p)
  {
    match IndexRows(rows, id)
    case Failure(e) => Failure(e)
    case Success(d) =>
      match Link(d.entries, p)
      case Failure(e) =>
        ShortParentRow(rows, id, p, d);
        Failure(e)
      case Success(nodes) =>
        KeptRowsLinked(rows, id, p, d, nodes);
        var f := Assemble(d.order, nodes);
        AssembleWellFormed(rows, id, p, d, nodes);
        Success(f)
  }

  /** Roots and children lists over linked records, each sorted. */
  function Assemble(order: seq<string>, nodes: map<string, Record>): (r: Forest)
    requires Distinct(order)
    ensures r.nodes == nodes && r.subnodes.Keys == nodes.Keys
    ensures StrictlySorted(r.roots)
    ensures forall c :: c in r.roots <==> c in order && c in nodes && nodes[c].parent.None?
    ensures forall k :: k in nodes ==> StrictlySorted(r.subnodes[k])
    ensures forall k, c :: k in nodes ==> (c in r.subnodes[k] <==> c in order && c in nodes && nodes[c].parent == Some(k))
  {
    Forest(nodes, Roots(order, nodes), map k | k in nodes :: Children(order, nodes, k))
  }

  lemma AssembleWellFormed(rows: seq<Row>, id: int, p: int, d: Dict, nodes: map<string, Record>)
    requires IndexedBy(rows, id, d)
    requires nodes.Keys == d.entries.Keys
    requires forall k :: k in d.entries ==> nodes[k].line == d.entries[k].line && nodes[k].fields == d.entries[k].fields
    requires ParentsResolved(nodes, p)
    ensures WellFormed(Assemble(d.order, nodes))
    ensures HoldsLastRows(rows, id, nodes)
  {
    ResolvedInArena(nodes, p);
    AssembleShape(d.order, nodes);
    forall k | k in nodes
      ensures LastWith(rows, id, k, Row(nodes[k].line, nodes[k].fields))
    {
      assert Row(nodes[k].line, nodes[k].fields) == d.entries[k];
    }
  }

  /** A resolved parent is always a record of the arena. */
  lemma ResolvedInArena(nodes: map<string, Record>, p: int)
    requires ParentsResolved(nodes, p)
    ensures forall k :: k in nodes && nodes[k].parent.Some? ==> nodes[k].parent.value in nodes
  {
  }

  /** Collecting roots and children over the arena's keys gives a well-formed forest. */
  lemma AssembleShape(order: seq<string>, nodes: map<string, Record>)
    requires Distinct(order) && forall k :: k in nodes <==> k in order
    requires forall k :: k in nodes && nodes[k].parent.Some? ==> nodes[k].parent.value in nodes
    ensures WellFormed(Assemble(order, nodes))
  {
    var f := Assemble(order, nodes);
    assert f.subnodes.Keys == f.nodes.Keys;
    forall k, c | k in f.subnodes
      ensures c in f.subnodes[k] <==> c in f.nodes && f.nodes[c].parent == Some(k)
    {
      assert f.subnodes[k] == Children(order, nodes, k);
    }
  }

  /** Row `i` survives indexing: no later row carries the same ID. */
  ghost predicate Kept(rows: seq<Row>, id: int, i: int)
    requires AllHaveField(rows, id)
  {
    0 <= i < |rows| && forall j :: i < j < |rows| ==> KeyOf(rows[j], id) != KeyOf(rows[i], id)
  }

  /** Every surviving row has a parent field; shadowed rows need not. */
  ghost predicate KeptHaveField(rows: seq<Row>, id: int, p: int)
    requires AllHaveField(rows, id)
  {
    forall i :: Kept(rows, id, i) ==> Item(rows[i].fields, p).Some?
  }

  /** After successful linking every surviving row has a parent field. */
  lemma KeptRowsLinked(rows: seq<Row>, id: int, p: int, d: Dict, nodes: map<string, Record>)
    requires IndexedBy(rows, id, d)
    requires nodes.Keys == d.entries.Keys
    requires forall k :: k in d.entries ==> nodes[k].fields == d.entries[k].fields
    requires ParentsResolved(nodes, p)
    ensures KeptHaveField(rows, id, p)
  {
    forall i | Kept(rows, id, i)
      ensures Item(rows[i].fields, p).Some?
    {
      var k := KeyOf(rows[i], id);
      assert LastWith(rows, id, k, d.entries[k]);
      var m :| 0 <= m < |rows| && rows[m] == d.entries[k] && KeyOf(rows[m], id) == k
        && forall j :: m < j < |rows| ==> KeyOf(rows[j], id) != k;
      assert m == i;
    }
  }

  /** An indexed record lacking a parent field is one of the input rows. */
  lemma ShortParentRow(rows: seq<Row>, id: int, p: int, d: Dict)
    requires IndexedBy(rows, id, d)
    requires exists k :: k in d.entries && Item(d.entries[k].fields, p).None?
    ensures !AllHaveField(rows, p)
    ensures !KeptHaveField(rows, id, p)
  {
    var k :| k in d.entries && Item(d.entries[k].fields, p).None?;
    assert LastWith(rows, id, k, d.entries[k]);
    var m :| 0 <= m < |rows| && rows[m] == d.entries[k] && KeyOf(rows[m], id) == k
      && forall j :: m < j < |rows| ==> KeyOf(rows[j], id) != k;
    assert Kept(rows, id, m);
  }

  /** A record with a parent is listed exactly once among its parent's
      children and among no other record's children; a root is listed once
      among the roots. */
  lemma ListedOnce(f: Forest, k: string)
    requires WellFormed(f) && k in f.nodes
    ensures f.nodes[k].parent.Some? ==>
              && multiset(f.subnodes[f.nodes[k].parent.value])[k] == 1
              && k !in f.roots
    ensures forall q :: q in f.subnodes && Some(q) != f.nodes[k].parent ==> k !in f.subnodes[q]
    ensures f.nodes[k].parent.None? ==> multiset(f.roots)[k] == 1
  {
    if f.nodes[k].parent.Some? {
      StrictOnce(f.subnodes[f.nodes[k].parent.value], k);
    } else {
      StrictOnce(f.roots, k);
    }
  }

  lemma StrictOnce(s: seq<string>, x: string)
    requires StrictlySorted(s) && x in s
    ensures multiset(s)[x] == 1
  {
    forall i, j | 0 <= i < j < |s| ensures s[i] != s[j] {
      LexIrreflexive(s[i]);
    }
    DistinctMultiplicity(s, x);
  }
}
