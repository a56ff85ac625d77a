/**
 The two node formatters: `FullTextNodeFormatter` prints the stripped input
 line; `NodeFieldFormatter` prints the fields whose position is not excluded
 (the program excludes the ID and parent positions), joined by a separator.
 */
module NodeFormat {
  import opened PyStr

  datatype NodeFormatter =
    | FullText
    | FieldJoin(separator: string, exclude: seq<int>)

  /** Positions `0..n-1` that are not excluded, in increasing order. */
  function KeptIndices(n: nat, exclude: seq<int>): (r: seq<nat>)
    ensures forall i: int :: i in r <==> 0 <= i < n && i !in exclude
    ensures forall a :: 0 <= a < |r| ==> r[a] < n
    ensures forall a, b :: 0 <= a < b < |r| ==> r[a] < r[b]
  {
    if n == 0 then []
    else
      var prev := KeptIndices(n - 1, exclude);
      assert forall a :: 0 <= a < |prev| ==> prev[a] < n - 1;
      prev + (if n - 1 in exclude then [] else [n - 1])
  }

  /** The tokens the field formatter collects: the fields at kept positions,
      in their original order. */
  function KeptFields(fields: seq<string>, exclude: seq<int>): (r: seq<string>)
    ensures |r| == |KeptIndices(|fields|, exclude)|
    ensures forall j :: 0 <= j < |r| ==> KeptIndices(|fields|, exclude)[j] < |fields|
    ensures forall j :: 0 <= j < |r| ==> r[j] == fields[KeptIndices(|fields|, exclude)[j]]
  {
    if fields == [] then []
    else
      var n := |fields|;
      KeptFields(fields[..n - 1], exclude) + (if n - 1 in exclude then [] else [fields[n - 1]])
  }

  /** One node's payload. */
  function FormatNode(fmt: NodeFormatter, line: string, fields: seq<string>): (r: string)
    ensures fmt.FullText? ==> r == line
    ensures fmt.FieldJoin? && (forall i :: 0 <= i < |fields| ==> i in fmt.exclude) ==> r == ""
    ensures fmt.FieldJoin? && |KeptFields(fields, fmt.exclude)| == 1 ==> r == KeptFields(fields, fmt.exclude)[0]
    ensures fmt.FieldJoin? ==>
              var kept := KeptFields(fields, fmt.exclude);
              |r| == TotalLength(kept) + if kept == [] then 0 else (|kept| - 1) * |fmt.separator|
  {
    if fmt.FullText? then line
    else
      JoinFacts(fmt.separator, fields, fmt.exclude);
      Join(fmt.separator, KeptFields(fields, fmt.exclude))
  }

  /** The field formatter's loop, one field at a time: reading one more field
      leaves the payload as it was when that position is excluded, starts it
      with the field when nothing was kept before, and otherwise extends it by
      the separator and the field. The line itself plays no part. */
  lemma FormatNodeSnoc(sep: string, exclude: seq<int>, line: string, fields: seq<string>, x: string)
    ensures var fmt := FieldJoin(sep, exclude);
            FormatNode(fmt, line, fields + [x])
            == if |fields| in exclude then FormatNode(fmt, line, fields)
               else if KeptFields(fields, exclude) == [] then x
               else FormatNode(fmt, line, fields) + sep + x
  {
    KeptFieldsSnoc(fields, exclude, x);
    JoinedKept(sep, exclude, line, fields);
    JoinedKept(sep, exclude, line, fields + [x]);
    JoinStep(sep, KeptFields(fields, exclude), x, |fields| in exclude);
  }

  lemma JoinStep(sep: string, kept: seq<string>, x: string, skip: bool)
    ensures Join(sep, kept + (if skip then [] else [x]))
         == if skip then Join(sep, kept) else if kept == [] then x else Join(sep, kept) + sep + x
  {
    if skip {
      assert kept + [] == kept;
    } else if kept == [] {
      assert kept + [x] == [x];
    } else {
      JoinSnoc(sep, kept, x);
    }
  }

  /** The field formatter joins the kept fields. */
  lemma JoinedKept(sep: string, exclude: seq<int>, line: string, fields: seq<string>)
    ensures FormatNode(FieldJoin(sep, exclude), line, fields) == Join(sep, KeptFields(fields, exclude))
  {
  }

  /** Reading one more field appends it to the tokens unless its position is excluded. */
  lemma KeptFieldsSnoc(fields: seq<string>, exclude: seq<int>, x: string)
    ensures KeptFields(fields + [x], exclude)
         == KeptFields(fields, exclude) + (if |fields| in exclude then [] else [x])
  {
    var all := fields + [x];
    assert all[..|all| - 1] == fields;
  }

  /** Three fields with nothing excluded are joined in their original order. */
  lemma ExampleInOrder()
    ensures FormatNode(FieldJoin(" ", []), "a b c", ["a", "b", "c"]) == "a b c"
  {
    ExampleTokens();
    ExampleJoin();
    JoinedKept(" ", [], "a b c", ["a", "b", "c"]);
  }

  lemma ExampleTokens()
    ensures KeptFields(["a", "b", "c"], []) == ["a", "b", "c"]
  {
  }

  lemma ExampleJoin()
    ensures Join(" ", ["a", "b", "c"]) == "a b c"
  {
  }

  lemma JoinFacts(sep: string, fields: seq<string>, exclude: seq<int>)
    ensures var kept := KeptFields(fields, exclude);
            && ((forall i :: 0 <= i < |fields| ==> i in exclude) ==> Join(sep, kept) == "")
            && (|kept| == 1 ==> Join(sep, kept) == kept[0])
            && |Join(sep, kept)| == TotalLength(kept) + if kept == [] then 0 else (|kept| - 1) * |sep|
  {
    AllExcludedNoTokens(fields, exclude);
  }

  /** With every position excluded there is nothing to join. */
  lemma AllExcludedNoTokens(fields: seq<string>, exclude: seq<int>)
    ensures (forall i :: 0 <= i < |fields| ==> i in exclude) ==> KeptFields(fields, exclude) == []
  {
    EmptyIffNoMember(KeptIndices(|fields|, exclude));
  }

  lemma EmptyIffNoMember(ks: seq<nat>)
    ensures ks == [] <==> forall i: int :: i !in ks
  {
    if ks != [] {
      assert ks[0] in ks;
    }
  }
}
