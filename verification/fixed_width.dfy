/**
 Fixed-width field extraction (`FieldExtractor.get_fields`): the line is cut
 into consecutive columns of the declared widths, each column giving up its
 last character as a separator. Slicing follows Python, so a column that runs
 past the end of the line comes out short or empty instead of failing.
 */
module FixedWidth {
  import opened PyStr

  /** Start of column `i`: the sum of the widths before it. */
  function Offset(widths: seq<int>, i: nat): int
    requires i <= |widths|
  {
    if i == 0 then 0 else Offset(widths, i - 1) + widths[i - 1]
  }

  /** Field `i` as the code cuts it: `line[s : s + w - 1]`. */
  function Column(line: string, widths: seq<int>, i: nat): string
    requires i < |widths|
  {
    Slice(line, Offset(widths, i), Offset(widths, i) + widths[i] - 1)
  }

  /** The separator character column `i` gives up (empty past the line end). */
  function Gap(line: string, widths: seq<int>, i: nat): string
    requires i < |widths|
  {
    Slice(line, Offset(widths, i) + widths[i] - 1, Offset(widths, i + 1))
  }

  predicate AllPositive(widths: seq<int>)
  {
    forall i :: 0 <= i < |widths| ==> widths[i] >= 1
  }

  /** The extractor: one field per declared width, cursor advanced by the full width. */
  method GetFields(line: string, widths: seq<int>) returns (fields: seq<string>)
    ensures |fields| == |widths|
    ensures forall i :: 0 <= i < |widths| ==> fields[i] == Column(line, widths, i)
  {
    fields := [];
    var at := 0;
    var i := 0;
    while i < |widths|
      invariant 0 <= i <= |widths|
      invariant at == Offset(widths, i)
      invariant |fields| == i
      invariant forall k :: 0 <= k < i ==> fields[k] == Column(line, widths, k)
    {
      var width := widths[i];
      fields := fields + [Slice(line, at, at + width - 1)];
      at := at + width;
      i := i + 1;
    }
  }

  lemma {:induction false} OffsetMonotone(widths: seq<int>, i: nat)
    requires AllPositive(widths) && i <= |widths|
    ensures Offset(widths, i) >= i
  {
    if i > 0 {
      OffsetMonotone(widths, i - 1);
    }
  }

  /** With positive widths, field `i` is the line clamped to the column's
      first `w - 1` characters, so it is never longer than `w - 1`. */
  lemma ColumnBounds(line: string, widths: seq<int>, i: nat)
    requires AllPositive(widths) && i < |widths|
    ensures Offset(widths, i) >= 0
    ensures |Column(line, widths, i)| <= widths[i] - 1
    ensures var s := Offset(widths, i);
            var e := s + widths[i] - 1;
            Column(line, widths, i)
              == if s >= |line| then "" else line[s..if e <= |line| then e else |line|]
  {
    OffsetMonotone(widths, i);
  }

  /** A line that covers every column yields fields of exactly `w - 1` characters. */
  lemma ColumnFull(line: string, widths: seq<int>, i: nat)
    requires AllPositive(widths) && i < |widths|
    requires |line| >= Offset(widths, |widths|)
    ensures |Column(line, widths, i)| == widths[i] - 1
  {
    OffsetMonotone(widths, i);
    OffsetUpTo(widths, i + 1, |widths|);
  }

  lemma {:induction false} OffsetUpTo(widths: seq<int>, i: nat, j: nat)
    requires AllPositive(widths) && i <= j <= |widths|
    ensures Offset(widths, i) <= Offset(widths, j)
  {
    if i < j {
      OffsetUpTo(widths, i, j - 1);
    }
  }

  /** The fields interleaved with the separator columns they skipped, over the first `k` columns. */
  function Rebuild(line: string, widths: seq<int>, k: nat): string
    requires k <= |widths|
  {
    if k == 0 then "" else Rebuild(line, widths, k - 1) + Column(line, widths, k - 1) + Gap(line, widths, k - 1)
  }

  /** Nothing is lost but the separators: putting each skipped separator back
      after its field reconstructs the covered part of the line. */
  lemma {:induction false} RebuildCoversLine(line: string, widths: seq<int>, k: nat)
    requires AllPositive(widths) && k <= |widths|
    ensures Rebuild(line, widths, k) == Slice(line, 0, Offset(widths, k))
  {
    if k > 0 {
      RebuildCoversLine(line, widths, k - 1);
      ColumnStep(line, widths, k - 1, Rebuild(line, widths, k - 1));
    }
  }

  /** Field `i` and its separator extend the covered prefix to the next column. */
  lemma ColumnStep(line: string, widths: seq<int>, i: nat, prev: string)
    requires AllPositive(widths) && i < |widths|
    requires prev == Slice(line, 0, Offset(widths, i))
    ensures prev + Column(line, widths, i) + Gap(line, widths, i) == Slice(line, 0, Offset(widths, i + 1))
  {
    OffsetMonotone(widths, i);
    var s := Offset(widths, i);
    CoverStep(line, s, s + widths[i] - 1, s + widths[i], prev);
  }

  /** The covered prefix grows by a field and its separator. */
  lemma CoverStep(line: string, s: int, e: int, t: int, prev: string)
    requires 0 <= s <= e <= t && prev == Slice(line, 0, s)
    ensures prev + Slice(line, s, e) + Slice(line, e, t) == Slice(line, 0, t)
  {
    SliceSplit(line, 0, s, e);
    SliceSplit(line, 0, e, t);
  }

  /** `-w 4,4` on `12ab`: the first field is `12a`, the second starts past the end. */
  lemma ExampleFourFour()
    ensures Column("12ab", [4, 4], 0) == "12a"
    ensures Column("12ab", [4, 4], 1) == ""
  {
  }

  /** Width 0 at offset 0 asks for `line[0:-1]`, which Python reads as
      "all but the last character". */
  lemma ExampleZeroWidth()
    ensures Column("abc", [0], 0) == "ab"
  {
    assert Offset([0], 0) == 0;
    assert Slice("abc", 0, -1) == "abc"[0..2];
  }
}
