/**
 Python's `<` on `str`: lexicographic comparison by code point, a proper
 prefix sorting first. This is the order `list.sort(key=get_id)` uses,
 since every ID is a field string. Dafny's own `<` on strings means
 "proper prefix", so the order is defined here and shown to be a strict
 total order; the insertion sort built on it stands for `list.sort`.
 */
module LexOrder {

  predicate LexLess(a: string, b: string)
  {
    if |a| == 0 then |b| > 0
    else if |b| == 0 then false
    else if a[0] != b[0] then a[0] < b[0]
    else LexLess(a[1..], b[1..])
  }

  predicate LexLe(a: string, b: string)
  {
    a == b || LexLess(a, b)
  }

  lemma {:induction false} LexIrreflexive(a: string)
    ensures !LexLess(a, a)
  {
    if |a| > 0 {
      LexIrreflexive(a[1..]);
    }
  }

  lemma {:induction false} LexAsymmetric(a: string, b: string)
    ensures !(LexLess(a, b) && LexLess(b, a))
  {
    if |a| > 0 && |b| > 0 && a[0] == b[0] {
      LexAsymmetric(a[1..], b[1..]);
    }
  }

  lemma {:induction false} LexTransitive(a: string, b: string, c: string)
    requires LexLess(a, b) && LexLess(b, c)
    ensures LexLess(a, c)
  {
    if |a| > 0 && a[0] == b[0] && b[0] == c[0] {
      LexTransitive(a[1..], b[1..], c[1..]);
    }
  }

  /** Any two different strings are ordered one way or the other. */
  lemma {:induction false} LexConnected(a: string, b: string)
    requires a != b
    ensures LexLess(a, b) || LexLess(b, a)
  {
    if |a| > 0 && |b| > 0 && a[0] == b[0] {
      assert a == [a[0]] + a[1..] && b == [b[0]] + b[1..];
      LexConnected(a[1..], b[1..]);
    }
  }

  /** Exactly one of `a < b`, `a == b`, `b < a` holds. */
  lemma LexTrichotomy(a: string, b: string)
    ensures (LexLess(a, b) && a != b && !LexLess(b, a))
         || (a == b && !LexLess(a, b) && !LexLess(b, a))
         || (LexLess(b, a) && a != b && !LexLess(a, b))
  {
    LexIrreflexive(a);
    LexAsymmetric(a, b);
    if a != b {
      LexConnected(a, b);
    }
  }

  lemma LexLeTransitive(a: string, b: string, c: string)
    requires LexLe(a, b) && LexLe(b, c)
    ensures LexLe(a, c)
  {
    if a != b && b != c {
      LexTransitive(a, b, c);
    }
  }

  /** A proper prefix sorts first, as in Python (`"ab" < "abc"`). */
  lemma {:induction false} PrefixIsLess(a: string, b: string)
    requires a < b
    ensures LexLess(a, b)
  {
    if |a| > 0 {
      assert a[1..] < b[1..];
      PrefixIsLess(a[1..], b[1..]);
    }
  }

  /** Non-decreasing, as `list.sort` leaves a list. */
  predicate Sorted(s: seq<string>)
  {
    forall i, j :: 0 <= i < j < |s| ==> LexLe(s[i], s[j])
  }

  /** Strictly increasing. */
  predicate StrictlySorted(s: seq<string>)
  {
    forall i, j :: 0 <= i < j < |s| ==> LexLess(s[i], s[j])
  }

  predicate Distinct<T(==)>(s: seq<T>)
  {
    forall i, j :: 0 <= i < j < |s| ==> s[i] != s[j]
  }

  /** Inserts `x` into a sorted list before the first element it does not exceed. */
  function Insert(x: string, s: seq<string>): (r: seq<string>)
    requires Sorted(s)
    ensures Sorted(r)
    ensures multiset(r) == multiset(s) + multiset{x}
    ensures |r| == |s| + 1
  {
    if s == [] then [x]
    else if LexLe(x, s[0]) then
      BelowHead(x, s);
      ConsSorted(x, s);
      [x] + s
    else
      var rest := Insert(x, s[1..]);
      AboveHead(x, s, rest);
      ConsSorted(s[0], rest);
      [s[0]] + rest
  }

  /** Putting a lower bound in front of a sorted list keeps it sorted. */
  lemma ConsSorted(h: string, t: seq<string>)
    requires Sorted(t) && forall j :: 0 <= j < |t| ==> LexLe(h, t[j])
    ensures Sorted([h] + t)
  {
  }

  /** What does not exceed the head of a sorted list does not exceed any element. */
  lemma BelowHead(x: string, s: seq<string>)
    requires Sorted(s) && s != [] && LexLe(x, s[0])
    ensures forall j :: 0 <= j < |s| ==> LexLe(x, s[j])
  {
    forall j | 0 < j < |s| ensures LexLe(x, s[j]) {
      LexLeTransitive(x, s[0], s[j]);
    }
  }

  /** Inserting past the head: the head bounds the rest, and the multiset adds up. */
  lemma AboveHead(x: string, s: seq<string>, rest: seq<string>)
    requires Sorted(s) && s != [] && !LexLe(x, s[0])
    requires multiset(rest) == multiset(s[1..]) + multiset{x}
    ensures forall j :: 0 <= j < |rest| ==> LexLe(s[0], rest[j])
    ensures multiset([s[0]] + rest) == multiset(s) + multiset{x}
  {
    assert s == [s[0]] + s[1..];
    LexTrichotomy(x, s[0]);
    forall j | 0 <= j < |rest| ensures LexLe(s[0], rest[j]) {
      assert rest[j] in multiset(rest);
      if rest[j] != x {
        assert rest[j] in s[1..];
      }
    }
  }

  /** `list.sort()` on strings: a sorted permutation of the input. */
  function Sort(s: seq<string>): (r: seq<string>)
    ensures Sorted(r)
    ensures multiset(r) == multiset(s)
    ensures |r| == |s|
  {
    if s == [] then []
    else
      assert s == s[..|s| - 1] + [s[|s| - 1]];
      Insert(s[|s| - 1], Sort(s[..|s| - 1]))
  }

  /** A list without repeated elements has every multiplicity at most one. */
  lemma {:induction false} DistinctMultiplicity(s: seq<string>, v: string)
    requires Distinct(s)
    ensures multiset(s)[v] <= 1
  {
    if s != [] {
      assert s == [s[0]] + s[1..];
      DistinctMultiplicity(s[1..], v);
      if v == s[0] {
        assert v !in s[1..];
      }
    }
  }

  /** Two equal elements at different positions count twice. */
  lemma RepeatedMultiplicity(s: seq<string>, i: int, j: int)
    requires 0 <= i < j < |s| && s[i] == s[j]
    ensures multiset(s)[s[i]] >= 2
  {
    assert s == s[..j] + s[j..];
    assert s[i] in s[..j];
    assert s[j] in s[j..];
    assert multiset(s) == multiset(s[..j]) + multiset(s[j..]);
  }

  /** Sorting a list of distinct strings yields a strictly increasing list;
      this is why sibling IDs come out strictly ordered. */
  lemma SortDistinctIsStrict(s: seq<string>)
    requires Distinct(s)
    ensures StrictlySorted(Sort(s))
    ensures Distinct(Sort(s))
  {
    var r := Sort(s);
    forall i, j | 0 <= i < j < |r|
      ensures r[i] != r[j]
    {
      if r[i] == r[j] {
        RepeatedMultiplicity(r, i, j);
        DistinctMultiplicity(s, r[i]);
      }
    }
  }

  /** A strictly increasing list repeats nothing. */
  lemma StrictlyDistinct(s: seq<string>)
    requires StrictlySorted(s)
    ensures Distinct(s)
  {
    forall i, j | 0 <= i < j < |s|
      ensures s[i] != s[j]
    {
      LexIrreflexive(s[i]);
    }
  }

  /** Two lists without repeats and without a common element concatenate
      into a list without repeats. */
  lemma DistinctAppend(a: seq<string>, b: seq<string>)
    requires Distinct(a) && Distinct(b)
    requires forall x :: x in a ==> x !in b
    ensures Distinct(a + b)
  {
    var c := a + b;
    forall i, j | 0 <= i < j < |c|
      ensures c[i] != c[j]
    {
      if i < |a| && j >= |a| {
        assert c[i] in a && c[j] == b[j - |a|];
      }
    }
  }

  lemma NonEmptyHasElement(s: seq<string>)
    ensures s != [] <==> exists x :: x in s
  {
    if s != [] {
      assert s[0] in s;
    }
  }

  /** The sorted order of a set of distinct strings is unique: two strictly
      increasing lists with the same elements are equal. The order the
      records were read in therefore cannot show in the output. */
  lemma {:induction false} StrictlySortedUnique(a: seq<string>, b: seq<string>)
    requires StrictlySorted(a) && StrictlySorted(b)
    requires forall x :: x in a <==> x in b
    ensures a == b
  {
    NonEmptyHasElement(a);
    NonEmptyHasElement(b);
    if a != [] && b != [] {
      assert a[0] in b && b[0] in a;
      if a[0] != b[0] {
        var i :| 0 <= i < |b| && b[i] == a[0];
        var j :| 0 <= j < |a| && a[j] == b[0];
        assert i > 0 && j > 0;
        LexAsymmetric(a[0], b[0]);
        assert false;
      }
      forall x ensures x in a[1..] <==> x in b[1..] {
        if x in a[1..] {
          var k :| 1 <= k < |a| && a[k] == x;
          LexIrreflexive(x);
          assert x != b[0] && x in b;
          var m :| 0 <= m < |b| && b[m] == x;
          assert x in b[1..];
        }
        if x in b[1..] {
          var k :| 1 <= k < |b| && b[k] == x;
          LexIrreflexive(x);
          assert x != a[0] && x in a;
          var m :| 0 <= m < |a| && a[m] == x;
          assert x in a[1..];
        }
      }
      StrictlySortedUnique(a[1..], b[1..]);
      assert a == [a[0]] + a[1..] && b == [b[0]] + b[1..];
    }
  }
}
