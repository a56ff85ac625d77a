/**
 The few pieces of Python's sequence semantics the program relies on:
 clamping slices `s[a:b]`, list indexing with negative indices, `' ' * n`
 and `sep.join(tokens)`.
 */
module PyStr {
  import opened Wrappers

  /** How Python normalises one slice bound against a sequence of length `n`:
      a negative bound counts from the end, and the result is clamped to `0..n`. */
  function ClampBound(n: nat, i: int): (r: nat)
    ensures r <= n
    ensures 0 <= i <= n ==> r == i
    ensures i > n ==> r == n
    ensures i < 0 && -i <= n ==> r == n + i
    ensures i + n < 0 ==> r == 0
  {
    if i < 0 then (if n + i < 0 then 0 else n + i)
    else if i > n then n
    else i
  }

  /** Python's `s[a:b]` (step 1): never fails, yields the empty sequence when
      the normalised stop is not after the normalised start. */
  function Slice<T>(s: seq<T>, a: int, b: int): (r: seq<T>)
    ensures |r| <= |s|
    ensures 0 <= a && 0 <= b ==> |r| == if b <= a || a >= |s| then 0 else (if b <= |s| then b else |s|) - a
  {
    var lo := ClampBound(|s|, a);
    var hi := ClampBound(|s|, b);
    if hi <= lo then [] else s[lo..hi]
  }

  /** A slice is the contiguous run of `s` from the normalised start. */
  lemma SliceElements<T>(s: seq<T>, a: int, b: int)
    ensures ClampBound(|s|, a) + |Slice(s, a, b)| <= |s|
    ensures forall k :: 0 <= k < |Slice(s, a, b)| ==> Slice(s, a, b)[k] == s[ClampBound(|s|, a) + k]
  {
  }

  /** Slices with non-negative bounds compose: cutting at `m` and gluing the
      two halves back gives the slice over the whole range. */
  lemma SliceSplit<T>(s: seq<T>, a: int, m: int, b: int)
    requires 0 <= a <= m <= b
    ensures Slice(s, a, m) + Slice(s, m, b) == Slice(s, a, b)
  {
    var n := |s|;
    var lo, mid, hi := ClampBound(n, a), ClampBound(n, m), ClampBound(n, b);
    assert lo <= mid <= hi;
    if lo < mid && mid < hi {
      assert s[lo..mid] + s[mid..hi] == s[lo..hi];
    }
  }

  /** `s[0:w]`, the hard cut applied to every rendered line. */
  function Cut(s: string, w: int): (r: string)
    ensures w >= 0 ==> |r| == if |s| <= w then |s| else w
  {
    Slice(s, 0, w)
  }

  /** For a non-negative width the cut is exactly the prefix of length
      `min(|s|, w)`: never longer than `w`, never padded. */
  lemma CutIsPrefix(s: string, w: int)
    requires w >= 0
    ensures |Cut(s, w)| <= w
    ensures |s| <= w ==> Cut(s, w) == s
    ensures |s| > w ==> Cut(s, w) == s[..w]
    ensures Cut(s, w) <= s
  {
  }

  /** A negative width keeps all but the last `-w` characters, as `s[0:w]` does. */
  lemma CutNegative(s: string, w: int)
    requires w < 0
    ensures Cut(s, w) == if |s| + w <= 0 then "" else s[..|s| + w]
  {
  }

  /** Python's `xs[i]`: defined for `-|xs| <= i < |xs|`, otherwise `IndexError`. */
  function Item<T>(xs: seq<T>, i: int): (r: Option<T>)
    ensures r.Some? <==> -|xs| <= i < |xs|
    ensures 0 <= i < |xs| ==> r == Some(xs[i])
    ensures -|xs| <= i < 0 ==> r == Some(xs[|xs| + i])
  {
    if 0 <= i < |xs| then Some(xs[i])
    else if -|xs| <= i < 0 then Some(xs[|xs| + i])
    else None
  }

  /** `' ' * n`. */
  function Spaces(n: nat): (r: string)
    ensures |r| == n
    ensures forall k :: 0 <= k < n ==> r[k] == ' '
  {
    seq(n, _ => ' ')
  }

  /** Sum of the lengths of a list of strings. */
  function TotalLength(toks: seq<string>): nat
  {
    if toks == [] then 0 else |toks[0]| + TotalLength(toks[1..])
  }

  /** `sep.join(toks)`: every token once, in order, with one separator
      between each neighbouring pair. */
  function Join(sep: string, toks: seq<string>): (r: string)
    ensures |r| == TotalLength(toks) + if toks == [] then 0 else (|toks| - 1) * |sep|
    ensures toks != [] ==> toks[0] <= r
  {
    if toks == [] then ""
    else if |toks| == 1 then toks[0]
    else toks[0] + sep + Join(sep, toks[1..])
  }

  /** Appending a token extends the join by a separator and that token. */
  lemma {:induction false} JoinSnoc(sep: string, toks: seq<string>, t: string)
    requires toks != []
    ensures Join(sep, toks + [t]) == Join(sep, toks) + sep + t
  {
    if |toks| == 1 {
      assert (toks + [t])[1..] == [t];
    } else {
      assert (toks + [t])[1..] == toks[1..] + [t];
      JoinSnoc(sep, toks[1..], t);
    }
  }
}
