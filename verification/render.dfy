/**
 Tree rendering (`AsciiTreeFormatter.format_tree`). `TreeLines` is the
 recursive description of the output: one line per node in pre-order, each
 made of one guide column per ancestor below the root, a branch marker, the
 payload, all cut to the output width. `FormatTree` is the program's
 iterative traversal over an explicit stack of `(node, next child)` frames,
 proved to produce exactly those lines.
 */
module Render {
  import opened PyStr

  /** A node ready for printing: its formatted payload and its sorted children. */
  datatype Tree = Node(payload: string, kids: seq<Tree>)

  /** Output width and the three marker strings. */
  datatype Style = Style(width: int, indent: string, item: string, lastItem: string)

  /** The markers `main` passes by default: a vertical guide, a tee and a
      corner. Both branch markers are two characters wider than a guide
      column, so siblings' payloads start in the same column. */
  function DefaultStyle(width: int): (r: Style)
    ensures r.width == width
    ensures |r.indent| == 3 && |r.item| == |r.lastItem| == |r.indent| + 2
    ensures r.item != r.lastItem
  {
    Style(width, "  \U{2502}", "  \U{251c}\U{2500} ", "  \U{2514}\U{2500} ")
  }

  /** The column an ancestor contributes: a guide while it has later
      siblings still to print, blanks of the same width once it is the last. */
  function Guide(st: Style, isLast: bool): string
  {
    if isLast then Spaces(|st.indent|) else st.indent
  }

  function Guides(st: Style, flags: seq<bool>): string
  {
    if flags == [] then "" else Guides(st, flags[..|flags| - 1]) + Guide(st, flags[|flags| - 1])
  }

  /** Everything before the payload for a node whose path below the root is
      described by `flags` (`flags[q]`: the node at depth `q + 1` is its
      parent's last child). The root gets no prefix. */
  function Prefix(st: Style, flags: seq<bool>): string
  {
    if flags == [] then ""
    else Guides(st, flags[..|flags| - 1]) + (if flags[|flags| - 1] then st.lastItem else st.item)
  }

  function LineFor(st: Style, flags: seq<bool>, payload: string): string
  {
    Cut(Prefix(st, flags) + payload, st.width)
  }

  /** The lines of `t`'s subtree in pre-order. */
  function TreeLines(st: Style, t: Tree, flags: seq<bool>): seq<string>
    decreases t, 1
  {
    [LineFor(st, flags, t.payload)] + KidsLines(st, t.kids, flags, 0)
  }

  /** The lines of children `i..` of a node. */
  function KidsLines(st: Style, kids: seq<Tree>, flags: seq<bool>, i: nat): seq<string>
    decreases kids, 0, |kids| - i
  {
    if i >= |kids| then []
    else TreeLines(st, kids[i], flags + [i == |kids| - 1]) + KidsLines(st, kids, flags, i + 1)
  }

  function Size(t: Tree): nat
    decreases t, 1
  {
    1 + KidsSize(t.kids, 0)
  }

  function KidsSize(kids: seq<Tree>, i: nat): nat
    decreases kids, 0, |kids| - i
  {
    if i >= |kids| then 0 else Size(kids[i]) + KidsSize(kids, i + 1)
  }

  /** One traversal frame: a node and the index of the next child to descend into. */
  datatype Frame = Frame(node: Tree, at: nat)

  /** The frames form the current path from the root: each frame above the
      first holds the child its predecessor last descended into. */
  ghost predicate StackOk(root: Tree, s: seq<Frame>)
    decreases |s|
  {
    if |s| == 0 then true
    else if |s| == 1 then s[0].node == root
    else
      var parent := s[|s| - 2];
      && StackOk(root, s[..|s| - 1])
      && 1 <= parent.at <= |parent.node.kids|
      && s[|s| - 1].node == parent.node.kids[parent.at - 1]
  }

  /** The last-child flags of the top frame's path, read off the frames below
      it: a frame whose next-child index has run out is on its last child. */
  function Flags(s: seq<Frame>): (r: seq<bool>)
    requires |s| >= 1
    ensures |r| == |s| - 1
  {
    seq(|s| - 1, q requires 0 <= q < |s| - 1 => s[q].at >= |s[q].node.kids|)
  }

  /** The lines still owed by the frames once the top frame's own line is out. */
  ghost function Rest(st: Style, s: seq<Frame>): seq<string>
    decreases |s|
  {
    if s == [] then []
    else KidsLines(st, s[|s| - 1].node.kids, Flags(s), s[|s| - 1].at) + Rest(st, s[..|s| - 1])
  }

  /** All lines still owed by the stack. */
  ghost function Pending(st: Style, s: seq<Frame>): seq<string>
  {
    if s == [] then []
    else
      var top := s[|s| - 1];
      (if top.at == 0 then [LineFor(st, Flags(s), top.node.payload)] else []) + Rest(st, s)
  }

  /** The stack after descending from the top frame into its next child. */
  function Push(s: seq<Frame>): seq<Frame>
    requires |s| >= 1 && s[|s| - 1].at < |s[|s| - 1].node.kids|
  {
    var top := s[|s| - 1];
    s[..|s| - 1] + [Frame(top.node, top.at + 1), Frame(top.node.kids[top.at], 0)]
  }

  lemma PushKeepsPath(root: Tree, s: seq<Frame>)
    requires |s| >= 1 && StackOk(root, s)
    requires s[|s| - 1].at < |s[|s| - 1].node.kids|
    ensures StackOk(root, Push(s))
  {
    var s' := Push(s);
    var n := |s|;
    assert s'[..n][..n - 1] == s[..n - 1];
    assert s'[..|s'| - 1] == s'[..n];
  }

  lemma PushFlags(s: seq<Frame>)
    requires |s| >= 1 && s[|s| - 1].at < |s[|s| - 1].node.kids|
    ensures var top := s[|s| - 1];
            Flags(Push(s)) == Flags(s) + [top.at == |top.node.kids| - 1]
    ensures Flags(Push(s)[..|s|]) == Flags(s)
    ensures Push(s)[..|s|][..|s| - 1] == s[..|s| - 1]
  {
  }

  /** What a stack owes: the top frame's remaining children, then what the
      frames below owe. */
  lemma RestUnfold(st: Style, s: seq<Frame>)
    requires |s| >= 1
    ensures Rest(st, s) == KidsLines(st, s[|s| - 1].node.kids, Flags(s), s[|s| - 1].at) + Rest(st, s[..|s| - 1])
  {
  }

  /** Descending into the next child: the lines owed after it are the child's
      own line followed by what the taller stack owes. */
  lemma PushStep(st: Style, root: Tree, s: seq<Frame>)
    requires |s| >= 1 && StackOk(root, s)
    requires s[|s| - 1].at < |s[|s| - 1].node.kids|
    ensures StackOk(root, Push(s))
    ensures Rest(st, s) == Pending(st, Push(s))
  {
    PushKeepsPath(root, s);
    PushOwes(st, s);
  }

  lemma PushOwes(st: Style, s: seq<Frame>)
    requires |s| >= 1
    requires s[|s| - 1].at < |s[|s| - 1].node.kids|
    ensures Rest(st, s) == Pending(st, Push(s))
  {
    RestUnfold(st, s);
    KidsLinesHead(st, s[|s| - 1].node.kids, Flags(s), s[|s| - 1].at);
    RestPastChild(st, s);
    RestOfPush(st, s);
    PendingOfPush(st, s);
    var top := s[|s| - 1];
    var f' := Flags(s) + [top.at == |top.node.kids| - 1];
    PushRegroup(Rest(st, s),
            KidsLines(st, top.node.kids, Flags(s), top.at),
            Rest(st, s[..|s| - 1]),
            LineFor(st, f', top.node.kids[top.at].payload),
            KidsLines(st, top.node.kids[top.at].kids, f', 0),
            KidsLines(st, top.node.kids, Flags(s), top.at + 1),
            Rest(st, Push(s)[..|s|]),
            Rest(st, Push(s)),
            Pending(st, Push(s)));
  }

  /** The bookkeeping of a push, as sequence algebra: the top frame's owed
      lines split into the next child's line, its subtree, and the later
      children, and the pieces regroup into what the taller stack owes. */
  lemma PushRegroup(rest: seq<string>, here: seq<string>, below: seq<string>, line: string,
                grand: seq<string>, later: seq<string>, mid: seq<string>, rest': seq<string>, pending': seq<string>)
    requires rest == here + below
    requires here == [line] + grand + later
    requires mid == later + below
    requires rest' == grand + mid
    requires pending' == [line] + rest'
    ensures rest == pending'
  {
  }

  /** The lines of children `i..` start with child `i`'s line and subtree. */
  lemma KidsLinesHead(st: Style, kids: seq<Tree>, f: seq<bool>, i: nat)
    requires i < |kids|
    ensures KidsLines(st, kids, f, i)
         == [LineFor(st, f + [i == |kids| - 1], kids[i].payload)]
            + KidsLines(st, kids[i].kids, f + [i == |kids| - 1], 0)
            + KidsLines(st, kids, f, i + 1)
  {
  }

  /** Once the top frame moves past its next child, it owes the later children. */
  lemma RestPastChild(st: Style, s: seq<Frame>)
    requires |s| >= 1
    requires s[|s| - 1].at < |s[|s| - 1].node.kids|
    ensures Rest(st, Push(s)[..|s|])
         == KidsLines(st, s[|s| - 1].node.kids, Flags(s), s[|s| - 1].at + 1) + Rest(st, s[..|s| - 1])
  {
    PushFlags(s);
    var mid := Push(s)[..|s|];
    assert |mid| == |s| && mid[|s| - 1] == Frame(s[|s| - 1].node, s[|s| - 1].at + 1);
    RestUnfold(st, mid);
  }

  /** The pushed child's frame owes its subtree, then what the advanced stack owes. */
  lemma RestOfPush(st: Style, s: seq<Frame>)
    requires |s| >= 1
    requires s[|s| - 1].at < |s[|s| - 1].node.kids|
    ensures var top := s[|s| - 1];
            (Rest(st, Push(s))
         == KidsLines(st, top.node.kids[top.at].kids, Flags(s) + [top.at == |top.node.kids| - 1], 0)
            + Rest(st, Push(s)[..|s|]))
  {
    PushFlags(s);
    var s' := Push(s);
    assert s'[..|s'| - 1] == s'[..|s|];
    RestUnfold(st, s');
  }

  /** The pushed child is owed its own line first. */
  lemma PendingOfPush(st: Style, s: seq<Frame>)
    requires |s| >= 1
    requires s[|s| - 1].at < |s[|s| - 1].node.kids|
    ensures var top := s[|s| - 1];
            (Pending(st, Push(s))
         == [LineFor(st, Flags(s) + [top.at == |top.node.kids| - 1], top.node.kids[top.at].payload)]
            + Rest(st, Push(s)))
  {
    PushFlags(s);
  }

  /** Leaving a node whose children are all printed owes nothing more for it. */
  lemma PopStep(st: Style, root: Tree, s: seq<Frame>)
    requires |s| >= 1 && StackOk(root, s)
    requires s[|s| - 1].at >= |s[|s| - 1].node.kids|
    ensures StackOk(root, s[..|s| - 1])
    ensures Rest(st, s) == Pending(st, s[..|s| - 1])
  {
  }

  /** The tokens before the payload of the top frame's node, joined: one guide
      or blank per frame below the parent frame, then the parent frame's branch
      marker (none for the root). */
  method PrefixTokens(st: Style, printStates: seq<Frame>) returns (acc: string)
    requires |printStates| >= 1
    ensures acc == Prefix(st, Flags(printStates))
  {
    var at := |printStates| - 1;
    var blank := Spaces(|st.indent|);
    acc := "";
    var p := 0;
    while p < |printStates| - 2
      invariant 0 <= p && (p <= |printStates| - 2 || p == 0)
      invariant acc == Guides(st, Flags(printStates)[..p])
    {
      var prevState := printStates[p];
      acc := acc + (if prevState.at < |prevState.node.kids| then st.indent else blank);
      assert Flags(printStates)[..p + 1][..p] == Flags(printStates)[..p];
      p := p + 1;
    }
    if at > 0 {
      var prevState := printStates[at - 1];
      acc := acc + (if prevState.at < |prevState.node.kids| then st.item else st.lastItem);
      assert Flags(printStates)[..p] == Flags(printStates)[..|Flags(printStates)| - 1];
    }
  }

  /** The iterative traversal of `format_tree`. */
  method FormatTree(st: Style, root: Tree) returns (lines: seq<string>)
    ensures lines == TreeLines(st, root, [])
  {
    var printStates := [Frame(root, 0)];
    var at := 0;
    lines := [];
    Start(st, root);
    while |printStates| > 0
      invariant at == |printStates| - 1
      invariant StackOk(root, printStates)
      invariant lines + Pending(st, printStates) == TreeLines(st, root, [])
      decreases 2 * |Rest(st, printStates)| + |printStates|
    {
      lines := Visit(st, root, printStates, lines);
      printStates, at := Advance(st, root, printStates, lines, at);
    }
  }

  /** The first visit of a frame prints its node's line. */
  method Visit(st: Style, root: Tree, printStates: seq<Frame>, lines: seq<string>) returns (lines': seq<string>)
    requires |printStates| >= 1
    requires lines + Pending(st, printStates) == TreeLines(st, root, [])
    ensures lines' + Rest(st, printStates) == TreeLines(st, root, [])
  {
    var state := printStates[|printStates| - 1];
    if state.at == 0 {
      var prefix := PrefixTokens(st, printStates);
      EmitLine(st, printStates, lines, TreeLines(st, root, []));
      lines' := lines + [Cut(prefix + state.node.payload, st.width)];
    } else {
      PendingSplit(st, printStates);
      lines' := lines;
    }
  }

  /** Descends into the top frame's next child, or pops the frame once its
      children are done. */
  method Advance(st: Style, root: Tree, printStates: seq<Frame>, lines: seq<string>, at: int)
    returns (printStates': seq<Frame>, at': int)
    requires at == |printStates| - 1 && at >= 0
    requires StackOk(root, printStates)
    requires lines + Rest(st, printStates) == TreeLines(st, root, [])
    ensures at' == |printStates'| - 1
    ensures StackOk(root, printStates')
    ensures lines + Pending(st, printStates') == TreeLines(st, root, [])
    ensures 2 * |Rest(st, printStates')| + |printStates'| < 2 * |Rest(st, printStates)| + |printStates|
  {
    var state := printStates[at];
    if state.at < |state.node.kids| {
      PushStep(st, root, printStates);
      PushInvariant(st, printStates, lines, TreeLines(st, root, []));
      printStates' := printStates[..at] + [Frame(state.node, state.at + 1), Frame(state.node.kids[state.at], 0)];
      at' := at + 1;
    } else {
      // the code also bumps the popped frame's index, which nothing reads again
      PopStep(st, root, printStates);
      PopInvariant(st, printStates, lines, TreeLines(st, root, []));
      printStates' := printStates[..at];
      at' := at - 1;
    }
  }

  lemma Start(st: Style, root: Tree)
    ensures Pending(st, [Frame(root, 0)]) == TreeLines(st, root, [])
  {
    var s := [Frame(root, 0)];
    assert Flags(s) == [] && s[..0] == [];
    RestUnfold(st, s);
  }

  /** Printing the top node's line moves it from the owed lines to the output. */
  lemma EmitLine(st: Style, s: seq<Frame>, lines: seq<string>, all: seq<string>)
    requires |s| >= 1 && s[|s| - 1].at == 0
    requires lines + Pending(st, s) == all
    ensures (lines + [Cut(Prefix(st, Flags(s)) + s[|s| - 1].node.payload, st.width)]) + Rest(st, s) == all
  {
    PendingSplit(st, s);
  }

  lemma PushInvariant(st: Style, s: seq<Frame>, lines: seq<string>, all: seq<string>)
    requires |s| >= 1 && s[|s| - 1].at < |s[|s| - 1].node.kids|
    requires lines + Rest(st, s) == all
    requires Rest(st, s) == Pending(st, Push(s))
    ensures lines + Pending(st, Push(s)) == all
    ensures s[..|s| - 1] + [Frame(s[|s| - 1].node, s[|s| - 1].at + 1), Frame(s[|s| - 1].node.kids[s[|s| - 1].at], 0)] == Push(s)
    ensures 2 * |Rest(st, Push(s))| + |Push(s)| < 2 * |Rest(st, s)| + |s|
  {
    PendingSplit(st, Push(s));
  }

  lemma PopInvariant(st: Style, s: seq<Frame>, lines: seq<string>, all: seq<string>)
    requires |s| >= 1
    requires lines + Rest(st, s) == all
    requires Rest(st, s) == Pending(st, s[..|s| - 1])
    ensures lines + Pending(st, s[..|s| - 1]) == all
    ensures 2 * |Rest(st, s[..|s| - 1])| + |s| - 1 < 2 * |Rest(st, s)| + |s|
  {
    PendingSplit(st, s[..|s| - 1]);
  }

  /** The lines a stack owes: the top node's own line if it is not out yet,
      then what the frames owe. */
  lemma PendingSplit(st: Style, s: seq<Frame>)
    ensures |Rest(st, s)| <= |Pending(st, s)|
    ensures s != [] ==>
              Pending(st, s)
              == (if s[|s| - 1].at == 0 then [LineFor(st, Flags(s), s[|s| - 1].node.payload)] else [])
                 + Rest(st, s)
    ensures s == [] ==> Pending(st, s) == []
  {
  }

  /** One line per node of the subtree. */
  lemma {:induction false} LineCount(st: Style, t: Tree, flags: seq<bool>)
    ensures |TreeLines(st, t, flags)| == Size(t)
    decreases t, 1
  {
    KidsLineCount(st, t.kids, flags, 0);
  }

  lemma {:induction false} KidsLineCount(st: Style, kids: seq<Tree>, flags: seq<bool>, i: nat)
    ensures |KidsLines(st, kids, flags, i)| == KidsSize(kids, i)
    decreases kids, 0, |kids| - i
  {
    if i < |kids| {
      LineCount(st, kids[i], flags + [i == |kids| - 1]);
      KidsLineCount(st, kids, flags, i + 1);
    }
  }

  /** The payloads of `t`'s subtree in pre-order. */
  function Payloads(t: Tree): seq<string>
    decreases t, 1
  {
    [t.payload] + KidsPayloads(t.kids, 0)
  }

  function KidsPayloads(kids: seq<Tree>, i: nat): seq<string>
    decreases kids, 0, |kids| - i
  {
    if i >= |kids| then [] else Payloads(kids[i]) + KidsPayloads(kids, i + 1)
  }

  /** The last-child flags of every node of `t`'s subtree, in pre-order,
      when `flags` are those of `t` itself. */
  function Paths(t: Tree, flags: seq<bool>): seq<seq<bool>>
    decreases t, 1
  {
    [flags] + KidsPaths(t.kids, flags, 0)
  }

  function KidsPaths(kids: seq<Tree>, flags: seq<bool>, i: nat): seq<seq<bool>>
    decreases kids, 0, |kids| - i
  {
    if i >= |kids| then [] else Paths(kids[i], flags + [i == |kids| - 1]) + KidsPaths(kids, flags, i + 1)
  }

  /** Line `j` of a subtree's output belongs to its `j`-th node in pre-order:
      that node's payload after the prefix its path calls for, cut to the
      width. */
  lemma {:induction false} LinesShowPayloads(st: Style, t: Tree, flags: seq<bool>)
    ensures |TreeLines(st, t, flags)| == |Payloads(t)| == |Paths(t, flags)|
    ensures forall j :: 0 <= j < |Payloads(t)| ==>
              TreeLines(st, t, flags)[j] == LineFor(st, Paths(t, flags)[j], Payloads(t)[j])
    decreases t, 1
  {
    KidsShowPayloads(st, t.kids, flags, 0);
  }

  lemma {:induction false} KidsShowPayloads(st: Style, kids: seq<Tree>, flags: seq<bool>, i: nat)
    ensures |KidsLines(st, kids, flags, i)| == |KidsPayloads(kids, i)| == |KidsPaths(kids, flags, i)|
    ensures forall j :: 0 <= j < |KidsPayloads(kids, i)| ==>
              KidsLines(st, kids, flags, i)[j] == LineFor(st, KidsPaths(kids, flags, i)[j], KidsPayloads(kids, i)[j])
    decreases kids, 0, |kids| - i
  {
    if i < |kids| {
      var fl := flags + [i == |kids| - 1];
      LinesShowPayloads(st, kids[i], fl);
      KidsShowPayloads(st, kids, flags, i + 1);
      var lines, lines' := TreeLines(st, kids[i], fl), KidsLines(st, kids, flags, i + 1);
      var paths, paths' := Paths(kids[i], fl), KidsPaths(kids, flags, i + 1);
      var shown, shown' := Payloads(kids[i]), KidsPayloads(kids, i + 1);
      assert KidsLines(st, kids, flags, i) == lines + lines';
      assert KidsPaths(kids, flags, i) == paths + paths';
      assert KidsPayloads(kids, i) == shown + shown';
      forall j | 0 <= j < |shown + shown'|
        ensures (lines + lines')[j] == LineFor(st, (paths + paths')[j], (shown + shown')[j])
      {
        if j >= |shown| {
          assert (lines + lines')[j] == lines'[j - |shown|];
        }
      }
    }
  }

  /** Every line is the untruncated line cut to the output width: with a
      non-negative width, never longer than the width and never padded. */
  lemma {:induction false} LinesFit(st: Style, t: Tree, flags: seq<bool>)
    requires st.width >= 0
    ensures forall j :: 0 <= j < |TreeLines(st, t, flags)| ==> |TreeLines(st, t, flags)[j]| <= st.width
    decreases t, 1
  {
    CutIsPrefix(Prefix(st, flags) + t.payload, st.width);
    KidsLinesFit(st, t.kids, flags, 0);
  }

  lemma {:induction false} KidsLinesFit(st: Style, kids: seq<Tree>, flags: seq<bool>, i: nat)
    requires st.width >= 0
    ensures forall j :: 0 <= j < |KidsLines(st, kids, flags, i)| ==> |KidsLines(st, kids, flags, i)[j]| <= st.width
    decreases kids, 0, |kids| - i
  {
    if i < |kids| {
      LinesFit(st, kids[i], flags + [i == |kids| - 1]);
      KidsLinesFit(st, kids, flags, i + 1);
    }
  }

  /** Guide columns line up: each ancestor contributes exactly the indent
      marker's width, guide or blank. */
  lemma {:induction false} GuidesWidth(st: Style, flags: seq<bool>)
    ensures |Guides(st, flags)| == |flags| * |st.indent|
  {
    if flags != [] {
      GuidesWidth(st, flags[..|flags| - 1]);
    }
  }

  /** Column `j` of the guides is the guide of the ancestor at depth `j + 1`:
      the indent marker if that ancestor has a later sibling, blanks otherwise. */
  lemma {:induction false} GuideColumn(st: Style, flags: seq<bool>, j: nat)
    requires j < |flags|
    ensures |Guides(st, flags)| == |flags| * |st.indent|
    ensures (j + 1) * |st.indent| <= |Guides(st, flags)|
    ensures Guides(st, flags)[j * |st.indent|..(j + 1) * |st.indent|] == Guide(st, flags[j])
  {
    var n := |flags|;
    var w := |st.indent|;
    var pre := flags[..n - 1];
    var last := Guide(st, flags[n - 1]);
    GuidesWidth(st, flags);
    GuidesWidth(st, pre);
    assert Guides(st, flags) == Guides(st, pre) + last;
    MulStep(j, n - 1, w);
    if j < n - 1 {
      GuideColumn(st, pre, j);
      assert pre[j] == flags[j];
      SliceOfPrefix(Guides(st, pre), last, j * w, (j + 1) * w);
    } else {
      SliceOfSuffix(Guides(st, pre), last, j * w, (j + 1) * w);
    }
  }

  /** `(j + 1) * w` is `j * w + w`, and stays within `m * w + w` when `j <= m`. */
  lemma MulStep(j: nat, m: nat, w: nat)
    requires j <= m
    ensures (j + 1) * w == j * w + w
    ensures (m + 1) * w == m * w + w
    ensures j * w <= m * w
    ensures j < m ==> (j + 1) * w <= m * w
  {
    if j < m {
      MulMono(j + 1, m, w);
    }
    MulMono(j, m, w);
  }

  lemma MulMono(a: nat, b: nat, w: nat)
    requires a <= b
    ensures a * w <= b * w
  {
  }

  lemma SliceOfPrefix(a: string, b: string, lo: nat, hi: nat)
    requires lo <= hi <= |a|
    ensures (a + b)[lo..hi] == a[lo..hi]
  {
  }

  lemma SliceOfSuffix(a: string, b: string, lo: nat, hi: nat)
    requires lo == |a| && hi == |a| + |b|
    ensures (a + b)[lo..hi] == b
  {
  }

  /** `1 0 root`, `2 1 child-a`, `3 1 child-b` with the default markers. */
  lemma ExampleTwoChildren()
    ensures TreeLines(DefaultStyle(120), Node("root", [Node("child-a", []), Node("child-b", [])]), [])
         == ["root", "  \U{251c}\U{2500} child-a", "  \U{2514}\U{2500} child-b"]
  {
    var st := DefaultStyle(120);
    var a, b := Node("child-a", []), Node("child-b", []);
    CutIsPrefix("root", 120);
    CutIsPrefix(st.item + "child-a", 120);
    CutIsPrefix(st.lastItem + "child-b", 120);
    assert Prefix(st, [false]) == st.item;
    assert Prefix(st, [true]) == st.lastItem;
    assert [] + [false] == [false] && [] + [true] == [true];
    assert TreeLines(st, a, [false]) == [st.item + "child-a"];
    assert TreeLines(st, b, [true]) == [st.lastItem + "child-b"];
    assert KidsLines(st, [a, b], [], 1) == [st.lastItem + "child-b"];
    assert KidsLines(st, [a, b], [], 0) == [st.item + "child-a", st.lastItem + "child-b"];
    assert LineFor(st, [], "root") == "root" by {
      assert Prefix(st, []) + "root" == "root";
    }
    assert st.item + "child-a" == "  \U{251c}\U{2500} child-a";
    assert st.lastItem + "child-b" == "  \U{2514}\U{2500} child-b";
    assert TreeLines(st, Node("root", [a, b]), []) == ["root", st.item + "child-a", st.lastItem + "child-b"];
  }
}
