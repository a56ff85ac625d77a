# fmt-tree in Dafny

`fmt-tree.py` reads flat records from standard input. Each record has an ID field and a parent-ID field. The program builds the forest these links describe and prints every tree as box-drawing art, one line per record:

```
root
  ├─ child-a
  └─ child-b
```

This project models the program's core:

- forest construction in `main`;
- the iterative renderer `AsciiTreeFormatter.format_tree`;
- the two node formatters;
- the fixed-width field extractor.

It also proves what the program promises about them.

Modules, in dependency order:

| module | file | what it holds |
|---|---|---|
| `Wrappers` | wrappers.dfy | `Option` and `Result` |
| `PyStr` | pystr.dfy | Python slicing with clamping and negative bounds, list indexing with negative indices, `' ' * n`, `str.join` |
| `LexOrder` | lex_order.dfy | Python's string order (lexicographic by code point); proof that it is a strict total order; `list.sort` as insertion sort; uniqueness of the strictly sorted order |
| `FixedWidth` | fixed_width.dfy | `FieldExtractor.get_fields` |
| `NodeFormat` | node_format.dfy | `FullTextNodeFormatter` and `NodeFieldFormatter` |
| `Forest` | forest.dfy | lines 64-90 of `main`: index by ID, link parents, collect roots and children, sort |
| `Ancestry` | ancestry.dfy | parent chains, cycles, and walks down children lists |
| `Render` | render.dfy | the line-by-line description of a tree's output (`TreeLines`), and `format_tree`'s stack loop proved equal to it |
| `Subtrees` | subtrees.dfy | reading a root's tree of `Node` objects off the arena |
| `Coverage` | coverage.dfy | which record each printed line stands for: each root's records in pre-order, each record once |
| `FmtTree` | fmt_tree.dfy | the run from the ID check to the printed lines |

Design choices:

- **Arena forest.** The forest is an arena: a `map<string, Record>` from ID to record, where a parent link is a key, never a reference.
- **Key order.** The dict's key order is kept as a sequence, because Python dicts iterate in first-insertion order and the roots and children lists are collected in that order before sorting. After sorting, `LexOrder.StrictlySortedUnique` shows that the input order cannot show in the output.
- **Field positions are Python `int`s.** A negative position counts from the end, as `node.fields[args.id]` does. A row too short for a position is an error result (`MissingIdField` or `MissingParentField`), standing for Python's `IndexError`, not a precondition.
- **Equal ID and parent positions** give the `SameIndex` result. It stands for the message and `exit(1)` at lines 39-41.
- **Rendering.** The renderer works on an immutable `Tree`, which `Subtrees.TreeOf` reads off the arena. `Subtrees.RootTreeMirrors` proves this tree is exactly the tree of `Node` objects that `format_tree` walks.

## Model

| member | source | states |
|---|---|---|
| PyStr.ClampBound | fmt-tree.py:201 | Python's normalisation of a slice bound: negative counts from the end, clamped to `0..len` |
| PyStr.Slice | fmt-tree.py:201 | `s[a:b]` never fails, is no longer than `s`, and for non-negative bounds has length `min(b, len) - a`, or 0 when empty |
| PyStr.SliceElements | fmt-tree.py:201 | a slice is the contiguous run of `s` starting at the normalised start |
| PyStr.SliceSplit | fmt-tree.py:201-202 | for non-negative bounds, adjacent slices glue back into the slice over the whole range |
| PyStr.CutIsPrefix | fmt-tree.py:163 | for a width `w >= 0`, `line[0:w]` is the prefix of length `min(len, w)`: never longer than `w` and never padded |
| PyStr.CutNegative | fmt-tree.py:163 | a negative output width drops that many characters from the end, as `line[0:w]` does |
| PyStr.Cut | fmt-tree.py:163 | for a width `w >= 0`, `line[0:w]` is as long as the line or `w`, whichever is shorter |
| PyStr.Item | fmt-tree.py:69 | `fields[i]` is defined exactly for `-len <= i < len`, with negative `i` counting from the end; otherwise it is an `IndexError` (`None`) |
| PyStr.Spaces | fmt-tree.py:139 | `' ' * n` has length `n` and holds only spaces |
| PyStr.Join | fmt-tree.py:114 | `sep.join(toks)` has the tokens' total length plus one separator between each neighbouring pair, and starts with the first token |
| PyStr.JoinSnoc | fmt-tree.py:114 | appending a token to a non-empty list extends the join by the separator and that token |
| LexOrder.LexIrreflexive | fmt-tree.py:87-90 | the order used to sort IDs is irreflexive |
| LexOrder.LexAsymmetric | fmt-tree.py:87-90 | ... and asymmetric |
| LexOrder.LexTransitive | fmt-tree.py:87-90 | ... and transitive |
| LexOrder.LexConnected | fmt-tree.py:87-90 | ... and total on distinct strings |
| LexOrder.LexTrichotomy | fmt-tree.py:87-90 | exactly one of `a < b`, `a == b`, `b < a` holds |
| LexOrder.PrefixIsLess | fmt-tree.py:87-90 | a proper prefix sorts first, as in Python (`"ab" < "abc"`) |
| LexOrder.Insert | fmt-tree.py:87-90 | inserting into a sorted list keeps it sorted and adds exactly that element |
| LexOrder.Sort | fmt-tree.py:87-90 | `list.sort` leaves a sorted permutation of the input |
| LexOrder.SortDistinctIsStrict | fmt-tree.py:87-90 | sorting distinct keys gives a strictly increasing list |
| LexOrder.StrictlySortedUnique | fmt-tree.py:87-90 | two strictly increasing lists with the same elements are equal, so the sorted output does not depend on input order |
| FixedWidth.GetFields | fmt-tree.py:196-204 | returns exactly one field per width; field `i` is `line[s_i : s_i + w_i - 1]`, where `s_i` is the sum of the earlier widths |
| FixedWidth.ColumnBounds | fmt-tree.py:196-204 | with positive widths, field `i` is the line clamped to `s_i .. s_i + w_i - 1`, so it is at most `w_i - 1` long |
| FixedWidth.ColumnFull | fmt-tree.py:196-204 | a line that covers every column yields fields of exactly `w_i - 1` characters |
| FixedWidth.RebuildCoversLine | fmt-tree.py:196-204 | the fields, each followed by the one separator character it skipped, rebuild the covered part of the line: only separators are lost |
| FixedWidth.ExampleFourFour | fmt-tree.py:196-204 | widths `4,4` on `12ab` give `12a` and the empty string |
| FixedWidth.ExampleZeroWidth | fmt-tree.py:201 | width 0 at offset 0 slices `line[0:-1]`, "all but the last character" |
| NodeFormat.KeptIndices | fmt-tree.py:110-112 | the kept positions are exactly the positions `0..len-1` not in `exclude`, in increasing order |
| NodeFormat.KeptFields | fmt-tree.py:108-112 | the collected tokens are the fields at the kept positions, in their original order |
| NodeFormat.FormatNode | fmt-tree.py:95-114 | full-text gives the line itself; field-join gives the empty string when every field is excluded, the single kept field when only one is kept, and otherwise the kept fields' total length plus the separators between them |
| NodeFormat.FormatNodeSnoc | fmt-tree.py:107-114 | the field formatter's loop, one field at a time: an excluded position leaves the payload unchanged; a kept field starts the payload when nothing was kept before, and otherwise extends it by the separator and the field |
| NodeFormat.ExampleInOrder | fmt-tree.py:107-114 | fields `a`, `b`, `c` with nothing excluded give `a b c`, in their original order |
| NodeFormat.AllExcludedNoTokens | fmt-tree.py:110-114 | when every position is excluded, no token is collected |
| Forest.IndexRows | fmt-tree.py:64-69 | indexing fails (`IndexError`) exactly when some row lacks the ID position; otherwise every row's ID is a key, each key holds the last row with that ID, and the keys are listed in the order of their first appearance |
| Forest.FirstPos | fmt-tree.py:64-69 | the position where an ID first appears is a row carrying that ID, with no earlier row carrying it, or the end when no row carries it |
| Forest.AddRow | fmt-tree.py:69 | `nodes[k] = node` makes `node` the entry for `k` and keeps every other entry; a new key goes to the end of the key order, and an existing key keeps its place |
| Forest.Link | fmt-tree.py:71-73 | linking fails exactly when some indexed record lacks the parent position; otherwise it keeps the keys, lines and fields, and sets a parent exactly when the parent field is an indexed ID |
| Forest.ResolveParent | fmt-tree.py:72-73 | a record's parent is set exactly when its parent field is an indexed ID, and then it is that ID |
| Forest.Filter | fmt-tree.py:75 | the list comprehension keeps exactly the elements that satisfy the test, and keeps them distinct |
| Forest.SortKeys | fmt-tree.py:87-90 | sorting distinct IDs gives a strictly increasing list of the same IDs |
| Forest.Children | fmt-tree.py:77-90 | a record's children list is strictly increasing and holds exactly the records whose parent is that record |
| Forest.Roots | fmt-tree.py:75-87 | the roots list is strictly increasing and holds exactly the records with no parent |
| Forest.Assemble | fmt-tree.py:75-90 | collecting over the linked arena keeps the records; the roots are strictly increasing and are exactly the records without a parent; every record's children list is strictly increasing and holds exactly the records whose parent it is |
| Forest.Build | fmt-tree.py:64-90 | a missing ID position gives `MissingIdField`; otherwise the build succeeds exactly when every row that survives indexing has the parent position, and fails with `MissingParentField` when one does not; a success is a well-formed forest, holds the last row per ID, and has its parents resolved |
| Forest.ShortParentRow | fmt-tree.py:71-72 | a linking failure comes from a surviving input row that lacks the parent position |
| Forest.ListedOnce | fmt-tree.py:75-79 | a record with a parent appears exactly once in that parent's children, in no other children list, and not among the roots; a record without a parent appears exactly once among the roots |
| Ancestry.AncestorAdd | fmt-tree.py:71-73 | climbing `a + b` parent links is climbing `a` links, then `b` |
| Ancestry.RootUnique | fmt-tree.py:71-75 | a record's parent chain meets at most one record without a parent, at exactly one distance |
| Ancestry.AcyclicReachesRoot | fmt-tree.py:71-75 | when no record is its own ancestor, every record's parent chain climbs to a record without a parent: a chain longer than the arena would revisit a record |
| Ancestry.CycleNeverRoot | fmt-tree.py:71-75 | a record on a parent cycle (a self-parent included) is not a root, and every record above it exists and is not a root |
| Ancestry.WalkClimbsBack | fmt-tree.py:77-79 | walking down `d` children steps is the reverse of climbing `d` parent links |
| Ancestry.CycleUnreachable | fmt-tree.py:75-79 | a record on a parent cycle is not a root and is not the end of any walk down children lists from a root |
| Ancestry.WalkDistinct | fmt-tree.py:219-224 | a walk from a root never revisits a record |
| Ancestry.WalkBounded | fmt-tree.py:77-79 | no walk from a root is longer than the number of records, so traversal from a root is finite |
| Render.PrefixTokens | fmt-tree.py:146-160 | the token loop over `print_states[:-2]` plus the parent frame's marker builds exactly the line prefix of the node on top of the stack |
| Render.FormatTree | fmt-tree.py:130-176 | the stack loop terminates and returns exactly `TreeLines` of the root |
| Render.Visit | fmt-tree.py:143-164 | a frame's first visit emits its node's line and nothing else changes in the owed lines |
| Render.Advance | fmt-tree.py:166-174 | pushing the next child or popping a finished frame keeps the stack a path from the root, keeps the lines owed, and decreases the measure |
| Render.PushStep | fmt-tree.py:166-170 | descending into the next child keeps the stack a path from the root and owes the same lines |
| Render.PopStep | fmt-tree.py:171-174 | popping a frame whose children are done keeps the stack a path and owes the same lines |
| Render.LineCount | fmt-tree.py:142-163 | a tree's output has exactly one line per node |
| Render.LinesShowPayloads | fmt-tree.py:142-163 | line `j` of a tree's output is the payload of node `j` in pre-order, behind the prefix built from that node's last-child flags, cut to the width |
| Render.DefaultStyle | fmt-tree.py:19-21 | the default markers: a vertical guide, a tee and a corner, which differ; both branch markers are two characters wider than a guide column |
| Render.LinesFit | fmt-tree.py:163 | with a non-negative width, no line is longer than the width |
| Render.GuidesWidth | fmt-tree.py:148-152 | each ancestor contributes a column exactly as wide as the indent marker |
| Render.GuideColumn | fmt-tree.py:148-152 | the column of the ancestor at depth `j + 1` is the indent marker if that ancestor has a later sibling, otherwise blanks |
| Render.ExampleTwoChildren | fmt-tree.py:130-176 | a root with two leaf children renders, with the default markers, as `root`, `  ├─ child-a`, `  └─ child-b` |
| Subtrees.KidsOfAll | fmt-tree.py:166-168 | when no child is on the path above, every child gets its subtree, in order |
| Subtrees.TreeOf | fmt-tree.py:206-212 | a record's tree shows the record's formatted payload and has at most one subtree per child |
| Subtrees.MirrorsUnique | fmt-tree.py:206-212 | only one tree mirrors a record's `Node` object graph |
| Subtrees.WalkTreeMirrors | fmt-tree.py:77-79 | below the end of any walk from a root, the tree read off the arena is the `Node` graph |
| Subtrees.RootTreeMirrors | fmt-tree.py:92-93 | a root's tree is exactly the `Node` graph that `format_tree` walks, with each node's payload formatted and its children in sorted order |
| Coverage.MirrorKeysShow | fmt-tree.py:162 | a tree that mirrors a record has one node per record listed under it, and node `j` in pre-order shows the formatted payload of the `j`-th of those records |
| Coverage.MirrorKeysBelow | fmt-tree.py:77-79 | every record listed under a record is in the arena and its parent chain climbs to that record, by at least one link when it is listed under a child |
| Coverage.MirrorKeysComplete | fmt-tree.py:77-79 | every record whose parent chain climbs to a record is listed under it |
| Coverage.MirrorKeysDistinct | fmt-tree.py:77-79 | below a record whose chain climbs to a record without a parent, no record is listed twice |
| Coverage.ForestKeysMembers | fmt-tree.py:75-93 | the records listed for some roots are exactly the records whose parent chain climbs to one of them |
| Coverage.ForestKeysDistinct | fmt-tree.py:75-93 | roots listed once give records listed once |
| FmtTree.FixedWidthRows | fmt-tree.py:196-204 | with `-w`, each row keeps its line and gets one field per width, cut as `get_fields` cuts it |
| FmtTree.Formatter | fmt-tree.py:52-55 | `--full-text` chooses the full-text formatter; otherwise the field formatter uses the output separator and excludes exactly the ID and parent positions as written, negative ones included |
| FmtTree.Run | fmt-tree.py:39-93 | `SameIndex` comes exactly from equal positions, before any input is used; otherwise a missing ID position gives `MissingIdField`, and the run succeeds exactly when every surviving row has the parent position, failing with `MissingParentField` when one does not; a success prints each root's tree in turn, roots in ID order |
| FmtTree.PrintRoots | fmt-tree.py:92-93 | the print loop produces the roots' blocks of lines one after another |
| FmtTree.OutputFits | fmt-tree.py:163 | no printed line is wider than a non-negative output width |
| FmtTree.OutputCount | fmt-tree.py:92-93 | each root contributes one line per node of its tree |
| FmtTree.OutputShowsRecords | fmt-tree.py:92-93 | the printed lines and the listed records correspond one to one, in order: line `j` is the `j`-th record's payload behind the guides of its place, cut to the width |
| FmtTree.PrintedRecords | fmt-tree.py:75-93 | no record is printed twice, and a record is printed exactly when its parent chain climbs to a record without a parent; a record on a parent cycle, or whose chain runs into one, is not printed |
| FmtTree.EveryRecordPrinted | fmt-tree.py:64-93 | when no record is its own ancestor, the printed records are exactly the records read, and the output has exactly one line per record |
| FmtTree.AliasedPositionsPrintNothing | fmt-tree.py:39-75 | the ID check compares positions as written: a parent position naming the same field as the ID (say `-p -1` on two-field rows with `-I 1`) passes it, makes every record its own parent, and nothing is printed |
| FmtTree.ShadowedShortRow | fmt-tree.py:69-72 | a row too short for the parent position does no harm when a later row with the same ID replaces it |
| FmtTree.ExampleRun | fmt-tree.py:64-93 | rows `1 0 root`, `2 1 child-a`, `3 1 child-b` with default options print `root`, `  ├─ child-a`, `  └─ child-b` |

## Behaviour of the code worth knowing

The model follows the code in each of these cases. The first two fall short of what the code's own names and tests evidently intend.

- **Cycles are not detected.** The name `assertIsTree` and its message "Graph contains cycles!" (lines 219-224) promise a cycle check. The function never sets `visited`, so it never raises its cycle error. Even with `visited` set, it walks only from roots, and a walk from a root never revisits a record (`Ancestry.WalkDistinct`). A record is printed exactly when its parent chain climbs to a record without a parent, and then only once (`FmtTree.PrintedRecords`). So records on a parent cycle, such as two records naming each other or a record naming itself, are not printed, and neither are records whose parent chain runs into such a cycle. Without cycles, every record is printed once and the output has one line per record (`FmtTree.EveryRecordPrinted`).
- **Blank lines are not skipped.** The `len(s) > 0` filter at line 66 is evidently meant to drop blank lines. It tests the length before `strip`, and every line read still carries its newline, so a blank line becomes a record with an empty line.
- **A field is shorter than its width.** `get_fields` (lines 201-202) takes `width - 1` characters per field and skips one, so a field is at most `width - 1` characters long. Widths `4,4` on `12ab` give `12a` and the empty string (`FixedWidth.ExampleFourFour`).
- **Short rows can succeed.** A row too short for the parent position raises only if it survives indexing, because the linking loop at lines 71-73 visits the dict's values, not the input rows (`Forest.Build`, `FmtTree.ShadowedShortRow`).

## Left out

- Argument parsing, terminal-size detection, stderr and the exit code (lines 9-62). The options become the `FmtTree.Options` datatype, and the ID check becomes the `SameIndex` result.
- Reading standard input and `strip` (lines 66-67). The model starts from rows that already carry their stripped line and fields. Only the fixed-width extractor is modelled as a way to produce the fields (`FmtTree.FixedWidthRows`).
- `FieldFinder` and `FieldSplitter` (lines 178-190): thin wrappers over Python's `re`, whose matching semantics are not modelled. This includes the default whitespace split.
- `parse_int_list` (lines 214-217): regex split and Python `int()` parsing.
- `assertIsTree` (lines 219-224): it never raises its cycle error (see above). It recurses once per level of the tree, so the call at line 82 raises `RecursionError` on a tree deeper than Python's recursion limit (1000 by default). The model has no such limit: `FmtTree.Run`'s success clause holds for the program only on trees shallower than that.
- Printing: `'\n'.join(lines)` and `print` are modelled as the sequence of lines, concatenated over the roots.
- `state.printed = True` (line 164) and the index bump on a popped frame (line 174): nothing reads either again.
- Display width: truncation counts code points, not terminal columns. The box-drawing glyphs are one code point each.
- Characters: Dafny's `char` is a Unicode scalar value, so Python strings holding lone surrogates are outside the model.
- The constructor defaults of `AsciiTreeFormatter` (lines 117-128): `main` always passes the markers from lines 19-21.
