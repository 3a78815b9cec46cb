# fileDAG in Dafny

fileDAG reads the detailed summary of a Snakemake workflow. That is a
tab-separated table: one row per output file, listing that file's input
files. From it, fileDAG draws a graph whose nodes are files, as a
hover-interactive SVG. This project models the core of `fileDAG.py` and
proves properties of that model:

- `Digraph` (module `Graph`, file `graph.dfy`):
  - the constructor drops repeated edges in a loop, in first-seen order;
  - it derives the sorted lists of nodes, source nodes, target nodes and
    top-level directories;
  - `SetNodeColors` gives each source node a rainbow colour and each node
    the style code of its top-level directory;
  - `GetEdges`, `NodePathAttrs` and `NodeAttrs` are the queries.
- `rainbow` and `node_style` (module `Styles`).
- `parse_detailed_summary` (module `Summary`): rows arrive with their two
  columns already read.
- `add_svg_style` (module `Svg`):
  - the SVG arrives as a sequence of lines;
  - the loop rewrites a local array in place;
  - the hover stylesheet replaces the closing `</svg>` tag.

Supporting modules:

- `Results`: the error and outcome datatypes.
- `Seqs`: distinctness and flattening.
- `Order`: Python's string order and `sorted(set(...))`.
- `Text`: `split`, `join`, `lstrip`, `rstrip`, `replace`.

Python exceptions are modelled as `Result` and `Outcome` values:

- `ZeroDivisionError` when `rainbow(0)` is called for a graph with no
  edges;
- `IndexError` when a comment marker sits on the last line of the SVG.

`node_style` crosses three pairs of elements (fileDAG.py:146-151), so it
yields 2×2×2 = 8 codes and cycles with period 8, as the comment at line 145
says.

On node comment lines the token keeps its end. Lines are read with their
line break, and `rstrip(" -->")` stops at that `\n`. So the token of
`<!-- a -->\n` is `a -->\n`, as `Svg.NodeMarkerToken` states. An edge
comment `<!-- a&#45;&gt;b -->`, with or without its line break, gives the
source name `a` with `/` and `.` turned into `-` (`Svg.EdgeMarkerToken`).
That holds when `a` contains no `&` and does not start with `<`, `!`, `-`
or a space, which `lstrip` would also remove. On the line after such a comment, the leftmost
`class="edge">` becomes `class="edge <token>">`
(`Svg.AnnotatedLines` with `Svg.RewriteTagsFirstMatch`).

## Model

| member | source | states |
|---|---|---|
| Graph.Dedup | fileDAG.py:62-66 | the kept list has no repeated edge and holds exactly the input edges |
| Graph.DedupFirstSeenOrder | fileDAG.py:62-66 | kept edges appear in the order of their first occurrence in the input |
| Graph.Digraph.constructor | fileDAG.py:61-76 | `edge_list` is the deduplicated input; nodes, sources, targets and basedirs are the sorted sets; both maps start empty; there are no sources exactly when the input is empty |
| Graph.Digraph.ColoringReady | fileDAG.py:68-74 | the source and basedir lists have no repeats and their counts are their lengths; there is a source node exactly when there is an edge |
| Graph.Digraph.SetNodeColors | fileDAG.py:79-90 | fails with ZeroDivisionError exactly when there is no source node, and then leaves both maps empty; otherwise every source is coloured and every node styled |
| Graph.Digraph.ColorSources | fileDAG.py:81-83 | `src_color` is defined exactly on the source nodes; the i-th source gets the i-th colour |
| Graph.Digraph.StyleNodes | fileDAG.py:88-90 | `dir_style` is defined exactly on the nodes; each node gets the table's style for its basedir |
| Graph.Digraph.GetEdges | fileDAG.py:92-100 | an edge is returned exactly when it is in `edge_list` and matches the filters; with no filter the result is `edge_list` itself |
| Graph.Digraph.NodePathAttrs | fileDAG.py:102-108 | `path` is the node; neither `basedir` nor `stem` contains `/` |
| Graph.Digraph.NodeAttrs | fileDAG.py:110-115 | path, basedir and stem are those of `node_path_attrs` |
| Graph.NewDigraph | fileDAG.py:61-77 | construction raises ZeroDivisionError exactly for an empty edge list; otherwise it yields a fresh, fully coloured graph over the deduplicated edges |
| Graph.NodePathAttrsParts | fileDAG.py:102-108 | a name without `/` is its own basedir and stem; otherwise it starts with `basedir/` and ends with `/stem`, and neither part contains `/` |
| Graph.NodeSets | fileDAG.py:62-72 | kept edges are the input edges; a file is a source or target node exactly when some input edge starts or ends at it, and a node exactly when it is either; all three lists are strictly increasing |
| Graph.SourceNodesMembers | fileDAG.py:69 | `sorted(set(sources))` holds exactly the edge sources |
| Graph.TargetNodesMembers | fileDAG.py:70 | `sorted(set(targets))` holds exactly the edge targets |
| Graph.AllNodesMembers | fileDAG.py:68 | the node list holds exactly the sources and the targets |
| Graph.EndpointsElems | fileDAG.py:68 | the endpoints of the edges are their sources together with their targets |
| Graph.DirStyleTable | fileDAG.py:86-87 | the table is defined exactly on the basedirs and maps the i-th basedir to the i-th code |
| Graph.Select | fileDAG.py:96-100 | the filtered list is never longer than the list; `SelectMembers` and `SelectConcat` fix its members and order |
| Graph.Endpoints | fileDAG.py:68 | two endpoints per edge; `EndpointsElems` says they are the sources and the targets |
| Graph.Sources | fileDAG.py:69 | one source per edge; `SourceNodesMembers` says which |
| Graph.Targets | fileDAG.py:70 | one target per edge; `TargetNodesMembers` says which |
| Graph.Basedirs | fileDAG.py:73 | one top-level directory per node |
| Graph.SelectMembers | fileDAG.py:96-100 | the comprehension keeps an edge exactly when it is in the list and matches |
| Graph.SelectConcat | fileDAG.py:96-100 | filtering preserves order: it distributes over concatenation |
| Graph.SelectNoDup | fileDAG.py:96-100 | filtering a list without repeats gives a list without repeats |
| Graph.SelectBoth | fileDAG.py:99-100 | with both filters on a list without repeats, the result is that one edge or empty |
| Graph.GetEdgesBoth | fileDAG.py:99-100 | `get_edges(s, t)` is `[(s, t)]` when the graph has that edge and `[]` otherwise |
| Graph.SourceHue | fileDAG.py:81-83 | the i-th source node gets hue (n-1-i)/n, saturation 1, value 0.9 and alpha 1; the last source gets hue 0 |
| Graph.SourceColorsDistinct | fileDAG.py:81-83 | distinct source nodes get distinct colours |
| Graph.NodeAttrsFallback | fileDAG.py:113-114 | the colour is `"grey"` exactly for non-source nodes; the style is `"black"` for non-nodes and one of the node_style codes for nodes |
| Graph.SameBasedirSameStyle | fileDAG.py:86-90 | nodes sharing a basedir share a style |
| Graph.DistinctBasedirsDistinctStyles | fileDAG.py:86-90 | with at most eight basedirs, nodes under different basedirs get different styles |
| Order.SortedSet | fileDAG.py:68-70 | `sorted(set(xs))` is strictly increasing, has no repeats and holds exactly the elements of xs |
| Order.SortedSetDeterministic | fileDAG.py:68-73 | two lists with the same elements give the same sorted set |
| Styles.Rainbow | fileDAG.py:156-164 | fails with ZeroDivisionError exactly when n is 0; otherwise n colours, entry i with hue i/n, saturation 1, value 0.9 and the given alpha |
| Styles.RainbowSpacing | fileDAG.py:159-164 | hues lie in [0, 1), start at 0, are 1/n apart and pairwise different |
| Styles.Code | fileDAG.py:151 | the code is as long as its parts plus two quotes and a comma each between them, the weight and its comma counting only when the weight is not empty |
| Styles.Codes | fileDAG.py:146-151 | the comprehension gives exactly eight codes; `CodeAt` fixes their order and `CodesDistinct` their distinctness |
| Styles.Repeat | fileDAG.py:153 | `codes * k` has k times as many entries |
| Styles.CodeAt | fileDAG.py:146-151 | code k combines weight k/4, stroke k/2 mod 2 and corner k mod 2, in the comprehension's order |
| Styles.CodesDistinct | fileDAG.py:146-151 | the eight codes are pairwise different |
| Styles.Recycle | fileDAG.py:152-154 | repeating the codes ceil(n/8) times and cutting at n gives n entries, entry i being code i mod 8 |
| Styles.NodeStyle | fileDAG.py:144-154 | exactly n codes, entry i being code i mod 8 |
| Styles.NodeStyleDistinct | fileDAG.py:144-154 | for n of at most 8 the codes are pairwise different |
| Summary.RowEdges | fileDAG.py:186-188 | one edge per comma-separated input, each ending at the row's output, with no comma in its source |
| Summary.RowEdgesRoundTrip | fileDAG.py:187 | joining a row's edge sources with commas gives back the input column |
| Summary.RowEdgesSources | fileDAG.py:187-188 | any comma-free names whose comma join is the input column are exactly the row's edge sources, in order |
| Text.SplitJoin | fileDAG.py:187 | splitting a comma join of comma-free fields gives back the fields |
| Summary.EmptyInputsEdge | fileDAG.py:187-188 | an empty input column gives one edge with an empty source |
| Summary.SummaryEdgesConcat | fileDAG.py:185-188 | the edges of two tables read one after the other are the first's edges followed by the second's |
| Summary.SummaryEdgesMembers | fileDAG.py:185-188 | an edge is read exactly when some row produces it |
| Summary.ParseDetailedSummary | fileDAG.py:180-189 | the nested loops yield every row's edges, in row order and then in input order |
| Seqs.Reversed | fileDAG.py:81 | `[::-1]` keeps the length; `SourceHue` reads entry i of the reversed rainbow as entry n-1-i |
| Seqs.FlattenAppend | fileDAG.py:137 | joining two lists of texts one after the other gives the join of the first followed by the join of the second |
| Seqs.FlattenMembers | fileDAG.py:185-188 | an element is in the flattened list exactly when one of the parts holds it |
| Text.Split | fileDAG.py:103 | one more field than there are separators, and no field contains the separator |
| Text.JoinSplit | fileDAG.py:103 | joining the split parts with the separator gives back the text |
| Text.LStripSpec | fileDAG.py:127 | lstrip removes a prefix made only of the stripped characters and stops at the first other one |
| Text.RStripSpec | fileDAG.py:127 | rstrip removes a suffix made only of the stripped characters and stops at the last other one |
| Text.FirstFieldSpec | fileDAG.py:127 | `split(sep)[0]` is the prefix before the first occurrence of sep, or the whole text when there is none |
| Text.LStrip | fileDAG.py:127 | `lstrip` never lengthens the text; `LStripSpec` says what it removes |
| Text.RStrip | fileDAG.py:127 | `rstrip` never lengthens the text; `RStripSpec` says what it removes |
| Text.FirstField | fileDAG.py:127 | `split(sep)[0]` is never longer than the text; `FirstFieldSpec` places it before the first separator |
| Text.ReplaceAll | fileDAG.py:128 | replacing a pattern by a text of the same length keeps the length |
| Text.ReplaceAllAbsent | fileDAG.py:137 | a text without the pattern is left unchanged |
| Text.ReplaceAllInserts | fileDAG.py:137 | when the pattern occurs, the replacement stands where its first occurrence was |
| Svg.Sanitize | fileDAG.py:128 | the two replaces keep the length; `SanitizeAt` maps them character by character |
| Svg.Token | fileDAG.py:127-128 | the token is never longer than its line; `TokenIsClassName`, `EdgeMarkerToken` and `NodeMarkerToken` say what it is |
| Svg.SanitizeAt | fileDAG.py:128 | the same length; `/` and `.` become `-` and every other character stays |
| Svg.TokenIsClassName | fileDAG.py:127-128 | no token contains `/` or `.` |
| Svg.RewriteClass | fileDAG.py:123-130 | the substitution never shortens a line; the lemmas below state the match and no-match cases |
| Svg.RewriteFirstMatch | fileDAG.py:123-130 | the leftmost `class="edge">` or `class="node">` becomes `class="edge <token>">` or `class="node <token>">`; the text before it is copied and the scan resumes after it |
| Svg.RewriteTagsFirstMatch | fileDAG.py:130 | at the leftmost match the rewritten line holds the tagged class, keeping the old class, and everything before is unchanged |
| Svg.RewriteBeforeMatch | fileDAG.py:130 | the text before the leftmost match is copied unchanged |
| Svg.RewriteAbsent | fileDAG.py:130 | a line with no `class="edge">` or `class="node">` is left unchanged |
| Svg.RewriteKeepsMarker | fileDAG.py:126-130 | tagging a line's classes does not change whether it starts with the comment marker |
| Svg.StepAt | fileDAG.py:126-130 | one loop step fails exactly at a marker on the last line, and otherwise keeps the line count |
| Svg.Annotated | fileDAG.py:124-131 | the loop preserves the line count |
| Svg.AnnotateUpToFails | fileDAG.py:125-131 | the loop raises IndexError exactly when the last line is a marker; otherwise every line keeps whether it is a marker |
| Svg.AnnotateUpToLines | fileDAG.py:125-131 | after the loop has passed index i-1, each line is tagged with the token of the line before it when that line is a marker the loop has reached, and unchanged otherwise |
| Svg.AnnotatedLines | fileDAG.py:125-131 | only a line right after a marker changes; it gets tagged with that marker's token |
| Svg.EdgeMarkerToken | fileDAG.py:127-128 | an edge comment `<!-- a&#45;&gt;b -->`, with or without its line break, gives the sanitized source name `a` when `a` has no `&` and no leading stripped character |
| Svg.NodeMarkerToken | fileDAG.py:127-128 | a node comment `<!-- a -->` read with its line break gives `a -->` plus the line break, sanitized |
| Svg.LStripMarker | fileDAG.py:127 | `lstrip("<!-- ")` removes exactly the marker when the name does not start with a stripped character |
| Svg.RStripKept | fileDAG.py:127 | `rstrip(" -->")` leaves a line alone when it ends in another character, such as a line break |
| Svg.StyleSheet | fileDAG.py:133-136 | the block starts with `<style>` and the `g.edge:hover` rule, and ends with `</style></svg>` |
| Svg.RStripKeepsArrow | fileDAG.py:127 | `rstrip(" -->")` on an edge comment keeps the name and the arrow and only cuts the rest short |
| Svg.StyleSheetHasRule | fileDAG.py:133-136 | the stylesheet holds the hover rule of every token, after the edge rule and the rules of the tokens before it |
| Svg.StyleSheetPlaced | fileDAG.py:137 | the stylesheet stands where the first `</svg>` was; a text without `</svg>` is returned unchanged |
| Svg.HoverRules | fileDAG.py:133-135 | the walking order lists every token once and nothing else; the rules are one per token in that order |
| Svg.TagLines | fileDAG.py:124-131 | fails exactly when the closed-form loop fails; otherwise the array holds the annotated lines and the set holds the tokens of their marker lines |
| Svg.AddSvgStyle | fileDAG.py:118-140 | raises IndexError exactly when the last line is a marker; otherwise every token gets one rule, and the joined annotated lines have `</svg>` replaced by the stylesheet |

## Left out

- `main` is not modelled: it builds the pydot graph, writes and deletes a temporary SVG file, and writes to standard output.
- `read_stdin`, `write_stdout`, `print_help` and the terminal and help-flag check are not modelled; they are input and output.
- `Node` and `Edge` are not modelled: they wrap pydot, which is not part of this model.
- Opening the file in `add_svg_style` is not modelled; the model starts from the sequence of lines it reads.
- `csv.DictReader` is not modelled: a summary row arrives with its `output_file` and `input-file(s)` columns already read.
- Styles.Rainbow: hues are exact fractions i/n, not `round(i*step, 3)` formatted as text. With more than 1000 colours, two hues round to the same three decimals (for n = 1001, 500/1001 and 501/1001 both give 0.5). The model does not capture that.
- Graph.SourceColorsDistinct: holds of the exact hues. In the program, distinct sources get distinct colour strings only up to 1000 source nodes.
- Svg.HoverRules: the order in which Python walks the token set is unspecified. It is an output `order`, and properties hold for every order.
- Svg.RewriteClass: the regular expression is modelled as a left-to-right scan for its two literal texts. Backslash escapes in the replacement template are not modelled; tokens are assumed to hold no backslash.
- Graph.Digraph: `self.edges` is the same list object as `self.edge_list`. The model keeps the one field `edgeList`.
- Graph.Digraph.SetNodeColors: the two loops of `_set_node_colors` are the helper methods `ColorSources` and `StyleNodes`.
- Graph.NewDigraph: a Python constructor that raises returns no object. Here the object is allocated and then reported as a failure.
