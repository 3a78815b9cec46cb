/** The `Digraph` class of fileDAG: the deduplicated edge list, the sorted
    node, source and target lists derived from it, the colour of every
    source node and the style of every node, and the queries on them. */
module Graph {
  import opened Results
  import opened Seqs
  import opened Order
  import opened Text
  import opened Styles

  /** A dependency edge: file `src` is an input of file `tgt`. */
  datatype Edge = Edge(src: string, tgt: string)

  /** What `node_path_attrs` returns. */
  datatype PathAttrs = PathAttrs(basedir: string, stem: string, path: string)

  /** What `node_attrs` returns: the path attributes plus the colour and
      the style handed to the renderer. */
  datatype Attrs = Attrs(basedir: string, stem: string, path: string, srcColor: Color, dirStyle: string)

  /** The edges with repeats dropped, each kept where it first appears:
      the value the constructor's loop builds, one input edge at a time. */
  function Dedup(es: seq<Edge>): (r: seq<Edge>)
    ensures NoDup(r)
    ensures forall x :: x in r <==> x in es
  {
    if |es| == 0 then []
    else
      var d := Dedup(es[..|es| - 1]);
      var e := es[|es| - 1];
      assert es == es[..|es| - 1] + [e];
      if e in d then d else d + [e]
  }

  /** An edge of the prefix keeps its first position when the list grows. */
  lemma FirstIndexOfPrefix(es: seq<Edge>, x: Edge)
    requires |es| > 0 && x in es[..|es| - 1]
    ensures FirstIndex(es, x) == FirstIndex(es[..|es| - 1], x)
  {
    var p := es[..|es| - 1];
    var i := FirstIndex(p, x);
    assert es[..i] == p[..i];
    FirstIndexUnique(es, x, i);
  }

  /** The kept edges appear in the order of their first occurrence. Together
      with the contract of `Dedup` this pins the result down: exactly the
      distinct input edges, in first-seen order. */
  lemma {:induction false} DedupFirstSeenOrder(es: seq<Edge>)
    ensures forall p, q :: 0 <= p < q < |Dedup(es)| ==>
      Dedup(es)[p] in es && Dedup(es)[q] in es &&
      FirstIndex(es, Dedup(es)[p]) < FirstIndex(es, Dedup(es)[q])
  {
    var d := Dedup(es);
    if |es| > 0 {
      var n := |es| - 1;
      var pre, e := es[..n], es[n];
      var d' := Dedup(pre);
      DedupFirstSeenOrder(pre);
      forall y | y in d' ensures FirstIndex(es, y) == FirstIndex(pre, y) {
        FirstIndexOfPrefix(es, y);
      }
      if e in d' {
        assert d == d';
      } else {
        assert es[..n] == pre;
        FirstIndexUnique(es, e, n);
        assert d == d' + [e];
        forall p, q | 0 <= p < q < |d|
          ensures FirstIndex(es, d[p]) < FirstIndex(es, d[q])
        {
          assert d[p] == d'[p] && d[p] in d';
          if q < |d'| {
            assert d[q] == d'[q] && d[q] in d';
          } else {
            assert FirstIndex(es, d[p]) < n;
          }
        }
      }
    }
  }

  /** The source of every edge, in edge order. */
  function Sources(es: seq<Edge>): (r: seq<string>)
    ensures |r| == |es|
  {
    seq(|es|, i requires 0 <= i < |es| => es[i].src)
  }

  /** The target of every edge, in edge order. */
  function Targets(es: seq<Edge>): (r: seq<string>)
    ensures |r| == |es|
  {
    seq(|es|, i requires 0 <= i < |es| => es[i].tgt)
  }

  /** Both ends of every edge: `n for e in edge_list for n in e`. */
  function Endpoints(es: seq<Edge>): (r: seq<string>)
    ensures |r| == 2 * |es|
  {
    if |es| == 0 then [] else [es[0].src, es[0].tgt] + Endpoints(es[1..])
  }

  /** A file is a node exactly when it is the source or the target of some edge. */
  lemma {:induction false} EndpointsElems(es: seq<Edge>)
    ensures Elems(Endpoints(es)) == Elems(Sources(es)) + Elems(Targets(es))
  {
    if |es| > 0 {
      EndpointsElems(es[1..]);
      assert Sources(es) == [es[0].src] + Sources(es[1..]);
      assert Targets(es) == [es[0].tgt] + Targets(es[1..]);
      ElemsConcat([es[0].src, es[0].tgt], Endpoints(es[1..]));
      ElemsConcat([es[0].src], Sources(es[1..]));
      ElemsConcat([es[0].tgt], Targets(es[1..]));
    }
  }

  /** The top-level directory of every node, in node order. */
  function Basedirs(nodes: seq<string>): (r: seq<string>)
    ensures |r| == |nodes|
  {
    seq(|nodes|, i requires 0 <= i < |nodes| => Digraph.NodePathAttrs(nodes[i]).basedir)
  }

  /** `{d: styles[i] for i, d in enumerate(basedirs)}` with
      `styles = node_style(len(basedirs))`. */
  function DirStyleTable(basedirs: seq<string>, styles: seq<string>): (t: map<string, string>)
    requires NoDup(basedirs) && |styles| == |basedirs|
    ensures t.Keys == Elems(basedirs)
    ensures forall i :: 0 <= i < |basedirs| ==> t[basedirs[i]] == styles[i]
  {
    map i | 0 <= i < |basedirs| :: basedirs[i] := styles[i]
  }

  /** The edge matches the `src` and `tgt` filters; `None` matches anything. */
  predicate Matches(e: Edge, src: Option<string>, tgt: Option<string>)
  {
    (src.None? || e.src == src.value) && (tgt.None? || e.tgt == tgt.value)
  }

  /** `[(s, t) for s, t in es if ...]`: the matching edges, in list order. */
  function Select(es: seq<Edge>, src: Option<string>, tgt: Option<string>): (r: seq<Edge>)
    ensures |r| <= |es|
  {
    if |es| == 0 then []
    else (if Matches(es[0], src, tgt) then [es[0]] else []) + Select(es[1..], src, tgt)
  }

  /** An edge is selected exactly when it is in the list and matches. */
  lemma {:induction false} SelectMembers(es: seq<Edge>, src: Option<string>, tgt: Option<string>)
    ensures forall e :: e in Select(es, src, tgt) <==> e in es && Matches(e, src, tgt)
  {
    if |es| > 0 {
      SelectMembers(es[1..], src, tgt);
      assert es == [es[0]] + es[1..];
    }
  }

  /** Filtering keeps the order of the list: it distributes over concatenation. */
  lemma {:induction false} SelectConcat(a: seq<Edge>, b: seq<Edge>, src: Option<string>, tgt: Option<string>)
    ensures Select(a + b, src, tgt) == Select(a, src, tgt) + Select(b, src, tgt)
  {
    if |a| > 0 {
      var rest := a[1..];
      assert (a + b)[0] == a[0] && (a + b)[1..] == rest + b;
      SelectConcat(rest, b, src, tgt);
      var head: seq<Edge> := if Matches(a[0], src, tgt) then [a[0]] else [];
      var p, q := Select(rest, src, tgt), Select(b, src, tgt);
      assert head + (p + q) == (head + p) + q;
    } else {
      assert a + b == b;
    }
  }

  /** A filtered list of distinct edges has distinct edges. */
  lemma {:induction false} SelectNoDup(es: seq<Edge>, src: Option<string>, tgt: Option<string>)
    requires NoDup(es)
    ensures NoDup(Select(es, src, tgt))
  {
    if |es| > 0 {
      assert NoDup(es[1..]) by {
        forall i, j | 0 <= i < j < |es[1..]| ensures es[1..][i] != es[1..][j] {
          assert es[1..][i] == es[i + 1] && es[1..][j] == es[j + 1];
        }
      }
      SelectNoDup(es[1..], src, tgt);
      SelectMembers(es[1..], src, tgt);
      assert es[0] !in es[1..] by {
        forall k | 0 <= k < |es[1..]| ensures es[1..][k] != es[0] {
          assert es[1..][k] == es[k + 1];
        }
      }
    }
  }

  class Digraph {
    /** The deduplicated edges; the source also exposes this list as `edges`. */
    const edgeList: seq<Edge>
    const nodes: seq<string>
    const srcNodes: seq<string>
    const tgtNodes: seq<string>
    const nSrc: nat
    const nTgt: nat
    const basedirs: seq<string>
    const nBasedir: nat
    var srcColor: map<string, Color>
    var dirStyle: map<string, string>

    /** The fields `__init__` derives from the edge list before colouring. */
    ghost predicate Derived()
    {
      && NoDup(edgeList)
      && nodes == SortedSet(Endpoints(edgeList))
      && srcNodes == SortedSet(Sources(edgeList))
      && tgtNodes == SortedSet(Targets(edgeList))
      && nSrc == |srcNodes|
      && nTgt == |tgtNodes|
      && basedirs == SortedSet(Basedirs(nodes))
      && nBasedir == |basedirs|
    }

    /** `src_color` gives the `i`-th source the `i`-th entry of the reversed
        rainbow, and no other node a colour. */
    ghost predicate SourcesColored()
      reads this`srcColor
    {
      && nSrc > 0
      && nSrc == |srcNodes|
      && srcColor.Keys == Elems(srcNodes)
      && (forall i :: 0 <= i < nSrc ==>
            srcColor[srcNodes[i]] == Reversed(Rainbow(nSrc, Some(1)).value)[i])
    }

    /** `dir_style` gives every node the entry of `table` for its
        top-level directory. */
    ghost predicate NodesStyledBy(table: map<string, string>)
      reads this`dirStyle
    {
      && dirStyle.Keys == Elems(nodes)
      && (forall n :: n in dirStyle ==>
            && NodePathAttrs(n).basedir in table
            && dirStyle[n] == table[NodePathAttrs(n).basedir])
    }

    /** `dir_style` gives every node the code of its top-level directory. */
    ghost predicate NodesStyled()
      reads this`dirStyle
    {
      && NoDup(basedirs)
      && NodesStyledBy(DirStyleTable(basedirs, NodeStyle(|basedirs|)))
    }

    /** A fully built graph. */
    ghost predicate Valid()
      reads this
    {
      Derived() && SourcesColored() && NodesStyled()
    }

    /** `__init__` up to the call of `_set_node_colors`: deduplicate the
        edges in a loop, then derive the sorted node lists. */
    constructor (input: seq<Edge>)
      ensures Derived()
      ensures edgeList == Dedup(input)
      ensures srcColor == map[] && dirStyle == map[]
      ensures nSrc == 0 <==> |input| == 0
    {
      var list: seq<Edge> := [];
      var i := 0;
      while i < |input|
        invariant 0 <= i <= |input|
        invariant list == Dedup(input[..i])
      {
        var e := input[i];
        if e !in list {
          list := list + [e];
        }
        assert input[..i + 1][..i] == input[..i];
        i := i + 1;
      }
      assert input[..|input|] == input;
      var all := SortedSet(Endpoints(list));
      var sources := SortedSet(Sources(list));
      var targets := SortedSet(Targets(list));
      var dirs := SortedSet(Basedirs(all));
      edgeList := list;
      nodes, srcNodes, tgtNodes := all, sources, targets;
      nSrc, nTgt := |sources|, |targets|;
      basedirs, nBasedir := dirs, |dirs|;
      srcColor, dirStyle := map[], map[];
      new;
      ColoringReady();
      if |input| > 0 {
        assert input[0] in edgeList;
      }
    }

    /** What `_set_node_colors` relies on from the derived fields; there
        is a source node exactly when there is an edge. */
    lemma ColoringReady()
      requires Derived()
      ensures nSrc == |srcNodes| && NoDup(srcNodes)
      ensures nBasedir == |basedirs| && NoDup(basedirs) && Elems(basedirs) == Elems(Basedirs(nodes))
      ensures nSrc == 0 <==> |edgeList| == 0
    {
      ElemsEmpty(edgeList);
      ElemsEmpty(Sources(edgeList));
      ElemsEmpty(srcNodes);
    }

    /** `_set_node_colors`: one rainbow colour per source node, handed out in
        reverse, and one style per top-level directory. With no source node
        `rainbow(0)` divides by zero and nothing is filled in. */
    method SetNodeColors() returns (o: Outcome)
      requires Derived() && srcColor == map[] && dirStyle == map[]
      modifies this`srcColor, this`dirStyle
      ensures o.Fail? <==> nSrc == 0
      ensures o.Fail? ==> o.error == ZeroDivisionError && srcColor == map[] && dirStyle == map[]
      ensures o.Pass? ==> Valid()
    {
      ColoringReady();
      var rainbow := Rainbow(nSrc, Some(1));
      if rainbow.Failure? {
        return Fail(rainbow.error);
      }
      ColorSources(Reversed(rainbow.value));
      var styles := DirStyleTable(basedirs, NodeStyle(nBasedir));
      StyleNodes(styles);
      o := Pass;
    }

    /** The first loop of `_set_node_colors`: the `i`-th source node gets
        the `i`-th colour. */
    method ColorSources(colors: seq<Color>)
      requires |colors| == |srcNodes| && NoDup(srcNodes) && srcColor == map[]
      modifies this`srcColor
      ensures srcColor.Keys == Elems(srcNodes)
      ensures forall j :: 0 <= j < |srcNodes| ==> srcColor[srcNodes[j]] == colors[j]
    {
      var i := 0;
      while i < |srcNodes|
        invariant 0 <= i <= |srcNodes|
        invariant srcColor.Keys == Elems(srcNodes[..i])
        invariant forall j :: 0 <= j < i ==> srcColor[srcNodes[j]] == colors[j]
      {
        assert srcNodes[..i + 1] == srcNodes[..i] + [srcNodes[i]];
        ElemsConcat(srcNodes[..i], [srcNodes[i]]);
        srcColor := srcColor[srcNodes[i] := colors[i]];
        i := i + 1;
      }
      assert srcNodes[..i] == srcNodes;
    }

    /** The second loop of `_set_node_colors`: every node gets the entry of
        `styles` for its top-level directory. */
    method StyleNodes(styles: map<string, string>)
      requires Elems(Basedirs(nodes)) <= styles.Keys && dirStyle == map[]
      modifies this`dirStyle
      ensures NodesStyledBy(styles)
    {
      var i := 0;
      while i < |nodes|
        invariant 0 <= i <= |nodes|
        invariant dirStyle.Keys == Elems(nodes[..i])
        invariant forall n :: n in dirStyle ==>
          NodePathAttrs(n).basedir in styles && dirStyle[n] == styles[NodePathAttrs(n).basedir]
      {
        var d := NodePathAttrs(nodes[i]).basedir;
        assert d == Basedirs(nodes)[i];
        assert d in Elems(Basedirs(nodes));
        assert nodes[..i + 1] == nodes[..i] + [nodes[i]];
        ElemsConcat(nodes[..i], [nodes[i]]);
        dirStyle := dirStyle[nodes[i] := styles[d]];
        i := i + 1;
      }
      assert nodes[..i] == nodes;
    }

    /** `get_edges(src, tgt)`: the edges that match the given filters, in
        list order; with no filter, the edge list itself. */
    function GetEdges(src: Option<string>, tgt: Option<string>): (r: seq<Edge>)
      reads this
      ensures forall e :: e in r <==> e in edgeList && Matches(e, src, tgt)
      ensures src.None? && tgt.None? ==> r == edgeList
    {
      if src.None? && tgt.None? then edgeList
      else
        SelectMembers(edgeList, src, tgt);
        Select(edgeList, src, tgt)
    }

    /** `node_path_attrs(node)`: `basedir` is the text before the first `/`,
        `stem` the text after the last `/`, `path` the node itself. */
    static function NodePathAttrs(node: string): (r: PathAttrs)
      ensures r.path == node
      ensures '/' !in r.basedir && '/' !in r.stem
    {
      var p := Split(node, '/');
      PathAttrs(p[0], p[|p| - 1], node)
    }

    /** `node_attrs(node)`: the path attributes with the source colour
        (`"grey"` for a node that has none) and the directory style
        (`"black"` for a node that has none). */
    function NodeAttrs(node: string): (r: Attrs)
      reads this
      ensures r.path == node
      ensures r.basedir == NodePathAttrs(node).basedir && r.stem == NodePathAttrs(node).stem
    {
      var p := NodePathAttrs(node);
      Attrs(p.basedir, p.stem, p.path,
                if node in srcColor then srcColor[node] else Named("grey"),
                if node in dirStyle then dirStyle[node] else "black")
    }
  }

  /** `Digraph(edge_list)`: the whole of `__init__`, which raises
      `ZeroDivisionError` from `rainbow(0)` for an empty edge list. */
  method NewDigraph(input: seq<Edge>) returns (r: Result<Digraph>)
    ensures r.Failure? <==> |input| == 0
    ensures r.Failure? ==> r.error == ZeroDivisionError
    ensures r.Success? ==> fresh(r.value) && r.value.Valid() && r.value.edgeList == Dedup(input)
  {
    var g := new Digraph(input);
    var o := g.SetNodeColors();
    if o.Fail? {
      return Failure(o.error);
    }
    return Success(g);
  }

  /** `node_path_attrs`: the base directory and the stem hold no `/`; a
      name without `/` is its own base directory and stem, and otherwise
      the name starts with `basedir/` and ends with `/stem`. */
  lemma NodePathAttrsParts(node: string)
    ensures var r := Digraph.NodePathAttrs(node);
      && '/' !in r.basedir && '/' !in r.stem
      && ('/' !in node ==> r.basedir == node && r.stem == node)
      && ('/' in node ==> StartsWith(node, r.basedir + "/") && EndsWith(node, "/" + r.stem))
  {
    var p := Split(node, '/');
    JoinSplit(node, '/');
    CountZero(node, '/');
    if |p| >= 2 {
      JoinStart(p, '/');
      JoinEnd(p, '/');
    }
  }

  /** `sorted(set(s for s, t in es))` holds exactly the sources of the edges. */
  lemma SourceNodesMembers(es: seq<Edge>)
    ensures forall n :: n in SortedSet(Sources(es)) <==> exists e :: e in es && e.src == n
  {
    forall n ensures n in SortedSet(Sources(es)) <==> exists e :: e in es && e.src == n {
      assert n in SortedSet(Sources(es)) <==> n in Elems(Sources(es));
      if n in Sources(es) {
        var k :| 0 <= k < |es| && Sources(es)[k] == n;
        assert es[k] in es;
      }
      if exists e :: e in es && e.src == n {
        var e :| e in es && e.src == n;
        var k :| 0 <= k < |es| && es[k] == e;
        assert Sources(es)[k] == n;
      }
    }
  }

  /** `sorted(set(t for s, t in es))` holds exactly the targets of the edges. */
  lemma TargetNodesMembers(es: seq<Edge>)
    ensures forall n :: n in SortedSet(Targets(es)) <==> exists e :: e in es && e.tgt == n
  {
    forall n ensures n in SortedSet(Targets(es)) <==> exists e :: e in es && e.tgt == n {
      assert n in SortedSet(Targets(es)) <==> n in Elems(Targets(es));
      if n in Targets(es) {
        var k :| 0 <= k < |es| && Targets(es)[k] == n;
        assert es[k] in es;
      }
      if exists e :: e in es && e.tgt == n {
        var e :| e in es && e.tgt == n;
        var k :| 0 <= k < |es| && es[k] == e;
        assert Targets(es)[k] == n;
      }
    }
  }

  /** The node list holds exactly the sources and the targets. */
  lemma AllNodesMembers(es: seq<Edge>)
    ensures forall n :: n in SortedSet(Endpoints(es)) <==>
      n in SortedSet(Sources(es)) || n in SortedSet(Targets(es))
  {
    EndpointsElems(es);
    forall n ensures n in SortedSet(Endpoints(es)) <==>
      n in SortedSet(Sources(es)) || n in SortedSet(Targets(es))
    {
      assert n in SortedSet(Endpoints(es)) <==> n in Elems(Endpoints(es));
      assert n in SortedSet(Sources(es)) <==> n in Elems(Sources(es));
      assert n in SortedSet(Targets(es)) <==> n in Elems(Targets(es));
    }
  }

  /** The kept edges are the input edges; a file is a source node exactly
      when it starts an input edge, a target node exactly when it ends one,
      and a node exactly when it is either; all three lists are strictly
      increasing. */
  lemma NodeSets(g: Digraph, input: seq<Edge>)
    requires g.Derived() && g.edgeList == Dedup(input)
    ensures forall e :: e in g.edgeList <==> e in input
    ensures forall n :: n in g.srcNodes <==> exists e :: e in input && e.src == n
    ensures forall n :: n in g.tgtNodes <==> exists e :: e in input && e.tgt == n
    ensures forall n :: n in g.nodes <==> n in g.srcNodes || n in g.tgtNodes
    ensures StrictlySorted(g.nodes) && StrictlySorted(g.srcNodes) && StrictlySorted(g.tgtNodes)
  {
    var es := g.edgeList;
    SourceNodesMembers(es);
    TargetNodesMembers(es);
    AllNodesMembers(es);
  }

  /** Filtering on both ends of a list without repeats yields that one edge
      when it is present and nothing otherwise. */
  lemma {:induction false} SelectBoth(es: seq<Edge>, s: string, t: string)
    requires NoDup(es)
    ensures Select(es, Some(s), Some(t)) == if Edge(s, t) in es then [Edge(s, t)] else []
  {
    if |es| > 0 {
      assert NoDup(es[1..]) by {
        forall i, j | 0 <= i < j < |es[1..]| ensures es[1..][i] != es[1..][j] {
          assert es[1..][i] == es[i + 1] && es[1..][j] == es[j + 1];
        }
      }
      SelectBoth(es[1..], s, t);
      if es[0] == Edge(s, t) {
        assert es[0] !in es[1..] by {
          forall k | 0 <= k < |es[1..]| ensures es[1..][k] != es[0] {
            assert es[1..][k] == es[k + 1];
          }
        }
      } else {
        assert Edge(s, t) in es <==> Edge(s, t) in es[1..] by {
          assert es == [es[0]] + es[1..];
        }
      }
    }
  }

  /** `get_edges(src, tgt)` with both filters set: the edge itself when the
      graph has it, and an empty list otherwise. */
  lemma GetEdgesBoth(g: Digraph, s: string, t: string)
    requires g.Derived()
    ensures g.GetEdges(Some(s), Some(t)) == if Edge(s, t) in g.edgeList then [Edge(s, t)] else []
  {
    SelectBoth(g.edgeList, s, t);
  }

  /** The colour of the `i`-th source node in sorted order is the rainbow
      colour with hue `(n - 1 - i) / n`: the last source gets hue 0, the
      first the largest; all carry alpha 1. */
  lemma SourceHue(g: Digraph, i: nat)
    requires g.SourcesColored() && i < g.nSrc
    ensures var c := g.srcColor[g.srcNodes[i]];
      && c.Hsv?
      && c.hue * g.nSrc as real == (g.nSrc - 1 - i) as real
      && c.saturation == Saturation && c.value == Value && c.alpha == Some(1)
  {
    var rb := Rainbow(g.nSrc, Some(1)).value;
    assert Reversed(rb)[i] == rb[g.nSrc - 1 - i];
  }

  /** No two source nodes share a colour. */
  lemma SourceColorsDistinct(g: Digraph, i: nat, j: nat)
    requires g.SourcesColored() && i < g.nSrc && j < g.nSrc && i != j
    ensures g.srcColor[g.srcNodes[i]] != g.srcColor[g.srcNodes[j]]
  {
    var n := g.nSrc;
    var rb := Rainbow(n, Some(1)).value;
    assert Reversed(rb)[i] == rb[n - 1 - i];
    assert Reversed(rb)[j] == rb[n - 1 - j];
    RainbowSpacing(n, Some(1), n - 1 - i, n - 1 - j);
  }

  /** `node_attrs` falls back to `"grey"` exactly for the nodes that are not
      sources, and to `"black"` exactly for the names that are not nodes. */
  lemma NodeAttrsFallback(g: Digraph, node: string)
    requires g.SourcesColored() && g.NodesStyled()
    ensures g.NodeAttrs(node).srcColor == Named("grey") <==> node !in g.srcNodes
    ensures node !in g.nodes ==> g.NodeAttrs(node).dirStyle == "black"
    ensures node in g.nodes ==> g.NodeAttrs(node).dirStyle in NodeStyle(|g.basedirs|)
  {
    assert node in g.srcColor <==> node in Elems(g.srcNodes);
    if node in g.srcNodes {
      var i :| 0 <= i < g.nSrc && g.srcNodes[i] == node;
      SourceHue(g, i);
    }
    assert node in g.dirStyle <==> node in Elems(g.nodes);
    if node in g.nodes {
      var d := Digraph.NodePathAttrs(node).basedir;
      assert d in Elems(g.basedirs);
      var k :| 0 <= k < |g.basedirs| && g.basedirs[k] == d;
      assert g.dirStyle[node] == NodeStyle(|g.basedirs|)[k];
    }
  }

  /** Nodes under the same top-level directory share a style. */
  lemma SameBasedirSameStyle(g: Digraph, a: string, b: string)
    requires g.NodesStyled() && a in g.nodes && b in g.nodes
    requires Digraph.NodePathAttrs(a).basedir == Digraph.NodePathAttrs(b).basedir
    ensures g.NodeAttrs(a).dirStyle == g.NodeAttrs(b).dirStyle
  {
    assert a in Elems(g.nodes) && b in Elems(g.nodes);
  }

  /** With at most eight top-level directories, nodes under different
      directories get different styles. */
  lemma DistinctBasedirsDistinctStyles(g: Digraph, a: string, b: string)
    requires g.NodesStyled() && a in g.nodes && b in g.nodes && |g.basedirs| <= 8
    requires Digraph.NodePathAttrs(a).basedir != Digraph.NodePathAttrs(b).basedir
    ensures g.NodeAttrs(a).dirStyle != g.NodeAttrs(b).dirStyle
  {
    assert a in Elems(g.nodes) && b in Elems(g.nodes);
    var da, db := Digraph.NodePathAttrs(a).basedir, Digraph.NodePathAttrs(b).basedir;
    assert da in Elems(g.basedirs) && db in Elems(g.basedirs);
    var i :| 0 <= i < |g.basedirs| && g.basedirs[i] == da;
    var j :| 0 <= j < |g.basedirs| && g.basedirs[j] == db;
    NodeStyleDistinct(|g.basedirs|);
    assert i != j;
  }
}
