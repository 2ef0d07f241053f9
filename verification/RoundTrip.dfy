/** Printing a node and parsing it back. */
module RoundTrip {
  import opened Wrappers
  import opened OrderedDict
  import opened DeviceTree
  import opened Dtc
  import opened NodePrinter
  import opened TreeParser

  ghost predicate NoPhandle(nodes: Nodes) {
    forall k | k in nodes.at :: PHANDLE !in nodes.at[k].props.at
  }

  ghost predicate PhandlesInCells(nodes: Nodes) {
    forall k | k in nodes.at && PHANDLE in nodes.at[k].props.at :: nodes.at[k].props.at[PHANDLE].Cells?
  }

  lemma {:induction false} PropsDepth(props: Dict<string, Value>, keys: seq<string>, indent: nat)
    requires forall k | k in keys :: k in props.at
    requires PHANDLE in props.at ==> props.at[PHANDLE].Cells?
    ensures Depth(PropLines(props, keys, indent), indent) == Some(indent)
    decreases keys
  {
    if keys != [] {
      PropsDepth(props, keys[1..], indent);
      var lines := PropLines(props, keys, indent);
      assert lines[1..] == PropLines(props, keys[1..], indent);
    }
  }

  lemma DepthOne(line: Line, depth: nat)
    ensures Depth([line], depth) == DepthAfter(line, depth)
  {
    var next := DepthAfter(line, depth);
    if next.Some? {
      assert Depth([], next.value) == next;
    }
  }

  /** What is printed is indented by its depth. */
  lemma {:induction false} EmitDepth(path: string, nodes: Nodes, indent: nat)
    requires ValidDicts(nodes) && PhandlesInCells(nodes) && path in nodes.at
    ensures Depth(EmitNode(path, nodes, indent), indent) == Some(indent)
    decreases Longer(nodes, path)
  {
    var n := nodes.at[path];
    var props := PropLines(n.props, n.props.keys, indent + 1);
    var cs := ChildKeys(nodes.keys, path);
    var body := EmitAll(path, cs, nodes, indent + 1);
    var end := [Line(indent, Close)];
    DepthOne(OpenLine(n, indent), indent);
    PropsDepth(n.props, n.props.keys, indent + 1);
    DepthAppend([OpenLine(n, indent)], props, indent);
    EmitAllDepth(path, cs, nodes, indent + 1);
    DepthAppend(HeadLines(n, indent), body, indent);
    DepthOne(Line(indent, Close), indent + 1);
    DepthAppend(HeadLines(n, indent) + body, end, indent);
  }

  lemma {:induction false} EmitAllDepth(path: string, children: seq<string>, nodes: Nodes, indent: nat)
    requires ValidDicts(nodes) && PhandlesInCells(nodes) && path in nodes.at
    requires forall c | c in children :: c in nodes.at && IsChildKey(path, c)
    ensures Depth(EmitAll(path, children, nodes, indent), indent) == Some(indent)
    decreases Longer(nodes, path), |children|
  {
    if children != [] {
      var c := children[0];
      assert IsChildKey(path, c);
      assert c in Longer(nodes, path) && c !in Longer(nodes, c);
      EmitDepth(c, nodes, indent);
      EmitAllDepth(path, children[1..], nodes, indent);
      DepthAppend(EmitNode(c, nodes, indent), EmitAll(path, children[1..], nodes, indent), indent);
    }
  }

  lemma RootSubtree(nodes: Nodes)
    requires WellFormed(nodes)
    ensures SubtreeKeys(nodes, "/") == nodes.at.Keys && Subtree(nodes, "/") == Meaning(nodes)
  {
    forall k | k in nodes.at ensures InSubtree("/", k) {
      AllBelowRoot(nodes, k);
    }
  }

  /** The nodes filed under `keys`. */
  function Those(nodes: Nodes, keys: set<string>): map<string, Node> {
    map k | k in nodes.at && k in keys :: nodes.at[k]
  }

  lemma ThoseUnion(nodes: Nodes, a: set<string>, b: set<string>)
    ensures Those(nodes, a + b) == Those(nodes, a) + Those(nodes, b)
  {
  }

  lemma {:induction false} ParseAppendAll(ps: ParseState, a: seq<Line>, b: seq<Line>)
    requires Known(ps)
    ensures ParseFrom(ps, a + b) == ParseFrom(ParseFrom(ps, a), b)
    decreases a
  {
    if a == [] {
      assert a + b == b;
    } else {
      assert (a + b)[1..] == a[1..] + b;
      ParseAppendAll(ParseLine(ps, a[0]), a[1..], b);
    }
  }

  lemma ParseOne(ps: ParseState, line: Line)
    requires Known(ps)
    ensures ParseFrom(ps, [line]) == ParseLine(ps, line)
  {
    assert ParseFrom(ParseLine(ps, line), []) == ParseLine(ps, line);
  }

  /** The parser is in the node at `path`. */
  ghost predicate InNode(ps: ParseState, path: string) {
    Known(ps) && ps.stack != [] && Join(ps.stack) == path && path in ps.nodes.at
  }

  /** The parser after the node it is in has been given these properties. */
  ghost predicate Given(before: ParseState, after: ParseState, path: string, props: Dict<string, Value>)
    requires InNode(before, path)
  {
    && InNode(after, path) && after.stack == before.stack
    && after.nodes.at == before.nodes.at[path := before.nodes.at[path].(props := props)]
  }

  lemma ParseProperty(ps: ParseState, path: string, indent: nat, key: string, value: Value)
    requires InNode(ps, path) && key != PHANDLE
    ensures Given(ps, ParseLine(ps, Line(indent, Property(key, value))), path, ps.nodes.at[path].props.Set(key, value))
  {
    assert ps.stack[..|ps.stack|] == ps.stack;
  }

  lemma GivenTwice(a: ParseState, b: ParseState, c: ParseState, path: string, p: Dict<string, Value>, q: Dict<string, Value>)
    requires InNode(a, path) && Given(a, b, path, p) && Given(b, c, path, q)
    ensures Given(a, c, path, q)
  {
  }

  /** A dictionary with these keys of another one filed after its own. */
  function Filed(d: Dict<string, Value>, props: Dict<string, Value>, keys: seq<string>): Dict<string, Value> {
    Dict(d.keys + keys, d.at + Pick(props.at, keys))
  }

  lemma FiledStep(d: Dict<string, Value>, props: Dict<string, Value>, keys: seq<string>)
    requires d.Valid() && keys != [] && keys[0] in props.at && keys[0] !in d.keys
    ensures Filed(d.Set(keys[0], props.at[keys[0]]), props, keys[1..]) == Filed(d, props, keys)
  {
    var next := d.Set(keys[0], props.at[keys[0]]);
    assert next == Dict(d.keys + [keys[0]], d.at[keys[0] := props.at[keys[0]]]);
    PickStep(d.at, props.at, keys);
    assert d.keys + [keys[0]] + keys[1..] == d.keys + keys;
  }

  /** These keys are new to the dictionary, each once. */
  ghost predicate NewKeys(d: Dict<string, Value>, keys: seq<string>) {
    && (forall i, j :: 0 <= i < j < |keys| ==> keys[i] != keys[j])
    && forall k | k in keys :: k !in d.keys
  }

  lemma NewKeysLeft(d: Dict<string, Value>, keys: seq<string>, value: Value)
    requires d.Valid() && keys != [] && NewKeys(d, keys)
    ensures keys[0] !in d.keys && NewKeys(d.Set(keys[0], value), keys[1..])
  {
    assert d.Set(keys[0], value).keys == d.keys + [keys[0]];
  }

  lemma {:induction false} ParseProps(ps: ParseState, path: string, props: Dict<string, Value>, keys: seq<string>, indent: nat)
    requires InNode(ps, path) && (forall k | k in keys :: k in props.at && k != PHANDLE)
    requires NewKeys(ps.nodes.at[path].props, keys)
    ensures Given(ps, ParseFrom(ps, PropLines(props, keys, indent)), path, Filed(ps.nodes.at[path].props, props, keys))
    decreases keys
  {
    var d := ps.nodes.at[path].props;
    if keys == [] {
      FiledNone(d, props);
    } else {
      var line := Line(indent, Property(keys[0], props.at[keys[0]]));
      var next, lines := ParseLine(ps, line), PropLines(props, keys[1..], indent);
      NewKeysLeft(d, keys, props.at[keys[0]]);
      ParseProperty(ps, path, indent, keys[0], props.at[keys[0]]);
      ParseProps(next, path, props, keys[1..], indent);
      FiledStep(d, props, keys);
      GivenTwice(ps, next, ParseFrom(next, lines), path, next.nodes.at[path].props, Filed(d, props, keys));
      ParseAppendAll(ps, [line], lines);
      ParseOne(ps, line);
    }
  }

  lemma FiledNone(d: Dict<string, Value>, props: Dict<string, Value>)
    ensures Filed(d, props, []) == d
  {
    assert Pick(props.at, []) == map[];
  }

  /** The parser before the lines of the node at `path`, which has this name. */
  ghost predicate Before(ps: ParseState, path: string, name: string, indent: nat) {
    Known(ps) && |ps.stack| == indent && Join(ps.stack + [name]) == path
  }

  lemma ParseOpen(ps: ParseState, path: string, n: Node, indent: nat)
    requires Before(ps, path, n.name, indent)
    ensures var next := ParseLine(ps, OpenLine(n, indent));
            && InNode(next, path) && next.stack == ps.stack + [n.name]
            && next.nodes.at == ps.nodes.at[path := Node(n.tag, n.name, Empty())]
  {
    assert Upto(ps.stack, indent) == ps.stack;
    assert n.tag.Some? ==> HeadText([n.tag.value][1..], n.name) == n.name;
  }

  lemma FiledAll(props: Dict<string, Value>)
    requires props.Valid()
    ensures Filed(Empty(), props, props.keys) == props
  {
    assert Pick(props.at, props.keys) == props.at;
    assert map[] + props.at == props.at && [] + props.keys == props.keys;
  }

  /** A node just opened, given all its properties. */
  lemma ParseAllProps(ps: ParseState, path: string, n: Node, indent: nat)
    requires InNode(ps, path) && ps.nodes.at[path] == Node(n.tag, n.name, Empty())
    requires n.props.Valid() && PHANDLE !in n.props.at
    ensures var end := ParseFrom(ps, PropLines(n.props, n.props.keys, indent));
            InNode(end, path) && end.stack == ps.stack && end.nodes.at == ps.nodes.at[path := n]
  {
    ParseProps(ps, path, n.props, n.props.keys, indent);
    FiledAll(n.props);
  }

  lemma Overwritten(at: map<string, Node>, path: string, a: Node, b: Node)
    ensures at[path := a][path := b] == at[path := b]
  {
  }

  lemma ParseHead(ps: ParseState, path: string, n: Node, indent: nat)
    requires Before(ps, path, n.name, indent) && n.props.Valid() && PHANDLE !in n.props.at
    ensures var next := ParseFrom(ps, HeadLines(n, indent));
            && InNode(next, path) && next.stack == ps.stack + [n.name] && next.nodes.at == ps.nodes.at[path := n]
  {
    var open, props := [OpenLine(n, indent)], PropLines(n.props, n.props.keys, indent + 1);
    ParseOpen(ps, path, n, indent);
    ParseOne(ps, OpenLine(n, indent));
    ParseAllProps(ParseLine(ps, OpenLine(n, indent)), path, n, indent + 1);
    Overwritten(ps.nodes.at, path, Node(n.tag, n.name, Empty()), n);
    ParseAppendAll(ps, open, props);
  }

  lemma ParseClose(ps: ParseState, stack: seq<string>, name: string)
    requires Known(ps) && ps.stack == stack + [name]
    ensures ParseFrom(ps, [Line(|stack|, Close)]) == ps.(stack := stack)
  {
    ParseOne(ps, Line(|stack|, Close));
    assert Upto(ps.stack, |stack|) == stack;
  }

  /** The lines of a node around those of its children. */
  lemma ParseAround(ps: ParseState, path: string, nodes: Nodes, indent: nat, body: seq<Line>)
    requires WellFormed(nodes) && NoPhandle(nodes) && path in nodes.at && Before(ps, path, nodes.at[path].name, indent)
    requires var entered := ParseFrom(ps, HeadLines(nodes.at[path], indent));
             var end := ParseFrom(entered, body);
             && end.stack == entered.stack
             && end.nodes.at == entered.nodes.at + Those(nodes, ForestKeys(nodes, ChildKeys(nodes.keys, path)))
    ensures var end := ParseFrom(ps, HeadLines(nodes.at[path], indent) + body + [Line(indent, Close)]);
            end.stack == ps.stack && end.nodes.at == ps.nodes.at + Those(nodes, SubtreeKeys(nodes, path))
  {
    var n, cs := nodes.at[path], ChildKeys(nodes.keys, path);
    var head, last := HeadLines(n, indent), [Line(indent, Close)];
    ParseHead(ps, path, n, indent);
    ParseAppendAll(ps, head, body);
    ParseAppendAll(ps, head + body, last);
    ParseClose(ParseFrom(ps, head + body), ps.stack, n.name);
    SplitForest(nodes, path);
    ThoseUnion(nodes, {path}, ForestKeys(nodes, cs));
    AddOne(ps.nodes.at, nodes, path, Those(nodes, ForestKeys(nodes, cs)));
  }

  lemma AddOne(at: map<string, Node>, nodes: Nodes, path: string, below: map<string, Node>)
    requires path in nodes.at
    ensures at[path := nodes.at[path]] + below == at + (Those(nodes, {path}) + below)
  {
  }

  /**
   A printed subtree, parsed where it belongs at the depth it was printed for, files exactly that subtree:
   its nodes under their keys, with their labels and their properties in order, and leaves every other
   node, and the parser, where they were.
   */
  lemma {:induction false} PrintParse(ps: ParseState, path: string, nodes: Nodes, indent: nat)
    requires WellFormed(nodes) && NoPhandle(nodes) && path in nodes.at && Before(ps, path, nodes.at[path].name, indent)
    ensures var end := ParseFrom(ps, EmitNode(path, nodes, indent));
            end.stack == ps.stack && end.nodes.at == ps.nodes.at + Those(nodes, SubtreeKeys(nodes, path))
    decreases Longer(nodes, path)
  {
    var cs := ChildKeys(nodes.keys, path);
    ParseHead(ps, path, nodes.at[path], indent);
    PrintParseAll(ParseFrom(ps, HeadLines(nodes.at[path], indent)), path, cs, nodes, indent + 1);
    ParseAround(ps, path, nodes, indent, EmitAll(path, cs, nodes, indent + 1));
  }

  lemma {:induction false} PrintParseAll(ps: ParseState, path: string, children: seq<string>, nodes: Nodes, indent: nat)
    requires WellFormed(nodes) && NoPhandle(nodes) && path in nodes.at
    requires InNode(ps, path) && |ps.stack| == indent
    requires forall c | c in children :: c in nodes.at && IsChildKey(path, c)
    ensures var end := ParseFrom(ps, EmitAll(path, children, nodes, indent));
            end.stack == ps.stack && end.nodes.at == ps.nodes.at + Those(nodes, ForestKeys(nodes, children))
    decreases Longer(nodes, path), |children|
  {
    if children == [] {
      assert ForestKeys(nodes, []) == {};
      assert ps.nodes.at + map[] == ps.nodes.at;
    } else {
      var c := children[0];
      var first, rest := EmitNode(c, nodes, indent), EmitAll(path, children[1..], nodes, indent);
      ChildBefore(ps, path, c, nodes);
      PrintParse(ps, c, nodes, indent);
      var after := ParseFrom(ps, first);
      PrintParseAll(after, path, children[1..], nodes, indent);
      ParseAppendAll(ps, first, rest);
      ForestUnion(nodes, children);
      ThoseUnion(nodes, SubtreeKeys(nodes, c), ForestKeys(nodes, children[1..]));
      SumOfThree(ps.nodes.at, Those(nodes, SubtreeKeys(nodes, c)), Those(nodes, ForestKeys(nodes, children[1..])));
    }
  }

  lemma SumOfThree(a: map<string, Node>, b: map<string, Node>, c: map<string, Node>)
    ensures a + b + c == a + (b + c)
  {
  }

  lemma ChildBefore(ps: ParseState, path: string, c: string, nodes: Nodes)
    requires WellFormed(nodes) && path in nodes.at && InNode(ps, path) && c in nodes.at && IsChildKey(path, c)
    ensures Before(ps, c, nodes.at[c].name, |ps.stack|)
    ensures c in Longer(nodes, path) && c !in Longer(nodes, c)
  {
    ChildOpens(nodes, path, c, [Frame(path, false)]);
    assert (ps.stack + [nodes.at[c].name])[..|ps.stack|] == ps.stack;
  }

  lemma ForestUnion(nodes: Nodes, tops: seq<string>)
    requires tops != []
    ensures ForestKeys(nodes, tops) == SubtreeKeys(nodes, tops[0]) + ForestKeys(nodes, tops[1..])
  {
    forall k | k in nodes.at ensures InForest(tops, k) <==> InSubtree(tops[0], k) || InForest(tops[1..], k) {
      if InSubtree(tops[0], k) {
        assert tops[0] in tops;
      }
      if t :| t in tops[1..] && InSubtree(t, k) {
        assert t in tops;
      }
    }
  }

  lemma AddedLabels(before: Nodes, path: string, nodes: Nodes, end: Nodes)
    requires LabelsUnique(before) && LabelsUnique(nodes)
    requires before.at.Keys !! SubtreeKeys(nodes, path) && NoClash(Meaning(before), Subtree(nodes, path))
    requires end.at == before.at + Those(nodes, SubtreeKeys(nodes, path))
    ensures LabelsUnique(end)
  {
    forall j, k | j in before.at && k in SubtreeKeys(nodes, path) && nodes.at[k].tag.Some?
      ensures before.at[j].tag != nodes.at[k].tag
    {
      var l := nodes.at[k].tag.value;
      assert k in Subtree(nodes, path) && l in Subtree(nodes, path)[k].labels && !HasLabel(Meaning(before), l);
      assert Meaning(before)[j].labels == LabelSet(before.at[j].tag);
    }
  }

  /** And what hung together still does, if no label is taken. */
  lemma AddedIsSound(before: Nodes, path: string, nodes: Nodes, end: Nodes)
    requires Sound(before) && WellFormed(nodes) && LabelsUnique(nodes) && path in nodes.at && ValidDicts(end)
    requires if path == "/" then before.at.Keys == {} else Parent(path) in before.at
    requires before.at.Keys !! SubtreeKeys(nodes, path) && NoClash(Meaning(before), Subtree(nodes, path))
    requires end.at == before.at + Those(nodes, SubtreeKeys(nodes, path))
    ensures Sound(end)
  {
    AddedLabels(before, path, nodes, end);
    assert path == "/" ==> path in SubtreeKeys(nodes, path);
    forall k | k in end.at && k != "/" ensures Placed(end, k) {
      if k in before.at {
        assert Placed(before, k);
      } else {
        assert Placed(nodes, k);
        if k != path {
          AncestorsPresent(nodes, path, k);
        }
      }
    }
  }

  lemma AllThose(nodes: Nodes)
    requires WellFormed(nodes)
    ensures map[] + Those(nodes, SubtreeKeys(nodes, "/")) == nodes.at
  {
    RootSubtree(nodes);
    assert Those(nodes, nodes.at.Keys) == nodes.at;
  }

  /** A whole tree is read back as it was: every node with its label and its properties in order. */
  lemma PrintParseTree(nodes: Nodes)
    requires WellFormed(nodes) && NoPhandle(nodes)
    ensures ParseFrom(Nothing, EmitNode("/", nodes, 0)).nodes.at == nodes.at
  {
    assert Nothing.stack + ["/"] == ["/"] && Before(Nothing, "/", "/", 0);
    PrintParse(Nothing, "/", nodes, 0);
    AllThose(nodes);
  }

  lemma NothingRead(added: Tree)
    ensures Meaning(Nothing.nodes) == map[] && NoClash(map[], added) && map[] + added == added
  {
    assert Meaning(Nothing.nodes) == map[];
  }
}
