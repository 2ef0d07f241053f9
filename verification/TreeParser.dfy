/**
 gen-overrides.py's `parse`: a decompiled tree read by its indentation, and its agreement with the
 meaning the compiler gives the same text by its braces.
 */
module TreeParser {
  import opened Wrappers
  import opened OrderedDict
  import opened DeviceTree
  import opened Dtc
  import opened NodePrinter

  datatype ParseState = ParseState(nodes: Nodes, stack: seq<string>)

  function RefText(ref: Ref): string {
    match ref
    case ByLabel(l) => "&" + l
    case ByPath(p) => "&{" + p + "}"
  }

  /** A head as written, labels first. */
  function HeadText(labels: seq<string>, name: string): string {
    if labels == [] then name else labels[0] + ": " + HeadText(labels[1..], name)
  }

  /** Python's `stack[:depth]` */
  function Upto(stack: seq<string>, depth: nat): seq<string> {
    if depth <= |stack| then stack[..depth] else stack
  }

  /** Every node the stack passes through is filed. */
  ghost predicate Known(st: ParseState) {
    ValidDicts(st.nodes) && forall i | 0 < i <= |st.stack| :: Join(st.stack[..i]) in st.nodes.at
  }

  function EnterNode(st: ParseState, depth: nat, tag: Option<string>, head: string): (next: ParseState)
    requires Known(st)
    ensures Known(next)
  {
    var stack := Upto(st.stack, depth) + [head];
    assert forall i | 0 < i < |stack| :: stack[..i] == st.stack[..i];
    assert stack[..|stack|] == stack;
    ParseState(st.nodes.Set(Join(stack), Node(tag, head, Empty())), stack)
  }

  function Assign(st: ParseState, key: string, value: Value): (next: ParseState)
    requires Known(st)
    ensures Known(next)
  {
    if st.stack == [] then st
    else
      assert st.stack[..|st.stack|] == st.stack;
      var path := Join(st.stack);
      var n := st.nodes.at[path];
      st.(nodes := st.nodes.Set(path, n.(props := n.props.Set(key, value))))
  }

  /** One line. Only the first label is taken off a head, and a phandle is not kept. */
  function ParseLine(st: ParseState, line: Line): (next: ParseState)
    requires Known(st)
    ensures Known(next)
  {
    match line.statement
    case Open(labels, name) =>
      if labels == [] then EnterNode(st, line.indent, None, name)
      else EnterNode(st, line.indent, Some(labels[0]), HeadText(labels[1..], name))
    case OpenRef(ref) => EnterNode(st, line.indent, None, RefText(ref))
    case Close =>
      var stack := Upto(st.stack, line.indent);
      assert forall i | 0 < i <= |stack| :: stack[..i] == st.stack[..i];
      st.(stack := stack)
    case Property(key, value) =>
      if key == PHANDLE && !value.Flag? then st else Assign(st, key, value)
    case DeleteProperty(key) => Assign(st, "/delete-property/ " + key, Flag)
    case DeleteNode(ref) => Assign(st, "/delete-node/ " + RefText(ref), Flag)
  }

  function ParseFrom(st: ParseState, lines: seq<Line>): (end: ParseState)
    requires Known(st)
    ensures Known(end)
    decreases lines
  {
    if lines == [] then st else ParseFrom(ParseLine(st, lines[0]), lines[1..])
  }

  const Nothing: ParseState := ParseState(Empty(), [])

  /** `parse` */
  method Parse(lines: seq<Line>) returns (nodes: Nodes)
    ensures nodes == ParseFrom(Nothing, lines).nodes
  {
    var st := Nothing;
    for i := 0 to |lines|
      invariant Known(st)
      invariant ParseFrom(st, lines[i..]) == ParseFrom(Nothing, lines)
    {
      assert lines[i..][0] == lines[i] && lines[i..][1..] == lines[i + 1..];
      st := ParseLine(st, lines[i]);
    }
    nodes := st.nodes;
  }

  // ---- text as the decompiler prints it -------------------------------------------------------

  /** What a decompiler prints: nodes with at most one label, properties, and phandles in cells. */
  predicate Printed(s: Statement) {
    match s
    case Open(labels, _) => |labels| <= 1
    case Close => true
    case Property(key, value) => key == PHANDLE ==> value.Cells?
    case _ => false
  }

  function DepthAfter(line: Line, depth: nat): Option<nat> {
    if !Printed(line.statement) then None
    else match line.statement
      case Open(_, _) => if line.indent == depth then Some(depth + 1) else None
      case Close => if line.indent + 1 == depth then Some(line.indent) else None
      case _ => if line.indent == depth then Some(depth) else None
  }

  /** The depth after `lines`, or None if one is not indented by its depth or not a printed line. */
  function Depth(lines: seq<Line>, depth: nat): Option<nat>
    decreases lines
  {
    if lines == [] then Some(depth)
    else
      var next := DepthAfter(lines[0], depth);
      if next.None? then None else Depth(lines[1..], next.value)
  }

  lemma {:induction false} DepthAppend(a: seq<Line>, b: seq<Line>, depth: nat)
    ensures Depth(a + b, depth) == var r := Depth(a, depth); if r.None? then None else Depth(b, r.value)
    decreases a
  {
    if a == [] {
      assert a + b == b;
    } else {
      assert (a + b)[1..] == a[1..] + b;
      var next := DepthAfter(a[0], depth);
      if next.Some? {
        DepthAppend(a[1..], b, next.value);
      }
    }
  }

  // ---- parsing follows the meaning ------------------------------------------------------------

  function WithoutPhandle(c: Content): Content {
    c.(props := c.props - {PHANDLE})
  }

  function Unphandled(tree: Tree): Tree {
    map k | k in tree :: WithoutPhandle(tree[k])
  }

  /** The parser's stack names the open nodes, and its map means the tree read so far. */
  ghost predicate Follows(ps: ParseState, st: State) {
    && Known(ps)
    && |ps.stack| == |st.stack|
    && (forall i | 0 < i <= |ps.stack| :: st.stack[i - 1].key == Join(ps.stack[..i]))
    && Meaning(ps.nodes) == Unphandled(st.nodes)
  }

  function TagOf(labels: seq<string>): Option<string> {
    if labels == [] then None else Some(labels[0])
  }

  /** What opening a node does to the parser and to the tree, side by side. */
  lemma BothOpen(ps: ParseState, st: State, labels: seq<string>, name: string)
    requires Follows(ps, st) && |labels| <= 1 && Step(st, Open(labels, name)).Some?
    ensures var key := Join(ps.stack + [name]);
            && KeyOpened(st.stack, name) == Some(key) && key !in ps.nodes.at
            && ParseLine(ps, Line(|ps.stack|, Open(labels, name)))
               == ParseState(ps.nodes.Set(key, Node(TagOf(labels), name, Empty())), ps.stack + [name])
            && Step(st, Open(labels, name))
               == Some(State(st.nodes[key := Content(LabelSet(TagOf(labels)), map[])],
                             Seal(st.stack) + [Frame(key, false)]))
  {
    assert Upto(ps.stack, |ps.stack|) == ps.stack;
    assert ps.stack[..|ps.stack|] == ps.stack && (ps.stack + [name])[..|ps.stack|] == ps.stack;
    assert (set l | l in labels) == LabelSet(TagOf(labels));
    var key := Join(ps.stack + [name]);
    assert key in ps.nodes.at <==> key in Meaning(ps.nodes);
    assert key in st.nodes <==> key in Unphandled(st.nodes);
  }

  lemma StackGrows(ps: ParseState, st: State, name: string)
    requires Follows(ps, st)
    ensures var stack := ps.stack + [name];
            var frames := Seal(st.stack) + [Frame(Join(stack), false)];
            forall i | 0 < i <= |stack| :: frames[i - 1].key == Join(stack[..i])
  {
    var stack := ps.stack + [name];
    var frames := Seal(st.stack) + [Frame(Join(stack), false)];
    forall i | 0 < i <= |stack| ensures frames[i - 1].key == Join(stack[..i]) {
      if i < |stack| {
        assert stack[..i] == ps.stack[..i];
      } else {
        assert stack[..i] == stack;
      }
    }
  }

  lemma FollowsOpen(ps: ParseState, st: State, labels: seq<string>, name: string)
    requires Follows(ps, st) && |labels| <= 1 && Step(st, Open(labels, name)).Some?
    ensures Follows(ParseLine(ps, Line(|ps.stack|, Open(labels, name))), Step(st, Open(labels, name)).value)
  {
    BothOpen(ps, st, labels, name);
    StackGrows(ps, st, name);
    var key := Join(ps.stack + [name]);
    MeaningSet(ps.nodes, key, Node(TagOf(labels), name, Empty()));
    UnphandledSet(st.nodes, key, Content(LabelSet(TagOf(labels)), map[]));
  }

  lemma MeaningSet(nodes: Nodes, key: string, n: Node)
    requires nodes.Valid()
    ensures Meaning(nodes.Set(key, n)) == Meaning(nodes)[key := ContentOf(n)]
  {
  }

  lemma UnphandledSet(tree: Tree, key: string, c: Content)
    ensures Unphandled(tree[key := c]) == Unphandled(tree)[key := WithoutPhandle(c)]
  {
  }

  lemma UnphandledAssign(tree: Tree, path: string, key: string, value: Value)
    requires path in tree
    ensures var c := tree[path].(props := tree[path].props[key := value]);
            var d := Unphandled(tree)[path];
            Unphandled(tree[path := c])
            == if key == PHANDLE then Unphandled(tree)
               else Unphandled(tree)[path := d.(props := d.props[key := value])]
  {
    var c := tree[path].(props := tree[path].props[key := value]);
    UnphandledSet(tree, path, c);
    if key == PHANDLE {
      assert c.props - {PHANDLE} == tree[path].props - {PHANDLE};
    } else {
      assert c.props - {PHANDLE} == (tree[path].props - {PHANDLE})[key := value];
    }
  }

  lemma FollowsProperty(ps: ParseState, st: State, indent: nat, key: string, value: Value)
    requires Follows(ps, st) && Printed(Property(key, value)) && Step(st, Property(key, value)).Some?
    ensures Follows(ParseLine(ps, Line(indent, Property(key, value))), Step(st, Property(key, value)).value)
  {
    var path := st.stack[|st.stack| - 1].key;
    assert ps.stack[..|ps.stack|] == ps.stack;
    assert path == Join(ps.stack);
    UnphandledAssign(st.nodes, path, key, value);
    if key != PHANDLE {
      var n := ps.nodes.at[path];
      assert Meaning(ps.nodes)[path] == ContentOf(n);
      MeaningSet(ps.nodes, path, n.(props := n.props.Set(key, value)));
    }
  }

  lemma FollowsClose(ps: ParseState, st: State)
    requires Follows(ps, st) && st.stack != []
    ensures Follows(ParseLine(ps, Line(|ps.stack| - 1, Close)), Step(st, Close).value)
  {
    var stack := ps.stack[..|ps.stack| - 1];
    assert forall i | 0 < i <= |stack| :: stack[..i] == ps.stack[..i];
  }

  /** The parsed nodes hang together from the root, each label on one of them. */
  ghost predicate Sound(nodes: Nodes) {
    && (nodes.at.Keys != {} ==> WellFormed(nodes))
    && LabelsUnique(nodes)
  }

  lemma SoundSet(nodes: Nodes, key: string, n: Node)
    requires ValidDicts(nodes) && Sound(nodes) && key !in nodes.at && n.props.Valid()
    requires if key == "/" then nodes.at.Keys == {} && n.name == "/"
             else LastSlash(key) >= 0 && Parent(key) in nodes.at && n.name == BaseName(key) != ""
    requires forall k | k in nodes.at && n.tag.Some? :: nodes.at[k].tag != n.tag
    ensures Sound(nodes.Set(key, n))
  {
    var next := nodes.Set(key, n);
    assert next.at == nodes.at[key := n];
    PlacedSet(nodes, next, key, n);
    LabelsSet(nodes, next, key, n);
  }

  lemma PlacedSet(nodes: Nodes, next: Nodes, key: string, n: Node)
    requires ValidDicts(nodes) && Sound(nodes) && key !in nodes.at && n.props.Valid()
    requires next.Valid() && next.at == nodes.at[key := n]
    requires if key == "/" then nodes.at.Keys == {} && n.name == "/"
             else LastSlash(key) >= 0 && Parent(key) in nodes.at && n.name == BaseName(key) != ""
    ensures WellFormed(next)
  {
    if key != "/" {
      assert WellFormed(nodes);
      forall k | k in next.at && k != "/" ensures Placed(next, k) {
        if k != key {
          assert Placed(nodes, k);
        }
      }
    }
  }

  lemma LabelsSet(nodes: Nodes, next: Nodes, key: string, n: Node)
    requires LabelsUnique(nodes) && next.at == nodes.at[key := n]
    requires forall k | k in nodes.at && n.tag.Some? :: nodes.at[k].tag != n.tag
    ensures LabelsUnique(next)
  {
  }

  lemma SoundOpen(ps: ParseState, st: State, labels: seq<string>, name: string)
    requires Follows(ps, st) && Sound(ps.nodes) && |labels| <= 1 && Step(st, Open(labels, name)).Some?
    ensures Sound(ParseLine(ps, Line(|ps.stack|, Open(labels, name))).nodes)
  {
    var key := Join(ps.stack + [name]);
    BothOpen(ps, st, labels, name);
    KeyHasPlace(ps, st, name, key);
    NewLabel(ps, st, labels, name);
    SoundSet(ps.nodes, key, Node(TagOf(labels), name, Empty()));
  }

  /** A new node is the root of an empty tree, or goes under a node that is there. */
  lemma KeyHasPlace(ps: ParseState, st: State, name: string, key: string)
    requires Follows(ps, st) && Sound(ps.nodes) && KeyOpened(st.stack, name) == Some(key) && key !in ps.nodes.at
    ensures if key == "/" then ps.nodes.at.Keys == {} && name == "/"
            else LastSlash(key) >= 0 && Parent(key) in ps.nodes.at && name == BaseName(key) != ""
  {
    if ps.stack != [] {
      var parent := st.stack[|st.stack| - 1].key;
      ChildParts(parent, name);
      assert ps.stack[..|ps.stack|] == ps.stack;
      assert parent == Join(ps.stack) && parent in ps.nodes.at;
      assert |key| > 1;
    }
  }

  lemma NewLabel(ps: ParseState, st: State, labels: seq<string>, name: string)
    requires Follows(ps, st) && |labels| <= 1 && Step(st, Open(labels, name)).Some?
    ensures forall k | k in ps.nodes.at && TagOf(labels).Some? :: ps.nodes.at[k].tag != TagOf(labels)
  {
    forall k | k in ps.nodes.at && TagOf(labels).Some? ensures ps.nodes.at[k].tag != TagOf(labels) {
      assert labels[0] in labels && !HasLabel(st.nodes, labels[0]);
      assert Meaning(ps.nodes)[k].labels == Unphandled(st.nodes)[k].labels == st.nodes[k].labels;
      assert labels[0] !in st.nodes[k].labels;
    }
  }

  /** Giving a filed node other properties keeps the map sound. */
  lemma SoundProps(nodes: Nodes, key: string, props: Dict<string, Value>)
    requires ValidDicts(nodes) && Sound(nodes) && key in nodes.at && props.Valid()
    ensures Sound(nodes.Set(key, nodes.at[key].(props := props)))
  {
    var n := nodes.at[key].(props := props);
    var next := nodes.Set(key, n);
    assert WellFormed(nodes);
    PlacedKept(nodes, next, key, n);
    LabelsKept(nodes, next, key, n);
  }

  lemma PlacedKept(nodes: Nodes, next: Nodes, key: string, n: Node)
    requires WellFormed(nodes) && key in nodes.at && n.props.Valid() && n.name == nodes.at[key].name
    requires next.Valid() && next.at == nodes.at[key := n]
    ensures WellFormed(next)
  {
    forall k | k in next.at && k != "/" ensures Placed(next, k) {
      assert Placed(nodes, k);
    }
  }

  lemma LabelsKept(nodes: Nodes, next: Nodes, key: string, n: Node)
    requires LabelsUnique(nodes) && key in nodes.at && n.tag == nodes.at[key].tag && next.at == nodes.at[key := n]
    ensures LabelsUnique(next)
  {
    assert forall k | k in next.at :: k in nodes.at && next.at[k].tag == nodes.at[k].tag;
  }

  lemma SoundProperty(ps: ParseState, line: Line)
    requires Known(ps) && Sound(ps.nodes) && line.statement.Property?
    ensures Sound(ParseLine(ps, line).nodes)
  {
    if ps.stack != [] {
      assert ps.stack[..|ps.stack|] == ps.stack;
      var path := Join(ps.stack);
      SoundProps(ps.nodes, path, ps.nodes.at[path].props.Set(line.statement.key, line.statement.value));
    }
  }

  /** On printed text that is indented by its depth, indentation and braces read the same tree. */
  lemma {:induction false} ParseFollows(ps: ParseState, st: State, lines: seq<Line>)
    requires Follows(ps, st) && Sound(ps.nodes) && Depth(lines, |ps.stack|).Some? && Run(st, lines).Some?
    ensures Follows(ParseFrom(ps, lines), Run(st, lines).value) && Sound(ParseFrom(ps, lines).nodes)
    decreases lines
  {
    if lines != [] {
      ParseStep(ps, st, lines[0]);
      ParseFollows(ParseLine(ps, lines[0]), Step(st, lines[0].statement).value, lines[1..]);
    }
  }

  lemma ParseStep(ps: ParseState, st: State, line: Line)
    requires Follows(ps, st) && Sound(ps.nodes)
    requires DepthAfter(line, |ps.stack|).Some? && Step(st, line.statement).Some?
    ensures Follows(ParseLine(ps, line), Step(st, line.statement).value) && Sound(ParseLine(ps, line).nodes)
    ensures |ParseLine(ps, line).stack| == DepthAfter(line, |ps.stack|).value
  {
    match line.statement {
      case Open(labels, name) =>
        FollowsOpen(ps, st, labels, name);
        SoundOpen(ps, st, labels, name);
      case Close =>
        FollowsClose(ps, st);
      case Property(key, value) =>
        FollowsProperty(ps, st, line.indent, key, value);
        SoundProperty(ps, line);
      case _ =>
    }
  }

  /**
   Whatever printed text the compiler accepts, the parser reads the same tree from it, phandles
   aside, and files it as the diff needs it.
   */
  lemma ParseMeaning(lines: seq<Line>)
    requires Depth(lines, 0).Some? && Run(Start, lines).Some?
    ensures var nodes := ParseFrom(Nothing, lines).nodes;
            && Meaning(nodes) == Unphandled(Run(Start, lines).value.nodes)
            && (nodes.at.Keys != {} ==> WellFormed(nodes)) && LabelsUnique(nodes)
  {
    assert Meaning(Nothing.nodes) == Unphandled(Start.nodes);
    ParseFollows(Nothing, Start, lines);
  }
}
