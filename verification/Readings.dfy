/** What the line walkers read in the compiler's sorted output: every statement, in the node it is about. */
module Readings {
  import opened Wrappers
  import opened OrderedDict
  import opened DeviceTree
  import opened Dtc
  import opened NodePrinter
  import opened TreeParser
  import opened RoundTrip
  import opened Walker
  import opened RemapPhandles
  import opened RemapExact
  import opened CheckRefs
  import opened Gate
  import opened Canonical

  /** A statement and the path of the node it is made in. */
  type Saying = (string, Statement)

  ghost function SaidBy(line: Line, path: string): set<Saying> {
    if line.statement.Close? then {} else {(path, line.statement)}
  }

  ghost function Said(stack: seq<string>, lines: seq<Line>): set<Saying>
    decreases lines
  {
    if lines == [] then {}
    else
      var next := StackStep(stack, lines[0]);
      SaidBy(lines[0], NodePath(next)) + Said(next, lines[1..])
  }

  lemma {:induction false} SaidAt(stack: seq<string>, lines: seq<Line>, i: nat)
    requires i < |lines| && !lines[i].statement.Close?
    ensures (Walk(stack, lines)[i], lines[i].statement) in Said(stack, lines)
    decreases lines
  {
    if i > 0 {
      SaidAt(StackStep(stack, lines[0]), lines[1..], i - 1);
    }
  }

  lemma {:induction false} SaidWhere(stack: seq<string>, lines: seq<Line>, s: Saying) returns (i: nat)
    requires s in Said(stack, lines)
    ensures i < |lines| && s == (Walk(stack, lines)[i], lines[i].statement)
    decreases lines
  {
    var next := StackStep(stack, lines[0]);
    if s in SaidBy(lines[0], NodePath(next)) {
      i := 0;
    } else {
      var j := SaidWhere(next, lines[1..], s);
      i := j + 1;
    }
  }

  /** What there is to say about a node. */
  ghost function NodeSays(key: string, tag: Option<string>, name: string, props: map<string, Value>): set<Saying> {
    {(DtPath(key), Open(if tag.Some? then [tag.value] else [], name))} + PropsSay(key, props, props.Keys)
  }

  ghost function PropsSay(key: string, props: map<string, Value>, keys: set<string>): set<Saying> {
    set p | p in keys && p in props :: (DtPath(key), Property(p, props[p]))
  }

  ghost function SaysOf(key: string, n: Node): set<Saying> {
    NodeSays(key, n.tag, n.name, n.props.at)
  }

  ghost function Says(nodes: Nodes, keys: set<string>): set<Saying> {
    set k, s | k in keys && k in nodes.at && s in SaysOf(k, nodes.at[k]) :: s
  }

  lemma PropertySaid(k: string, tag: Option<string>, name: string, props: map<string, Value>,
                     path: string, key: string, value: Value)
    ensures (path, Property(key, value)) in NodeSays(k, tag, name, props)
            <==> path == DtPath(k) && key in props && props[key] == value
  {
  }

  lemma OpenSaid(k: string, tag: Option<string>, name: string, props: map<string, Value>, s: Saying)
    requires s.1.Open?
    ensures s in NodeSays(k, tag, name, props)
            <==> s == (DtPath(k), Open(if tag.Some? then [tag.value] else [], name))
  {
  }

  lemma {:induction false} SaidAppend(stack: seq<string>, a: seq<Line>, b: seq<Line>)
    ensures Said(stack, a + b) == Said(stack, a) + Said(StackAfter(stack, a), b)
    decreases a
  {
    if a == [] {
      assert a + b == b;
    } else {
      assert (a + b)[1..] == a[1..] + b;
      SaidAppend(StackStep(stack, a[0]), a[1..], b);
    }
  }

  lemma LineSaid(stack: seq<string>, line: Line)
    ensures StackAfter(stack, [line]) == StackStep(stack, line)
    ensures Said(stack, [line]) == SaidBy(line, NodePath(StackStep(stack, line)))
  {
    var next := StackStep(stack, line);
    assert [line][1..] == [];
    assert StackAfter(next, []) == next && Said(next, []) == {};
  }

  lemma {:induction false} PropsSaid(stack: seq<string>, key: string, props: Dict<string, Value>, keys: seq<string>, indent: nat)
    requires NodePath(stack) == DtPath(key)
    requires forall k | k in keys :: k in props.at
    ensures var lines := PropLines(props, keys, indent);
            StackAfter(stack, lines) == stack && Said(stack, lines) == PropsSay(key, props.at, set k | k in keys)
    decreases keys
  {
    if keys != [] {
      var line := Line(indent, Property(keys[0], props.at[keys[0]]));
      PropsSaid(stack, key, props, keys[1..], indent);
      LineSaid(stack, line);
      SaidAppend(stack, [line], PropLines(props, keys[1..], indent));
      StackAppend(stack, [line], PropLines(props, keys[1..], indent));
      assert (set k | k in keys) == {keys[0]} + set k | k in keys[1..];
    }
  }

  /** A stack that names `path`, from the root down. */
  ghost predicate At(stack: seq<string>, path: string) {
    stack != [] && stack[0] == "/" && Join(stack) == path
  }

  lemma HeadSaid(stack: seq<string>, path: string, n: Node)
    requires n.props.Valid() && At(stack + [n.name], path)
    ensures var lines := HeadLines(n, |stack|);
            StackAfter(stack, lines) == stack + [n.name] && Said(stack, lines) == SaysOf(path, n)
  {
    var inside := stack + [n.name];
    var open, props := OpenLine(n, |stack|), PropLines(n.props, n.props.keys, |stack| + 1);
    assert Upto(stack, |stack|) == stack;
    LineSaid(stack, open);
    PathsAgree(inside);
    PropsSaid(inside, path, n.props, n.props.keys, |stack| + 1);
    StackAppend(stack, [open], props);
    SaidAppend(stack, [open], props);
    assert (set k | k in n.props.keys) == n.props.at.Keys;
  }

  lemma SaysUnion(nodes: Nodes, a: set<string>, b: set<string>)
    ensures Says(nodes, a + b) == Says(nodes, a) + Says(nodes, b)
  {
  }

  lemma SaysOne(nodes: Nodes, key: string)
    requires key in nodes.at
    ensures Says(nodes, {key}) == SaysOf(key, nodes.at[key])
  {
  }

  /** A printed subtree says, in the right places, what there is to say about its nodes. */
  lemma {:induction false} EmitSaid(stack: seq<string>, path: string, nodes: Nodes)
    requires WellFormed(nodes) && path in nodes.at && At(stack + [nodes.at[path].name], path)
    ensures var lines := EmitNode(path, nodes, |stack|);
            StackAfter(stack, lines) == stack && Said(stack, lines) == Says(nodes, SubtreeKeys(nodes, path))
    decreases Longer(nodes, path)
  {
    var n := nodes.at[path];
    var inside := stack + [n.name];
    var cs := ChildKeys(nodes.keys, path);
    EmitAllSaid(inside, path, cs, nodes);
    Enclosed(stack, path, n, EmitAll(path, cs, nodes, |stack| + 1));
    SubtreeSays(nodes, path);
  }

  /** A head, what is said inside, and the end. */
  lemma Enclosed(stack: seq<string>, path: string, n: Node, body: seq<Line>)
    requires n.props.Valid() && At(stack + [n.name], path)
    requires StackAfter(stack + [n.name], body) == stack + [n.name]
    ensures var lines := HeadLines(n, |stack|) + body + [Line(|stack|, Close)];
            && StackAfter(stack, lines) == stack
            && Said(stack, lines) == SaysOf(path, n) + Said(stack + [n.name], body)
  {
    var inside := stack + [n.name];
    var head, end := HeadLines(n, |stack|), [Line(|stack|, Close)];
    HeadSaid(stack, path, n);
    LineSaid(inside, Line(|stack|, Close));
    assert StackStep(inside, Line(|stack|, Close)) == stack;
    BodySaid(stack, head, body, end);
  }

  lemma SubtreeSays(nodes: Nodes, path: string)
    requires WellFormed(nodes) && path in nodes.at
    ensures Says(nodes, SubtreeKeys(nodes, path))
            == SaysOf(path, nodes.at[path]) + Says(nodes, ForestKeys(nodes, ChildKeys(nodes.keys, path)))
  {
    SplitForest(nodes, path);
    SaysUnion(nodes, {path}, ForestKeys(nodes, ChildKeys(nodes.keys, path)));
    SaysOne(nodes, path);
  }

  lemma BodySaid(stack: seq<string>, head: seq<Line>, body: seq<Line>, end: seq<Line>)
    ensures var inside := StackAfter(stack, head);
            var after := StackAfter(inside, body);
            && StackAfter(stack, head + body + end) == StackAfter(after, end)
            && Said(stack, head + body + end) == Said(stack, head) + Said(inside, body) + Said(after, end)
  {
    StackAppend(stack, head, body);
    StackAppend(stack, head + body, end);
    SaidAppend(stack, head, body);
    SaidAppend(stack, head + body, end);
  }

  lemma {:induction false} EmitAllSaid(stack: seq<string>, path: string, children: seq<string>, nodes: Nodes)
    requires WellFormed(nodes) && path in nodes.at && At(stack, path)
    requires forall c | c in children :: c in nodes.at && IsChildKey(path, c)
    ensures var lines := EmitAll(path, children, nodes, |stack|);
            StackAfter(stack, lines) == stack && Said(stack, lines) == Says(nodes, ForestKeys(nodes, children))
    decreases Longer(nodes, path), |children|
  {
    if children == [] {
      assert ForestKeys(nodes, []) == {};
    } else {
      var c := children[0];
      var first, rest := EmitNode(c, nodes, |stack|), EmitAll(path, children[1..], nodes, |stack|);
      assert IsChildKey(path, c);
      assert c in Longer(nodes, path) && c !in Longer(nodes, c);
      ChildAt(stack, path, c, nodes);
      EmitSaid(stack, c, nodes);
      EmitAllSaid(stack, path, children[1..], nodes);
      StackAppend(stack, first, rest);
      SaidAppend(stack, first, rest);
      ForestUnion(nodes, children);
      SaysUnion(nodes, SubtreeKeys(nodes, c), ForestKeys(nodes, children[1..]));
    }
  }

  lemma ChildAt(stack: seq<string>, path: string, c: string, nodes: Nodes)
    requires WellFormed(nodes) && path in nodes.at && c in nodes.at && IsChildKey(path, c) && At(stack, path)
    ensures At(stack + [nodes.at[c].name], c)
  {
    ChildOpens(nodes, path, c, [Frame(path, false)]);
    assert (stack + [nodes.at[c].name])[..|stack|] == stack;
  }

  // ---- the sorted output --------------------------------------------------------------------------

  ghost function ContentSays(k: string, c: Content, p: map<string, nat>): set<Saying> {
    NodeSays(k, TagFrom(c.labels), if k == "/" then "/" else BaseName(k), PropsWith(c.props, k, p))
  }

  /** What there is to say about a tree with these phandles. */
  ghost function TreeSays(tree: Tree, p: map<string, nat>): set<Saying> {
    set k, s | k in tree && s in ContentSays(k, tree[k], p) :: s
  }

  /** `lines` say it all, each line in its node, and nothing else. */
  ghost predicate Reads(lines: seq<Line>, tree: Tree, p: map<string, nat>) {
    Said([], lines) == TreeSays(tree, p)
  }

  lemma CanonicalReads(tree: Tree, p: map<string, nat>)
    requires Compiled(tree)
    ensures Reads(CanonicalText(tree, p), tree, p)
  {
    var nodes := SortedNodes(tree, p);
    SortedWellFormed(tree, p);
    RootSubtree(nodes);
    EmitSaid([], "/", nodes);
    SortedSays(nodes, tree, p);
  }

  lemma SortedSays(nodes: Nodes, tree: Tree, p: map<string, nat>)
    requires nodes.at == NodesAt(tree, p)
    ensures Says(nodes, nodes.at.Keys) == TreeSays(tree, p)
  {
    forall k | k in tree ensures SaysOf(k, nodes.at[k]) == ContentSays(k, tree[k], p) {
      SortedSaysOf(k, tree[k], p);
    }
    assert nodes.at.Keys == tree.Keys;
  }

  lemma SortedSaysOf(k: string, c: Content, p: map<string, nat>)
    ensures SaysOf(k, SortedNode(k, c, p)) == ContentSays(k, c, p)
  {
  }

  /** A property of a node, a phandle among them. */
  ghost predicate HasProperty(tree: Tree, p: map<string, nat>, k: string, key: string, value: Value) {
    k in tree && key in PropsWith(tree[k].props, k, p) && PropsWith(tree[k].props, k, p)[key] == value
  }

  lemma PropertyOf(k: string, c: Content, p: map<string, nat>, path: string, key: string, value: Value)
    ensures (path, Property(key, value)) in ContentSays(k, c, p)
            <==> path == DtPath(k) && key in PropsWith(c.props, k, p) && PropsWith(c.props, k, p)[key] == value
  {
    PropertySaid(k, TagFrom(c.labels), if k == "/" then "/" else BaseName(k), PropsWith(c.props, k, p), path, key, value);
  }

  /** Every property line is a property of the node it sits in. */
  lemma PropertySource(lines: seq<Line>, tree: Tree, p: map<string, nat>, i: nat) returns (k: string)
    requires Reads(lines, tree, p) && i < |lines| && lines[i].statement.Property?
    ensures DtPath(k) == Walk([], lines)[i]
    ensures HasProperty(tree, p, k, lines[i].statement.key, lines[i].statement.value)
  {
    var path, key, value := Walk([], lines)[i], lines[i].statement.key, lines[i].statement.value;
    SaidAt([], lines, i);
    k :| k in tree && (path, Property(key, value)) in ContentSays(k, tree[k], p);
    PropertyOf(k, tree[k], p, path, key, value);
  }

  /** Every property of a node is a line in it. */
  lemma PropertyLine(lines: seq<Line>, tree: Tree, p: map<string, nat>, k: string, key: string, value: Value)
    returns (i: nat)
    requires Reads(lines, tree, p) && HasProperty(tree, p, k, key, value)
    ensures i < |lines| && lines[i].statement == Property(key, value) && Walk([], lines)[i] == DtPath(k)
  {
    PropertyOf(k, tree[k], p, DtPath(k), key, value);
    i := SaidWhere([], lines, (DtPath(k), Property(key, value)));
  }

  lemma HeadOf(k: string, c: Content, p: map<string, nat>, path: string, labels: seq<string>, name: string)
    requires |c.labels| <= 1 && (path, Open(labels, name)) in ContentSays(k, c, p)
    ensures path == DtPath(k) && forall l :: l in labels <==> l in c.labels
  {
    OneTag(c.labels);
    OpenSaid(k, TagFrom(c.labels), if k == "/" then "/" else BaseName(k), PropsWith(c.props, k, p), (path, Open(labels, name)));
  }

  lemma LabelSource(lines: seq<Line>, tree: Tree, p: map<string, nat>, i: nat, l: string) returns (k: string)
    requires Compiled(tree) && Reads(lines, tree, p)
    requires i < |lines| && lines[i].statement.Open? && l in lines[i].statement.labels
    ensures k in tree && l in tree[k].labels && DtPath(k) == Walk([], lines)[i]
  {
    var path, labels, name := Walk([], lines)[i], lines[i].statement.labels, lines[i].statement.name;
    SaidAt([], lines, i);
    k :| k in tree && (path, Open(labels, name)) in ContentSays(k, tree[k], p);
    HeadOf(k, tree[k], p, path, labels, name);
  }

  lemma LabelLine(lines: seq<Line>, tree: Tree, p: map<string, nat>, k: string, l: string) returns (i: nat)
    requires Compiled(tree) && Reads(lines, tree, p) && k in tree && l in tree[k].labels
    ensures i < |lines| && lines[i].statement.Open? && l in lines[i].statement.labels && Walk([], lines)[i] == DtPath(k)
  {
    var head := Open([TagFrom(tree[k].labels).value], if k == "/" then "/" else BaseName(k));
    assert (DtPath(k), head) in ContentSays(k, tree[k], p);
    OneTag(tree[k].labels);
    i := SaidWhere([], lines, (DtPath(k), head));
  }

  lemma {:induction false} TreeKeyShape(tree: Tree, key: string)
    requires Compiled(tree) && key in tree
    ensures key == "/" || (|key| > 2 && key[..2] == "//")
    decreases |key|
  {
    if key != "/" {
      assert Hangs(tree, key);
      KeyIsChild(key);
      TreeKeyShape(tree, Parent(key));
    }
  }

  lemma PathsDiffer(tree: Tree, j: string, k: string)
    requires Compiled(tree) && j in tree && k in tree && DtPath(j) == DtPath(k)
    ensures j == k
  {
    TreeKeyShape(tree, j);
    TreeKeyShape(tree, k);
    DtPathInjective(j, k);
  }

  lemma PhandleSourceIn(lines: seq<Line>, tree: Tree, p: map<string, nat>, i: nat) returns (k: string)
    requires Compiled(tree) && Reads(lines, tree, p) && i < |lines| && IsPhandle(lines[i])
    ensures k in tree && k in p && DtPath(k) == Walk([], lines)[i] && lines[i].statement.value == PhandleValue(p[k])
  {
    k := PropertySource(lines, tree, p, i);
  }

  /** A phandle line holds the phandle of the node it sits in, so no node has two. */
  lemma CanonicalPhandles(tree: Tree, p: map<string, nat>)
    requires Compiled(tree)
    ensures PlainPhandles(CanonicalText(tree, p)) && SingleValued(CanonicalText(tree, p))
  {
    CanonicalReads(tree, p);
    ReadPhandles(CanonicalText(tree, p), tree, p);
  }

  lemma ReadPhandles(lines: seq<Line>, tree: Tree, p: map<string, nat>)
    requires Compiled(tree) && Reads(lines, tree, p)
    ensures PlainPhandles(lines) && SingleValued(lines)
  {
    forall i | 0 <= i < |lines| && IsPhandle(lines[i]) ensures Plain(lines[i]) {
      var k := PhandleSourceIn(lines, tree, p, i);
    }
    forall i, j | 0 <= i < |lines| && 0 <= j < |lines| && IsPhandle(lines[i]) && IsPhandle(lines[j])
                  && Walk([], lines)[i] == Walk([], lines)[j]
      ensures Inside(lines[i]) == Inside(lines[j])
    {
      var k := PhandleSourceIn(lines, tree, p, i);
      var m := PhandleSourceIn(lines, tree, p, j);
      PathsDiffer(tree, k, m);
    }
  }

  // ---- what check-refs finds ----------------------------------------------------------------------

  predicate Symbolic(value: Value) {
    value.Cells? && |value.groups| == 1 && exists c | c in value.groups[0] :: c.Reference?
  }

  predicate Bare(value: Value) {
    value.Cells? && |value.groups| == 1 && forall c | c in value.groups[0] :: c.Number?
  }

  /** No property written with a reference in one node is a bare group in another. */
  ghost predicate NamesApart(tree: Tree) {
    forall j, k, key | j in tree && k in tree && key in tree[j].props && key in tree[k].props
                       && Symbolic(tree[j].props[key]) ::
      !Bare(tree[k].props[key])
  }

  /** The names check-refs takes for references are those of the tree: never the phandle's. */
  lemma NamesInTree(lines: seq<Line>, tree: Tree, p: map<string, nat>, key: string)
    requires Compiled(tree) && Reads(lines, tree, p)
    ensures key in SymbolicNames([lines]) <==>
              exists k :: k in tree && key in tree[k].props && Symbolic(tree[k].props[key])
  {
    if key in SymbolicNames([lines]) {
      var i :| 0 <= i < |lines| && Symbolically(lines[i]) && lines[i].statement.key == key;
      var k := PropertySource(lines, tree, p, i);
      assert Symbolic(lines[i].statement.value) && !Symbolic(PhandleValue(0));
      assert k in tree && key in tree[k].props && Symbolic(tree[k].props[key]);
    }
    if k :| k in tree && key in tree[k].props && Symbolic(tree[k].props[key]) {
      var i := PropertyLine(lines, tree, p, k, key, tree[k].props[key]);
      assert Symbolically([lines][0][i]);
    }
  }

  lemma ApartIsClean(lines: seq<Line>, tree: Tree, p: map<string, nat>, i: nat)
    requires Compiled(tree) && Reads(lines, tree, p) && NamesApart(tree) && i < |lines|
    ensures !LeftNumeric(lines[i], SymbolicNames([lines]))
  {
    if LeftNumeric(lines[i], SymbolicNames([lines])) {
      var key := lines[i].statement.key;
      NamesInTree(lines, tree, p, key);
      var k := PropertySource(lines, tree, p, i);
    }
  }

  lemma CleanIsApart(lines: seq<Line>, tree: Tree, p: map<string, nat>, j: string, k: string, key: string)
    requires Compiled(tree) && Reads(lines, tree, p) && Clean([lines])
    requires j in tree && k in tree && key in tree[j].props && key in tree[k].props && Symbolic(tree[j].props[key])
    ensures !Bare(tree[k].props[key])
  {
    NamesInTree(lines, tree, p, key);
    var i := PropertyLine(lines, tree, p, k, key, tree[k].props[key]);
    assert !LeftNumeric([lines][0][i], SymbolicNames([lines]));
  }

  lemma ReadClean(lines: seq<Line>, tree: Tree, p: map<string, nat>)
    requires Compiled(tree) && Reads(lines, tree, p)
    ensures Clean([lines]) <==> NamesApart(tree)
  {
    if NamesApart(tree) {
      forall i | 0 <= i < |lines| ensures !LeftNumeric(lines[i], SymbolicNames([lines])) {
        ApartIsClean(lines, tree, p, i);
      }
    }
    if Clean([lines]) {
      forall j, k, key | j in tree && k in tree && key in tree[j].props && key in tree[k].props
                         && Symbolic(tree[j].props[key])
        ensures !Bare(tree[k].props[key])
      {
        CleanIsApart(lines, tree, p, j, k, key);
      }
    }
  }

  /** On the sorted output of a tree, check-refs says something about the tree alone. */
  lemma CanonicalClean(tree: Tree, p: map<string, nat>)
    requires Compiled(tree)
    ensures Clean([CanonicalText(tree, p)]) <==> NamesApart(tree)
  {
    CanonicalReads(tree, p);
    ReadClean(CanonicalText(tree, p), tree, p);
  }

  // ---- what the references name -------------------------------------------------------------------

  lemma {:induction false} LabelFrom(stack: seq<string>, lines: seq<Line>, l: string) returns (i: nat)
    requires l in LabelMap(stack, lines)
    ensures i < |lines| && lines[i].statement.Open? && l in lines[i].statement.labels
    ensures LabelMap(stack, lines)[l] == Walk(stack, lines)[i]
    decreases lines
  {
    var next := StackStep(stack, lines[0]);
    if l in LabelMap(next, lines[1..]) {
      var j := LabelFrom(next, lines[1..], l);
      i := j + 1;
    } else {
      i := 0;
    }
  }

  lemma {:induction false} LabelFiled(stack: seq<string>, lines: seq<Line>, i: nat, l: string)
    requires i < |lines| && lines[i].statement.Open? && l in lines[i].statement.labels
    ensures l in LabelMap(stack, lines)
    decreases lines
  {
    if i > 0 {
      LabelFiled(StackStep(stack, lines[0]), lines[1..], i - 1, l);
    }
  }

  lemma ReadLabel(lines: seq<Line>, tree: Tree, p: map<string, nat>, l: string)
    requires Compiled(tree) && Reads(lines, tree, p)
    ensures Lookup(LabelMap([], lines), l)
            == match Resolve(tree, ByLabel(l)) case Some(k) => Some(DtPath(k)) case None => None
  {
    if l in LabelMap([], lines) {
      var i := LabelFrom([], lines, l);
      var k := LabelSource(lines, tree, p, i, l);
      assert Resolves(tree, ByLabel(l), k);
    }
    if k :| Resolves(tree, ByLabel(l), k) {
      var i := LabelLine(lines, tree, p, k, l);
      LabelFiled([], lines, i, l);
    }
  }

  /** A label names, to the walkers, the node the compiler takes it for. */
  lemma LabelsResolve(tree: Tree, p: map<string, nat>, l: string)
    requires Compiled(tree)
    ensures Lookup(LabelMap([], CanonicalText(tree, p)), l)
            == match Resolve(tree, ByLabel(l)) case Some(k) => Some(DtPath(k)) case None => None
  {
    CanonicalReads(tree, p);
    ReadLabel(CanonicalText(tree, p), tree, p, l);
  }

  lemma ReadStored(lines: seq<Line>, tree: Tree, p: map<string, nat>, k: string)
    requires Compiled(tree) && Reads(lines, tree, p) && k in tree
    ensures Stored(lines, Some(DtPath(k))) == if k in p then Some(p[k]) else None
  {
    if DtPath(k) in PhandleMap([], lines) {
      var i := FiledBy([], lines, DtPath(k));
      var m := PhandleSourceIn(lines, tree, p, i);
      PathsDiffer(tree, k, m);
    }
    if k in p {
      var i := PropertyLine(lines, tree, p, k, PHANDLE, PhandleValue(p[k]));
      var j := PhandleSource([], lines, i);
    }
  }

  lemma ReadNoNode(lines: seq<Line>, tree: Tree, p: map<string, nat>, path: string)
    requires Compiled(tree) && Reads(lines, tree, p) && forall k | k in tree :: DtPath(k) != path
    ensures Stored(lines, Some(path)).None?
  {
    if path in PhandleMap([], lines) {
      var i := FiledBy([], lines, path);
      var k := PhandleSourceIn(lines, tree, p, i);
    }
  }

  lemma ReadNode(lines: seq<Line>, tree: Tree, p: map<string, nat>, ref: Ref)
    requires Compiled(tree) && Reads(lines, tree, p)
    ensures match Resolve(tree, ref)
            case Some(k) => k in tree && NodeOf(lines, ref) == Some(DtPath(k))
            case None => NodeOf(lines, ref).None? || forall k | k in tree :: DtPath(k) != NodeOf(lines, ref).value
  {
    match ref {
      case ByLabel(l) => ReadLabel(lines, tree, p, l);
      case ByPath(path) =>
        if k :| k in tree && DtPath(k) == path {
          assert Resolves(tree, ref, k);
        }
    }
  }

  /** The phandle of the node the compiler takes an `&` for. */
  ghost function PhandleNamed(tree: Tree, p: map<string, nat>, ref: Ref): Option<nat> {
    match Resolve(tree, ref)
    case Some(k) => if k in p then Some(p[k]) else None
    case None => None
  }

  lemma ReadPhandleNamed(lines: seq<Line>, tree: Tree, p: map<string, nat>, ref: Ref)
    requires Compiled(tree) && Reads(lines, tree, p)
    ensures Stored(lines, NodeOf(lines, ref)) == PhandleNamed(tree, p, ref)
  {
    ReadNode(lines, tree, p, ref);
    match Resolve(tree, ref) {
      case Some(k) => ReadStored(lines, tree, p, k);
      case None =>
        if NodeOf(lines, ref).Some? {
          ReadNoNode(lines, tree, p, NodeOf(lines, ref).value);
        }
    }
  }

  /** What an `&` compiles to is the same to the walkers and to the compiler. */
  lemma ReferencesCompile(tree: Tree, p: map<string, nat>, ref: Ref)
    requires Compiled(tree)
    ensures Stored(CanonicalText(tree, p), NodeOf(CanonicalText(tree, p), ref)) == PhandleNamed(tree, p, ref)
  {
    CanonicalReads(tree, p);
    ReadPhandleNamed(CanonicalText(tree, p), tree, p, ref);
  }

  ghost predicate CellIn(tree: Tree, k: string, key: string, g: nat, c: nat) {
    && k in tree && key in tree[k].props && tree[k].props[key].Cells?
    && g < |tree[k].props[key].groups| && c < |tree[k].props[key].groups[g]|
  }

  /** A reference of the tree that is left a number. */
  ghost predicate NumberIn(tree: Tree, refs: References, k: string, key: string, g: nat, c: nat) {
    CellIn(tree, k, key, g, c) && tree[k].props[key].groups[g][c].Number? && refs(DtPath(k), key, g, c)
  }

  /** An `&` of the tree that is no reference and names a node with a phandle. */
  ghost predicate InventionIn(tree: Tree, p: map<string, nat>, refs: References, k: string, key: string, g: nat, c: nat) {
    && CellIn(tree, k, key, g, c) && tree[k].props[key].groups[g][c].Reference? && !refs(DtPath(k), key, g, c)
    && PhandleNamed(tree, p, tree[k].props[key].groups[g][c].ref).Some?
  }

  /** The tree has one or the other. */
  ghost predicate TreeMisread(tree: Tree, p: map<string, nat>, refs: References) {
    || (exists k, key, g, c :: NumberIn(tree, refs, k, key, g, c))
    || (exists k, key, g, c :: InventionIn(tree, p, refs, k, key, g, c))
  }

  lemma ReadNumbers(lines: seq<Line>, tree: Tree, p: map<string, nat>, refs: References)
    requires Compiled(tree) && Reads(lines, tree, p)
    ensures (exists i, g, c :: IsNumericReference(lines, refs, i, g, c))
            <==> exists k, key, g, c :: NumberIn(tree, refs, k, key, g, c)
  {
    if i: nat, g: nat, c: nat :| IsNumericReference(lines, refs, i, g, c) {
      var k := PropertySource(lines, tree, p, i);
      assert NumberIn(tree, refs, k, lines[i].statement.key, g, c);
    }
    if k, key, g: nat, c: nat :| NumberIn(tree, refs, k, key, g, c) {
      var i := PropertyLine(lines, tree, p, k, key, tree[k].props[key]);
      assert IsNumericReference(lines, refs, i, g, c);
    }
  }

  lemma ReadInventions(lines: seq<Line>, tree: Tree, p: map<string, nat>, refs: References)
    requires Compiled(tree) && Reads(lines, tree, p)
    ensures (exists i, g, c :: IsInvented(lines, refs, i, g, c))
            <==> exists k, key, g, c :: InventionIn(tree, p, refs, k, key, g, c)
  {
    if i: nat, g: nat, c: nat :| IsInvented(lines, refs, i, g, c) {
      var k := PropertySource(lines, tree, p, i);
      ReadPhandleNamed(lines, tree, p, CellAt(lines, i, g, c).ref);
      assert InventionIn(tree, p, refs, k, lines[i].statement.key, g, c);
    }
    if k, key, g: nat, c: nat :| InventionIn(tree, p, refs, k, key, g, c) {
      var i := PropertyLine(lines, tree, p, k, key, tree[k].props[key]);
      ReadPhandleNamed(lines, tree, p, CellAt(lines, i, g, c).ref);
      assert IsInvented(lines, refs, i, g, c);
    }
  }

  /** A cell is misread in the sorted output exactly when one is in the tree. */
  lemma MisreadInTree(tree: Tree, p: map<string, nat>, refs: References)
    requires Compiled(tree)
    ensures Misread(CanonicalText(tree, p), refs) <==> TreeMisread(tree, p, refs)
  {
    CanonicalReads(tree, p);
    ReadNumbers(CanonicalText(tree, p), tree, p, refs);
    ReadInventions(CanonicalText(tree, p), tree, p, refs);
  }

  /** The numbers that are some node's phandle, to check-refs and to the compiler. */
  lemma OwnersAreHolders(tree: Tree, p: map<string, nat>, n: nat)
    requires Compiled(tree) && p.Keys <= tree.Keys
    ensures n in OwnerMap([], CanonicalText(tree, p)) <==> n in p.Values
  {
    CanonicalReads(tree, p);
    ReadOwners(CanonicalText(tree, p), tree, p, n);
  }

  lemma ReadOwners(lines: seq<Line>, tree: Tree, p: map<string, nat>, n: nat)
    requires Compiled(tree) && Reads(lines, tree, p) && p.Keys <= tree.Keys
    ensures n in OwnerMap([], lines) <==> n in p.Values
  {
    if n in OwnerMap([], lines) {
      var i := OwnerSource([], lines, n);
      var k := PhandleSourceIn(lines, tree, p, i);
    }
    if k :| k in p && p[k] == n {
      var i := PropertyLine(lines, tree, p, k, PHANDLE, PhandleValue(n));
      OwnerFiled([], lines, i, n);
    }
  }
}
