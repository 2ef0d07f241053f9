/** emit_node: a node printed whole, with its subtree, and what the printed lines mean. */
module NodePrinter {
  import opened Wrappers
  import opened OrderedDict
  import opened DeviceTree
  import opened Dtc

  ghost predicate ValidDicts(nodes: Nodes) {
    nodes.Valid() && forall k | k in nodes.at :: nodes.at[k].props.Valid()
  }

  /** `p.startswith(path + "/") and "/" not in p[len(path) + 1:]` */
  predicate IsChildKey(path: string, p: string) {
    path + "/" <= p && '/' !in p[|path| + 1..]
  }

  /** The keys of `path`'s children, in the order `keys` has them. */
  function ChildKeys(keys: seq<string>, path: string): (children: seq<string>)
    ensures forall p :: p in children <==> p in keys && IsChildKey(path, p)
  {
    if keys == [] then []
    else (if IsChildKey(path, keys[0]) then [keys[0]] else []) + ChildKeys(keys[1..], path)
  }

  function OpenLine(n: Node, indent: nat): Line {
    Line(indent, Open(if n.tag.Some? then [n.tag.value] else [], n.name))
  }

  function PropLines(props: Dict<string, Value>, keys: seq<string>, indent: nat): seq<Line>
    requires forall k | k in keys :: k in props.at
  {
    if keys == [] then []
    else [Line(indent, Property(keys[0], props.at[keys[0]]))] + PropLines(props, keys[1..], indent)
  }

  function HeadLines(n: Node, indent: nat): seq<Line>
    requires n.props.Valid()
  {
    [OpenLine(n, indent)] + PropLines(n.props, n.props.keys, indent + 1)
  }

  /** The keys deeper recursion can still reach. */
  ghost function Longer(nodes: Nodes, path: string): set<string> {
    set p | p in nodes.at && |p| > |path|
  }

  function EmitNode(path: string, nodes: Nodes, indent: nat): seq<Line>
    requires ValidDicts(nodes) && path in nodes.at
    decreases Longer(nodes, path)
  {
    var n := nodes.at[path];
    HeadLines(n, indent)
    + EmitAll(path, ChildKeys(nodes.keys, path), nodes, indent + 1)
    + [Line(indent, Close)]
  }

  function EmitAll(path: string, children: seq<string>, nodes: Nodes, indent: nat): seq<Line>
    requires ValidDicts(nodes) && path in nodes.at
    requires forall c | c in children :: c in nodes.at && IsChildKey(path, c)
    decreases Longer(nodes, path), |children|
  {
    if children == [] then []
    else
      assert IsChildKey(path, children[0]);
      assert children[0] in Longer(nodes, path) && children[0] !in Longer(nodes, children[0]);
      EmitNode(children[0], nodes, indent) + EmitAll(path, children[1..], nodes, indent)
  }

  // ---- the child test -------------------------------------------------------------------------

  lemma ChildTest(path: string, p: string)
    ensures IsChildKey(path, p) <==> LastSlash(p) >= 0 && Parent(p) == path
  {
    if IsChildKey(path, p) {
      assert p == Child(path, p[|path| + 1..]);
      ChildParts(path, p[|path| + 1..]);
    }
    if LastSlash(p) >= 0 && Parent(p) == path {
      KeyIsChild(p);
    }
  }

  lemma ChildKeysDistinct(keys: seq<string>, path: string)
    requires forall i, j :: 0 <= i < j < |keys| ==> keys[i] != keys[j]
    ensures var cs := ChildKeys(keys, path); forall i, j :: 0 <= i < j < |cs| ==> cs[i] != cs[j]
  {
    if keys != [] {
      ChildKeysDistinct(keys[1..], path);
      var cs := ChildKeys(keys[1..], path);
      assert keys[0] !in keys[1..];
    }
  }

  function Restrict(tree: Tree, keys: set<string>): Tree {
    map k | k in tree && k in keys :: tree[k]
  }

  /** What the nodes filed under `keys` mean. */
  function Part(nodes: Nodes, keys: set<string>): Tree {
    Restrict(Meaning(nodes), keys)
  }

  ghost function SubtreeKeys(nodes: Nodes, path: string): set<string> {
    set k | k in nodes.at && InSubtree(path, k)
  }

  ghost predicate InForest(tops: seq<string>, key: string) {
    exists t | t in tops :: InSubtree(t, key)
  }

  ghost function ForestKeys(nodes: Nodes, tops: seq<string>): set<string> {
    set k | k in nodes.at && InForest(tops, k)
  }

  /** What the subtree at `path` means. */
  ghost function Subtree(nodes: Nodes, path: string): Tree {
    Part(nodes, SubtreeKeys(nodes, path))
  }

  /** What the subtrees at `tops` mean, together. */
  ghost function Forest(nodes: Nodes, tops: seq<string>): Tree {
    Part(nodes, ForestKeys(nodes, tops))
  }

  lemma RestrictUnion(tree: Tree, a: set<string>, b: set<string>)
    ensures Restrict(tree, a + b) == Restrict(tree, a) + Restrict(tree, b)
    ensures Restrict(tree, a).Keys == tree.Keys * a && Restrict(tree, b).Keys == tree.Keys * b
  {
  }

  lemma {:induction false} SubtreeChildren(nodes: Nodes, path: string, key: string)
    requires WellFormed(nodes) && path in nodes.at && key in nodes.at
    ensures InSubtree(path, key) <==> key == path || InForest(ChildKeys(nodes.keys, path), key)
    decreases |key|
  {
    var cs := ChildKeys(nodes.keys, path);
    if InSubtree(path, key) && key != path {
      if Parent(key) == path {
        ChildTest(path, key);
        assert key in cs && InSubtree(key, key);
      } else {
        AncestorsPresent(nodes, path, key);
        SubtreeChildren(nodes, path, Parent(key));
        var c :| c in cs && InSubtree(c, Parent(key));
        assert InSubtree(c, key);
      }
    }
    if InForest(cs, key) {
      var c :| c in cs && InSubtree(c, key);
      ChildTest(path, c);
      assert InSubtree(path, c);
      SubtreeTransitive(path, c, key);
    }
  }

  lemma AncestorsPresent(nodes: Nodes, path: string, key: string)
    requires WellFormed(nodes) && path in nodes.at && key in nodes.at
    requires InSubtree(path, key) && key != path
    ensures key != "/" && Parent(key) in nodes.at
  {
    if key == "/" {
      assert Parent(key) == "";
      SubtreeNoShorter(path, "");
      KeyShape(nodes, path);
    } else {
      assert Placed(nodes, key);
    }
  }

  // ---- labels ---------------------------------------------------------------------------------

  /** None of the labels in `added` is held in `tree`. */
  ghost predicate NoClash(tree: Tree, added: Tree) {
    forall k, l | k in added && l in added[k].labels :: !HasLabel(tree, l)
  }

  lemma NoClashUnion(tree: Tree, nodes: Nodes, a: Tree, b: Tree)
    requires LabelsUnique(nodes)
    requires forall k | k in a :: k in nodes.at && a[k].labels == LabelSet(nodes.at[k].tag)
    requires forall k | k in b :: k in nodes.at && b[k].labels == LabelSet(nodes.at[k].tag)
    requires tree.Keys !! a.Keys && a.Keys !! b.Keys
    ensures NoClash(tree, a + b) <==> NoClash(tree, a) && NoClash(tree + a, b)
  {
    if NoClash(tree, a + b) {
      forall k, l | k in a && l in a[k].labels ensures !HasLabel(tree, l) {
        assert k in a + b && (a + b)[k] == a[k];
      }
      forall j, k, l | k in b && l in b[k].labels && j in tree + a ensures l !in (tree + a)[j].labels {
        assert k in a + b && l in (a + b)[k].labels;
        assert !HasLabel(tree, l);
        if j in a {
          assert j != k;
        }
      }
    }
    if NoClash(tree, a) && NoClash(tree + a, b) {
      forall k, l | k in a + b && l in (a + b)[k].labels ensures !HasLabel(tree, l) {
        if HasLabel(tree, l) {
          var j :| j in tree && l in tree[j].labels;
          assert j in tree + a && (tree + a)[j] == tree[j];
          assert HasLabel(tree + a, l);
        }
      }
    }
  }

  // ---- running the printed lines --------------------------------------------------------------

  function Pick(m: map<string, Value>, keys: seq<string>): map<string, Value> {
    map k | k in keys && k in m :: m[k]
  }

  lemma {:induction false} RunProps(st: State, props: Dict<string, Value>, keys: seq<string>, indent: nat)
    requires TakesProperties(st)
    requires forall k | k in keys :: k in props.at
    ensures Run(st, PropLines(props, keys, indent)) == Some(SetProps(st, TopProps(st) + Pick(props.at, keys)))
    decreases keys
  {
    if keys == [] {
      assert TopProps(st) + Pick(props.at, keys) == TopProps(st);
      assert SetProps(st, TopProps(st)) == st;
    } else {
      var line := Line(indent, Property(keys[0], props.at[keys[0]]));
      var next := SetProps(st, TopProps(st)[keys[0] := props.at[keys[0]]]);
      RunOne(st, line);
      RunAppend(st, [line], PropLines(props, keys[1..], indent));
      RunProps(next, props, keys[1..], indent);
      PickStep(TopProps(st), props.at, keys);
      SetPropsTwice(st, TopProps(next), TopProps(st) + Pick(props.at, keys));
    }
  }

  lemma PickStep(m: map<string, Value>, at: map<string, Value>, keys: seq<string>)
    requires keys != [] && keys[0] in at
    ensures m[keys[0] := at[keys[0]]] + Pick(at, keys[1..]) == m + Pick(at, keys)
  {
    assert keys == [keys[0]] + keys[1..];
  }

  lemma SetPropsTwice(st: State, a: map<string, Value>, b: map<string, Value>)
    requires TakesProperties(st)
    ensures SetProps(SetProps(st, a), b) == SetProps(st, b)
  {
    assert SetProps(SetProps(st, a), b).nodes == SetProps(st, b).nodes;
  }

  /** The state after printing `added` into `st`, or None when a label is taken. */
  ghost function Grown(st: State, added: Tree, stack: seq<Frame>): Option<State> {
    if NoClash(st.nodes, added) then Some(State(st.nodes + added, stack)) else None
  }

  ghost function Then(first: Option<State>, lines: seq<Line>): Option<State> {
    if first.None? then None else Run(first.value, lines)
  }

  lemma SumAssociative(a: Tree, b: Tree, c: Tree)
    ensures a + b + c == a + (b + c)
  {
  }

  lemma GrownTwice(st: State, nodes: Nodes, a: set<string>, b: set<string>, middle: seq<Frame>, stack: seq<Frame>)
    requires LabelsUnique(nodes)
    requires st.nodes.Keys !! a && a !! b
    ensures Grown(st, Part(nodes, a + b), stack)
            == var r := Grown(st, Part(nodes, a), middle);
               if r.None? then None else Grown(r.value, Part(nodes, b), stack)
  {
    RestrictUnion(Meaning(nodes), a, b);
    NoClashUnion(st.nodes, nodes, Part(nodes, a), Part(nodes, b));
    SumAssociative(st.nodes, Part(nodes, a), Part(nodes, b));
  }

  lemma LabelsFreeAlone(tree: Tree, path: string, n: Node)
    ensures LabelsFree(tree, OpenLine(n, 0).statement.labels) <==> NoClash(tree, map[path := ContentOf(n)])
    ensures (set l | l in OpenLine(n, 0).statement.labels) == LabelSet(n.tag)
  {
    var labels := OpenLine(n, 0).statement.labels;
    var alone := map[path := ContentOf(n)];
    if LabelsFree(tree, labels) {
      forall k, l | k in alone && l in alone[k].labels ensures !HasLabel(tree, l) {
        assert l in labels;
      }
    }
    if NoClash(tree, alone) {
      forall l | l in labels ensures !HasLabel(tree, l) {
        assert path in alone && l in alone[path].labels;
      }
    }
  }

  lemma RunOpen(st: State, path: string, n: Node, indent: nat)
    requires KeyOpened(st.stack, n.name) == Some(path) && path !in st.nodes
    ensures Run(st, [OpenLine(n, indent)])
            == if NoClash(st.nodes, map[path := ContentOf(n)])
               then Some(State(st.nodes[path := Content(LabelSet(n.tag), map[])], Seal(st.stack) + [Frame(path, false)]))
               else None
  {
    RunOne(st, OpenLine(n, indent));
    LabelsFreeAlone(st.nodes, path, n);
  }

  lemma RunAllProps(st: State, path: string, n: Node, stack: seq<Frame>, indent: nat)
    requires n.props.Valid()
    ensures Run(State(st.nodes[path := Content(LabelSet(n.tag), map[])], stack + [Frame(path, false)]),
                PropLines(n.props, n.props.keys, indent))
            == Some(State(st.nodes + map[path := ContentOf(n)], stack + [Frame(path, false)]))
  {
    var begun := State(st.nodes[path := Content(LabelSet(n.tag), map[])], stack + [Frame(path, false)]);
    RunProps(begun, n.props, n.props.keys, indent);
    assert TopProps(begun) + Pick(n.props.at, n.props.keys) == n.props.at;
    assert SetProps(begun, n.props.at).nodes == st.nodes + map[path := ContentOf(n)];
  }

  /** The head and the properties: the node alone, still open. */
  lemma RunHead(st: State, path: string, nodes: Nodes, indent: nat)
    requires ValidDicts(nodes) && path in nodes.at
    requires KeyOpened(st.stack, nodes.at[path].name) == Some(path) && path !in st.nodes
    ensures Run(st, HeadLines(nodes.at[path], indent))
            == Grown(st, Part(nodes, {path}), Seal(st.stack) + [Frame(path, false)])
  {
    var n := nodes.at[path];
    assert Part(nodes, {path}) == map[path := ContentOf(n)];
    RunAppend(st, [OpenLine(n, indent)], PropLines(n.props, n.props.keys, indent + 1));
    RunOpen(st, path, n, indent);
    RunAllProps(st, path, n, Seal(st.stack), indent + 1);
  }

  lemma RunClose(st: State, indent: nat)
    requires st.stack != []
    ensures Run(st, [Line(indent, Close)]) == Some(st.(stack := st.stack[..|st.stack| - 1]))
  {
    RunOne(st, Line(indent, Close));
  }

  lemma RunThree(st: State, a: seq<Line>, b: seq<Line>, c: seq<Line>)
    ensures Run(st, a + b + c) == Then(Then(Run(st, a), b), c)
  {
    RunAppend(st, a + b, c);
    RunAppend(st, a, b);
  }

  /**
   The printed lines of a node, read inside its parent, add the node's subtree and nothing else,
   and are rejected exactly when they bring in a label that is held already.
   */
  lemma {:induction false} RunEmitNode(st: State, path: string, nodes: Nodes, indent: nat)
    requires WellFormed(nodes) && LabelsUnique(nodes) && path in nodes.at
    requires KeyOpened(st.stack, nodes.at[path].name) == Some(path)
    requires st.nodes.Keys !! SubtreeKeys(nodes, path)
    ensures Run(st, EmitNode(path, nodes, indent)) == Grown(st, Subtree(nodes, path), Seal(st.stack))
    decreases Longer(nodes, path)
  {
    var cs := ChildKeys(nodes.keys, path);
    var entered := Grown(st, Part(nodes, {path}), Seal(st.stack) + [Frame(path, false)]);
    assert path in SubtreeKeys(nodes, path);
    if entered.Some? {
      ReadyInside(st, path, nodes);
      RunEmitAll(entered.value, path, cs, nodes, indent + 1);
    }
    NodeAround(st, path, nodes, indent, EmitAll(path, cs, nodes, indent + 1));
  }

  /** Once a node's head has been read, its children can be. */
  lemma ReadyInside(st: State, path: string, nodes: Nodes)
    requires WellFormed(nodes) && path in nodes.at && st.nodes.Keys !! SubtreeKeys(nodes, path)
    ensures Ready(State(st.nodes + Part(nodes, {path}), Seal(st.stack) + [Frame(path, false)]), path,
                  ChildKeys(nodes.keys, path), nodes)
  {
    SplitForest(nodes, path);
    ChildKeysDistinct(nodes.keys, path);
  }

  /** A node's lines around its children's. */
  lemma NodeAround(st: State, path: string, nodes: Nodes, indent: nat, body: seq<Line>)
    requires WellFormed(nodes) && LabelsUnique(nodes) && path in nodes.at
    requires KeyOpened(st.stack, nodes.at[path].name) == Some(path)
    requires st.nodes.Keys !! SubtreeKeys(nodes, path) && path !in st.nodes
    requires var cs, inside := ChildKeys(nodes.keys, path), Seal(st.stack) + [Frame(path, false)];
             var entered := Grown(st, Part(nodes, {path}), inside);
             entered.Some? ==>
               Run(entered.value, body) == Grown(entered.value, Forest(nodes, cs), if cs == [] then inside else Seal(inside))
    ensures Run(st, HeadLines(nodes.at[path], indent) + body + [Line(indent, Close)])
            == Grown(st, Subtree(nodes, path), Seal(st.stack))
  {
    var head := HeadLines(nodes.at[path], indent);
    RunHead(st, path, nodes, indent);
    FinishNode(st, path, nodes);
    RunThree(st, head, body, [Line(indent, Close)]);
    var read := Then(Run(st, head), body);
    if read.Some? {
      RunClose(read.value, indent);
    }
  }

  lemma SealTop(stack: seq<Frame>, top: Frame)
    ensures var inside := stack + [top];
            && Seal(inside) != [] && inside[..|inside| - 1] == stack && Seal(inside)[..|Seal(inside)| - 1] == stack
  {
  }

  lemma FinishNode(st: State, path: string, nodes: Nodes)
    requires WellFormed(nodes) && LabelsUnique(nodes) && path in nodes.at
    requires st.nodes.Keys !! SubtreeKeys(nodes, path)
    ensures var cs := ChildKeys(nodes.keys, path);
            var inside := Seal(st.stack) + [Frame(path, false)];
            var r := Grown(st, Part(nodes, {path}), inside);
            var s := if r.None? then None
                     else Grown(r.value, Forest(nodes, cs), if cs == [] then inside else Seal(inside));
            && (s.Some? ==> s.value.stack != [] && s.value.stack[..|s.value.stack| - 1] == Seal(st.stack))
            && Grown(st, Subtree(nodes, path), Seal(st.stack))
               == if s.None? then None else Some(s.value.(stack := Seal(st.stack)))
  {
    var cs := ChildKeys(nodes.keys, path);
    var inside := Seal(st.stack) + [Frame(path, false)];
    SplitForest(nodes, path);
    GrownTwice(st, nodes, {path}, ForestKeys(nodes, cs), inside, if cs == [] then inside else Seal(inside));
    SealTop(Seal(st.stack), Frame(path, false));
  }

  lemma PathNotBelowChildren(nodes: Nodes, path: string)
    ensures !InForest(ChildKeys(nodes.keys, path), path)
  {
    var cs := ChildKeys(nodes.keys, path);
    if InForest(cs, path) {
      var c :| c in cs && InSubtree(c, path);
      SubtreeNoShorter(c, path);
    }
  }

  /** A subtree is its top node and the subtrees of its children. */
  lemma SplitForest(nodes: Nodes, path: string)
    requires WellFormed(nodes) && path in nodes.at
    ensures path !in ForestKeys(nodes, ChildKeys(nodes.keys, path))
    ensures SubtreeKeys(nodes, path) == {path} + ForestKeys(nodes, ChildKeys(nodes.keys, path))
  {
    var cs := ChildKeys(nodes.keys, path);
    forall k | k in nodes.at
      ensures InSubtree(path, k) <==> k == path || InForest(cs, k)
    {
      SubtreeChildren(nodes, path, k);
    }
    PathNotBelowChildren(nodes, path);
  }

  /** These children can be printed into their parent, which is open. */
  ghost predicate Ready(st: State, path: string, children: seq<string>, nodes: Nodes) {
    && (forall c | c in children :: c in nodes.at && IsChildKey(path, c))
    && (forall i, j :: 0 <= i < j < |children| ==> children[i] != children[j])
    && st.stack != [] && st.stack[|st.stack| - 1].key == path
    && st.nodes.Keys !! ForestKeys(nodes, children)
  }

  lemma {:induction false} RunEmitAll(st: State, path: string, children: seq<string>, nodes: Nodes, indent: nat)
    requires WellFormed(nodes) && LabelsUnique(nodes) && path in nodes.at && Ready(st, path, children, nodes)
    ensures Run(st, EmitAll(path, children, nodes, indent))
            == Grown(st, Forest(nodes, children), if children == [] then st.stack else Seal(st.stack))
    decreases Longer(nodes, path), |children|
  {
    if children == [] {
      EmptyForest(st, nodes);
    } else {
      var c, rest := children[0], children[1..];
      ReadyNext(st, path, children, nodes);
      RunEmitNode(st, c, nodes, indent);
      var after := Grown(st, Subtree(nodes, c), Seal(st.stack));
      if after.Some? {
        RunEmitAll(after.value, path, rest, nodes, indent);
      }
      ForestLines(st, path, children, nodes, EmitNode(c, nodes, indent), EmitAll(path, rest, nodes, indent));
    }
  }

  /** The first child can be printed, and after it the others. */
  lemma ReadyNext(st: State, path: string, children: seq<string>, nodes: Nodes)
    requires WellFormed(nodes) && LabelsUnique(nodes) && path in nodes.at && Ready(st, path, children, nodes)
    requires children != []
    ensures var c, rest := children[0], children[1..];
            && c in nodes.at && c in Longer(nodes, path) && c !in Longer(nodes, c)
            && KeyOpened(st.stack, nodes.at[c].name) == Some(c) && st.nodes.Keys !! SubtreeKeys(nodes, c)
            && (forall k | k in rest :: k in nodes.at && IsChildKey(path, k))
            && var after := Grown(st, Subtree(nodes, c), Seal(st.stack));
               after.Some? ==> Ready(after.value, path, rest, nodes)
  {
    var c := children[0];
    assert IsChildKey(path, c);
    ChildOpens(nodes, path, c, st.stack);
    ForestStep(st, path, children, nodes);
  }

  /** The first child's lines, and the others'. */
  lemma ForestLines(st: State, path: string, children: seq<string>, nodes: Nodes, first: seq<Line>, rest: seq<Line>)
    requires LabelsUnique(nodes) && children != [] && Ready(st, path, children, nodes)
    requires Run(st, first) == Grown(st, Subtree(nodes, children[0]), Seal(st.stack))
    requires Run(st, first).Some? ==>
               var after := Run(st, first).value;
               Run(after, rest) == Grown(after, Forest(nodes, children[1..]),
                                         if children[1..] == [] then after.stack else Seal(after.stack))
    ensures Run(st, first + rest) == Grown(st, Forest(nodes, children), Seal(st.stack))
  {
    ForestStep(st, path, children, nodes);
    RunAppend(st, first, rest);
  }

  /** The first child, and then the others. */
  lemma ForestStep(st: State, path: string, children: seq<string>, nodes: Nodes)
    requires LabelsUnique(nodes) && children != [] && st.stack != []
    requires forall c | c in children :: IsChildKey(path, c)
    requires forall i, j :: 0 <= i < j < |children| ==> children[i] != children[j]
    requires st.nodes.Keys !! ForestKeys(nodes, children)
    ensures st.nodes.Keys !! SubtreeKeys(nodes, children[0])
    ensures var r := Grown(st, Subtree(nodes, children[0]), Seal(st.stack));
            && Grown(st, Forest(nodes, children), Seal(st.stack))
               == (if r.None? then None else Grown(r.value, Forest(nodes, children[1..]), Seal(st.stack)))
            && (r.Some? ==>
                  && r.value.nodes.Keys !! ForestKeys(nodes, children[1..])
                  && Seal(r.value.stack) == r.value.stack == Seal(st.stack))
  {
    var first, others := SubtreeKeys(nodes, children[0]), ForestKeys(nodes, children[1..]);
    ForestCons(nodes, path, children);
    GrownTwice(st, nodes, first, others, Seal(st.stack), Seal(st.stack));
    RestrictUnion(Meaning(nodes), first, others);
  }

  lemma EmptyForest(st: State, nodes: Nodes)
    ensures Grown(st, Forest(nodes, []), st.stack) == Some(st)
  {
    assert Forest(nodes, []) == map[];
    assert st.nodes + map[] == st.nodes;
  }

  lemma ChildOpens(nodes: Nodes, path: string, c: string, stack: seq<Frame>)
    requires WellFormed(nodes) && path in nodes.at && c in nodes.at && IsChildKey(path, c)
    requires stack != [] && stack[|stack| - 1].key == path
    ensures KeyOpened(stack, nodes.at[c].name) == Some(c)
  {
    ChildTest(path, c);
    if c == "/" {
      KeyShape(nodes, path);
    }
    assert Placed(nodes, c);
    KeyIsChild(c);
  }

  lemma ForestCons(nodes: Nodes, path: string, children: seq<string>)
    requires children != []
    requires forall c | c in children :: IsChildKey(path, c)
    requires forall i, j :: 0 <= i < j < |children| ==> children[i] != children[j]
    ensures var first, others := SubtreeKeys(nodes, children[0]), ForestKeys(nodes, children[1..]);
            first !! others && ForestKeys(nodes, children) == first + others
  {
    var c, rest := children[0], children[1..];
    forall k | k in nodes.at
      ensures InForest(children, k) <==> InSubtree(c, k) || InForest(rest, k)
      ensures !(InSubtree(c, k) && InForest(rest, k))
    {
      if InSubtree(c, k) {
        assert InSubtree(c, k) && c in children;
      }
      if InForest(rest, k) {
        var d :| d in rest && InSubtree(d, k);
        assert d in children;
        if InSubtree(c, k) {
          ChildTest(path, c);
          ChildTest(path, d);
          SiblingsDisjoint(c, d, k);
        }
      }
    }
  }
}
