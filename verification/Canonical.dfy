/** The compiler's sorted output: a compiled tree printed with whatever phandles a compile allocated. */
module Canonical {
  import opened Wrappers
  import opened OrderedDict
  import opened Sorting
  import opened DeviceTree
  import opened Dtc
  import opened NodePrinter
  import opened RoundTrip
  import opened RemapExact

  /** A compiled tree: what `WellFormed` and `LabelsUnique` say of parsed nodes, without their order. */
  ghost predicate Compiled(tree: Tree) {
    && "/" in tree
    && (forall k {:trigger Hangs(tree, k)} | k in tree && k != "/" :: Hangs(tree, k))
    && (forall k | k in tree :: |tree[k].labels| <= 1 && PHANDLE !in tree[k].props)
    && forall j, k, l | j in tree && k in tree && l in tree[j].labels && l in tree[k].labels :: j == k
  }

  predicate Hangs(tree: Tree, key: string) {
    LastSlash(key) >= 0 && Parent(key) in tree && BaseName(key) != ""
  }

  /** No two nodes are given the same phandle. */
  ghost predicate Injective(phandles: map<string, nat>) {
    forall j, k | j in phandles && k in phandles && phandles[j] == phandles[k] :: j == k
  }

  function PhandleValue(n: nat): Value {
    Cells([[Number(n)]])
  }

  function PropsWith(props: map<string, Value>, key: string, phandles: map<string, nat>): map<string, Value> {
    if key in phandles then props[PHANDLE := PhandleValue(phandles[key])] else props
  }

  ghost function TagFrom(labels: set<string>): Option<string> {
    if labels == {} then None else var l :| l in labels; Some(l)
  }

  function InOrder<V>(at: map<string, V>): (d: Dict<string, V>)
    ensures d.Valid() && d.at == at
  {
    Dict(Sorted(at.Keys), at)
  }

  /** A node as `dtc -s` prints it: the properties sorted, a phandle among them. */
  ghost function SortedNode(key: string, c: Content, phandles: map<string, nat>): Node {
    Node(TagFrom(c.labels), if key == "/" then "/" else BaseName(key), InOrder(PropsWith(c.props, key, phandles)))
  }

  ghost function NodesAt(tree: Tree, phandles: map<string, nat>): map<string, Node> {
    map k | k in tree :: SortedNode(k, tree[k], phandles)
  }

  ghost function SortedNodes(tree: Tree, phandles: map<string, nat>): Nodes {
    InOrder(NodesAt(tree, phandles))
  }

  /** `dtc -I dtb -O dts -P -n -s` of a tree compiled with these phandles. */
  ghost function CanonicalText(tree: Tree, phandles: map<string, nat>): seq<Line>
    requires Compiled(tree)
  {
    SortedWellFormed(tree, phandles);
    EmitNode("/", SortedNodes(tree, phandles), 0)
  }

  function WithPhandles(tree: Tree, phandles: map<string, nat>): Tree {
    map k | k in tree :: tree[k].(props := PropsWith(tree[k].props, k, phandles))
  }

  lemma OneTag(labels: set<string>)
    requires |labels| <= 1
    ensures LabelSet(TagFrom(labels)) == labels
  {
    if labels != {} {
      var l := TagFrom(labels).value;
      assert |labels - {l}| == 0;
    }
  }

  lemma SortedWellFormed(tree: Tree, phandles: map<string, nat>)
    requires Compiled(tree)
    ensures WellFormed(SortedNodes(tree, phandles))
  {
    var nodes := SortedNodes(tree, phandles);
    assert nodes.at == NodesAt(tree, phandles);
    forall k | k in nodes.at && k != "/" ensures Placed(nodes, k) {
      assert Hangs(tree, k);
    }
  }

  lemma SortedContent(key: string, c: Content, phandles: map<string, nat>)
    requires |c.labels| <= 1
    ensures ContentOf(SortedNode(key, c, phandles)) == c.(props := PropsWith(c.props, key, phandles))
  {
    OneTag(c.labels);
  }

  lemma SortedMeaning(tree: Tree, phandles: map<string, nat>)
    requires Compiled(tree)
    ensures Meaning(SortedNodes(tree, phandles)) == WithPhandles(tree, phandles)
  {
    var at := NodesAt(tree, phandles);
    forall k | k in tree ensures ContentOf(at[k]) == WithPhandles(tree, phandles)[k] {
      SortedContent(k, tree[k], phandles);
    }
  }

  lemma SortedLabels(tree: Tree, phandles: map<string, nat>)
    requires Compiled(tree)
    ensures LabelsUnique(SortedNodes(tree, phandles))
  {
    var at := NodesAt(tree, phandles);
    forall j, k | j in at && k in at && j != k && at[j].tag.Some? ensures at[j].tag != at[k].tag {
      SortedContent(j, tree[j], phandles);
      SortedContent(k, tree[k], phandles);
      assert at[j].tag.value in tree[j].labels;
    }
  }

  /** The printed text compiles to the tree it was printed from. */
  lemma CanonicalCompiles(tree: Tree, phandles: map<string, nat>)
    requires Compiled(tree)
    ensures Run(Start, CanonicalText(tree, phandles)) == Some(State(WithPhandles(tree, phandles), []))
  {
    var nodes := SortedNodes(tree, phandles);
    SortedWellFormed(tree, phandles);
    SortedMeaning(tree, phandles);
    SortedLabels(tree, phandles);
    NothingRead(Subtree(nodes, "/"));
    RunEmitNode(Start, "/", nodes, 0);
    RootSubtree(nodes);
  }

  // ---- blotting out phandle values ----------------------------------------------------------------

  /** `b` is `a` with every phandle value blotted out. */
  ghost predicate Blotted(a: Nodes, b: Nodes) {
    && ValidDicts(a) && ValidDicts(b) && a.keys == b.keys
    && forall k | k in a.at ::
         && k in b.at && a.at[k].tag == b.at[k].tag && a.at[k].name == b.at[k].name
         && BlottedProps(a.at[k].props, b.at[k].props)
  }

  ghost predicate BlottedProps(a: Dict<string, Value>, b: Dict<string, Value>) {
    && a.keys == b.keys
    && forall p | p in a.at ::
         p in b.at && EraseLine(Line(0, Property(p, a.at[p]))) == Line(0, Property(p, b.at[p]))
  }

  lemma EraseAppend(a: seq<Line>, b: seq<Line>)
    ensures Erase(a + b) == Erase(a) + Erase(b)
  {
  }

  lemma {:induction false} EraseProps(a: Dict<string, Value>, b: Dict<string, Value>, keys: seq<string>, indent: nat)
    requires BlottedProps(a, b) && forall k | k in keys :: k in a.at
    ensures (forall k | k in keys :: k in b.at) && Erase(PropLines(a, keys, indent)) == PropLines(b, keys, indent)
    decreases keys
  {
    if keys != [] {
      EraseProps(a, b, keys[1..], indent);
      var p := keys[0];
      assert EraseLine(Line(0, Property(p, a.at[p]))) == Line(0, Property(p, b.at[p]));
      EraseAppend([Line(indent, Property(p, a.at[p]))], PropLines(a, keys[1..], indent));
      assert Erase([Line(indent, Property(p, a.at[p]))]) == [Line(indent, Property(p, b.at[p]))];
    }
  }

  lemma EraseHead(a: Node, b: Node, indent: nat)
    requires a.tag == b.tag && a.name == b.name && BlottedProps(a.props, b.props)
    requires a.props.Valid() && b.props.Valid()
    ensures Erase(HeadLines(a, indent)) == HeadLines(b, indent)
  {
    EraseProps(a.props, b.props, a.props.keys, indent + 1);
    EraseAppend([OpenLine(a, indent)], PropLines(a.props, a.props.keys, indent + 1));
    assert Erase([OpenLine(a, indent)]) == [OpenLine(b, indent)];
  }

  lemma {:induction false} EraseEmit(path: string, a: Nodes, b: Nodes, indent: nat)
    requires Blotted(a, b) && path in a.at
    ensures path in b.at && Erase(EmitNode(path, a, indent)) == EmitNode(path, b, indent)
    decreases Longer(a, path)
  {
    var cs := ChildKeys(a.keys, path);
    EraseHead(a.at[path], b.at[path], indent);
    EraseEmitAll(path, cs, a, b, indent + 1);
    EraseAppend(HeadLines(a.at[path], indent), EmitAll(path, cs, a, indent + 1));
    EraseAppend(HeadLines(a.at[path], indent) + EmitAll(path, cs, a, indent + 1), [Line(indent, Close)]);
    assert Erase([Line(indent, Close)]) == [Line(indent, Close)];
  }

  lemma {:induction false} EraseEmitAll(path: string, children: seq<string>, a: Nodes, b: Nodes, indent: nat)
    requires Blotted(a, b) && path in a.at
    requires forall c | c in children :: c in a.at && IsChildKey(path, c)
    ensures path in b.at && (forall c | c in children :: c in b.at)
    ensures Erase(EmitAll(path, children, a, indent)) == EmitAll(path, children, b, indent)
    decreases Longer(a, path), |children|
  {
    if children != [] {
      var c := children[0];
      assert IsChildKey(path, c);
      assert c in Longer(a, path) && c !in Longer(a, c);
      EraseEmit(c, a, b, indent);
      EraseEmitAll(path, children[1..], a, b, indent);
      EraseAppend(EmitNode(c, a, indent), EmitAll(path, children[1..], a, indent));
    }
  }

  function Zeros(phandles: map<string, nat>): map<string, nat> {
    map k | k in phandles :: 0
  }

  lemma BlottedSorted(key: string, c: Content, phandles: map<string, nat>)
    ensures var a, b := SortedNode(key, c, phandles), SortedNode(key, c, Zeros(phandles));
            PHANDLE !in c.props ==> BlottedProps(a.props, b.props)
  {
    var a, b := PropsWith(c.props, key, phandles), PropsWith(c.props, key, Zeros(phandles));
    assert a.Keys == b.Keys;
  }

  lemma EraseCanonical(tree: Tree, phandles: map<string, nat>)
    requires Compiled(tree)
    ensures Erase(CanonicalText(tree, phandles)) == CanonicalText(tree, Zeros(phandles))
  {
    var a, b := SortedNodes(tree, phandles), SortedNodes(tree, Zeros(phandles));
    SortedWellFormed(tree, phandles);
    SortedWellFormed(tree, Zeros(phandles));
    SortedBlotted(tree, phandles);
    EraseEmit("/", a, b, 0);
  }

  lemma SortedBlotted(tree: Tree, phandles: map<string, nat>)
    requires Compiled(tree)
    ensures Blotted(SortedNodes(tree, phandles), SortedNodes(tree, Zeros(phandles)))
  {
    var a, b := NodesAt(tree, phandles), NodesAt(tree, Zeros(phandles));
    assert a.Keys == b.Keys;
    forall k | k in tree ensures BlottedProps(a[k].props, b[k].props) {
      BlottedSorted(k, tree[k], phandles);
    }
  }
}
