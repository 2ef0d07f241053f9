/**
 The text of a device tree source, one token per line, and the string keys the scripts file nodes
 under: the names on the way down from the root, joined with "/". The root's own name is "/", so
 the root's key is "/", a child's "//aliases" and a grandchild's "//aliases/x".
 */
module DeviceTree {
  import opened Wrappers
  import opened OrderedDict

  /** How a reference names a node: `&label` or `&{/path}`. */
  datatype Ref = ByLabel(name: string) | ByPath(path: string)

  datatype Cell = Number(n: nat) | Reference(ref: Ref)

  /** A property's value: none (a boolean property), `<...>` groups of cells, or other text. */
  datatype Value = Flag | Cells(groups: seq<seq<Cell>>) | Text(text: string)

  datatype Statement =
    | Open(labels: seq<string>, name: string)   // l: name {
    | OpenRef(ref: Ref)                         // &l {
    | Close                                     // };
    | Property(key: string, value: Value)       // key = value;
    | DeleteProperty(key: string)
    | DeleteNode(ref: Ref)

  /** A line, with the number of tabs before it. */
  datatype Line = Line(indent: nat, statement: Statement)

  const PHANDLE := "phandle"

  /** What the scripts know of one node; `tag` is its label. */
  datatype Node = Node(tag: Option<string>, name: string, props: Dict<string, Value>)

  type Nodes = Dict<string, Node>

  /** What a node means, with the order of its properties forgotten. */
  datatype Content = Content(labels: set<string>, props: map<string, Value>)

  type Tree = map<string, Content>

  function LabelSet(tag: Option<string>): set<string> {
    if tag.Some? then {tag.value} else {}
  }

  function ContentOf(n: Node): Content {
    Content(LabelSet(n.tag), n.props.at)
  }

  function Meaning(nodes: Nodes): Tree {
    map k | k in nodes.at :: ContentOf(nodes.at[k])
  }

  // ---- keys -----------------------------------------------------------------------------------

  /** Where the last "/" is, or -1. */
  function LastSlash(s: string): (i: int)
    ensures -1 <= i < |s|
    ensures i >= 0 ==> s[i] == '/'
    ensures forall j :: i < j < |s| ==> s[j] != '/'
  {
    if s == [] then -1
    else if s[|s| - 1] == '/' then |s| - 1
    else LastSlash(s[..|s| - 1])
  }

  /** `key.rsplit("/", 1)[0]` */
  function Parent(key: string): string {
    if LastSlash(key) < 0 then key else key[..LastSlash(key)]
  }

  function BaseName(key: string): string {
    key[LastSlash(key) + 1..]
  }

  function Child(key: string, name: string): string {
    key + "/" + name
  }

  /** `"/".join(stack)` */
  function Join(stack: seq<string>): string {
    if stack == [] then ""
    else if |stack| == 1 then stack[0]
    else Child(Join(stack[..|stack| - 1]), stack[|stack| - 1])
  }

  predicate ValidName(name: string) {
    name != "" && '/' !in name
  }

  lemma ChildParts(key: string, name: string)
    requires '/' !in name
    ensures LastSlash(Child(key, name)) == |key|
    ensures Parent(Child(key, name)) == key && BaseName(Child(key, name)) == name
  {
    var k := Child(key, name);
    assert k[|key|] == '/';
    assert forall j :: |key| < j < |k| ==> k[j] == name[j - |key| - 1];
  }

  lemma KeyIsChild(key: string)
    requires LastSlash(key) >= 0
    ensures key == Child(Parent(key), BaseName(key))
    ensures '/' !in BaseName(key) && |Parent(key)| < |key|
  {
  }

  /** The key of a node as the device tree writes it: "//aliases" is /aliases. */
  function DtPath(key: string): string {
    if key == "/" || key == "" then "/" else key[1..]
  }

  /** `key` is `top` or lies somewhere below it. */
  predicate InSubtree(top: string, key: string)
    decreases |key|
  {
    key == top || (LastSlash(key) >= 0 && InSubtree(top, Parent(key)))
  }

  lemma SubtreeNoShorter(top: string, key: string)
    requires InSubtree(top, key)
    ensures |top| <= |key| && (|top| == |key| ==> top == key)
    decreases |key|
  {
    if key != top {
      SubtreeNoShorter(top, Parent(key));
    }
  }

  lemma SubtreeTransitive(a: string, b: string, c: string)
    requires InSubtree(a, b) && InSubtree(b, c)
    ensures InSubtree(a, c)
    decreases |c|
  {
    if c != b {
      SubtreeTransitive(a, b, Parent(c));
    }
  }

  /** Two nodes above the same node lie one above the other. */
  lemma SubtreesNest(a: string, b: string, key: string)
    requires InSubtree(a, key) && InSubtree(b, key)
    ensures InSubtree(a, b) || InSubtree(b, a)
    decreases |key|
  {
    if key != a && key != b {
      SubtreesNest(a, b, Parent(key));
    }
  }

  /** Siblings have no descendant in common. */
  lemma SiblingsDisjoint(a: string, b: string, key: string)
    requires LastSlash(a) >= 0 && LastSlash(b) >= 0 && Parent(a) == Parent(b) && a != b
    ensures !(InSubtree(a, key) && InSubtree(b, key))
  {
    if InSubtree(a, key) && InSubtree(b, key) {
      SubtreesNest(a, b, key);
      if InSubtree(a, b) {
        SubtreeNoShorter(a, Parent(b));
      } else {
        SubtreeNoShorter(b, Parent(a));
      }
    }
  }

  // ---- well-formed node maps ------------------------------------------------------------------

  ghost predicate Placed(nodes: Nodes, key: string)
    requires key in nodes.at
  {
    && LastSlash(key) >= 0 && Parent(key) in nodes.at
    && nodes.at[key].name == BaseName(key) && BaseName(key) != ""
  }

  /** Every node but the root sits under one that is there, and is filed under its own name. */
  ghost predicate WellFormed(nodes: Nodes) {
    && nodes.Valid()
    && "/" in nodes.at && nodes.at["/"].name == "/"
    && (forall k | k in nodes.at :: nodes.at[k].props.Valid())
    && forall k {:trigger Placed(nodes, k)} | k in nodes.at && k != "/" :: Placed(nodes, k)
  }

  /** No two nodes carry the same label. */
  ghost predicate LabelsUnique(nodes: Nodes) {
    forall j, k | j in nodes.at && k in nodes.at && j != k && nodes.at[j].tag.Some? ::
      nodes.at[j].tag != nodes.at[k].tag
  }

  lemma KeyShape(nodes: Nodes, key: string)
    requires WellFormed(nodes) && key in nodes.at
    ensures key == "/" || (|key| > 2 && key[..2] == "//")
    decreases |key|
  {
    if key != "/" {
      assert Placed(nodes, key);
      KeyIsChild(key);
      KeyShape(nodes, Parent(key));
    }
  }

  lemma DtPathInjective(j: string, k: string)
    requires j == "/" || (|j| > 2 && j[..2] == "//")
    requires k == "/" || (|k| > 2 && k[..2] == "//")
    requires DtPath(j) == DtPath(k)
    ensures j == k
  {
    if j != "/" && k != "/" {
      assert j == "/" + j[1..] && k == "/" + k[1..];
    }
  }

  lemma AllBelowRoot(nodes: Nodes, key: string)
    requires WellFormed(nodes) && key in nodes.at
    ensures InSubtree("/", key)
    decreases |key|
  {
    if key != "/" {
      assert Placed(nodes, key);
      AllBelowRoot(nodes, Parent(key));
    }
  }
}
