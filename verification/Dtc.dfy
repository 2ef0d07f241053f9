/**
 What a device tree source means: sections 6.2 and 6.3 of the Devicetree Specification v0.4, read
 one line at a time against the tree built so far. Properties come before subnodes, a reference
 must resolve to a node that is there, and no label may name two nodes. Two readings are stricter
 than the compiler's: labels are checked at every line rather than at the end, and a node may not
 be opened by name a second time.
 */
module Dtc {
  import opened Wrappers
  import opened DeviceTree

  /** A node being read; `sub` once it has a subnode, after which it takes no property. */
  datatype Frame = Frame(key: string, sub: bool)

  datatype State = State(nodes: Tree, stack: seq<Frame>)

  const Start := State(map[], [])

  ghost predicate HasLabel(nodes: Tree, name: string) {
    exists k :: k in nodes && name in nodes[k].labels
  }

  ghost predicate Resolves(nodes: Tree, ref: Ref, key: string) {
    key in nodes && match ref
      case ByLabel(l) => l in nodes[key].labels
      case ByPath(p) => DtPath(key) == p
  }

  ghost function Resolve(nodes: Tree, ref: Ref): Option<string> {
    if exists k :: Resolves(nodes, ref, k) then
      var k :| Resolves(nodes, ref, k);
      Some(k)
    else None
  }

  function RemoveSubtree(nodes: Tree, top: string): Tree {
    map k | k in nodes && !InSubtree(top, k) :: nodes[k]
  }

  /** The key a node opened by name gets: the root alone opens at the top level. */
  function KeyOpened(stack: seq<Frame>, name: string): Option<string> {
    if stack == [] then if name == "/" then Some("/") else None
    else if ValidName(name) then Some(Child(stack[|stack| - 1].key, name))
    else None
  }

  /** The enclosing node takes no more properties. */
  function Seal(stack: seq<Frame>): seq<Frame> {
    if stack == [] then [] else stack[|stack| - 1 := stack[|stack| - 1].(sub := true)]
  }

  function SetProps(st: State, props: map<string, Value>): State
    requires st.stack != [] && st.stack[|st.stack| - 1].key in st.nodes
  {
    var key := st.stack[|st.stack| - 1].key;
    st.(nodes := st.nodes[key := st.nodes[key].(props := props)])
  }

  ghost predicate TakesProperties(st: State) {
    st.stack != [] && !st.stack[|st.stack| - 1].sub && st.stack[|st.stack| - 1].key in st.nodes
  }

  ghost function TopProps(st: State): map<string, Value>
    requires TakesProperties(st)
  {
    st.nodes[st.stack[|st.stack| - 1].key].props
  }

  /** The labels of a node being opened: distinct, and held by no other node. */
  ghost predicate LabelsFree(nodes: Tree, labels: seq<string>) {
    && (forall i, j :: 0 <= i < j < |labels| ==> labels[i] != labels[j])
    && forall l | l in labels :: !HasLabel(nodes, l)
  }

  ghost function Step(st: State, s: Statement): Option<State> {
    match s
    case Open(labels, name) =>
      var key := KeyOpened(st.stack, name);
      if key.None? || key.value in st.nodes || !LabelsFree(st.nodes, labels) then None
      else Some(State(st.nodes[key.value := Content(set l | l in labels, map[])],
                      Seal(st.stack) + [Frame(key.value, false)]))
    case OpenRef(ref) =>
      var key := Resolve(st.nodes, ref);
      if st.stack != [] || key.None? then None
      else Some(st.(stack := [Frame(key.value, false)]))
    case Close =>
      if st.stack == [] then None else Some(st.(stack := st.stack[..|st.stack| - 1]))
    case Property(key, value) =>
      if TakesProperties(st) then Some(SetProps(st, TopProps(st)[key := value])) else None
    case DeleteProperty(key) =>
      if TakesProperties(st) then Some(SetProps(st, TopProps(st) - {key})) else None
    case DeleteNode(ref) =>
      var key := Resolve(st.nodes, ref);
      if st.stack != [] || key.None? then None
      else Some(st.(nodes := RemoveSubtree(st.nodes, key.value)))
  }

  /** The state after all of `lines`, or None once one of them is rejected. */
  ghost function Run(st: State, lines: seq<Line>): Option<State>
    decreases lines
  {
    if lines == [] then Some(st)
    else
      var next := Step(st, lines[0].statement);
      if next.None? then None else Run(next.value, lines[1..])
  }

  lemma {:induction false} RunAppend(st: State, a: seq<Line>, b: seq<Line>)
    ensures Run(st, a + b) == var r := Run(st, a); if r.None? then None else Run(r.value, b)
    decreases a
  {
    if a == [] {
      assert a + b == b;
    } else {
      assert (a + b)[1..] == a[1..] + b;
      var next := Step(st, a[0].statement);
      if next.Some? {
        RunAppend(next.value, a[1..], b);
      }
    }
  }

  lemma RunOne(st: State, line: Line)
    ensures Run(st, [line]) == Step(st, line.statement)
  {
    var next := Step(st, line.statement);
    if next.Some? {
      assert Run(next.value, []) == next;
    }
  }
}
