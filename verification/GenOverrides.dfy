/**
 gen-overrides.py's `main`: a script of deletes, overrides and added nodes, written from the differences
 between two parsed trees.
 */
module GenOverrides {
  import opened OrderedDict
  import opened Sorting
  import opened DeviceTree
  import opened NodePrinter

  /** What an override calls a node: a label is preferred to a path. */
  function Addr(path: string, node: Node): Ref {
    if node.tag.Some? then ByLabel(node.tag.value) else ByPath(DtPath(path))
  }

  // ---- what each node contributes ---------------------------------------------------------------

  function DeleteLine(path: string, base: Nodes, target: Nodes): seq<Line>
    requires path in base.at
  {
    if Parent(path) in base.at && Parent(path) !in target.at then []   // gone with its parent
    else [Line(0, DeleteNode(Addr(path, base.at[path])))]
  }

  /** The keys of `t`, in the order of `keys`, whose value `b` lacks or has otherwise. */
  function Differing(b: Dict<string, Value>, t: Dict<string, Value>, keys: seq<string>): (diff: seq<string>)
    requires forall k | k in keys :: k in t.at
    ensures forall k :: k in diff <==> k in keys && (k !in b.at || b.at[k] != t.at[k])
  {
    if keys == [] then []
    else (if keys[0] !in b.at || b.at[keys[0]] != t.at[keys[0]] then [keys[0]] else [])
         + Differing(b, t, keys[1..])
  }

  function DeletePropLines(keys: seq<string>): seq<Line> {
    if keys == [] then []
    else [Line(1, DeleteProperty(keys[0]))] + DeletePropLines(keys[1..])
  }

  function OverrideLines(path: string, base: Nodes, target: Nodes): seq<Line>
    requires path in base.at && path in target.at && target.at[path].props.Valid()
  {
    var b, t := base.at[path].props, target.at[path].props;
    var diff := Differing(b, t, t.keys);
    var gone := Sorted(b.at.Keys - t.at.Keys);
    if diff == [] && gone == [] then []
    else [Line(0, OpenRef(Addr(path, base.at[path])))] + (DeletePropLines(gone) + PropLines(t, diff, 1))
         + [Line(0, Close)]
  }

  function AddLines(path: string, base: Nodes, target: Nodes): seq<Line>
    requires path in target.at && ValidDicts(target)
  {
    if Parent(path) in base.at then
      [Line(0, OpenRef(Addr(Parent(path), base.at[Parent(path)])))] + EmitNode(path, target, 1) + [Line(0, Close)]
    else []
  }

  // ---- the whole script -----------------------------------------------------------------------

  function DeleteScript(order: seq<string>, base: Nodes, target: Nodes): seq<Line>
    requires forall p | p in order :: p in base.at
  {
    if order == [] then []
    else DeleteScript(order[..|order| - 1], base, target) + DeleteLine(order[|order| - 1], base, target)
  }

  function OverrideScript(order: seq<string>, base: Nodes, target: Nodes): seq<Line>
    requires ValidDicts(target) && forall p | p in order :: p in base.at && p in target.at
  {
    if order == [] then []
    else OverrideScript(order[..|order| - 1], base, target) + OverrideLines(order[|order| - 1], base, target)
  }

  function AddScript(order: seq<string>, base: Nodes, target: Nodes): seq<Line>
    requires ValidDicts(target) && forall p | p in order :: p in target.at
  {
    if order == [] then []
    else AddScript(order[..|order| - 1], base, target) + AddLines(order[|order| - 1], base, target)
  }

  /** The members of `order` that hang from a node of `base`. */
  function HangingFrom(order: seq<string>, base: Nodes): (hanging: seq<string>)
    ensures forall p :: p in hanging <==> p in order && (Parent(p) in base.at || '/' !in p)
  {
    if order == [] then []
    else HangingFrom(order[..|order| - 1], base)
         + (if Parent(order[|order| - 1]) in base.at || '/' !in order[|order| - 1] then [order[|order| - 1]] else [])
  }

  function Deletions(base: Nodes, target: Nodes): seq<Line> {
    DeleteScript(Sorted(base.at.Keys - target.at.Keys), base, target)
  }

  function Changes(base: Nodes, target: Nodes): seq<Line>
    requires ValidDicts(target)
  {
    OverrideScript(Sorted(base.at.Keys * target.at.Keys), base, target)
  }

  function Additions(base: Nodes, target: Nodes): seq<Line>
    requires ValidDicts(target)
  {
    AddScript(HangingFrom(Sorted(target.at.Keys - base.at.Keys), base), base, target)
  }

  function Script(base: Nodes, target: Nodes): seq<Line>
    requires ValidDicts(target)
  {
    Deletions(base, target) + Changes(base, target) + Additions(base, target)
  }

  method EmitDeletions(order: seq<string>, base: Nodes, target: Nodes) returns (out: seq<Line>)
    requires forall p | p in order :: p in base.at
    ensures out == DeleteScript(order, base, target)
  {
    out := [];
    for i := 0 to |order|
      invariant out == DeleteScript(order[..i], base, target)
    {
      assert order[..i + 1][..i] == order[..i];
      out := out + DeleteLine(order[i], base, target);
    }
    assert order[..|order|] == order;
  }

  method EmitChanges(order: seq<string>, base: Nodes, target: Nodes) returns (changed: seq<Line>)
    requires ValidDicts(target) && forall p | p in order :: p in base.at && p in target.at
    ensures changed == OverrideScript(order, base, target)
  {
    changed := [];
    for i := 0 to |order|
      invariant changed == OverrideScript(order[..i], base, target)
    {
      assert order[..i + 1][..i] == order[..i];
      changed := changed + OverrideLines(order[i], base, target);
    }
    assert order[..|order|] == order;
  }

  method EmitAdditions(order: seq<string>, base: Nodes, target: Nodes) returns (added: seq<Line>)
    requires ValidDicts(target) && forall p | p in order :: p in target.at
    ensures added == AddScript(order, base, target)
  {
    added := [];
    for i := 0 to |order|
      invariant added == AddScript(order[..i], base, target)
    {
      assert order[..i + 1][..i] == order[..i];
      added := added + AddLines(order[i], base, target);
    }
    assert order[..|order|] == order;
  }

  /** `main`, with one method for each of its three loops. */
  method Generate(base: Nodes, target: Nodes) returns (script: seq<Line>)
    requires ValidDicts(target)
    ensures script == Script(base, target)
  {
    var deleted := EmitDeletions(Sorted(base.at.Keys - target.at.Keys), base, target);
    var changed := EmitChanges(Sorted(base.at.Keys * target.at.Keys), base, target);
    var added := EmitAdditions(HangingFrom(Sorted(target.at.Keys - base.at.Keys), base), base, target);
    script := deleted + changed + added;
  }

  // ---- topmost nodes --------------------------------------------------------------------------

  /** The nodes of `a` that `b` lacks while having their parent. */
  ghost predicate IsTop(a: Nodes, b: Nodes, path: string) {
    path in a.at && path !in b.at && Parent(path) in b.at
  }

  lemma AncestorIn(nodes: Nodes, top: string, key: string)
    requires WellFormed(nodes) && key in nodes.at && InSubtree(top, key) && top != ""
    ensures top in nodes.at
    decreases |key|
  {
    if key != top && key != "/" {
      assert Placed(nodes, key);
      AncestorIn(nodes, top, Parent(key));
    }
  }

  lemma KeyNotEmpty(nodes: Nodes, key: string)
    requires WellFormed(nodes) && key in nodes.at
    ensures key != ""
  {
    KeyShape(nodes, key);
  }

  /** No topmost node lies below another. */
  lemma TopsAreApart(a: Nodes, b: Nodes, p: string, q: string)
    requires WellFormed(a) && WellFormed(b) && IsTop(a, b, p) && IsTop(a, b, q) && InSubtree(p, q)
    ensures p == q
  {
    if p != q {
      KeyNotEmpty(a, p);
      AncestorIn(b, p, Parent(q));
    }
  }

  lemma TopAbove(a: Nodes, b: Nodes, key: string) returns (p: string)
    requires WellFormed(a) && WellFormed(b) && key in a.at && key !in b.at
    ensures IsTop(a, b, p) && InSubtree(p, key)
    decreases |key|
  {
    assert Placed(a, key);
    if Parent(key) in b.at {
      p := key;
    } else {
      p := TopAbove(a, b, Parent(key));
    }
  }

  /** The subtrees of the topmost nodes are exactly what `a` has and `b` lacks. */
  lemma TopsCover(a: Nodes, b: Nodes)
    requires WellFormed(a) && WellFormed(b)
    ensures forall k | k in a.at :: k !in b.at <==> exists p :: IsTop(a, b, p) && InSubtree(p, k)
  {
    forall k | k in a.at
      ensures k !in b.at <==> exists p :: IsTop(a, b, p) && InSubtree(p, k)
    {
      if k !in b.at {
        var p := TopAbove(a, b, k);
      } else if exists p :: IsTop(a, b, p) && InSubtree(p, k) {
        var p :| IsTop(a, b, p) && InSubtree(p, k);
        KeyNotEmpty(a, p);
        AncestorIn(b, p, k);
      }
    }
  }
}
