/**
 What the generated script means: reading it over the reference tree rebuilds the target tree,
 exactly when the two agree on the labels of the nodes they share.
 */
module DiffPatch {
  import opened Wrappers
  import opened OrderedDict
  import opened Sorting
  import opened DeviceTree
  import opened Dtc
  import opened NodePrinter
  import opened GenOverrides
  import opened TreeParser
  import opened RoundTrip

  // ---- addresses ------------------------------------------------------------------------------

  /** Keys are device tree keys and no label names two nodes. */
  ghost predicate Addressable(tree: Tree) {
    && (forall k | k in tree :: k == "/" || (|k| > 2 && k[..2] == "//"))
    && forall j, k, l | j in tree && k in tree && l in tree[j].labels && l in tree[k].labels :: j == k
  }

  /** An address names its node, in any addressable tree that has the node with its label. */
  lemma AddrResolves(tree: Tree, path: string, n: Node)
    requires Addressable(tree) && path in tree && tree[path].labels == LabelSet(n.tag)
    ensures Resolve(tree, Addr(path, n)) == Some(path)
    ensures match n.tag
            case Some(l) => Addr(path, n) == ByLabel(l)
            case None => Addr(path, n) == ByPath(if path == "/" then "/" else path[1..])
  {
    var ref := Addr(path, n);
    assert Resolves(tree, ref, path);
    forall k | Resolves(tree, ref, k) ensures k == path {
      if n.tag.None? {
        DtPathInjective(k, path);
      }
    }
  }

  lemma MeaningAddressable(nodes: Nodes)
    requires WellFormed(nodes) && LabelsUnique(nodes)
    ensures Addressable(Meaning(nodes))
  {
    forall k | k in nodes.at ensures k == "/" || (|k| > 2 && k[..2] == "//") {
      KeyShape(nodes, k);
    }
  }

  // ---- deletes --------------------------------------------------------------------------------

  ghost predicate Deleted(base: Nodes, target: Nodes, order: seq<string>, key: string) {
    exists p | p in order :: IsTop(base, target, p) && InSubtree(p, key)
  }

  ghost function Left(base: Nodes, target: Nodes, order: seq<string>): set<string> {
    set k | k in base.at && !Deleted(base, target, order, k)
  }

  lemma RemoveFromPart(nodes: Nodes, keys: set<string>, path: string)
    ensures RemoveSubtree(Part(nodes, keys), path) == Part(nodes, keys - SubtreeKeys(nodes, path))
  {
  }

  lemma NotDeletedYet(base: Nodes, target: Nodes, order: seq<string>, path: string)
    requires WellFormed(base) && WellFormed(target)
    requires IsTop(base, target, path) && path !in order
    ensures path in Left(base, target, order)
  {
    if Deleted(base, target, order, path) {
      var p :| p in order && IsTop(base, target, p) && InSubtree(p, path);
      TopsAreApart(base, target, p, path);
    }
  }

  lemma LeftStep(base: Nodes, target: Nodes, order: seq<string>, path: string)
    ensures Left(base, target, order + [path])
            == if IsTop(base, target, path) then Left(base, target, order) - SubtreeKeys(base, path)
               else Left(base, target, order)
  {
    forall k
      ensures Deleted(base, target, order + [path], k) <==>
              Deleted(base, target, order, k) || (IsTop(base, target, path) && InSubtree(path, k))
    {
      assert forall p :: p in order + [path] <==> p in order || p == path;
    }
  }

  lemma RunDelete(tree: Tree, path: string, n: Node)
    requires Addressable(tree) && path in tree && tree[path].labels == LabelSet(n.tag)
    ensures Run(State(tree, []), [Line(0, DeleteNode(Addr(path, n)))])
            == Some(State(RemoveSubtree(tree, path), []))
  {
    AddrResolves(tree, path, n);
    RunOne(State(tree, []), Line(0, DeleteNode(Addr(path, n))));
  }

  lemma DeleteStep(base: Nodes, target: Nodes, order: seq<string>, path: string)
    requires WellFormed(base) && WellFormed(target) && LabelsUnique(base)
    requires path in base.at && path !in target.at && path !in order
    ensures Run(State(Part(base, Left(base, target, order)), []), DeleteLine(path, base, target))
            == Some(State(Part(base, Left(base, target, order + [path])), []))
  {
    var left := Left(base, target, order);
    assert Placed(base, path);
    LeftStep(base, target, order, path);
    if IsTop(base, target, path) {
      NotDeletedYet(base, target, order, path);
      MeaningAddressable(base);
      RunDelete(Part(base, left), path, base.at[path]);
      RemoveFromPart(base, left, path);
    }
  }

  lemma {:induction false} RunDeletes(base: Nodes, target: Nodes, order: seq<string>)
    requires WellFormed(base) && WellFormed(target) && LabelsUnique(base)
    requires forall p | p in order :: p in base.at && p !in target.at
    requires forall i, j :: 0 <= i < j < |order| ==> order[i] != order[j]
    ensures Run(State(Meaning(base), []), DeleteScript(order, base, target))
            == Some(State(Part(base, Left(base, target, order)), []))
  {
    if order == [] {
      assert Part(base, Left(base, target, [])) == Meaning(base);
    } else {
      var front, path := order[..|order| - 1], order[|order| - 1];
      assert order == front + [path] && path in order && path !in front;
      RunDeletes(base, target, front);
      RunAppend(State(Meaning(base), []), DeleteScript(front, base, target), DeleteLine(path, base, target));
      DeleteStep(base, target, front, path);
    }
  }

  ghost function Shared(base: Nodes, target: Nodes): set<string> {
    base.at.Keys * target.at.Keys
  }

  lemma LeftIsShared(base: Nodes, target: Nodes, order: seq<string>)
    requires WellFormed(base) && WellFormed(target)
    requires forall p :: p in order <==> p in base.at && p !in target.at
    ensures Left(base, target, order) == Shared(base, target)
  {
    forall k | k in base.at ensures Deleted(base, target, order, k) <==> k !in target.at {
      DeletedIsGone(base, target, order, k);
    }
  }

  lemma DeletedIsGone(base: Nodes, target: Nodes, order: seq<string>, k: string)
    requires WellFormed(base) && WellFormed(target) && k in base.at
    requires forall p :: p in order <==> p in base.at && p !in target.at
    ensures Deleted(base, target, order, k) <==> k !in target.at
  {
    TopsCover(base, target);
    if k !in target.at {
      var p :| IsTop(base, target, p) && InSubtree(p, k);
      assert p in order;
    }
  }

  /** The deletes leave the nodes both trees have, as the reference tree has them. */
  lemma DeletesLeaveShared(base: Nodes, target: Nodes)
    requires WellFormed(base) && WellFormed(target) && LabelsUnique(base)
    ensures Run(State(Meaning(base), []), Deletions(base, target))
            == Some(State(Part(base, Shared(base, target)), []))
  {
    var order := Sorted(base.at.Keys - target.at.Keys);
    RunDeletes(base, target, order);
    LeftIsShared(base, target, order);
  }

  // ---- overrides ------------------------------------------------------------------------------

  ghost function Elements(order: seq<string>): set<string> {
    set p | p in order
  }

  lemma ElementsStep(order: seq<string>, p: string)
    ensures Elements(order + [p]) == Elements(order) + {p}
  {
  }

  lemma {:induction false} RunDeleteProps(st: State, keys: seq<string>)
    requires TakesProperties(st)
    ensures Run(st, DeletePropLines(keys)) == Some(SetProps(st, TopProps(st) - Elements(keys)))
    decreases keys
  {
    if keys == [] {
      assert TopProps(st) - Elements(keys) == TopProps(st);
      assert SetProps(st, TopProps(st)) == st;
    } else {
      var line := Line(1, DeleteProperty(keys[0]));
      var next := SetProps(st, TopProps(st) - {keys[0]});
      RunOne(st, line);
      RunAppend(st, [line], DeletePropLines(keys[1..]));
      RunDeleteProps(next, keys[1..]);
      assert keys == [keys[0]] + keys[1..];
      assert TopProps(next) - Elements(keys[1..]) == TopProps(st) - Elements(keys);
      SetPropsTwice(st, TopProps(next), TopProps(st) - Elements(keys));
    }
  }

  /** Dropping what is gone and assigning what differs turns `b` into `t`. */
  lemma PropsRebuilt(b: Dict<string, Value>, t: Dict<string, Value>)
    requires t.Valid()
    ensures b.at - Elements(Sorted(b.at.Keys - t.at.Keys)) + Pick(t.at, Differing(b, t, t.keys)) == t.at
  {
    var gone, diff := Sorted(b.at.Keys - t.at.Keys), Differing(b, t, t.keys);
    assert Elements(gone) == b.at.Keys - t.at.Keys;
    Overlay(b.at, t.at, diff);
  }

  lemma Overlay(b: map<string, Value>, t: map<string, Value>, diff: seq<string>)
    requires forall k :: k in diff <==> k in t && (k !in b || b[k] != t[k])
    ensures b - (b.Keys - t.Keys) + Pick(t, diff) == t
  {
    var kept := b - (b.Keys - t.Keys);
    assert kept.Keys == b.Keys * t.Keys;
    assert (kept + Pick(t, diff)).Keys == t.Keys;
  }

  lemma EmptyDiff(b: Dict<string, Value>, t: Dict<string, Value>)
    requires t.Valid()
    ensures Differing(b, t, t.keys) == [] && Sorted(b.at.Keys - t.at.Keys) == [] <==> b.at == t.at
  {
    var gone, diff := Sorted(b.at.Keys - t.at.Keys), Differing(b, t, t.keys);
    assert gone != [] ==> gone[0] in gone;
    assert diff != [] ==> diff[0] in diff;
    if gone == [] && diff == [] {
      forall k ensures k in b.at <==> k in t.at {
        assert k !in gone && k !in diff;
      }
      forall k | k in t.at ensures b.at[k] == t.at[k] {
        assert k !in diff;
      }
    }
  }

  /** The shared nodes once the overrides of `order` are in: the reference's labels, and the
      target's properties for the nodes of `order`. */
  ghost function Overridden(base: Nodes, target: Nodes, order: set<string>): Tree {
    map k | k in base.at && k in target.at ::
      Content(LabelSet(base.at[k].tag), if k in order then target.at[k].props.at else base.at[k].props.at)
  }

  lemma OverrideBody(st: State, b: Dict<string, Value>, t: Dict<string, Value>)
    requires t.Valid() && TakesProperties(st) && TopProps(st) == b.at
    ensures Run(st, DeletePropLines(Sorted(b.at.Keys - t.at.Keys)) + PropLines(t, Differing(b, t, t.keys), 1))
            == Some(SetProps(st, t.at))
  {
    var gone, diff := Sorted(b.at.Keys - t.at.Keys), Differing(b, t, t.keys);
    RunDeleteProps(st, gone);
    var next := SetProps(st, b.at - Elements(gone));
    RunAppend(st, DeletePropLines(gone), PropLines(t, diff, 1));
    RunProps(next, t, diff, 1);
    PropsRebuilt(b, t);
    SetPropsTwice(st, TopProps(next), t.at);
  }

  lemma OverriddenAddressable(base: Nodes, target: Nodes, order: set<string>)
    requires WellFormed(base) && LabelsUnique(base)
    ensures Addressable(Overridden(base, target, order))
  {
    forall k | k in base.at ensures k == "/" || (|k| > 2 && k[..2] == "//") {
      KeyShape(base, k);
    }
  }

  lemma RunOpenRef(tree: Tree, path: string, n: Node)
    requires Addressable(tree) && path in tree && tree[path].labels == LabelSet(n.tag)
    ensures Run(State(tree, []), [Line(0, OpenRef(Addr(path, n)))]) == Some(State(tree, [Frame(path, false)]))
  {
    AddrResolves(tree, path, n);
    RunOne(State(tree, []), Line(0, OpenRef(Addr(path, n))));
  }

  lemma OverrideStep(base: Nodes, target: Nodes, order: set<string>, path: string)
    requires WellFormed(base) && WellFormed(target) && LabelsUnique(base)
    requires path in base.at && path in target.at && path !in order
    ensures Run(State(Overridden(base, target, order), []), OverrideLines(path, base, target))
            == Some(State(Overridden(base, target, order + {path}), []))
  {
    var b, t := base.at[path].props, target.at[path].props;
    EmptyDiff(b, t);
    OverriddenNext(base, target, order, path);
    if b.at != t.at {
      OverriddenAddressable(base, target, order);
      OverrideBlock(Overridden(base, target, order), path, base.at[path], t);
    }
  }

  /** An override block, from the reference that opens it to its close. */
  lemma OverrideBlock(tree: Tree, path: string, n: Node, t: Dict<string, Value>)
    requires Addressable(tree) && path in tree && tree[path] == ContentOf(n) && t.Valid()
    ensures Run(State(tree, []),
                [Line(0, OpenRef(Addr(path, n)))]
                + (DeletePropLines(Sorted(n.props.at.Keys - t.at.Keys)) + PropLines(t, Differing(n.props, t, t.keys), 1))
                + [Line(0, Close)])
            == Some(State(tree[path := tree[path].(props := t.at)], []))
  {
    var body := DeletePropLines(Sorted(n.props.at.Keys - t.at.Keys)) + PropLines(t, Differing(n.props, t, t.keys), 1);
    var st := State(tree, [Frame(path, false)]);
    RunOpenRef(tree, path, n);
    OverrideBody(st, n.props, t);
    RunClose(SetProps(st, t.at), 0);
    RunThree(State(tree, []), [Line(0, OpenRef(Addr(path, n)))], body, [Line(0, Close)]);
  }

  lemma OverriddenNext(base: Nodes, target: Nodes, order: set<string>, path: string)
    requires path in base.at && path in target.at && path !in order
    ensures var tree, next := Overridden(base, target, order), Overridden(base, target, order + {path});
            && tree[path] == ContentOf(base.at[path])
            && next == tree[path := tree[path].(props := target.at[path].props.at)]
            && (base.at[path].props.at == target.at[path].props.at ==> next == tree)
  {
  }

  lemma NoneOverridden(base: Nodes, target: Nodes)
    ensures Overridden(base, target, Elements([])) == Part(base, Shared(base, target))
  {
  }

  lemma {:induction false} RunOverrides(base: Nodes, target: Nodes, order: seq<string>)
    requires WellFormed(base) && WellFormed(target) && LabelsUnique(base)
    requires forall p | p in order :: p in base.at && p in target.at
    requires forall i, j :: 0 <= i < j < |order| ==> order[i] != order[j]
    ensures Run(State(Part(base, Shared(base, target)), []), OverrideScript(order, base, target))
            == Some(State(Overridden(base, target, Elements(order)), []))
  {
    var st := State(Part(base, Shared(base, target)), []);
    if order == [] {
      NoneOverridden(base, target);
    } else {
      var front, path := order[..|order| - 1], order[|order| - 1];
      assert order == front + [path] && path in order && path !in front;
      RunOverrides(base, target, front);
      RunAppend(st, OverrideScript(front, base, target), OverrideLines(path, base, target));
      ElementsStep(front, path);
      OverrideStep(base, target, Elements(front), path);
    }
  }

  lemma OverridesDone(base: Nodes, target: Nodes)
    requires WellFormed(base) && WellFormed(target) && LabelsUnique(base)
    ensures Run(State(Part(base, Shared(base, target)), []),
                Changes(base, target))
            == Some(State(Overridden(base, target, Shared(base, target)), []))
  {
    var order := Sorted(base.at.Keys * target.at.Keys);
    RunOverrides(base, target, order);
    assert Elements(order) == Shared(base, target);
  }

  // ---- additions ------------------------------------------------------------------------------

  lemma TreeStaysAddressable(tree: Tree, target: Nodes, keys: set<string>)
    requires Addressable(tree) && WellFormed(target) && LabelsUnique(target)
    requires tree.Keys !! keys && NoClash(tree, Part(target, keys))
    ensures Addressable(tree + Part(target, keys))
  {
    var added := Part(target, keys);
    var sum := tree + added;
    MeaningAddressable(target);
    assert forall k | k in added :: added[k] == Meaning(target)[k];
    forall j, k, l | j in tree && k in added && l in added[k].labels ensures l !in tree[j].labels {
      assert !HasLabel(tree, l);
    }
    forall j, k, l | j in sum && k in sum && l in sum[j].labels && l in sum[k].labels ensures j == k {
    }
  }

  lemma AddedApart(base: Nodes, target: Nodes, order: seq<string>, path: string)
    requires WellFormed(base) && WellFormed(target)
    requires forall p | p in order :: IsTop(target, base, p)
    requires IsTop(target, base, path) && path !in order
    ensures ForestKeys(target, order) !! SubtreeKeys(target, path)
    ensures base.at.Keys !! SubtreeKeys(target, path)
    ensures ForestKeys(target, order + [path]) == ForestKeys(target, order) + SubtreeKeys(target, path)
  {
    forall k | k in SubtreeKeys(target, path) ensures k !in base.at && !InForest(order, k) {
      KeyNotEmpty(target, path);
      if k in base.at {
        AncestorIn(base, path, k);
      }
      if InForest(order, k) {
        var p :| p in order && InSubtree(p, k);
        SubtreesNest(p, path, k);
        if InSubtree(p, path) {
          TopsAreApart(target, base, p, path);
        } else {
          TopsAreApart(target, base, path, p);
        }
      }
    }
    forall k ensures InForest(order + [path], k) <==> InForest(order, k) || InSubtree(path, k) {
      assert forall p :: p in order + [path] <==> p in order || p == path;
    }
  }

  /** Printing one added root inside its parent, when the roots of `order` are in already. */
  lemma AddStep(tree: Tree, base: Nodes, target: Nodes, path: string)
    requires WellFormed(base) && WellFormed(target) && LabelsUnique(target)
    requires IsTop(target, base, path)
    requires Addressable(tree) && Parent(path) in tree
    requires tree[Parent(path)].labels == LabelSet(base.at[Parent(path)].tag)
    requires tree.Keys !! SubtreeKeys(target, path)
    ensures Run(State(tree, []), AddLines(path, base, target)) == Grown(State(tree, []), Subtree(target, path), [])
  {
    var parent := Parent(path);
    var st := State(tree, [Frame(parent, false)]);
    var first := [Line(0, OpenRef(Addr(parent, base.at[parent])))];
    RunOpenRef(tree, parent, base.at[parent]);
    assert Placed(target, path);
    KeyIsChild(path);
    RunEmitNode(st, path, target, 1);
    var done := Grown(st, Subtree(target, path), Seal(st.stack));
    if done.Some? {
      RunClose(done.value, 0);
    }
    RunThree(State(tree, []), first, EmitNode(path, target, 1), [Line(0, Close)]);
  }

  lemma {:induction false} RunAdds(tree: Tree, base: Nodes, target: Nodes, order: seq<string>)
    requires WellFormed(base) && WellFormed(target) && LabelsUnique(base) && LabelsUnique(target)
    requires tree == Overridden(base, target, Shared(base, target))
    requires forall p | p in order :: p in target.at && IsTop(target, base, p)
    requires forall i, j :: 0 <= i < j < |order| ==> order[i] != order[j]
    ensures Run(State(tree, []), AddScript(order, base, target)) == Grown(State(tree, []), Forest(target, order), [])
  {
    var st := State(tree, []);
    if order == [] {
      EmptyForest(st, target);
    } else {
      var front, path := order[..|order| - 1], order[|order| - 1];
      assert order == front + [path] && path in order && path !in front;
      RunAdds(tree, base, target, front);
      RunAppend(st, AddScript(front, base, target), AddLines(path, base, target));
      FrontDisjoint(base, target, front);
      AddedApart(base, target, front, path);
      GrownTwice(st, target, ForestKeys(target, front), SubtreeKeys(target, path), [], []);
      var after := Grown(st, Forest(target, front), []);
      if after.Some? {
        AddNext(tree, base, target, front, path);
      }
    }
  }

  lemma FrontDisjoint(base: Nodes, target: Nodes, order: seq<string>)
    requires WellFormed(base) && WellFormed(target)
    requires forall p | p in order :: IsTop(target, base, p)
    ensures base.at.Keys !! ForestKeys(target, order)
  {
    forall k | k in ForestKeys(target, order) ensures k !in base.at {
      var p :| p in order && InSubtree(p, k);
      KeyNotEmpty(target, p);
      if k in base.at {
        AncestorIn(base, p, k);
      }
    }
  }

  /** The parent of an added root is a shared node, still as the reference tree labels it. */
  lemma ParentStays(tree: Tree, base: Nodes, target: Nodes, front: seq<string>, path: string)
    requires WellFormed(base) && WellFormed(target)
    requires tree == Overridden(base, target, Shared(base, target)) && IsTop(target, base, path)
    requires base.at.Keys !! ForestKeys(target, front)
    ensures var parent := Parent(path);
            parent in tree + Forest(target, front)
            && (tree + Forest(target, front))[parent].labels == LabelSet(base.at[parent].tag)
  {
    assert Placed(target, path);
  }

  lemma StillFresh(tree: Tree, base: Nodes, target: Nodes, front: seq<string>, path: string)
    requires WellFormed(base) && WellFormed(target)
    requires tree.Keys <= base.at.Keys && IsTop(target, base, path) && path !in front
    requires forall p | p in front :: IsTop(target, base, p)
    ensures (tree + Forest(target, front)).Keys !! SubtreeKeys(target, path)
  {
    AddedApart(base, target, front, path);
    assert Forest(target, front).Keys <= ForestKeys(target, front);
  }

  lemma AddNext(tree: Tree, base: Nodes, target: Nodes, front: seq<string>, path: string)
    requires WellFormed(base) && WellFormed(target) && LabelsUnique(base) && LabelsUnique(target)
    requires tree == Overridden(base, target, Shared(base, target))
    requires forall p | p in front :: IsTop(target, base, p)
    requires IsTop(target, base, path) && path !in front
    requires NoClash(tree, Forest(target, front))
    ensures var st := State(tree + Forest(target, front), []);
            Run(st, AddLines(path, base, target)) == Grown(st, Subtree(target, path), [])
  {
    OverriddenAddressable(base, target, Shared(base, target));
    FrontDisjoint(base, target, front);
    StillFresh(tree, base, target, front, path);
    TreeStaysAddressable(tree, target, ForestKeys(target, front));
    ParentStays(tree, base, target, front, path);
    AddStep(tree + Forest(target, front), base, target, path);
  }

  // ---- the whole script -----------------------------------------------------------------------

  /** The target, but for the labels of the nodes the reference tree has too. */
  ghost function Patched(base: Nodes, target: Nodes): Tree {
    map k | k in target.at ::
      Content(LabelSet(if k in base.at then base.at[k].tag else target.at[k].tag), target.at[k].props.at)
  }

  /** No added node wants a label that a shared node has in the reference tree. */
  ghost predicate LabelsCompatible(base: Nodes, target: Nodes) {
    forall a, s | a in target.at && a !in base.at && s in target.at && s in base.at && target.at[a].tag.Some? ::
      base.at[s].tag != target.at[a].tag
  }

  ghost predicate LabelsAgree(base: Nodes, target: Nodes) {
    forall k | k in base.at && k in target.at :: base.at[k].tag == target.at[k].tag
  }

  lemma AddsComplete(base: Nodes, target: Nodes)
    requires WellFormed(base) && WellFormed(target)
    ensures var order := HangingFrom(Sorted(target.at.Keys - base.at.Keys), base);
            && (forall p | p in order :: IsTop(target, base, p))
            && (forall i, j :: 0 <= i < j < |order| ==> order[i] != order[j])
            && ForestKeys(target, order) == target.at.Keys - base.at.Keys
  {
    var all := Sorted(target.at.Keys - base.at.Keys);
    var order := HangingFrom(all, base);
    forall p | p in order ensures IsTop(target, base, p) {
      assert Placed(target, p);
      assert '/' in p;
    }
    HangingDistinct(all, base);
    AddedKeys(base, target, order);
  }

  lemma AddedKeys(base: Nodes, target: Nodes, order: seq<string>)
    requires WellFormed(base) && WellFormed(target)
    requires forall p | p in order :: IsTop(target, base, p)
    requires forall p | IsTop(target, base, p) :: p in order
    ensures ForestKeys(target, order) == target.at.Keys - base.at.Keys
  {
    FrontDisjoint(base, target, order);
    forall k | k in target.at && k !in base.at ensures InForest(order, k) {
      var p := TopAbove(target, base, k);
    }
  }

  lemma HangingDistinct(order: seq<string>, base: Nodes)
    requires forall i, j :: 0 <= i < j < |order| ==> order[i] != order[j]
    ensures var h := HangingFrom(order, base); forall i, j :: 0 <= i < j < |h| ==> h[i] != h[j]
  {
    if order != [] {
      var front, last := order[..|order| - 1], order[|order| - 1];
      HangingDistinct(front, base);
      assert last !in front;
    }
  }

  lemma PatchedParts(base: Nodes, target: Nodes)
    ensures var shared := Overridden(base, target, Shared(base, target));
            var added := Part(target, target.at.Keys - base.at.Keys);
            && Patched(base, target) == shared + added
            && (NoClash(shared, added) <==> LabelsCompatible(base, target))
  {
    var shared := Overridden(base, target, Shared(base, target));
    var added := Part(target, target.at.Keys - base.at.Keys);
    if NoClash(shared, added) {
      forall a, s | a in added && s in shared && target.at[a].tag.Some?
        ensures base.at[s].tag != target.at[a].tag
      {
        assert target.at[a].tag.value in added[a].labels;
        assert !HasLabel(shared, target.at[a].tag.value);
      }
    }
    if LabelsCompatible(base, target) {
      forall k, l | k in added && l in added[k].labels ensures !HasLabel(shared, l) {
        assert target.at[k].tag == Some(l);
      }
    }
  }

  lemma AddsDone(base: Nodes, target: Nodes)
    requires WellFormed(base) && WellFormed(target) && LabelsUnique(base) && LabelsUnique(target)
    ensures var st := State(Overridden(base, target, Shared(base, target)), []);
            Run(st, Additions(base, target)) == Grown(st, Part(target, target.at.Keys - base.at.Keys), [])
  {
    AddsComplete(base, target);
    RunAdds(Overridden(base, target, Shared(base, target)), base, target,
            HangingFrom(Sorted(target.at.Keys - base.at.Keys), base));
  }

  /**
   Reading the script over the reference tree succeeds exactly when no added node's label is held
   by a node both trees have, and then gives the patched tree.
   */
  lemma ScriptMeaning(base: Nodes, target: Nodes)
    requires WellFormed(base) && WellFormed(target) && LabelsUnique(base) && LabelsUnique(target)
    ensures Run(State(Meaning(base), []), Script(base, target))
            == if LabelsCompatible(base, target) then Some(State(Patched(base, target), [])) else None
  {
    DeletesLeaveShared(base, target);
    OverridesDone(base, target);
    AddsDone(base, target);
    PatchedParts(base, target);
    RunThree(State(Meaning(base), []), Deletions(base, target), Changes(base, target), Additions(base, target));
  }

  lemma AgreeIsExact(base: Nodes, target: Nodes)
    requires LabelsUnique(target)
    ensures LabelsAgree(base, target) <==> LabelsCompatible(base, target) && Patched(base, target) == Meaning(target)
  {
    if Patched(base, target) == Meaning(target) {
      forall k | k in base.at && k in target.at ensures base.at[k].tag == target.at[k].tag {
        assert LabelSet(base.at[k].tag) == Patched(base, target)[k].labels == Meaning(target)[k].labels;
        assert LabelSet(base.at[k].tag) == LabelSet(target.at[k].tag);
        LabelSetInjective(base.at[k].tag, target.at[k].tag);
      }
    }
  }

  lemma LabelSetInjective(a: Option<string>, b: Option<string>)
    requires LabelSet(a) == LabelSet(b)
    ensures a == b
  {
    if a.Some? {
      assert a.value in LabelSet(b);
    }
  }

  /**
   The overrides turn the reference tree into the target tree, exactly when the nodes the two share
   carry the same labels.
   */
  lemma PatchIsTarget(base: Nodes, target: Nodes)
    requires WellFormed(base) && WellFormed(target) && LabelsUnique(base) && LabelsUnique(target)
    ensures Run(State(Meaning(base), []), Script(base, target)) == Some(State(Meaning(target), []))
            <==> LabelsAgree(base, target)
  {
    ScriptMeaning(base, target);
    AgreeIsExact(base, target);
  }

  /**
   The same from the text: whatever two decompiled trees the compiler accepts, the overrides
   generated from their parses rebuild the second from the first, phandles aside, exactly when the
   nodes they share carry the same labels.
   */
  lemma TextPatchIsTarget(base: seq<Line>, target: seq<Line>)
    requires base != [] && Depth(base, 0).Some? && Run(Start, base).Some?
    requires target != [] && Depth(target, 0).Some? && Run(Start, target).Some?
    ensures var b, t := ParseFrom(Nothing, base).nodes, ParseFrom(Nothing, target).nodes;
            var before, after := Unphandled(Run(Start, base).value.nodes), Unphandled(Run(Start, target).value.nodes);
            && ValidDicts(t)
            && (Run(State(before, []), Script(b, t)) == Some(State(after, [])) <==>
                forall k | k in before && k in after :: before[k].labels == after[k].labels)
  {
    var b, t := ParseFrom(Nothing, base).nodes, ParseFrom(Nothing, target).nodes;
    ParseMeaning(base);
    ParseMeaning(target);
    FirstOpensRoot(base);
    FirstOpensRoot(target);
    PatchIsTarget(b, t);
    AgreeByMeaning(b, t);
  }

  lemma AgreeByMeaning(base: Nodes, target: Nodes)
    ensures LabelsAgree(base, target) <==>
            forall k | k in Meaning(base) && k in Meaning(target) :: Meaning(base)[k].labels == Meaning(target)[k].labels
  {
    if forall k | k in Meaning(base) && k in Meaning(target) :: Meaning(base)[k].labels == Meaning(target)[k].labels {
      forall k | k in base.at && k in target.at ensures base.at[k].tag == target.at[k].tag {
        assert k in Meaning(base) && k in Meaning(target);
        LabelSetInjective(base.at[k].tag, target.at[k].tag);
      }
    }
  }

  /** Accepted text begins by opening the root, which stays. */
  lemma FirstOpensRoot(lines: seq<Line>)
    requires lines != [] && Depth(lines, 0).Some? && Run(Start, lines).Some?
    ensures ParseFrom(Nothing, lines).nodes.at.Keys != {}
  {
    var first := ParseLine(Nothing, lines[0]);
    assert Step(Start, lines[0].statement).Some?;
    assert "/" in first.nodes.at by {
      assert Upto([], lines[0].indent) + ["/"] == ["/"];
    }
    KeysStay(first, lines[1..], "/");
  }

  lemma {:induction false} KeysStay(ps: ParseState, lines: seq<Line>, key: string)
    requires Known(ps) && key in ps.nodes.at
    ensures key in ParseFrom(ps, lines).nodes.at
    decreases lines
  {
    if lines != [] {
      KeysStay(ParseLine(ps, lines[0]), lines[1..], key);
    }
  }

  // ---- what the diff leaves out ---------------------------------------------------------------

  lemma {:induction false} NoDeletions(order: seq<string>, base: Nodes, target: Nodes)
    requires forall p | p in order :: p in base.at
    ensures DeleteScript(order, base, target) == [] <==> forall p | p in order :: DeleteLine(p, base, target) == []
  {
    if order != [] {
      var front, last := order[..|order| - 1], order[|order| - 1];
      assert order == front + [last] && last in order;
      NoDeletions(front, base, target);
    }
  }

  lemma {:induction false} NoChanges(order: seq<string>, base: Nodes, target: Nodes)
    requires ValidDicts(target) && forall p | p in order :: p in base.at && p in target.at
    ensures OverrideScript(order, base, target) == [] <==>
            forall p | p in order :: base.at[p].props.at == target.at[p].props.at
  {
    if order != [] {
      var front, last := order[..|order| - 1], order[|order| - 1];
      assert order == front + [last] && last in order;
      NoChanges(front, base, target);
      EmptyDiff(base.at[last].props, target.at[last].props);
    }
  }

  lemma {:induction false} NoAdditions(order: seq<string>, base: Nodes, target: Nodes)
    requires ValidDicts(target) && forall p | p in order :: p in target.at && Parent(p) in base.at
    ensures AddScript(order, base, target) == [] <==> order == []
  {
    if order != [] {
      var front, last := order[..|order| - 1], order[|order| - 1];
      assert order == front + [last] && last in order;
      NoAdditions(front, base, target);
    }
  }

  /** The script is empty exactly when the trees have the same nodes with the same properties. */
  lemma EmptyScript(base: Nodes, target: Nodes)
    requires WellFormed(base) && WellFormed(target)
    ensures Script(base, target) == [] <==>
            base.at.Keys == target.at.Keys
            && forall k | k in base.at && k in target.at :: base.at[k].props.at == target.at[k].props.at
  {
    NothingDropped(base, target);
    NothingChanged(base, target);
    NothingAdded(base, target);
  }

  lemma NothingDropped(base: Nodes, target: Nodes)
    requires WellFormed(base) && WellFormed(target)
    ensures Deletions(base, target) == [] <==> base.at.Keys <= target.at.Keys
  {
    var dropped := Sorted(base.at.Keys - target.at.Keys);
    NoDeletions(dropped, base, target);
    if k :| k in base.at && k !in target.at {
      var p := TopAbove(base, target, k);
      assert p in dropped && DeleteLine(p, base, target) != [];
    }
  }

  lemma NothingChanged(base: Nodes, target: Nodes)
    requires WellFormed(base) && WellFormed(target)
    ensures Changes(base, target) == [] <==>
            forall k | k in base.at && k in target.at :: base.at[k].props.at == target.at[k].props.at
  {
    NoChanges(Sorted(base.at.Keys * target.at.Keys), base, target);
  }

  lemma NothingAdded(base: Nodes, target: Nodes)
    requires WellFormed(base) && WellFormed(target)
    ensures Additions(base, target) == [] <==> target.at.Keys <= base.at.Keys
  {
    var added := HangingFrom(Sorted(target.at.Keys - base.at.Keys), base);
    AddsComplete(base, target);
    NoAdditions(added, base, target);
    if k :| k in target.at && k !in base.at {
      var p := TopAbove(target, base, k);
      assert p in added;
    }
    assert added != [] ==> added[0] in added;
  }

  /** Diffing what has been patched emits nothing. */
  lemma PatchedDiffIsEmpty(base: Nodes, target: Nodes, native: Nodes)
    requires WellFormed(base) && WellFormed(target) && LabelsUnique(base) && LabelsUnique(target) && WellFormed(native)
    requires Run(State(Meaning(base), []), Script(base, target)) == Some(State(Meaning(native), []))
    ensures Script(native, target) == []
  {
    ScriptMeaning(base, target);
    EmptyScript(native, target);
    PatchedHasTarget(base, target, native);
  }

  lemma PatchedHasTarget(base: Nodes, target: Nodes, native: Nodes)
    requires Meaning(native) == Patched(base, target)
    ensures native.at.Keys == target.at.Keys
    ensures forall k | k in native.at && k in target.at :: native.at[k].props.at == target.at[k].props.at
  {
    assert native.at.Keys == Meaning(native).Keys == Patched(base, target).Keys == target.at.Keys;
    forall k | k in native.at && k in target.at ensures native.at[k].props.at == target.at[k].props.at {
      assert Meaning(native)[k].props == Patched(base, target)[k].props;
    }
  }

  lemma {:induction false} AssignedLine(props: Dict<string, Value>, keys: seq<string>, line: Line)
    requires forall k | k in keys :: k in props.at
    requires line in PropLines(props, keys, 1)
    ensures exists k | k in keys :: line == Line(1, Property(k, props.at[k]))
    decreases keys
  {
    if line == PropLines(props, keys, 1)[0] {
      assert keys[0] in keys;
    } else {
      AssignedLine(props, keys[1..], line);
    }
  }

  lemma {:induction false} DeletedLine(keys: seq<string>, line: Line)
    requires line in DeletePropLines(keys)
    ensures exists k | k in keys :: line == Line(1, DeleteProperty(k))
    decreases keys
  {
    if line == DeletePropLines(keys)[0] {
      assert keys[0] in keys;
    } else {
      DeletedLine(keys[1..], line);
    }
  }

  /** Every line inside an override changes something: what it assigns the reference tree has not, or has
      otherwise, and what it deletes the reference tree has and the target has not. */
  lemma OverrideLinesChange(path: string, base: Nodes, target: Nodes, line: Line)
    requires path in base.at && path in target.at && target.at[path].props.Valid()
    requires line in OverrideLines(path, base, target)
    ensures var b, t := base.at[path].props.at, target.at[path].props.at;
            match line.statement
            case Property(k, v) => k in t && t[k] == v && (k !in b || b[k] != v)
            case DeleteProperty(k) => k in b && k !in t
            case _ => true
  {
    var b, t := base.at[path].props, target.at[path].props;
    var diff, gone := Differing(b, t, t.keys), Sorted(b.at.Keys - t.at.Keys);
    if line in PropLines(t, diff, 1) {
      AssignedLine(t, diff, line);
    } else if line in DeletePropLines(gone) {
      DeletedLine(gone, line);
    }
  }

  /** Of the nodes only the reference tree has, exactly the topmost are deleted by name. */
  lemma TopmostAreDeleted(base: Nodes, target: Nodes, path: string)
    requires WellFormed(base) && path in base.at && path !in target.at && "/" in target.at
    ensures DeleteLine(path, base, target) != [] <==> IsTop(base, target, path)
  {
    assert Placed(base, path);
  }

  // ---- indentation --------------------------------------------------------------------------------

  /** The depth after a line that is indented by its depth. */
  function BraceDepth(line: Line, depth: nat): Option<nat> {
    match line.statement
    case Open(_, _) => if line.indent == depth then Some(depth + 1) else None
    case OpenRef(_) => if line.indent == depth then Some(depth + 1) else None
    case Close => if line.indent + 1 == depth then Some(line.indent) else None
    case _ => if line.indent == depth then Some(depth) else None
  }

  /** The depth after lines that are all indented by their depth. */
  function Indented(lines: seq<Line>, depth: nat): Option<nat>
    decreases lines
  {
    if lines == [] then Some(depth)
    else
      var next := BraceDepth(lines[0], depth);
      if next.None? then None else Indented(lines[1..], next.value)
  }

  lemma {:induction false} IndentedAppend(a: seq<Line>, b: seq<Line>, depth: nat)
    ensures Indented(a + b, depth) == var r := Indented(a, depth); if r.None? then None else Indented(b, r.value)
    decreases a
  {
    if a == [] {
      assert a + b == b;
    } else {
      assert (a + b)[1..] == a[1..] + b;
      var next := BraceDepth(a[0], depth);
      if next.Some? {
        IndentedAppend(a[1..], b, next.value);
      }
    }
  }

  lemma IndentedOne(line: Line, depth: nat)
    ensures Indented([line], depth) == BraceDepth(line, depth)
  {
    var next := BraceDepth(line, depth);
    if next.Some? {
      assert Indented([], next.value) == next;
    }
  }

  lemma {:induction false} PrintedIsIndented(lines: seq<Line>, depth: nat)
    requires Depth(lines, depth).Some?
    ensures Indented(lines, depth) == Depth(lines, depth)
    decreases lines
  {
    if lines != [] {
      PrintedIsIndented(lines[1..], DepthAfter(lines[0], depth).value);
    }
  }

  lemma {:induction false} PropsIndented(props: Dict<string, Value>, keys: seq<string>, indent: nat)
    requires forall k | k in keys :: k in props.at
    ensures Indented(PropLines(props, keys, indent), indent) == Some(indent)
    decreases keys
  {
    if keys != [] {
      PropsIndented(props, keys[1..], indent);
      assert PropLines(props, keys, indent)[1..] == PropLines(props, keys[1..], indent);
    }
  }

  lemma {:induction false} DeletePropsIndented(keys: seq<string>)
    ensures Indented(DeletePropLines(keys), 1) == Some(1)
  {
    if keys != [] {
      DeletePropsIndented(keys[1..]);
      assert DeletePropLines(keys)[1..] == DeletePropLines(keys[1..]);
    }
  }

  /** A block, indented inside. */
  lemma BlockIndented(ref: Ref, body: seq<Line>)
    requires Indented(body, 1) == Some(1)
    ensures Indented([Line(0, OpenRef(ref))] + body + [Line(0, Close)], 0) == Some(0)
  {
    var open, close := Line(0, OpenRef(ref)), Line(0, Close);
    IndentedOne(open, 0);
    IndentedOne(close, 1);
    IndentedAppend([open], body, 0);
    IndentedAppend([open] + body, [close], 0);
  }

  lemma {:induction false} DeletesIndented(order: seq<string>, base: Nodes, target: Nodes)
    requires forall p | p in order :: p in base.at
    ensures Indented(DeleteScript(order, base, target), 0) == Some(0)
  {
    if order != [] {
      var front, path := order[..|order| - 1], order[|order| - 1];
      DeletesIndented(front, base, target);
      IndentedAppend(DeleteScript(front, base, target), DeleteLine(path, base, target), 0);
      IndentedOne(Line(0, DeleteNode(Addr(path, base.at[path]))), 0);
    }
  }

  lemma OverrideIndented(path: string, base: Nodes, target: Nodes)
    requires path in base.at && path in target.at && target.at[path].props.Valid()
    ensures Indented(OverrideLines(path, base, target), 0) == Some(0)
  {
    var b, t := base.at[path].props, target.at[path].props;
    var diff := Differing(b, t, t.keys);
    var gone := Sorted(b.at.Keys - t.at.Keys);
    DeletePropsIndented(gone);
    PropsIndented(t, diff, 1);
    IndentedAppend(DeletePropLines(gone), PropLines(t, diff, 1), 1);
    BlockIndented(Addr(path, base.at[path]), DeletePropLines(gone) + PropLines(t, diff, 1));
  }

  lemma {:induction false} OverridesIndented(order: seq<string>, base: Nodes, target: Nodes)
    requires ValidDicts(target) && forall p | p in order :: p in base.at && p in target.at
    ensures Indented(OverrideScript(order, base, target), 0) == Some(0)
  {
    if order != [] {
      var front, path := order[..|order| - 1], order[|order| - 1];
      OverridesIndented(front, base, target);
      OverrideIndented(path, base, target);
      IndentedAppend(OverrideScript(front, base, target), OverrideLines(path, base, target), 0);
    }
  }

  lemma AddIndented(path: string, base: Nodes, target: Nodes)
    requires path in target.at && ValidDicts(target) && PhandlesInCells(target)
    ensures Indented(AddLines(path, base, target), 0) == Some(0)
  {
    if Parent(path) in base.at {
      EmitDepth(path, target, 1);
      PrintedIsIndented(EmitNode(path, target, 1), 1);
      BlockIndented(Addr(Parent(path), base.at[Parent(path)]), EmitNode(path, target, 1));
    }
  }

  lemma {:induction false} AddsIndented(order: seq<string>, base: Nodes, target: Nodes)
    requires ValidDicts(target) && PhandlesInCells(target) && forall p | p in order :: p in target.at
    ensures Indented(AddScript(order, base, target), 0) == Some(0)
  {
    if order != [] {
      var front, path := order[..|order| - 1], order[|order| - 1];
      AddsIndented(front, base, target);
      AddIndented(path, base, target);
      IndentedAppend(AddScript(front, base, target), AddLines(path, base, target), 0);
    }
  }

  /** Every line of the script is indented by its depth. */
  lemma ScriptIndented(base: Nodes, target: Nodes)
    requires ValidDicts(target) && PhandlesInCells(target)
    ensures Indented(Script(base, target), 0) == Some(0)
  {
    DeletesIndented(Sorted(base.at.Keys - target.at.Keys), base, target);
    OverridesIndented(Sorted(base.at.Keys * target.at.Keys), base, target);
    AddsIndented(HangingFrom(Sorted(target.at.Keys - base.at.Keys), base), base, target);
    IndentedAppend(Deletions(base, target), Changes(base, target), 0);
    IndentedAppend(Deletions(base, target) + Changes(base, target), Additions(base, target), 0);
  }
}
