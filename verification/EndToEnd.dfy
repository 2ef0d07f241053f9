/**
 The whole of upstream/build.sh:48-74. The compiled trees are printed in the compiler's sorted form
 with whatever phandles each compile allocated, check-refs reads both texts and the gate compares them.
 */
module EndToEnd {
  import opened Wrappers
  import opened DeviceTree
  import opened Dtc
  import opened GenOverrides
  import opened DiffPatch
  import opened RoundTrip
  import opened RemapPhandles
  import opened RemapExact
  import opened CheckRefs
  import opened Gate
  import opened Canonical
  import opened Readings

  lemma PhandleApart(a: Content, b: Content, key: string, p: map<string, nat>, q: map<string, nat>)
    requires PHANDLE !in a.props && PHANDLE !in b.props
    requires a.(props := PropsWith(a.props, key, p)) == b.(props := PropsWith(b.props, key, q))
    ensures a == b && (key in p <==> key in q)
  {
    assert PropsWith(a.props, key, p) - {PHANDLE} == a.props;
    assert PropsWith(b.props, key, q) - {PHANDLE} == b.props;
    assert PHANDLE in PropsWith(a.props, key, p) <==> key in p;
    assert PHANDLE in PropsWith(b.props, key, q) <==> key in q;
  }

  lemma PhandlesApart(a: Tree, b: Tree, p: map<string, nat>, q: map<string, nat>)
    requires Compiled(a) && Compiled(b) && p.Keys <= a.Keys && q.Keys <= b.Keys
    requires WithPhandles(a, p) == WithPhandles(b, q)
    ensures a == b && p.Keys == q.Keys
  {
    var x, y := WithPhandles(a, p), WithPhandles(b, q);
    assert a.Keys == x.Keys == y.Keys == b.Keys;
    forall k | k in a ensures a[k] == b[k] && (k in p <==> k in q) {
      assert x[k] == y[k];
      PhandleApart(a[k], b[k], k, p, q);
    }
  }

  /**
   The gate's comparison, exactly: it passes when and only when the two compiled trees have the same
   nodes, labels and properties, and give a phandle to the same nodes. The phandles' values, on
   either side, make no difference.
   */
  lemma GateDecides(patched: Tree, native: Tree, p: map<string, nat>, q: map<string, nat>)
    requires Compiled(patched) && Compiled(native) && p.Keys <= patched.Keys && q.Keys <= native.Keys
    ensures Remap(CanonicalText(patched, p), CanonicalText(native, q)) == CanonicalText(patched, p)
            <==> patched == native && p.Keys == q.Keys
  {
    CanonicalPhandles(patched, p);
    CanonicalPhandles(native, q);
    RemapEqualsReference(CanonicalText(patched, p), CanonicalText(native, q));
    EraseCanonical(patched, p);
    EraseCanonical(native, q);
    SameZeroText(patched, native, p, q);
  }

  /**
   The whole gate, check-refs and comparison: VERIFIED is printed when and only when the trees are the
   same, give a phandle to the same nodes, and write no property with a reference in one node that is a
   bare group in another.
   */
  lemma GateVerdict(patched: Tree, native: Tree, p: map<string, nat>, q: map<string, nat>)
    requires Compiled(patched) && Compiled(native) && p.Keys <= patched.Keys && q.Keys <= native.Keys
    ensures Verified(CanonicalText(patched, p), CanonicalText(native, q))
            <==> patched == native && p.Keys == q.Keys && NamesApart(patched)
  {
    GateDecides(patched, native, p, q);
    if patched == native && p.Keys == q.Keys {
      CleanOfBoth(patched, p, q);
    }
  }

  lemma CleanOfBoth(tree: Tree, p: map<string, nat>, q: map<string, nat>)
    requires Compiled(tree) && p.Keys == q.Keys <= tree.Keys
    ensures Erase(CanonicalText(tree, p)) == Erase(CanonicalText(tree, q))
    ensures Clean([CanonicalText(tree, p), CanonicalText(tree, q)]) <==> NamesApart(tree)
  {
    CanonicalPhandles(tree, p);
    CanonicalPhandles(tree, q);
    EraseCanonical(tree, p);
    EraseCanonical(tree, q);
    ZerosSame(p, q);
    CleanOnce(CanonicalText(tree, p), CanonicalText(tree, q));
    CanonicalClean(tree, p);
  }

  // ---- what the verdict is worth ------------------------------------------------------------------

  /** Both texts say the same about every node, each reference replaced by the node it names. */
  ghost predicate SameHardware(tree: Tree, p: map<string, nat>, q: map<string, nat>, refs: References)
    requires Compiled(tree)
  {
    Facts(CanonicalText(tree, p), refs) == Facts(CanonicalText(tree, q), refs)
  }

  lemma NoneMisreadSame(tree: Tree, p: map<string, nat>, q: map<string, nat>, refs: References)
    requires Compiled(tree) && p.Keys == q.Keys <= tree.Keys && !TreeMisread(tree, p, refs)
    ensures SameHardware(tree, p, q, refs)
  {
    CleanOfBoth(tree, p, q);
    CanonicalPhandles(tree, p);
    MisreadInTree(tree, p, refs);
    NoneMisreadIsSame(CanonicalText(tree, p), CanonicalText(tree, q), refs);
  }

  /** Another allocation to the same nodes: `n` changes between being a phandle and being none. */
  function Moved(p: map<string, nat>, n: nat, top: string): map<string, nat> {
    map k | k in p :: if n !in p.Values && k == top then n else p[k] + n + 1
  }

  lemma MovedValues(p: map<string, nat>, n: nat, top: string)
    requires top in p
    ensures Moved(p, n, top).Keys == p.Keys && (n in Moved(p, n, top).Values <==> n !in p.Values)
    ensures Injective(p) ==> Injective(Moved(p, n, top))
  {
    var q := Moved(p, n, top);
    assert q[top] == n || n in p.Values;
    assert forall k | k in q :: q[k] == n ==> n !in p.Values;
  }

  lemma NumberIsNotSame(tree: Tree, p: map<string, nat>, refs: References, i: nat, g: nat, c: nat) returns (q: map<string, nat>)
    requires Compiled(tree) && p.Keys <= tree.Keys && p != map[]
    requires IsNumericReference(CanonicalText(tree, p), refs, i, g, c)
    ensures q.Keys == p.Keys && (Injective(p) ==> Injective(q)) && !SameHardware(tree, p, q, refs)
  {
    var text := CanonicalText(tree, p);
    var n, top :| CellAt(text, i, g, c) == Number(n) && top in p;
    q := Moved(p, n, top);
    MovedValues(p, n, top);
    OwnersAreHolders(tree, p, n);
    OwnersAreHolders(tree, q, n);
    CleanOfBoth(tree, p, q);
    OwnerChanged(text, CanonicalText(tree, q), refs, i, g, c, n);
  }

  /** Another allocation to the same nodes: every phandle one up. */
  function Raised(p: map<string, nat>): map<string, nat> {
    map k | k in p :: p[k] + 1
  }

  /** An `&` that names a node with a phandle compiles to another number. */
  lemma ReferenceRaised(tree: Tree, p: map<string, nat>, ref: Ref)
    requires Compiled(tree)
    requires Stored(CanonicalText(tree, p), NodeOf(CanonicalText(tree, p), ref)).Some?
    ensures Stored(CanonicalText(tree, p), NodeOf(CanonicalText(tree, p), ref))
            != Stored(CanonicalText(tree, Raised(p)), NodeOf(CanonicalText(tree, Raised(p)), ref))
  {
    ReferencesCompile(tree, p, ref);
    ReferencesCompile(tree, Raised(p), ref);
  }

  lemma InventionIsNotSame(tree: Tree, p: map<string, nat>, refs: References, i: nat, g: nat, c: nat)
    requires Compiled(tree) && p.Keys <= tree.Keys && IsInvented(CanonicalText(tree, p), refs, i, g, c)
    ensures Raised(p).Keys == p.Keys && !SameHardware(tree, p, Raised(p), refs)
  {
    var text := CanonicalText(tree, p);
    ReferenceRaised(tree, p, CellAt(text, i, g, c).ref);
    CleanOfBoth(tree, p, Raised(p));
    StoredChanged(text, CanonicalText(tree, Raised(p)), refs, i, g, c, CellAt(text, i, g, c).ref);
  }

  lemma MisreadIsNotSame(tree: Tree, p: map<string, nat>, refs: References) returns (q: map<string, nat>)
    requires Compiled(tree) && p.Keys <= tree.Keys && p != map[] && TreeMisread(tree, p, refs)
    ensures q.Keys == p.Keys && (Injective(p) ==> Injective(q)) && !SameHardware(tree, p, q, refs)
  {
    MisreadInTree(tree, p, refs);
    var text := CanonicalText(tree, p);
    if i: nat, g: nat, c: nat :| IsNumericReference(text, refs, i, g, c) {
      q := NumberIsNotSame(tree, p, refs, i, g, c);
    } else {
      var i: nat, g: nat, c: nat :| IsInvented(text, refs, i, g, c);
      InventionIsNotSame(tree, p, refs, i, g, c);
      q := Raised(p);
    }
  }

  /**
   What the verdict is worth, told from the patched tree alone: every tree the gate passes beside it is the
   same hardware, whatever phandles it was compiled with, exactly when no reference of it is left a number
   and no `&` of it is made up, or it has no phandles. That no two nodes share a phandle does not help.
   */
  lemma VerdictIsSound(patched: Tree, p: map<string, nat>, refs: References)
    requires Compiled(patched) && p.Keys <= patched.Keys && NamesApart(patched)
    ensures (forall native, q: map<string, nat> | Compiled(native) && q.Keys <= native.Keys
                                && Verified(CanonicalText(patched, p), CanonicalText(native, q)) ::
               native == patched && SameHardware(patched, p, q, refs))
            <==> p == map[] || !TreeMisread(patched, p, refs)
    ensures (forall q: map<string, nat> | (Injective(p) ==> Injective(q)) && q.Keys == p.Keys ::
               SameHardware(patched, p, q, refs))
            <==> p == map[] || !TreeMisread(patched, p, refs)
  {
    forall native, q: map<string, nat> | Compiled(native) && q.Keys <= native.Keys
      ensures Verified(CanonicalText(patched, p), CanonicalText(native, q)) <==> native == patched && q.Keys == p.Keys
    {
      GateVerdict(patched, native, p, q);
    }
    if p != map[] && TreeMisread(patched, p, refs) {
      var q := MisreadIsNotSame(patched, p, refs);
    } else {
      forall q: map<string, nat> | q.Keys == p.Keys ensures SameHardware(patched, p, q, refs) {
        if p == map[] {
          assert q == map[];
        } else {
          NoneMisreadSame(patched, p, q, refs);
        }
      }
    }
  }

  lemma ZerosKeys(p: map<string, nat>)
    ensures Zeros(p).Keys == p.Keys
  {
  }

  lemma ZerosSame(p: map<string, nat>, q: map<string, nat>)
    requires p.Keys == q.Keys
    ensures Zeros(p) == Zeros(q)
  {
  }

  lemma SameTextSameTree(a: Tree, b: Tree, p: map<string, nat>, q: map<string, nat>)
    requires Compiled(a) && Compiled(b) && p.Keys <= a.Keys && q.Keys <= b.Keys
    requires CanonicalText(a, p) == CanonicalText(b, q)
    ensures a == b && p.Keys == q.Keys
  {
    CanonicalCompiles(a, p);
    CanonicalCompiles(b, q);
    PhandlesApart(a, b, p, q);
  }

  lemma SameZeroText(a: Tree, b: Tree, p: map<string, nat>, q: map<string, nat>)
    requires Compiled(a) && Compiled(b) && p.Keys <= a.Keys && q.Keys <= b.Keys
    ensures CanonicalText(a, Zeros(p)) == CanonicalText(b, Zeros(q)) <==> a == b && p.Keys == q.Keys
  {
    ZerosKeys(p);
    ZerosKeys(q);
    if CanonicalText(a, Zeros(p)) == CanonicalText(b, Zeros(q)) {
      SameTextSameTree(a, b, Zeros(p), Zeros(q));
    }
    if p.Keys == q.Keys {
      ZerosSame(p, q);
    }
  }

  lemma MeaningCompiled(nodes: Nodes)
    requires WellFormed(nodes) && LabelsUnique(nodes) && NoPhandle(nodes)
    ensures Compiled(Meaning(nodes))
  {
    var tree := Meaning(nodes);
    forall k | k in tree && k != "/" ensures Hangs(tree, k) {
      assert Placed(nodes, k);
    }
    forall j, k, l | j in tree && k in tree && l in tree[j].labels && l in tree[k].labels ensures j == k {
      assert nodes.at[j].tag == Some(l) == nodes.at[k].tag;
    }
  }

  /** The overrides compile, and the gate says VERIFIED. */
  ghost predicate Submitted(target: Tree, native: Option<State>, p: map<string, nat>, q: map<string, nat>)
    requires Compiled(target)
  {
    && native.Some? && Compiled(native.value.nodes)
    && Verified(CanonicalText(target, p), CanonicalText(native.value.nodes, q))
  }

  lemma TreesPassGate(target: Tree, native: Tree, p: map<string, nat>, q: map<string, nat>)
    requires Compiled(target) && p.Keys <= target.Keys && q.Keys <= native.Keys
    ensures Submitted(target, Some(State(native, [])), p, q)
            <==> native == target && p.Keys == q.Keys && NamesApart(target)
  {
    if Compiled(native) {
      GateVerdict(target, native, p, q);
    }
  }

  /**
   From the two parsed trees to the gate. `p` and `q` are the phandles the two compiles allocate.
   The overrides compile over the reference tree and pass the gate against the target exactly when
   the target agrees with the reference on the labels of the nodes they share, the two compiles give
   phandles to the same nodes, and the target writes no property both with references and without.
   */
  lemma SubmissionPassesGate(base: Nodes, target: Nodes, p: map<string, nat>, q: map<string, nat>)
    requires WellFormed(base) && LabelsUnique(base) && WellFormed(target) && LabelsUnique(target) && NoPhandle(target)
    requires p.Keys <= target.at.Keys && q.Keys <= target.at.Keys
    ensures Compiled(Meaning(target))
    ensures Submitted(Meaning(target), Run(State(Meaning(base), []), Script(base, target)), p, q)
            <==> LabelsAgree(base, target) && p.Keys == q.Keys && NamesApart(Meaning(target))
  {
    MeaningCompiled(target);
    ScriptMeaning(base, target);
    AgreeIsExact(base, target);
    if LabelsCompatible(base, target) {
      TreesPassGate(Meaning(target), Patched(base, target), p, q);
    }
  }

  /**
   And what passes is the target: the tree itself, every label naming in both texts the node it names in
   the tree, and, if no reference is left a number and no `&` made up, the same said of every node.
   */
  lemma PassedIsTarget(target: Tree, native: Tree, p: map<string, nat>, q: map<string, nat>, l: string, refs: References)
    requires Compiled(target) && Compiled(native) && p.Keys <= target.Keys && q.Keys <= native.Keys
    requires Verified(CanonicalText(target, p), CanonicalText(native, q))
    ensures native == target
    ensures Lookup(LabelMap([], CanonicalText(native, q)), l) == Lookup(LabelMap([], CanonicalText(target, p)), l)
            == match Resolve(target, ByLabel(l)) case Some(k) => Some(DtPath(k)) case None => None
    ensures !TreeMisread(target, p, refs) ==> SameHardware(target, p, q, refs)
  {
    GateVerdict(target, native, p, q);
    LabelsResolve(target, p, l);
    LabelsResolve(target, q, l);
    if !TreeMisread(target, p, refs) {
      NoneMisreadSame(target, p, q, refs);
    }
  }
}
