/**
 * What the walker promises, proved about Modify: the new leaf can be read back along the
 * path, an unchanged leaf gives back the root itself, siblings off the path are kept,
 * `REMOVE` deletes or splices, a numeric step replaces a non-array, a removal along a
 * missing path changes nothing, and with freezing on a deep-frozen root stays deep-frozen
 * as long as no container has to be created.
 */
module ModifyProps {
  import opened Wrappers
  import opened Values
  import opened Helpers
  import opened Merging
  import opened MergeProps
  import opened LeafOps
  import opened Modifying
  import JsBuiltins

  /** Reading a prefix of the path goes through its first step. */
  lemma GetPrefixTail(v: Val, path: seq<Step>, i: nat)
    requires 1 <= i <= |path|
    ensures Get(v, path[..i]) == Get(Read(v, path[0]), path[1..][..i - 1])
  {
    assert path[..i][0] == path[0];
    assert path[..i][1..] == path[1..][..i - 1];
  }

  /** A step is missing on the path exactly when the first step is, or one is further down. */
  lemma MissingStepTail(node: Val, path: seq<Step>)
    requires |path| > 0
    ensures MissingStep(node, path) <==> !Fits(node, path[0]) || MissingStep(Read(node, path[0]), path[1..])
  {
    var rest := path[1..];
    var child := Read(node, path[0]);
    assert path[..0] == [];
    if MissingStep(node, path) {
      var i :| 0 <= i < |path| && !Fits(Get(node, path[..i]), path[i]);
      if i > 0 {
        GetPrefixTail(node, path, i);
        assert !Fits(Get(child, rest[..i - 1]), rest[i - 1]);
      }
    }
    if MissingStep(child, rest) {
      var i :| 0 <= i < |rest| && !Fits(Get(child, rest[..i]), rest[i]);
      GetPrefixTail(node, path, i + 1);
      assert !Fits(Get(node, path[..i + 1]), path[i + 1]);
    }
  }

  /** No key meets an array on the path exactly when none does at the first step or further down. */
  lemma NoKeyOnArrayTail(node: Val, path: seq<Step>)
    requires |path| > 0
    ensures NoKeyOnArray(node, path) <==>
      (path[0].Key? ==> !node.Arr?) && NoKeyOnArray(Read(node, path[0]), path[1..])
  {
    var rest := path[1..];
    var child := Read(node, path[0]);
    assert path[..0] == [];
    if NoKeyOnArray(node, path) {
      forall i | 0 <= i < |rest| && rest[i].Key? ensures !Get(child, rest[..i]).Arr? {
        GetPrefixTail(node, path, i + 1);
        assert path[i + 1].Key?;
      }
    }
    if (path[0].Key? ==> !node.Arr?) && NoKeyOnArray(child, rest) {
      forall i | 0 <= i < |path| && path[i].Key? ensures !Get(node, path[..i]).Arr? {
        if i > 0 {
          GetPrefixTail(node, path, i);
          assert rest[i - 1].Key?;
        }
      }
    }
  }

  /** Below at least one step, the rebuilt node is a container, so never `REMOVE`. */
  lemma RebuildContainer(node: Val, path: seq<Step>, value: NewValue, op: UpdateFunc, fz: bool)
    requires Accepts(op, value) && |path| > 0
    ensures IsContainer(Rebuild(node, path, value, op, fz))
  {
  }

  /** Writing a child that is not `REMOVE` into a parent it fits stores it where it is read back. */
  lemma ReadWrite(p: Val, s: Step, nv: Val, fz: bool)
    requires Fits(p, s) && nv != Remove && (s.Key? ==> p.Obj?)
    ensures Read(Write(p, s, nv, fz), s) == nv
  {
  }

  /** The rebuilt node holds the new leaf at the end of the path. */
  lemma {:induction false} RebuildGet(node: Val, path: seq<Step>, value: NewValue, op: UpdateFunc, fz: bool)
    requires Accepts(op, value) && NoKeyOnArray(node, path)
    requires Leaf(Get(node, path), value, op, fz) != Remove
    ensures Get(Rebuild(node, path, value, op, fz), path) == Leaf(Get(node, path), value, op, fz)
    decreases |path|
  {
    if |path| > 0 {
      var s := path[0];
      var rest := path[1..];
      var p := Coerce(node, s);
      var child := Read(p, s);
      ReadCoerce(node, s);
      NoKeyOnArrayTail(node, path);
      RebuildGet(child, rest, value, op, fz);
      var nv := Rebuild(child, rest, value, op, fz);
      if nv != child {
        if |rest| > 0 {
          RebuildContainer(child, rest, value, op, fz);
        }
        ReadWrite(p, s, nv, fz);
      }
    }
  }

  /** Put then get: after the walk, the path leads to the new leaf (unless that leaf is `REMOVE`). */
  lemma ModifyThenGet(root: Val, path: seq<Step>, value: NewValue, op: UpdateFunc, fz: bool)
    requires Accepts(op, value) && NoKeyOnArray(root, path)
    requires Leaf(Get(root, path), value, op, fz) != Remove
    ensures Get(Modify(root, path, value, op, fz), path) == Leaf(Get(root, path), value, op, fz)
  {
    RebuildGet(root, path, value, op, fz);
  }

  /** When every container on the path exists and the leaf does not change, the root itself comes back. */
  lemma {:induction false} UnchangedLeafKeepsRoot(root: Val, path: seq<Step>, value: NewValue, op: UpdateFunc, fz: bool)
    requires Accepts(op, value) && !MissingStep(root, path)
    requires Leaf(Get(root, path), value, op, fz) == Get(root, path)
    ensures Modify(root, path, value, op, fz) == root
    decreases |path|
  {
    if |path| > 0 {
      MissingStepTail(root, path);
      UnchangedLeafKeepsRoot(Read(root, path[0]), path[1..], value, op, fz);
    }
  }

  /**
   * Below the root, the rebuilt tree read along the first `i` steps is the node found there
   * in the original, rebuilt along the rest of the path (no key meets an array on the way).
   */
  lemma {:induction false} RebuildGetPrefix(node: Val, path: seq<Step>, i: nat, value: NewValue, op: UpdateFunc, fz: bool)
    requires Accepts(op, value) && i < |path| && NoKeyOnArray(node, path[..i])
    ensures Get(Rebuild(node, path, value, op, fz), path[..i]) ==
      Rebuild(Get(node, path[..i]), path[i..], value, op, fz)
    decreases i
  {
    if i == 0 {
      assert path[..0] == [] && path[0..] == path;
    } else {
      var rest := path[1..];
      var child := Read(node, path[0]);
      NoKeyOnArrayTail(node, path[..i]);
      assert path[..i][0] == path[0];
      assert path[..i][1..] == rest[..i - 1];
      RebuildGetPrefix(child, rest, i - 1, value, op, fz);
      ReadRebuild(node, path, value, op, fz);
      GetPrefixTail(Rebuild(node, path, value, op, fz), path, i);
      GetPrefixTail(node, path, i);
      assert rest[i - 1..] == path[i..];
    }
  }

  /**
   * One step into the rebuilt node reads the child rebuilt along the rest of the path,
   * when the path goes on below that child.
   */
  lemma ReadRebuild(node: Val, path: seq<Step>, value: NewValue, op: UpdateFunc, fz: bool)
    requires Accepts(op, value) && |path| > 1 && (path[0].Key? ==> !node.Arr?)
    ensures Read(Rebuild(node, path, value, op, fz), path[0]) ==
      Rebuild(Read(node, path[0]), path[1..], value, op, fz)
  {
    var s := path[0];
    var p := Coerce(node, s);
    var child := Read(p, s);
    ReadCoerce(node, s);
    var nv := Rebuild(child, path[1..], value, op, fz);
    RebuildContainer(child, path[1..], value, op, fz);
    if nv != child {
      ReadWrite(p, s, nv, fz);
    }
  }

  /**
   * The node at depth `i` of the result: the original node at that depth when a removal
   * meets a missing container, and otherwise that node rebuilt along the rest of the path.
   * So every level of the walk behaves as the root level does.
   */
  lemma ModifyAtDepth(root: Val, path: seq<Step>, i: nat, value: NewValue, op: UpdateFunc, fz: bool)
    requires Accepts(op, value) && i < |path| && NoKeyOnArray(root, path[..i])
    ensures Get(Modify(root, path, value, op, fz), path[..i]) ==
      if IsRemove(value) && MissingStep(root, path) then Get(root, path[..i])
      else Rebuild(Get(root, path[..i]), path[i..], value, op, fz)
  {
    if !(IsRemove(value) && MissingStep(root, path)) {
      RebuildGetPrefix(root, path, i, value, op, fz);
    }
  }

  /**
   * One level of the walk, at depth `i`: the node there in the result is the original
   * node when a removal meets a missing container or the rebuilt child is unchanged,
   * and otherwise a copy of the (possibly created) container with the child written.
   */
  lemma StepAtDepth(root: Val, path: seq<Step>, i: nat, value: NewValue, op: UpdateFunc, fz: bool)
    requires Accepts(op, value) && i < |path| && NoKeyOnArray(root, path[..i])
    ensures var node := Get(root, path[..i]);
      var p := Coerce(node, path[i]);
      var nv := Rebuild(Get(root, path[..i + 1]), path[i + 1..], value, op, fz);
      Fits(p, path[i]) &&
      Get(Modify(root, path, value, op, fz), path[..i]) ==
        if IsRemove(value) && MissingStep(root, path) then node
        else if nv == Read(p, path[i]) then p
        else Write(p, path[i], nv, fz)
  {
    ModifyAtDepth(root, path, i, value, op, fz);
    RebuildAt(root, path, i, value, op, fz);
  }

  /** In an object met on the path at depth `i`, the keys other than the step's keep their presence and values. */
  lemma ObjectSiblingsKept(root: Val, path: seq<Step>, i: nat, value: NewValue, op: UpdateFunc, fz: bool)
    requires Accepts(op, value) && i < |path| && NoKeyOnArray(root, path[..i])
    requires path[i].Key? && Get(root, path[..i]).Obj?
    ensures Get(Modify(root, path, value, op, fz), path[..i]).Obj?
    ensures forall k :: k != path[i].key ==>
      (k in Get(Modify(root, path, value, op, fz), path[..i]).fields <==> k in Get(root, path[..i]).fields)
    ensures forall k :: k != path[i].key && k in Get(root, path[..i]).fields ==>
      Get(Modify(root, path, value, op, fz), path[..i]).fields[k] == Get(root, path[..i]).fields[k]
  {
    var node := Get(root, path[..i]);
    StepAtDepth(root, path, i, value, op, fz);
    assert Coerce(node, path[i]) == node;
  }

  /** In an array met on the path at depth `i`, the elements before the step's index are unchanged. */
  lemma ArrayPrefixKept(root: Val, path: seq<Step>, i: nat, value: NewValue, op: UpdateFunc, fz: bool)
    requires Accepts(op, value) && i < |path| && NoKeyOnArray(root, path[..i])
    requires path[i].Idx? && Get(root, path[..i]).Arr?
    ensures Get(Modify(root, path, value, op, fz), path[..i]).Arr?
    ensures forall j :: 0 <= j < |Get(root, path[..i]).elems| && j < path[i].index ==>
      At(Get(Modify(root, path, value, op, fz), path[..i]).elems, j) == At(Get(root, path[..i]).elems, j)
  {
    var node := Get(root, path[..i]);
    var nv := Rebuild(Get(root, path[..i + 1]), path[i + 1..], value, op, fz);
    StepAtDepth(root, path, i, value, op, fz);
    assert Coerce(node, path[i]) == node;
    WriteKeepsPrefix(node, path[i].index, nv, fz);
  }

  /** Writing at index `x` of an array leaves the elements before `x` as they were. */
  lemma WriteKeepsPrefix(p: Val, x: nat, nv: Val, fz: bool)
    requires p.Arr?
    ensures Write(p, Idx(x), nv, fz).Arr?
    ensures forall j :: 0 <= j < |p.elems| && j < x ==> At(Write(p, Idx(x), nv, fz).elems, j) == At(p.elems, j)
  {
    var c := Dense(p.elems, |p.elems|);
    if nv == Remove && x < |c| {
      SpliceKeepsPrefix(c, x, c[..x] + c[x + 1..]);
    }
  }

  lemma SpliceKeepsPrefix<T>(c: seq<T>, x: nat, r: seq<T>)
    requires x < |c| && r == c[..x] + c[x + 1..]
    ensures forall j :: 0 <= j < x ==> r[j] == c[j]
  {
  }

  /**
   * In an array met on the path at depth `i`, when the rebuilt child is not `REMOVE`,
   * every other index keeps its element, and a changed array is lengthened to reach the
   * step's index.
   */
  lemma ArrayOthersKept(root: Val, path: seq<Step>, i: nat, value: NewValue, op: UpdateFunc, fz: bool)
    requires Accepts(op, value) && i < |path| && NoKeyOnArray(root, path[..i])
    requires path[i].Idx? && Get(root, path[..i]).Arr?
    requires Rebuild(Get(root, path[..i + 1]), path[i + 1..], value, op, fz) != Remove
    ensures Get(Modify(root, path, value, op, fz), path[..i]).Arr?
    ensures forall j :: 0 <= j < |Get(root, path[..i]).elems| && j != path[i].index ==>
      At(Get(Modify(root, path, value, op, fz), path[..i]).elems, j) == At(Get(root, path[..i]).elems, j)
    ensures Get(Modify(root, path, value, op, fz), path[..i]) != Get(root, path[..i]) ==>
      |Get(Modify(root, path, value, op, fz), path[..i]).elems| ==
        JsBuiltins.Max(|Get(root, path[..i]).elems|, path[i].index + 1)
  {
    var node := Get(root, path[..i]);
    var nv := Rebuild(Get(root, path[..i + 1]), path[i + 1..], value, op, fz);
    StepAtDepth(root, path, i, value, op, fz);
    assert Coerce(node, path[i]) == node;
    WriteKeepsOthers(node, path[i].index, nv, fz);
  }

  /** Storing a child other than `REMOVE` at index `x` of an array keeps every other index and reaches `x`. */
  lemma WriteKeepsOthers(p: Val, x: nat, nv: Val, fz: bool)
    requires p.Arr? && nv != Remove
    ensures Write(p, Idx(x), nv, fz).Arr?
    ensures forall j :: 0 <= j < |p.elems| && j != x ==> At(Write(p, Idx(x), nv, fz).elems, j) == At(p.elems, j)
    ensures |Write(p, Idx(x), nv, fz).elems| == JsBuiltins.Max(|p.elems|, x + 1)
  {
  }

  /**
   * In an array met on the path at depth `i`, a child that becomes `REMOVE` is spliced
   * out: the array is one shorter and the later elements move down by one.
   */
  lemma ArrayRemoveShifts(root: Val, path: seq<Step>, i: nat, value: NewValue, op: UpdateFunc, fz: bool)
    requires Accepts(op, value) && i < |path| && NoKeyOnArray(root, path[..i])
    requires path[i].Idx? && Get(root, path[..i]).Arr?
    requires path[i].index < |Get(root, path[..i]).elems| && At(Get(root, path[..i]).elems, path[i].index) != Remove
    requires Rebuild(Get(root, path[..i + 1]), path[i + 1..], value, op, fz) == Remove
    requires !MissingStep(root, path)
    ensures Get(Modify(root, path, value, op, fz), path[..i]).Arr?
    ensures |Get(Modify(root, path, value, op, fz), path[..i]).elems| == |Get(root, path[..i]).elems| - 1
    ensures forall j :: path[i].index <= j < |Get(root, path[..i]).elems| - 1 ==>
      At(Get(Modify(root, path, value, op, fz), path[..i]).elems, j) == At(Get(root, path[..i]).elems, j + 1)
  {
    var node := Get(root, path[..i]);
    StepAtDepth(root, path, i, value, op, fz);
    GetSnoc(root, path, i);
    assert Coerce(node, path[i]) == node;
    assert Get(Modify(root, path, value, op, fz), path[..i]) == Write(node, path[i], Remove, fz);
    WriteRemoveShifts(node, path[i].index, fz);
  }

  /** Writing `REMOVE` at an index of an array splices it out. */
  lemma WriteRemoveShifts(p: Val, x: nat, fz: bool)
    requires p.Arr? && x < |p.elems|
    ensures Write(p, Idx(x), Remove, fz).Arr?
    ensures |Write(p, Idx(x), Remove, fz).elems| == |p.elems| - 1
    ensures forall j :: x <= j < |p.elems| - 1 ==> At(Write(p, Idx(x), Remove, fz).elems, j) == At(p.elems, j + 1)
  {
    var c := Dense(p.elems, |p.elems|);
    assert Write(p, Idx(x), Remove, fz).elems == c[..x] + c[x + 1..];
    SpliceOut(c, x, Write(p, Idx(x), Remove, fz).elems);
  }

  /** Splicing out index `x` moves every later element down by one. */
  lemma SpliceOut<T>(c: seq<T>, x: nat, r: seq<T>)
    requires x < |c| && r == c[..x] + c[x + 1..]
    ensures |r| == |c| - 1
    ensures forall j :: x <= j < |r| ==> r[j] == c[j + 1]
  {
  }

  /** A numeric step into anything but an array installs a fresh array: an object there is replaced, losing its keys. */
  lemma IndexReplacesNonArray(root: Val, path: seq<Step>, value: NewValue, op: UpdateFunc, fz: bool)
    requires Accepts(op, value) && !IsRemove(value)
    requires !root.Arr? && |path| > 0 && path[0].Idx?
    ensures Modify(root, path, value, op, fz).Arr?
  {
  }

  /** A removal whose intermediate key is missing returns the root itself. */
  lemma RemoveMissingIntermediate(root: Val, a: string, rest: seq<Step>, op: UpdateFunc, fz: bool)
    requires Accepts(op, Literal(Remove)) && root.Obj? && a !in root.fields && |rest| > 0
    ensures Modify(root, [Key(a)] + rest, Literal(Remove), op, fz) == root
  {
    var path := [Key(a)] + rest;
    assert path[..1] == [Key(a)];
    assert Get(root, path[..1]) == Undef;
    assert !Fits(Get(root, path[..1]), path[1]);
  }

  /** A removal whose final key is missing still copies the object: a fresh one with the same fields. */
  lemma RemoveMissingFinalKey(root: Val, k: string, op: UpdateFunc, fz: bool)
    requires Accepts(op, Literal(Remove)) && root.Obj? && k !in root.fields
    ensures Modify(root, [Key(k)], Literal(Remove), op, fz) == Obj(root.fields, fz)
  {
    assert [Key(k)][1..] == [];
    assert Read(root, Key(k)) == Undef;
    assert Rebuild(Undef, [], Literal(Remove), op, fz) == Remove;
    assert Rebuild(root, [Key(k)], Literal(Remove), op, fz) == Write(root, Key(k), Remove, fz);
    assert [Key(k)][..0] == [];
    assert !MissingStep(root, [Key(k)]);
    assert root.fields - {k} == root.fields;
  }

  /** The new leaf is deep-frozen when the old one is and freezing is on. */
  lemma LeafKeepsDeepFrozen(leaf: Val, value: NewValue, op: UpdateFunc)
    requires Accepts(op, value) && DeepFrozen(leaf)
    ensures DeepFrozen(Leaf(leaf, value, op, true))
  {
    var v := Chosen(leaf, value);
    if v != Remove {
      match op
      case CmpAndSet => MergeKeepsDeepFrozen(leaf, v, SetFlags);
      case CmpAndMerge => MergeKeepsDeepFrozen(leaf, v, MergeFlags);
      case CmpAndDeepMerge => MergeKeepsDeepFrozen(leaf, v, DeepMergeFlags);
      case CmpAndApplyDiff => MergeKeepsDeepFrozen(leaf, v, ApplyDiffFlags);
      case Increment =>
      case Join(atFront) => JoinKeepsDeepFrozen(leaf, v, atFront);
      case SliceRange(start, end) => SliceKeepsDeepFrozen(leaf, start, end);
      case Splice(index, deleteCount) => SpliceKeepsDeepFrozen(leaf, v, index, deleteCount);
    }
  }

  /** Every element of a slice is an element of the sliced sequence. */
  lemma SliceMember<T>(s: seq<T>, start: int, end: Option<int>, x: T)
    requires x in JsBuiltins.Slice(s, start, end)
    ensures x in s
  {
  }

  lemma JoinKeepsDeepFrozen(dst: Val, values: Val, atFront: bool)
    requires DeepFrozen(dst) && values.Arr?
    ensures DeepFrozen(ArrayJoin(dst, values, atFront, true))
  {
    Cloning.CloneFrozen(values, true);
  }

  lemma SliceKeepsDeepFrozen(dst: Val, start: int, end: Option<int>)
    requires DeepFrozen(dst)
    ensures DeepFrozen(ArraySlice(dst, start, end, true))
  {
    if dst.Arr? {
      var sl := JsBuiltins.Slice(dst.elems, start, end);
      forall x | x in sl ensures DeepFrozen(x) {
        SliceMember(dst.elems, start, end, x);
      }
      assert forall i :: 0 <= i < |sl| ==> sl[i] in sl;
    }
  }

  lemma SpliceKeepsDeepFrozen(dst: Val, values: Val, index: int, deleteCount: int)
    requires DeepFrozen(dst) && values.Arr?
    ensures DeepFrozen(ArraySplice(dst, values, index, deleteCount, true))
  {
    Cloning.CloneFrozen(values, true);
    if dst.Arr? {
      var a := JsBuiltins.Slice(dst.elems, 0, Some(index));
      var b := JsBuiltins.Slice(dst.elems, index + deleteCount, None);
      var c := Cloning.Clone(values, true).elems;
      forall x | x in a + c + b ensures DeepFrozen(x) {
        if x in a {
          SliceMember(dst.elems, 0, Some(index), x);
        } else if x in b {
          SliceMember(dst.elems, index + deleteCount, None, x);
        }
      }
      var all := a + c + b;
      assert forall i :: 0 <= i < |all| ==> all[i] in all;
    }
  }

  /** A copy of a deep-frozen parent with a deep-frozen child written is deep-frozen. */
  lemma WriteKeepsDeepFrozen(p: Val, s: Step, nv: Val)
    requires Fits(p, s) && DeepFrozen(p) && DeepFrozen(nv)
    ensures DeepFrozen(Write(p, s, nv, true))
  {
    if p.Arr? {
      var c := Dense(p.elems, |p.elems|);
      assert forall i :: 0 <= i < |c| ==> DeepFrozen(c[i]);
      if s.Idx? && nv == Remove && s.index < |c| {
        var spliced := c[..s.index] + c[s.index + 1..];
        assert forall i :: 0 <= i < |spliced| ==> spliced[i] == c[if i < s.index then i else i + 1];
      }
    }
  }

  /**
   * With freezing on, a deep-frozen root stays deep-frozen when every container on the
   * path exists. (A container the downward pass creates is frozen only if its child changes.)
   */
  lemma {:induction false} RebuildKeepsDeepFrozen(node: Val, path: seq<Step>, value: NewValue, op: UpdateFunc)
    requires Accepts(op, value) && DeepFrozen(node) && !MissingStep(node, path)
    ensures DeepFrozen(Rebuild(node, path, value, op, true))
    decreases |path|
  {
    if |path| == 0 {
      LeafKeepsDeepFrozen(node, value, op);
    } else {
      var s := path[0];
      MissingStepTail(node, path);
      var child := Read(node, s);
      RebuildKeepsDeepFrozen(child, path[1..], value, op);
      WriteKeepsDeepFrozen(node, s, Rebuild(child, path[1..], value, op, true));
    }
  }

  lemma ModifyKeepsDeepFrozen(root: Val, path: seq<Step>, value: NewValue, op: UpdateFunc)
    requires Accepts(op, value) && DeepFrozen(root) && !MissingStep(root, path)
    ensures DeepFrozen(Modify(root, path, value, op, true))
  {
    RebuildKeepsDeepFrozen(root, path, value, op);
  }

  /**
   * Without that condition it fails: replacing `undefined` at `a.b` in a frozen `{}`
   * creates `{}` for `a`, whose child stays `undefined`, so it is never frozen.
   */
  lemma CreatedContainerLeftUnfrozen()
    ensures Modify(Obj(map[], true), [Key("a"), Key("b")], Literal(Undef), CmpAndSet, true)
      == Obj(map["a" := Obj(map[], false)], true)
    ensures !DeepFrozen(Modify(Obj(map[], true), [Key("a"), Key("b")], Literal(Undef), CmpAndSet, true))
  {
    var path := [Key("a"), Key("b")];
    var inner := Rebuild(Undef, path[1..], Literal(Undef), CmpAndSet, true);
    assert path[1..] == [Key("b")];
    assert [Key("b")][1..] == [];
    assert Rebuild(Undef, [], Literal(Undef), CmpAndSet, true) == Undef;
    assert inner == Obj(map[], false);
    assert Obj(map[], true).fields["a" := inner] == map["a" := Obj(map[], false)];
  }
}
