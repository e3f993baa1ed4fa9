/**
 * `modifyImmutableInternal`: walk down a path, creating the containers that are missing,
 * compute the new leaf, then walk back up copying each parent whose child changed.
 *
 * The function Modify states the result, level by level (Rebuild); the method
 * ModifyImmutableInternal is the two-pass loop of the library, proved to compute it.
 */
module Modifying {
  import opened Wrappers
  import opened Values
  import opened Helpers
  import opened Cloning
  import opened Merging
  import opened LeafOps
  import MergeImpl

  /** The update function passed to the walker, with its parameter. */
  datatype UpdateFunc =
    | CmpAndSet
    | CmpAndMerge
    | CmpAndDeepMerge
    | CmpAndApplyDiff
    | Increment
    | Join(atFront: bool)
    | SliceRange(start: int, end: Option<int>)
    | Splice(index: int, deleteCount: int)

  /** The value given to the walker: a value, or a setter applied to the current leaf. */
  datatype NewValue = Literal(v: Val) | Setter(f: Val -> Val)

  /** The value is the `REMOVE` symbol itself (a setter is a function, never `REMOVE`). */
  predicate IsRemove(value: NewValue) {
    value.Literal? && value.v == Remove
  }

  /** What each update function is given by its callers: a number to add, an array of values to insert. */
  predicate Accepts(op: UpdateFunc, value: NewValue) {
    match op
    case Increment => value.Literal? && value.v.Num?
    case Join(_) => value.Literal? && value.v.Arr?
    case Splice(_, _) => value.Literal? && value.v.Arr?
    case SliceRange(_, _) => value.Literal?
    case _ => true
  }

  /** The operand an update function needs. */
  predicate OperandFits(op: UpdateFunc, v: Val) {
    match op
    case Increment => v.Num?
    case Join(_) => v.Arr?
    case Splice(_, _) => v.Arr?
    case _ => true
  }

  /** `updateFunc(leafVal, value, updateParam)` */
  function Apply(op: UpdateFunc, leaf: Val, v: Val, fz: bool): Val
    requires OperandFits(op, v)
  {
    match op
    case CmpAndSet => Merge(leaf, v, SetFlags, fz)
    case CmpAndMerge => Merge(leaf, v, MergeFlags, fz)
    case CmpAndDeepMerge => Merge(leaf, v, DeepMergeFlags, fz)
    case CmpAndApplyDiff => Merge(leaf, v, ApplyDiffFlags, fz)
    case Increment => IncrementNumber(leaf, v.n)
    case Join(atFront) => ArrayJoin(leaf, v, atFront, fz)
    case SliceRange(start, end) => ArraySlice(leaf, start, end, fz)
    case Splice(index, deleteCount) => ArraySplice(leaf, v, index, deleteCount, fz)
  }

  /** The value after a setter has been applied to the current leaf. */
  function Chosen(leaf: Val, value: NewValue): Val {
    if value.Setter? then value.f(leaf) else value.v
  }

  /** The new leaf: `REMOVE` stays `REMOVE`, anything else goes through the update function. */
  function Leaf(leaf: Val, value: NewValue, op: UpdateFunc, fz: bool): Val
    requires Accepts(op, value)
  {
    var v := Chosen(leaf, value);
    if v == Remove then Remove else Apply(op, leaf, v, fz)
  }

  /** `v[key]`: a missing index or key, or a step into something that is not a container, reads as `undefined`. */
  function Read(v: Val, s: Step): Val {
    match s
    case Idx(i) => if v.Arr? then At(v.elems, i) else Undef
    case Key(k) => if v.Obj? then FieldOf(v.fields, k) else Undef
  }

  /** The value a path leads to. */
  function Get(v: Val, path: seq<Step>): Val
    decreases |path|
  {
    if |path| == 0 then v else Get(Read(v, path[0]), path[1..])
  }

  /** The walker can step into `v` without creating a container: an index into an array, a key into a container. */
  predicate Fits(v: Val, s: Step) {
    if s.Idx? then v.Arr? else IsContainer(v)
  }

  /** The downward pass: a numeric step into a non-array installs an empty array, any other step into a primitive an empty object. */
  function Coerce(v: Val, s: Step): (r: Val)
    ensures Fits(r, s)
  {
    if Fits(v, s) then v
    else if s.Idx? then Arr([], false)
    else Obj(map[], false)
  }

  /** Some step of the path needs a container that is not there. */
  predicate MissingStep(root: Val, path: seq<Step>) {
    exists i :: 0 <= i < |path| && !Fits(Get(root, path[..i]), path[i])
  }

  /** No string key is applied to an array along the path (that would set a named property of the array). */
  predicate NoKeyOnArray(root: Val, path: seq<Step>) {
    forall i :: 0 <= i < |path| && path[i].Key? ==> !Get(root, path[..i]).Arr?
  }

  /**
   * The upward pass at one parent whose child changed: a fresh copy (an array copy reads
   * every slot, so it has no holes) in which `REMOVE` splices out the index or deletes
   * the key, and any other child is stored; the copy is frozen when freezing is on.
   * A string key on an array is not modelled: the copy is returned unchanged.
   */
  function Write(p: Val, s: Step, nv: Val, fz: bool): Val
    requires Fits(p, s)
  {
    if p.Arr? then
      var c := Dense(p.elems, |p.elems|);
      Arr(if s.Key? then c
          else if nv == Remove then (if s.index < |c| then c[..s.index] + c[s.index + 1..] else c)
          else AssignAt(c, s.index, nv), fz)
    else
      Obj(if nv == Remove then p.fields - {s.key} else p.fields[s.key := nv], fz)
  }

  /**
   * The node after updating the leaf below it along `path`: the (possibly newly created)
   * container itself when its child is unchanged, otherwise its copy with the child written.
   */
  function Rebuild(node: Val, path: seq<Step>, value: NewValue, op: UpdateFunc, fz: bool): Val
    requires Accepts(op, value)
    decreases |path|
  {
    if |path| == 0 then Leaf(node, value, op, fz)
    else
      var p := Coerce(node, path[0]);
      var child := Read(p, path[0]);
      var nv := Rebuild(child, path[1..], value, op, fz);
      if nv == child then p else Write(p, path[0], nv, fz)
  }

  /** The walker's result: a removal along a path that does not exist returns the root untouched. */
  function Modify(root: Val, path: seq<Step>, value: NewValue, op: UpdateFunc, fz: bool): Val
    requires Accepts(op, value)
  {
    if IsRemove(value) && MissingStep(root, path) then root
    else Rebuild(root, path, value, op, fz)
  }

  /** Reading after the downward pass's coercion reads what the path held. */
  lemma ReadCoerce(v: Val, s: Step)
    ensures Read(Coerce(v, s), s) == Read(v, s)
  {
  }

  /** Following one more step. */
  lemma {:induction false} GetSnoc(v: Val, path: seq<Step>, i: nat)
    requires i < |path|
    ensures Get(v, path[..i + 1]) == Read(Get(v, path[..i]), path[i])
    decreases i
  {
    if i > 0 {
      var rest := path[1..];
      assert path[..i + 1][1..] == rest[..i];
      assert path[..i][1..] == rest[..i - 1];
      GetSnoc(Read(v, path[0]), rest, i - 1);
    }
  }

  /** One level of `Rebuild` along `path`, seen from the node at depth `i`. */
  lemma RebuildAt(root: Val, path: seq<Step>, i: nat, value: NewValue, op: UpdateFunc, fz: bool)
    requires Accepts(op, value) && i < |path|
    ensures var p := Coerce(Get(root, path[..i]), path[i]);
      var nv := Rebuild(Get(root, path[..i + 1]), path[i + 1..], value, op, fz);
      Fits(p, path[i]) &&
      Rebuild(Get(root, path[..i]), path[i..], value, op, fz) ==
        if nv == Read(p, path[i]) then p else Write(p, path[i], nv, fz)
  {
    ReadCoerce(Get(root, path[..i]), path[i]);
    GetSnoc(root, path, i);
    assert path[i..][1..] == path[i + 1..];
  }

  /** `updateFunc(leafVal, value, updateParam)`, with the comparators run by their loop implementation. */
  method ApplyUpdate(op: UpdateFunc, leaf: Val, v: Val, fz: bool) returns (r: Val)
    requires OperandFits(op, v)
    ensures r == Apply(op, leaf, v, fz)
  {
    match op {
      case CmpAndSet => r := MergeImpl.CmpAndSetOrMerge(leaf, v, SetFlags, fz);
      case CmpAndMerge => r := MergeImpl.CmpAndSetOrMerge(leaf, v, MergeFlags, fz);
      case CmpAndDeepMerge => r := MergeImpl.CmpAndSetOrMerge(leaf, v, DeepMergeFlags, fz);
      case CmpAndApplyDiff => r := MergeImpl.CmpAndSetOrMerge(leaf, v, ApplyDiffFlags, fz);
      case _ => r := Apply(op, leaf, v, fz);
    }
  }

  /** One parent of the upward pass whose child changed: copy it, then splice, delete or store. */
  method WriteChild(parent: Val, key: Step, newVal: Val, fz: bool) returns (out: Val)
    requires Fits(parent, key)
    ensures out == Write(parent, key, newVal, fz)
  {
    if parent.Arr? {
      var c := ShallowCloneArray(parent.elems, |parent.elems|);
      assert c == Dense(parent.elems, |parent.elems|);
      if key.Idx? {
        if newVal == Remove {
          if key.index < |c| {
            c := c[..key.index] + c[key.index + 1..];
          }
        } else {
          c := AssignAt(c, key.index, newVal);
        }
      }
      out := Arr(c, fz);
    } else {
      var c := ShallowCloneObject(parent.fields);
      assert c == parent.fields;
      if newVal == Remove {
        c := c - {key.key};
      } else {
        c := c[key.key := newVal];
      }
      out := Obj(c, fz);
    }
  }

  /**
   * `modifyImmutableInternal`: the downward loop records each parent (creating missing
   * containers, or giving up on a removal), the leaf is computed, and the upward loop
   * writes each changed child into a copy of its parent.
   */
  method ModifyImmutableInternal(root: Val, path: seq<Step>, value: NewValue, op: UpdateFunc, fz: bool)
    returns (r: Val)
    requires Accepts(op, value)
    ensures r == Modify(root, path, value, op, fz)
  {
    var parents := new Val[|path|];
    var leafVal, complete := WalkDown(root, path, value, parents);
    if !complete {
      return root;
    }
    var newVal := UpdateLeaf(leafVal, value, op, fz);
    r := WalkUp(root, path, value, op, fz, parents, newVal);
  }

  /**
   * The downward loop: each parent is the node on the path, or the container installed in
   * its place; a removal that meets a missing container stops with `complete` false.
   */
  method WalkDown(root: Val, path: seq<Step>, value: NewValue, parents: array<Val>)
    returns (leafVal: Val, complete: bool)
    requires parents.Length == |path|
    modifies parents
    ensures !complete ==> IsRemove(value) && MissingStep(root, path)
    ensures complete ==> !(IsRemove(value) && MissingStep(root, path))
    ensures complete ==> leafVal == Get(root, path)
    ensures complete ==> forall j :: 0 <= j < |path| ==> parents[j] == Coerce(Get(root, path[..j]), path[j])
  {
    leafVal := root;
    var i := 0;
    while i < |path|
      invariant 0 <= i <= |path|
      invariant leafVal == Get(root, path[..i])
      invariant forall j :: 0 <= j < i ==> parents[j] == Coerce(Get(root, path[..j]), path[j])
      invariant IsRemove(value) ==> forall j :: 0 <= j < i ==> Fits(Get(root, path[..j]), path[j])
    {
      var key := path[i];
      var parent, found := StepParent(leafVal, key, IsRemove(value));
      if !found {
        // the target does not exist: leave every structure as it is
        assert !Fits(Get(root, path[..i]), path[i]);
        return root, false;
      }
      parents[i] := parent;
      ReadCoerce(Get(root, path[..i]), key);
      GetSnoc(root, path, i);
      leafVal := Read(parent, key);
      i := i + 1;
    }
    assert path[..|path|] == path;
    complete := true;
  }

  /**
   * One step of the downward loop: a numeric key needs an array and any other key a
   * container; a missing one is created, except by a removal, which reports it instead.
   */
  method StepParent(cur: Val, key: Step, remove: bool) returns (parent: Val, found: bool)
    ensures found <==> !remove || Fits(cur, key)
    ensures found ==> parent == Coerce(cur, key)
  {
    var curType := GetType(cur);
    parent := cur;
    found := true;
    if key.Idx? && curType != "array" {
      if remove {
        return cur, false;
      }
      parent := Arr([], false);
    } else if curType != "array" && curType != "object" {
      if remove {
        return cur, false;
      }
      parent := Obj(map[], false);
    }
  }

  /** The new leaf: a setter is applied first, `REMOVE` is kept, anything else goes through the update function. */
  method UpdateLeaf(leafVal: Val, value: NewValue, op: UpdateFunc, fz: bool) returns (newVal: Val)
    requires Accepts(op, value)
    ensures newVal == Leaf(leafVal, value, op, fz)
  {
    var v: Val;
    if value.Setter? {
      v := value.f(leafVal);
    } else {
      v := value.v;
    }
    if v == Remove {
      newVal := Remove;
    } else {
      newVal := ApplyUpdate(op, leafVal, v, fz);
    }
  }

  /** The upward loop: from the deepest parent to the root, copy a parent only when its child changed. */
  method WalkUp(root: Val, path: seq<Step>, value: NewValue, op: UpdateFunc, fz: bool, parents: array<Val>, leaf: Val)
    returns (r: Val)
    requires Accepts(op, value)
    requires parents.Length == |path|
    requires forall j :: 0 <= j < |path| ==> parents[j] == Coerce(Get(root, path[..j]), path[j])
    requires leaf == Leaf(Get(root, path), value, op, fz)
    ensures r == Rebuild(root, path, value, op, fz)
  {
    var newVal := leaf;
    var i := |path|;
    assert path[..|path|] == path;
    while i > 0
      invariant 0 <= i <= |path|
      invariant newVal == Rebuild(Get(root, path[..i]), path[i..], value, op, fz)
    {
      i := i - 1;
      var parent := parents[i];
      var key := path[i];
      RebuildAt(root, path, i, value, op, fz);
      if newVal != Read(parent, key) {
        parent := WriteChild(parent, key, newVal, fz);
      }
      newVal := parent;
    }
    assert path[..0] == [] && path[0..] == path;
    r := newVal;
  }
}
