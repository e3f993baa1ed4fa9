/**
 * What the entry points, `filterImmutable`, `mapImmutable` and `deepFreeze` promise,
 * proved about the functions that state them.
 */
module UtilsProps {
  import opened Wrappers
  import opened Values
  import opened Helpers
  import opened Cloning
  import opened Merging
  import opened MergeProps
  import opened LeafOps
  import opened Modifying
  import opened ModifyProps
  import opened Diffing
  import opened DiffProps
  import opened FunctionParse
  import opened FunctionParseProps
  import opened FunctionParseExamples
  import opened Paths
  import opened Utils
  import JsBuiltins

  // ---- normalizePath ----

  /**
   * An accessor whose returned expression is its first parameter followed by a rendered
   * path normalises to that path with each parameter reference replaced by its value.
   */
  lemma NormalizeAccessor(funcStr: string, root: string, segs: seq<Seg>, paramValues: seq<Step>)
    requires ParseParams(funcStr).Ok?
    requires var names := ParseParams(funcStr).value;
      |root| > 0 && '.' !in root && '[' !in root && JsBuiltins.Trim(root) == names[0] &&
      (forall k :: 0 <= k < |segs| ==> Renderable(segs[k], names[1..])) &&
      ReturnText(funcStr) == Ok(root + Render(segs, names[1..]))
    ensures NormalPath(Accessor(funcStr), paramValues) == Substitute(segs, paramValues)
  {
    ParseFunctionReadsPath(funcStr, root, segs);
  }

  /** A path of names and parameter references always normalises, one step per segment. */
  lemma SubstituteNamesAndParams(segs: seq<Seg>, paramValues: seq<Step>)
    requires forall i :: 0 <= i < |segs| ==> segs[i].Name? || segs[i].Param?
    ensures Substitute(segs, paramValues).Ok?
    ensures forall i :: 0 <= i < |segs| && segs[i].Name? ==> Substitute(segs, paramValues).value[i] == Key(segs[i].name)
    ensures forall i :: 0 <= i < |segs| && segs[i].Param? ==>
      Substitute(segs, paramValues).value[i] ==
        if segs[i].paramIdx < |paramValues| then paramValues[segs[i].paramIdx] else Key("undefined")
  {
  }

  /** `o.a[s].c` with `s` bound to a key, and with no value given for `s`. */
  lemma NormalizeParamAccessor(head: string, body: string, x: Step)
    requires head == "(o, s) =>" && body == " o.a[s].c"
    ensures NormalPath(Accessor(head + body), [x]) == Ok([Key("a"), x, Key("c")])
    ensures NormalPath(Accessor(head + body), []) == Ok([Key("a"), Key("undefined"), Key("c")])
  {
    ParamAccessor(head, body);
    NormalizeNameParamName(head + body, "a", "c", x);
  }

  lemma NormalizeNameParamName(funcStr: string, a: string, c: string, x: Step)
    requires ParseFunctionResult(funcStr) == Ok([Name(a), Param(0), Name(c)])
    ensures NormalPath(Accessor(funcStr), [x]) == Ok([Key(a), x, Key(c)])
    ensures NormalPath(Accessor(funcStr), []) == Ok([Key(a), Key("undefined"), Key(c)])
  {
    SubstituteBound(a, c, x);
    SubstituteUnbound(a, c);
  }

  lemma SubstituteBound(a: string, c: string, x: Step)
    ensures Substitute([Name(a), Param(0), Name(c)], [x]) == Ok([Key(a), x, Key(c)])
  {
    var segs := [Name(a), Param(0), Name(c)];
    SubstituteNamesAndParams(segs, [x]);
    var r := Substitute(segs, [x]).value;
    assert r == [r[0], r[1], r[2]];
  }

  lemma SubstituteUnbound(a: string, c: string)
    ensures Substitute([Name(a), Param(0), Name(c)], []) == Ok([Key(a), Key("undefined"), Key(c)])
  {
    var segs := [Name(a), Param(0), Name(c)];
    SubstituteNamesAndParams(segs, []);
    var r := Substitute(segs, []).value;
    assert r == [r[0], r[1], r[2]];
  }

  // ---- entry points ----

  predicate IsComparator(op: UpdateFunc) {
    op.CmpAndSet? || op.CmpAndMerge? || op.CmpAndDeepMerge? || op.CmpAndApplyDiff?
  }

  /** The one-argument form combines the value with the root itself, `REMOVE` included. */
  lemma OneArgumentForm(root: Val, v: Val, paramValues: seq<Step>, op: UpdateFunc, fz: bool)
    requires IsComparator(op)
    ensures UpdateAt(root, None, Literal(v), paramValues, op, fz) == Ok(Apply(op, root, v, fz))
  {
    RootLeaf(root, v, paramValues, op, fz);
    if v == Remove {
      match op
      case CmpAndSet => MergeResultType(root, v, SetFlags, fz);
      case CmpAndMerge => MergeResultType(root, v, MergeFlags, fz);
      case CmpAndDeepMerge => MergeResultType(root, v, DeepMergeFlags, fz);
      case CmpAndApplyDiff => MergeResultType(root, v, ApplyDiffFlags, fz);
    }
  }

  lemma RootLeaf(root: Val, v: Val, paramValues: seq<Step>, op: UpdateFunc, fz: bool)
    requires IsComparator(op)
    ensures UpdateAt(root, None, Literal(v), paramValues, op, fz) == Ok(Leaf(root, Literal(v), op, fz))
  {
    assert !MissingStep(root, []);
  }

  /** After a replace at an array path, the path leads to a tree deep-equal to the JSON value given. */
  lemma ReplaceThenGet(root: Val, path: seq<Step>, v: Val, paramValues: seq<Step>, fz: bool)
    requires NoKeyOnArray(root, path) && IsJson(v)
    ensures UpdateAt(root, Some(Steps(path)), Literal(v), paramValues, CmpAndSet, fz).Ok?
    ensures DeepEqual(Get(UpdateAt(root, Some(Steps(path)), Literal(v), paramValues, CmpAndSet, fz).value, path), v)
  {
    var leaf := Get(root, path);
    MergeResultType(leaf, v, SetFlags, fz);
    ModifyThenGet(root, path, Literal(v), CmpAndSet, fz);
    ReplaceYieldsSource(leaf, v, fz);
  }

  /** The round trip through the entry point: applying the patch between two different JSON trees to the old one gives the new one. */
  lemma ApplyDiffRoundTrip(a: Val, b: Val, fz: bool)
    requires IsJson(a) && IsJson(b) && a != b
    ensures UpdateAt(a, None, Literal(Diff(b, a, fz)), [], CmpAndApplyDiff, fz).Ok?
    ensures DeepEqual(UpdateAt(a, None, Literal(Diff(b, a, fz)), [], CmpAndApplyDiff, fz).value, b)
  {
    OneArgumentForm(a, Diff(b, a, fz), [], CmpAndApplyDiff, fz);
    DiffThenApply(a, b, fz);
  }

  /** Deleting a key of the root object gives a fresh object without it. */
  lemma DeleteKey(root: Val, k: string, paramValues: seq<Step>, fz: bool)
    requires root.Obj? && k in root.fields && root.fields[k] != Remove
    ensures UpdateAt(root, Some(Steps([Key(k)])), Literal(Remove), paramValues, CmpAndSet, fz) == Ok(Obj(root.fields - {k}, fz))
  {
    assert [Key(k)][1..] == [] && [Key(k)][..0] == [];
    assert !MissingStep(root, [Key(k)]);
    assert Rebuild(FieldOf(root.fields, k), [], Literal(Remove), CmpAndSet, fz) == Remove;
  }

  /** Deleting below a key the root object lacks returns the root itself. */
  lemma DeleteBelowMissingKey(root: Val, a: string, rest: seq<Step>, paramValues: seq<Step>, fz: bool)
    requires root.Obj? && a !in root.fields && |rest| > 0
    ensures UpdateAt(root, Some(Steps([Key(a)] + rest)), Literal(Remove), paramValues, CmpAndSet, fz) == Ok(root)
  {
    RemoveMissingIntermediate(root, a, rest, CmpAndSet, fz);
  }

  /** `incrementImmutable` adds to the number the path leads to, counting from 0 when there is none. */
  lemma IncrementAdds(root: Val, path: seq<Step>, amount: int, fz: bool)
    requires NoKeyOnArray(root, path)
    ensures Get(Modify(root, path, Literal(Num(amount)), Increment, fz), path) ==
      Num((if Get(root, path).Num? then Get(root, path).n else 0) + amount)
  {
    ModifyThenGet(root, path, Literal(Num(amount)), Increment, fz);
  }

  /** `arrayPushImmutable` appends copies of the values to the array the path leads to. */
  lemma PushAppends(root: Val, path: seq<Step>, values: seq<Val>, fz: bool)
    requires NoKeyOnArray(root, path) && Get(root, path).Arr?
    ensures var old_ := Get(root, path).elems;
      var r := Get(Modify(root, path, Literal(Arr(values, false)), Join(false), fz), path);
      && r.Arr? && |r.elems| == |old_| + |values|
      && r.elems[..|old_|] == old_
      && (forall i :: 0 <= i < |values| ==> r.elems[|old_| + i] == Clone(values[i], fz))
  {
    ModifyThenGet(root, path, Literal(Arr(values, false)), Join(false), fz);
    JoinAppends(Get(root, path), Arr(values, false), fz);
  }

  /** `arrayUnshiftImmutable` puts copies of the values in front of the array the path leads to. */
  lemma UnshiftPrepends(root: Val, path: seq<Step>, values: seq<Val>, fz: bool)
    requires NoKeyOnArray(root, path) && Get(root, path).Arr?
    ensures var old_ := Get(root, path).elems;
      var r := Get(Modify(root, path, Literal(Arr(values, false)), Join(true), fz), path);
      && r.Arr? && |r.elems| == |old_| + |values|
      && r.elems[|values|..] == old_
      && (forall i :: 0 <= i < |values| ==> r.elems[i] == Clone(values[i], fz))
  {
    ModifyThenGet(root, path, Literal(Arr(values, false)), Join(true), fz);
    JoinPrepends(Get(root, path), Arr(values, false), fz);
  }

  /** `arrayPopImmutable` and `arrayShiftImmutable` drop the last and the first element of a non-empty array. */
  lemma PopAndShiftDrop(root: Val, path: seq<Step>, fz: bool)
    requires NoKeyOnArray(root, path) && Get(root, path).Arr? && |Get(root, path).elems| > 0
    ensures var e := Get(root, path).elems;
      && Get(Modify(root, path, Literal(Null), SliceRange(0, Some(-1)), fz), path) == Arr(e[..|e| - 1], fz)
      && Get(Modify(root, path, Literal(Null), SliceRange(1, None), fz), path) == Arr(e[1..], fz)
  {
    ModifyThenGet(root, path, Literal(Null), SliceRange(0, Some(-1)), fz);
    ModifyThenGet(root, path, Literal(Null), SliceRange(1, None), fz);
    PopShiftShape(Get(root, path), fz);
  }

  /** `arraySpliceImmutable` within bounds: the elements before, copies of the values, the elements after the deleted ones. */
  lemma SpliceReplacesRange(root: Val, path: seq<Step>, index: nat, deleteCount: nat, values: seq<Val>, fz: bool)
    requires NoKeyOnArray(root, path) && Get(root, path).Arr?
    requires index + deleteCount <= |Get(root, path).elems|
    ensures var e := Get(root, path).elems;
      Get(Modify(root, path, Literal(Arr(values, false)), Splice(index, deleteCount), fz), path) ==
        Arr(e[..index] + Clone(Arr(values, false), fz).elems + e[index + deleteCount..], fz)
  {
    ModifyThenGet(root, path, Literal(Arr(values, false)), Splice(index, deleteCount), fz);
    SpliceShape(Get(root, path), Arr(values, false), index, deleteCount, fz);
  }

  // ---- filterImmutable ----

  /** Some element fails: the passing ones are fewer. */
  lemma {:induction false} PassingShorter(s: seq<Value>, keep: Val -> bool)
    requires !AllPass(s, keep)
    ensures |Passing(s, keep)| < |s|
    decreases |s|
  {
    var init := s[..|s| - 1];
    if keep(Norm(s[|s| - 1])) {
      assert !AllPass(init, keep) by {
        var i :| 0 <= i < |s| && !keep(Norm(s[i]));
        assert i < |s| - 1 && init[i] == s[i];
      }
      PassingShorter(init, keep);
    }
  }

  /** Every element passes: all of them are kept, in order. */
  lemma {:induction false} PassingAll(s: seq<Value>, keep: Val -> bool)
    requires AllPass(s, keep)
    ensures |Passing(s, keep)| == |s|
    ensures forall i :: 0 <= i < |s| ==> Passing(s, keep)[i] == Norm(s[i])
    decreases |s|
  {
    if s != [] {
      var init := s[..|s| - 1];
      assert AllPass(init, keep) by {
        forall i | 0 <= i < |init| ensures keep(Norm(init[i])) {
          assert init[i] == s[i];
        }
      }
      PassingAll(init, keep);
    }
  }

  /** An entry is kept exactly when it is one of the elements and passes. */
  lemma {:induction false} PassingMembers(s: seq<Value>, keep: Val -> bool, x: Val)
    ensures x in Passing(s, keep) <==> keep(x) && exists i :: 0 <= i < |s| && Norm(s[i]) == x
    decreases |s|
  {
    if s != [] {
      var init := s[..|s| - 1];
      PassingMembers(init, keep, x);
      if exists i :: 0 <= i < |init| && Norm(init[i]) == x {
        var i :| 0 <= i < |init| && Norm(init[i]) == x;
        assert Norm(s[i]) == x;
      }
      if exists i :: 0 <= i < |s| && Norm(s[i]) == x {
        var i :| 0 <= i < |s| && Norm(s[i]) == x;
        if i < |s| - 1 {
          assert Norm(init[i]) == x;
        }
      }
    }
  }

  /** Filtering keeps the order: the filter of a concatenation is the concatenation of the filters. */
  lemma {:induction false} PassingConcat(a: seq<Value>, b: seq<Value>, keep: Val -> bool)
    ensures Passing(a + b, keep) == Passing(a, keep) + Passing(b, keep)
    decreases |b|
  {
    if b == [] {
      assert a + b == a;
    } else {
      var init := b[..|b| - 1];
      assert (a + b)[..|a + b| - 1] == a + init;
      assert (a + b)[|a + b| - 1] == b[|b| - 1];
      PassingConcat(a, init, keep);
    }
  }

  /** The kept elements all pass. */
  lemma {:induction false} PassingPasses(s: seq<Value>, keep: Val -> bool)
    ensures AllPass(Passing(s, keep), keep)
    decreases |s|
  {
    if s != [] {
      PassingPasses(s[..|s| - 1], keep);
    }
  }

  /** `filterImmutable` returns its input itself exactly when every entry passes. */
  lemma FilterKeepsInput(val: Val, keep: Val -> bool, fz: bool)
    requires val.Arr? || val.Obj?
    ensures Filter(val, keep, fz) == val <==>
      if val.Arr? then AllPass(val.elems, keep) else AllFieldsPass(val.fields, keep)
  {
    if val.Arr? && !AllPass(val.elems, keep) {
      PassingShorter(val.elems, keep);
    }
    if val.Obj? && !AllFieldsPass(val.fields, keep) {
      var k :| k in val.fields && !keep(Norm(val.fields[k]));
      assert k !in Filter(val, keep, fz).fields;
    }
  }

  /** A filtered container holds only passing entries, so filtering it again returns it. */
  lemma FilterIdempotent(val: Val, keep: Val -> bool, fz: bool)
    requires val.Arr? || val.Obj?
    ensures Filter(Filter(val, keep, fz), keep, fz) == Filter(val, keep, fz)
  {
    if val.Arr? {
      PassingPasses(val.elems, keep);
    }
  }

  // ---- mapImmutable ----

  /** `mapImmutable` is a replace of `val` by the mapped container. */
  lemma MapIsReplace(val: Val, callback: (Val, Step) -> Val, fz: bool)
    requires val.Arr? || val.Obj?
    ensures MapResult(val, callback, fz) == Merge(val, Mapped(val, callback), SetFlags, fz)
  {
  }

  /** The callback gives back every entry it is handed. */
  predicate KeepsEntries(val: Val, callback: (Val, Step) -> Val)
    requires val.Arr? || val.Obj?
  {
    if val.Arr? then forall i :: 0 <= i < |val.elems| ==> callback(At(val.elems, i), Idx(i)) == At(val.elems, i)
    else forall k :: k in val.fields ==> callback(FieldOf(val.fields, k), Key(k)) == FieldOf(val.fields, k)
  }

  /** A callback that returns every entry unchanged makes `mapImmutable` return its input itself. */
  lemma MapIdentity(val: Val, callback: (Val, Step) -> Val, fz: bool)
    requires (val.Arr? || val.Obj?) && KeepsEntries(val, callback)
    ensures MapResult(val, callback, fz) == val
  {
    var out := Mapped(val, callback);
    if val.Arr? {
      forall i | 0 <= i < |val.elems| ensures DeepEqual(val.elems[i], out.elems[i]) {
        DeepEqualRefl(val.elems[i]);
        DeepEqualNorm(val.elems[i], val.elems[i]);
      }
    } else {
      forall k | k in val.fields ensures DeepEqual(val.fields[k], out.fields[k]) {
        DeepEqualRefl(val.fields[k]);
        DeepEqualNorm(val.fields[k], val.fields[k]);
      }
    }
    MergeDeepEqualKeepsDst(val, out, SetFlags, fz);
  }

  /** An array entry the callback returns unchanged stays the same entry of the result. */
  lemma MapKeepsElement(val: Val, callback: (Val, Step) -> Val, fz: bool, i: nat)
    requires val.Arr? && i < |val.elems|
    requires forall j :: 0 <= j < |val.elems| ==> callback(At(val.elems, j), Idx(j)) != Remove
    requires callback(At(val.elems, i), Idx(i)) == At(val.elems, i)
    ensures MapResult(val, callback, fz).Arr?
    ensures |MapResult(val, callback, fz).elems| == |val.elems|
    ensures At(MapResult(val, callback, fz).elems, i) == At(val.elems, i)
  {
    MergeArraysNoRemove(val, Mapped(val, callback), SetFlags, fz);
  }

  /** An object entry the callback returns unchanged stays the same entry of the result. */
  lemma MapKeepsField(val: Val, callback: (Val, Step) -> Val, fz: bool, k: string)
    requires val.Obj? && k in val.fields
    requires callback(FieldOf(val.fields, k), Key(k)) == FieldOf(val.fields, k)
    ensures MapResult(val, callback, fz).Obj?
    ensures FieldOf(MapResult(val, callback, fz).fields, k) == FieldOf(val.fields, k)
  {
    var out := Mapped(val, callback);
    var x := FieldOf(val.fields, k);
    MapIsReplace(val, callback, fz);
    MergeObjectsFields(val, out, SetFlags, fz);
    assert out.fields[k] == x;
    assert ChildAt(val, out, k, SetFlags, fz) == x by {
      DeepEqualRefl(x);
      MergeDeepEqualKeepsDst(x, x, SetFlags.Nested(), fz);
    }
  }

  /** When the callback returns JSON values, the result is deep-equal to the mapped container. */
  lemma MapYieldsMapped(val: Val, callback: (Val, Step) -> Val, fz: bool)
    requires (val.Arr? || val.Obj?) && IsJson(Mapped(val, callback))
    ensures DeepEqual(MapResult(val, callback, fz), Mapped(val, callback))
  {
    MapIsReplace(val, callback, fz);
    ReplaceYieldsSource(val, Mapped(val, callback), fz);
  }

  // ---- deepFreeze ----

  lemma {:induction false} FreezeDeepFrozen(v: Value)
    ensures DeepFrozen(Freeze(v))
    decreases v
  {
    match v
    case Arr(e, _) =>
      forall i | 0 <= i < |e| ensures DeepFrozen(Freeze(v).elems[i]) { FreezeDeepFrozen(e[i]); }
    case Obj(m, _) =>
      forall k | k in m ensures DeepFrozen(Freeze(v).fields[k]) { FreezeDeepFrozen(m[k]); }
    case _ =>
  }

  /** Freezing changes no content. */
  lemma {:induction false} FreezeDeepEqual(v: Value)
    ensures DeepEqual(Freeze(v), v)
    decreases v
  {
    match v
    case Arr(e, _) =>
      forall i | 0 <= i < |e| ensures DeepEqual(Freeze(v).elems[i], e[i]) { FreezeDeepEqual(e[i]); }
    case Obj(m, _) =>
      forall k | k in m ensures DeepEqual(Freeze(v).fields[k], m[k]) { FreezeDeepEqual(m[k]); }
    case _ =>
      DeepEqualRefl(v);
  }

  /** `deepFreeze` leaves a tree as it is exactly when it is already deep-frozen. */
  lemma {:induction false} FreezeFixed(v: Value)
    ensures Freeze(v) == v <==> DeepFrozen(v)
    decreases v
  {
    FreezeDeepFrozen(v);
    if DeepFrozen(v) {
      match v
      case Arr(e, _) =>
        forall i | 0 <= i < |e| ensures Freeze(e[i]) == e[i] { FreezeFixed(e[i]); }
        assert Freeze(v).elems == e;
      case Obj(m, _) =>
        forall k | k in m ensures Freeze(m[k]) == m[k] { FreezeFixed(m[k]); }
        assert Freeze(v).fields == m;
      case _ =>
    }
  }
}
