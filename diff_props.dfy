/**
 * What `diffImmutable` promises: applying the patch to the old tree with
 * `applyDiffImmutable` (a combine under the apply-diff flags) gives a tree deep-equal to
 * the new one; the patch has an entry exactly where the trees differ; with freezing on
 * a deep-frozen new tree gives a deep-frozen patch.
 */
module DiffProps {
  import opened Values
  import opened Helpers
  import opened Merging
  import opened MergeProps
  import opened Diffing
  import JsBuiltins

  /** A value deep-equal to a JSON tree is neither `REMOVE` nor `undefined`. */
  lemma DeepEqualJson(x: Value, y: Value)
    requires IsJson(y) && DeepEqual(x, y)
    ensures x != Remove && Norm(x) != Undef
  {
  }

  /** The entries from `i` on that are kept, when exactly those before `n` are kept. */
  lemma {:induction false} KeptPrefix(d: seq<Value>, e: seq<Val>, i: nat, n: nat)
    requires i <= |e| && n <= |e|
    requires forall j :: i <= j < n ==> !Dropped(d, e, j)
    requires forall j :: n <= j < |e| ==> Dropped(d, e, j)
    ensures KeptFrom(d, e, i) == if i <= n then e[i..n] else []
    decreases |e| - i
  {
    if i < |e| {
      KeptPrefix(d, e, i + 1, n);
      var rest := KeptFrom(d, e, i + 1);
      if i < n {
        assert !Dropped(d, e, i);
        assert KeptFrom(d, e, i) == [e[i]] + rest;
        assert e[i..n] == [e[i]] + e[i + 1..n];
      } else {
        assert Dropped(d, e, i);
        assert KeptFrom(d, e, i) == [] + rest;
      }
    }
  }

  /** Round trip: the patch between two different JSON trees turns the old tree into one deep-equal to the new. */
  lemma DiffThenApply(a: Val, b: Val, fz: bool)
    requires IsJson(a) && IsJson(b) && a != b
    ensures DeepEqual(Merge(a, Diff(b, a, fz), ApplyDiffFlags, fz), b)
  {
    RecurThenApply(a, b, fz);
  }

  /**
   * Identical trees give the patch `undefined`, and applying that patch replaces the tree
   * by `undefined`: the round trip only holds for trees that differ.
   */
  lemma IdenticalGivesUndefined(a: Val, fz: bool)
    ensures Diff(a, a, fz) == Undef
    ensures a != Undef ==> Merge(a, Diff(a, a, fz), ApplyDiffFlags, fz) == Undef
  {
  }

  lemma {:induction false} RecurThenApply(a: Val, b: Val, fz: bool)
    requires IsJson(a) && IsJson(b) && a != b
    ensures DeepEqual(Merge(a, DiffRecur(b, a, fz), ApplyDiffFlags, fz), b)
    decreases b, 2
  {
    if !SameType(b, a) {
      MergeMismatch(a, b, ApplyDiffFlags, fz);
    } else if b.Obj? {
      ObjectsThenApply(a, b, fz);
    } else if b.Arr? {
      ArraysThenApply(a, b, fz);
    } else {
      DeepEqualRefl(b);
    }
  }

  /** Applying an array patch, index by index: a kept index ends deep-equal to the new element, and an index past the new end becomes `REMOVE`. */
  lemma {:induction false} ArrayEntryThenApply(a: Val, b: Val, fz: bool, i: nat)
    requires IsJson(a) && IsJson(b) && a.Arr? && b.Arr?
    requires i < JsBuiltins.Max(|a.elems|, |b.elems|)
    ensures var e := ArrayEntries(a.elems, DiffRecur(b, a, fz), ApplyDiffFlags, fz);
      && |e| == JsBuiltins.Max(|a.elems|, |b.elems|)
      && (i < |b.elems| ==> DeepEqual(e[i], b.elems[i]) && e[i] != Remove)
      && (i >= |b.elems| ==> e[i] == Remove)
    decreases b, 0
  {
    var d := a.elems;
    if i >= |b.elems| || i >= |d| || At(b.elems, i) == At(d, i) {
      PlainEntryThenApply(a, b, fz, i);
    } else {
      var E := DiffEntries(b, a, fz);
      var e := ArrayEntries(d, DiffRecur(b, a, fz), ApplyDiffFlags, fz);
      PatchEntry(a, b, fz, i);
      assert E[i] == Entry(b, a, i, fz) == DiffRecur(b.elems[i], d[i], fz);
      RecurThenApply(d[i], b.elems[i], fz);
      DeepEqualJson(e[i], b.elems[i]);
    }
  }

  /** The indices whose patch entry needs no sub-patch: past either end, or holding equal elements. */
  lemma PlainEntryThenApply(a: Val, b: Val, fz: bool, i: nat)
    requires IsJson(a) && IsJson(b) && a.Arr? && b.Arr?
    requires i < JsBuiltins.Max(|a.elems|, |b.elems|)
    requires i >= |b.elems| || i >= |a.elems| || At(b.elems, i) == At(a.elems, i)
    ensures var e := ArrayEntries(a.elems, DiffRecur(b, a, fz), ApplyDiffFlags, fz);
      && |e| == JsBuiltins.Max(|a.elems|, |b.elems|)
      && (i < |b.elems| ==> DeepEqual(e[i], b.elems[i]) && e[i] != Remove)
      && (i >= |b.elems| ==> e[i] == Remove)
  {
    var d := a.elems;
    var E := DiffEntries(b, a, fz);
    var e := ArrayEntries(d, DiffRecur(b, a, fz), ApplyDiffFlags, fz);
    PatchEntry(a, b, fz, i);
    assert E[i] == Entry(b, a, i, fz);
    if i >= |b.elems| {
      MergeResultType(At(d, i), Remove, ApplyDiffFlags, fz);
    } else if i >= |d| {
      MergeMismatch(Undef, b.elems[i], ApplyDiffFlags, fz);
      DeepEqualJson(e[i], b.elems[i]);
    } else {
      assert e[i] == d[i] == b.elems[i];
      DeepEqualRefl(b.elems[i]);
    }
  }

  /** Entry `i` of the applied patch: the old element where the patch has a hole, else the patch entry combined into it. */
  lemma PatchEntry(a: Val, b: Val, fz: bool, i: nat)
    requires a.Arr? && b.Arr? && i < JsBuiltins.Max(|a.elems|, |b.elems|)
    ensures var E := DiffEntries(b, a, fz);
      var e := ArrayEntries(a.elems, DiffRecur(b, a, fz), ApplyDiffFlags, fz);
      && |e| == JsBuiltins.Max(|a.elems|, |b.elems|)
      && e[i] == if E[i] == Hole then At(a.elems, i) else Merge(At(a.elems, i), E[i], ApplyDiffFlags, fz)
  {
    ArrayPatchLength(a, b, fz);
    var E := DiffEntries(b, a, fz);
    var T := E[..WrittenLength(E, |E|)];
    if i < |T| {
      assert T[i] == E[i];
    }
  }

  /** The array patch keeps every entry up to the longer length, unless both arrays have the same length. */
  lemma ArrayPatchLength(a: Val, b: Val, fz: bool)
    requires a.Arr? && b.Arr?
    ensures var E := DiffEntries(b, a, fz);
      && DiffRecur(b, a, fz) == Arr(E[..WrittenLength(E, |E|)], fz)
      && (WrittenLength(E, |E|) == |E| || |b.elems| == |a.elems|)
  {
    var E := DiffEntries(b, a, fz);
    if |b.elems| > |a.elems| {
      assert E[|E| - 1] == At(b.elems, |E| - 1);
    } else if |b.elems| < |a.elems| {
      assert E[|E| - 1] == Remove;
    }
  }

  lemma {:induction false} ArraysThenApply(a: Val, b: Val, fz: bool)
    requires IsJson(a) && IsJson(b) && a.Arr? && b.Arr?
    ensures DeepEqual(Merge(a, DiffRecur(b, a, fz), ApplyDiffFlags, fz), b)
    decreases b, 1
  {
    var d := a.elems;
    var n := |b.elems|;
    var D := DiffRecur(b, a, fz);
    var e := ArrayEntries(d, D, ApplyDiffFlags, fz);
    MergeArraysAlways(a, D, ApplyDiffFlags, fz);
    forall i | 0 <= i < |e|
      ensures i < n ==> DeepEqual(e[i], b.elems[i]) && !Dropped(d, e, i)
      ensures i >= n ==> Dropped(d, e, i)
    {
      ArrayEntryThenApply(a, b, fz, i);
    }
    KeptEntriesDeepEqual(a, e, b, fz);
  }

  /** Combining entries of which exactly the first `|b.elems|` are kept, each deep-equal to the element of `b` at its index. */
  lemma KeptEntriesDeepEqual(dst: Val, e: seq<Val>, b: Val, fz: bool)
    requires dst.Arr? && b.Arr? && IsJson(dst) && |b.elems| <= |e|
    requires forall i :: 0 <= i < |b.elems| ==> DeepEqual(e[i], b.elems[i]) && !Dropped(dst.elems, e, i)
    requires forall i :: |b.elems| <= i < |e| ==> Dropped(dst.elems, e, i)
    ensures DeepEqual(CombineEntries(dst, e, fz), b)
  {
    var d := dst.elems;
    var n := |b.elems|;
    KeptPrefix(d, e, 0, n);
    if !ArrayChanged(d, e) {
      assert |d| > n ==> Dropped(d, e, |d| - 1);
      forall i | 0 <= i < n ensures DeepEqual(d[i], b.elems[i]) {
        assert e[i] == At(d, i) == d[i];
      }
    }
  }

  /** Applying an object patch, key by key. */
  lemma {:induction false} FieldThenApply(a: Val, b: Val, fz: bool, k: string)
    requires IsJson(a) && IsJson(b) && a.Obj? && b.Obj?
    requires k in b.fields || k in a.fields
    ensures var F := DiffFields(b, a, fz);
      && (k in F ==> var c := Merge(FieldOf(a.fields, k), F[k], ApplyDiffFlags, fz);
            if k in b.fields then c != Remove && DeepEqual(c, b.fields[k]) && (c == FieldOf(a.fields, k) ==> k in a.fields)
            else c == Remove && FieldOf(a.fields, k) != Remove)
      && (k !in F ==> k in a.fields && k in b.fields && a.fields[k] == b.fields[k])
    decreases b, 0
  {
    var F := DiffFields(b, a, fz);
    if k in F {
      var c := Merge(FieldOf(a.fields, k), F[k], ApplyDiffFlags, fz);
      if k !in a.fields {
        MergeMismatch(Undef, b.fields[k], ApplyDiffFlags, fz);
        DeepEqualJson(c, b.fields[k]);
      } else if k !in b.fields {
        MergeResultType(a.fields[k], Remove, ApplyDiffFlags, fz);
      } else {
        RecurThenApply(a.fields[k], b.fields[k], fz);
        DeepEqualJson(c, b.fields[k]);
      }
    }
  }

  lemma {:induction false} ObjectsThenApply(a: Val, b: Val, fz: bool)
    requires IsJson(a) && IsJson(b) && a.Obj? && b.Obj?
    ensures DeepEqual(Merge(a, DiffRecur(b, a, fz), ApplyDiffFlags, fz), b)
    decreases b, 1
  {
    var d := a.fields;
    var F := DiffFields(b, a, fz);
    var D := DiffRecur(b, a, fz);
    assert D == Obj(F, fz);
    var nv := FieldValues(d, D, ApplyDiffFlags, fz);
    MergeObjectsAlways(a, D, ApplyDiffFlags, fz);
    var r := CombineFields(a, F, nv, ApplyDiffFlags, fz);
    CombineFieldsKeys(a, F, nv, ApplyDiffFlags, fz);
    CombineFieldsRead(a, F, nv, ApplyDiffFlags, fz);
    forall k | k in b.fields || k in d
      ensures k in r.fields <==> k in b.fields
      ensures k in b.fields ==> DeepEqual(r.fields[k], b.fields[k])
    {
      FieldThenApply(a, b, fz, k);
      if k in b.fields && k !in F {
        DeepEqualRefl(b.fields[k]);
      }
    }
    assert r.fields.Keys == b.fields.Keys;
  }

  /** The array patch has an element exactly at the indices where the arrays differ, past the new end included. */
  lemma DiffArrayIndices(b: Val, a: Val, fz: bool, i: nat)
    requires b.Arr? && a.Arr?
    ensures DiffRecur(b, a, fz).Arr?
    ensures HasIndex(DiffRecur(b, a, fz).elems, i) <==>
      (i < |b.elems| && (i >= |a.elems| || At(b.elems, i) != At(a.elems, i))) || (|b.elems| <= i < |a.elems|)
    ensures |b.elems| <= i < |a.elems| ==> DiffRecur(b, a, fz).elems[i] == Remove
    ensures |a.elems| <= i < |b.elems| ==> DiffRecur(b, a, fz).elems[i] == At(b.elems, i)
  {
    var E := DiffEntries(b, a, fz);
    var w := WrittenLength(E, |E|);
    if i < |E| {
      assert E[i] == Entry(b, a, i, fz);
    }
  }

  /** The object patch has a key exactly where the objects differ; `REMOVE` marks a key the new object lacks. */
  lemma DiffObjectKeys(b: Val, a: Val, fz: bool, k: string)
    requires b.Obj? && a.Obj? && IsJson(b)
    ensures DiffRecur(b, a, fz).Obj?
    ensures k in DiffRecur(b, a, fz).fields <==>
      (k in b.fields && (k !in a.fields || Norm(b.fields[k]) != Norm(a.fields[k]))) || (k in a.fields && k !in b.fields)
    ensures k in DiffRecur(b, a, fz).fields ==>
      (DiffRecur(b, a, fz).fields[k] == Remove <==> k !in b.fields)
  {
    var F := DiffFields(b, a, fz);
    if k in F && k in b.fields {
      if k in a.fields {
        var sub := DiffRecur(b.fields[k], a.fields[k], fz);
        assert IsJson(b.fields[k]);
        assert F[k] == sub;
        if !SameType(b.fields[k], a.fields[k]) {
          assert sub == b.fields[k];
        }
      }
    }
  }

  /** With freezing on, a deep-frozen new tree gives a deep-frozen patch. */
  lemma {:induction false} DiffKeepsDeepFrozen(b: Value, a: Value)
    requires DeepFrozen(b)
    ensures DeepFrozen(DiffRecur(b, a, true))
    decreases b
  {
    var x := Norm(b);
    var y := Norm(a);
    if !SameType(x, y) {
    } else if x.Obj? {
      var F := DiffFields(b, a, true);
      forall k | k in F ensures DeepFrozen(F[k]) {
        if k in b.fields && k in a.fields {
          DiffKeepsDeepFrozen(b.fields[k], a.fields[k]);
        }
      }
    } else if x.Arr? {
      var E := DiffEntries(b, a, true);
      var T := E[..WrittenLength(E, |E|)];
      forall i | 0 <= i < |T| ensures DeepFrozen(T[i]) {
        assert T[i] == Entry(b, a, i, true);
        if i < |b.elems| && i < |a.elems| && At(b.elems, i) != At(a.elems, i) {
          DiffKeepsDeepFrozen(b.elems[i], a.elems[i]);
        }
      }
    }
  }

  /**
   * One primitive changed (`ka`), one key gone (`kb`), one kept (`kc`) and one added
   * (`kd`): the patch holds the new value, `REMOVE` and the added value.
   */
  lemma ObjectPatch(ka: string, kb: string, kc: string, kd: string, x: Val, y: Val, z: Val, u: Val, w: Val, fz: bool)
    requires ka != kb && ka != kc && ka != kd && kb != kc && kb != kd && kc != kd
    requires x.Num? && y.Num? && x != y
    ensures Diff(Obj(map[ka := y, kc := u, kd := w], fz), Obj(map[ka := x, kb := z, kc := u], fz), fz)
      == Obj(map[ka := y, kb := Remove, kd := w], fz)
  {
    var b := Obj(map[ka := y, kc := u, kd := w], fz);
    var a := Obj(map[ka := x, kb := z, kc := u], fz);
    var F := DiffFields(b, a, fz);
    var expected := map[ka := y, kb := Remove, kd := w];
    forall k ensures k in F <==> k in expected {
      assert k in F <==> Listed(b.fields, a.fields, k);
    }
    assert F[ka] == DiffRecur(y, x, fz) == y;
    assert F[kb] == Remove;
    assert F[kd] == w;
    assert F == expected;
  }

  /** `{a: 1, b: 2, c: 'foo'}` to `{a: 2, c: 'foo', d: 'goo'}`: `{a: 2, b: REMOVE, d: 'goo'}`. */
  lemma ObjectExample()
    ensures Diff(Obj(map["a" := Num(2), "c" := Str("foo"), "d" := Str("goo")], true),
                 Obj(map["a" := Num(1), "b" := Num(2), "c" := Str("foo")], true), true)
      == Obj(map["a" := Num(2), "b" := Remove, "d" := Str("goo")], true)
  {
    ObjectPatch("a", "b", "c", "d", Num(1), Num(2), Num(2), Str("foo"), Str("goo"), true);
  }

  /**
   * Two equal-length prefixes that differ at one primitive, and an old array one longer:
   * holes where the elements agree, the new value where they differ, `REMOVE` at the end.
   */
  lemma ArrayPatch(p: Val, q: Val, q0: Val, r: Val, t: Val, z: Val, fz: bool)
    requires q.Num? && q0.Num? && q != q0
    ensures Diff(Arr([p, q, r, t], fz), Arr([p, q0, r, t, z], fz), fz) == Arr([Hole, q, Hole, Hole, Remove], fz)
  {
    var b := Arr([p, q, r, t], fz);
    var a := Arr([p, q0, r, t, z], fz);
    var E := DiffEntries(b, a, fz);
    ArrayPatchEntries(b, a, p, q, q0, r, t, z, fz);
    assert E[4] == Remove;
    assert WrittenLength(E, 5) == 5;
    assert TrimHoles(E) == [Hole, q, Hole, Hole, Remove];
    assert b != a;
    assert DiffRecur(b, a, fz) == Arr(TrimHoles(E), fz);
  }

  lemma ArrayPatchEntries(b: Val, a: Val, p: Val, q: Val, q0: Val, r: Val, t: Val, z: Val, fz: bool)
    requires q.Num? && q0.Num? && q != q0
    requires b == Arr([p, q, r, t], fz) && a == Arr([p, q0, r, t, z], fz)
    ensures DiffEntries(b, a, fz) == [Hole, q, Hole, Hole, Remove]
  {
    var E := DiffEntries(b, a, fz);
    assert E[0] == Entry(b, a, 0, fz) == Hole;
    assert E[1] == Entry(b, a, 1, fz) == DiffRecur(q, q0, fz) == q;
    assert E[2] == Entry(b, a, 2, fz) == Hole;
    assert E[3] == Entry(b, a, 3, fz) == Hole;
    assert E[4] == Entry(b, a, 4, fz) == Remove;
  }

  /** `[1, 20, 10, 'boo', 'foo']` to `[1, 15, 10, 'boo']`: `[hole, 15, hole, hole, REMOVE]`, frozen. */
  lemma ArrayExample()
    ensures Diff(Arr([Num(1), Num(15), Num(10), Str("boo")], true),
                 Arr([Num(1), Num(20), Num(10), Str("boo"), Str("foo")], true), true)
      == Arr([Hole, Num(15), Hole, Hole, Remove], true)
  {
    ArrayPatch(Num(1), Num(15), Num(20), Num(10), Str("boo"), Str("foo"), true);
  }
}
