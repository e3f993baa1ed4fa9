/**
 * What `cmpAndSetOrMerge` promises, proved about the function Merge: identical or
 * deep-equal inputs give the destination itself, the result has the source's type, a
 * replace yields a tree deep-equal to the source, arrays and objects are combined key by
 * key with `REMOVE` deleting, nested levels follow the deep flags, and with freezing on
 * a frozen destination stays frozen.
 */
module MergeProps {
  import opened Values
  import opened Helpers
  import opened Cloning
  import opened Merging

  /** A container holding no `REMOVE` at its top level. */
  predicate NoTopRemove(v: Value) {
    match v
    case Arr(e, _) => forall i :: 0 <= i < |e| ==> e[i] != Remove
    case Obj(m, _) => forall k :: k in m ==> m[k] != Remove
    case _ => true
  }

  /** The combined child stored under source key `k`. */
  function ChildAt(dst: Val, src: Value, k: string, f: Flags, fz: bool): Val
    requires dst.Obj? && src.Obj? && k in src.fields
  {
    Merge(FieldOf(dst.fields, k), src.fields[k], f.Nested(), fz)
  }

  /** Two arrays that are not identical are combined entry by entry. */
  lemma MergeUnfoldArrays(dst: Val, src: Value, f: Flags, fz: bool)
    requires dst.Arr? && src.Arr?
    ensures Merge(dst, src, f, fz) ==
      if dst == src then dst else CombineEntries(dst, ArrayEntries(dst.elems, src, f, fz), fz)
  {
  }

  /** Two objects that are not identical are combined key by key. */
  lemma MergeUnfoldObjects(dst: Val, src: Value, f: Flags, fz: bool)
    requires dst.Obj? && src.Obj?
    ensures Merge(dst, src, f, fz) ==
      if dst == src then dst else CombineFields(dst, src.fields, FieldValues(dst.fields, src, f, fz), f, fz)
  {
  }

  /** Two arrays are always combined entry by entry: for identical ones that gives the destination too. */
  lemma MergeArraysAlways(dst: Val, src: Value, f: Flags, fz: bool)
    requires dst.Arr? && src.Arr?
    ensures Merge(dst, src, f, fz) == CombineEntries(dst, ArrayEntries(dst.elems, src, f, fz), fz)
  {
    MergeUnfoldArrays(dst, src, f, fz);
    if dst == src {
      var d := dst.elems;
      var e := ArrayEntries(d, src, f, fz);
      forall i | 0 <= i < |e| ensures e[i] == At(d, i) {
        if !Skipped(src.elems, i, f) {
          assert Norm(src.elems[i]) == At(d, i);
          assert Merge(At(d, i), src.elems[i], f.Nested(), fz) == At(d, i);
          assert e[i] == Merge(At(d, i), src.elems[i], f.Nested(), fz);
        }
      }
    }
  }

  /** Two objects are always combined key by key: for identical ones that gives the destination too. */
  lemma MergeObjectsAlways(dst: Val, src: Value, f: Flags, fz: bool)
    requires dst.Obj? && src.Obj?
    ensures Merge(dst, src, f, fz) == CombineFields(dst, src.fields, FieldValues(dst.fields, src, f, fz), f, fz)
  {
    MergeUnfoldObjects(dst, src, f, fz);
    if dst == src {
      var d := dst.fields;
      var nv := FieldValues(d, src, f, fz);
      forall k | k in nv ensures !Writes(d, nv, k) {
        assert Norm(src.fields[k]) == FieldOf(d, k);
        assert Merge(FieldOf(d, k), src.fields[k], f.Nested(), fz) == FieldOf(d, k);
      }
      assert DroppedKeys(d, src.fields, f) == {};
    }
  }

  /** A source key is present in the combined object exactly when it is written with a value other than `REMOVE`, or is not written and was there. */
  lemma CombineFieldsKeys(dst: Val, s: map<string, Value>, nv: map<string, Val>, f: Flags, fz: bool)
    requires dst.Obj? && nv.Keys == s.Keys
    ensures CombineFields(dst, s, nv, f, fz).Obj?
    ensures forall k :: k in s ==>
      (k in CombineFields(dst, s, nv, f, fz).fields <==>
        if Writes(dst.fields, nv, k) then nv[k] != Remove else k in dst.fields)
    ensures forall k :: k in s && k in CombineFields(dst, s, nv, f, fz).fields ==>
      CombineFields(dst, s, nv, f, fz).fields[k] == if Writes(dst.fields, nv, k) then nv[k] else dst.fields[k]
  {
    var d := dst.fields;
    if !ObjectChanged(d, s, nv, f) {
      assert forall k :: k in nv ==> !Writes(d, nv, k);
    }
  }

  /**
   * The result has the source's type; in particular it is `REMOVE` exactly when the
   * source is and `undefined` exactly when the source is (or is a hole).
   */
  lemma MergeResultType(dst: Val, src: Value, f: Flags, fz: bool)
    ensures GetType(Merge(dst, src, f, fz)) == GetType(src)
    ensures Merge(dst, src, f, fz) == Remove <==> Norm(src) == Remove
    ensures Merge(dst, src, f, fz) == Undef <==> Norm(src) == Undef
    ensures IsContainer(Merge(dst, src, f, fz)) <==> IsContainer(src)
  {
    MergeKind(dst, src, f, fz);
  }

  /** A primitive source is returned as it is; a container source gives a container of its kind. */
  lemma MergeKind(dst: Val, src: Value, f: Flags, fz: bool)
    ensures !IsContainer(Norm(src)) ==> Merge(dst, src, f, fz) == Norm(src)
    ensures IsContainer(Norm(src)) ==> Merge(dst, src, f, fz).Arr? == src.Arr? && Merge(dst, src, f, fz).Obj? == src.Obj?
  {
    var s := Norm(src);
    if dst == s {
    } else if !SameType(dst, s) {
      if IsContainer(s) {
        CloneDeepEqual(s, fz);
      }
    } else if s.Arr? {
      MergeUnfoldArrays(dst, src, f, fz);
    } else if s.Obj? {
      MergeUnfoldObjects(dst, src, f, fz);
    }
  }

  /** Inputs of different types: a primitive source is returned, a container source is copied deeply. */
  lemma MergeMismatch(dst: Val, src: Value, f: Flags, fz: bool)
    requires !SameType(dst, src)
    ensures IsContainer(src) ==> Merge(dst, src, f, fz) == Clone(src, fz)
    ensures !IsContainer(src) ==> Merge(dst, src, f, fz) == Norm(src)
    ensures DeepEqual(Merge(dst, src, f, fz), src)
  {
    CloneDeepEqual(src, fz);
    DeepEqualRefl(src);
  }

  /** A source deep-equal to the destination changes nothing: the destination itself comes back. */
  lemma {:induction false} MergeDeepEqualKeepsDst(dst: Val, src: Value, f: Flags, fz: bool)
    requires DeepEqual(dst, src)
    ensures Merge(dst, src, f, fz) == dst
    decreases src
  {
    var s := Norm(src);
    if dst == s {
    } else if dst.Arr? && src.Arr? {
      var d := dst.elems;
      var e := ArrayEntries(d, src, f, fz);
      forall i | 0 <= i < |e| ensures e[i] == At(d, i) {
        if !Skipped(src.elems, i, f) {
          DeepEqualNorm(d[i], src.elems[i]);
          MergeDeepEqualKeepsDst(At(d, i), src.elems[i], f.Nested(), fz);
        }
      }
      assert !ArrayChanged(d, e);
    } else if dst.Obj? && src.Obj? {
      var d := dst.fields;
      var nv := FieldValues(d, src, f, fz);
      forall k | k in nv ensures !Writes(d, nv, k) {
        DeepEqualNorm(d[k], src.fields[k]);
        MergeDeepEqualKeepsDst(FieldOf(d, k), src.fields[k], f.Nested(), fz);
      }
      assert DroppedKeys(d, src.fields, f) == {};
      assert !ObjectChanged(d, src.fields, nv, f);
    }
  }

  /** No entry of a visited index is spliced out: the kept entries are all the entries. */
  lemma {:induction false} KeptAll(d: seq<Value>, e: seq<Val>, i: nat)
    requires i <= |e|
    requires forall j :: i <= j < |e| ==> !Dropped(d, e, j)
    ensures KeptFrom(d, e, i) == e[i..]
    decreases |e| - i
  {
    if i < |e| {
      KeptAll(d, e, i + 1);
      assert e[i..] == [e[i]] + e[i + 1..];
    }
  }

  /** Every kept entry is an entry of an index at or after `i` that was not spliced out. */
  lemma {:induction false} KeptFromMember(d: seq<Value>, e: seq<Val>, i: nat, x: Val)
    requires i <= |e|
    requires x in KeptFrom(d, e, i)
    ensures exists j :: i <= j < |e| && e[j] == x && !Dropped(d, e, j)
    decreases |e| - i
  {
    if !Dropped(d, e, i) && x == e[i] {
    } else {
      KeptFromMember(d, e, i + 1, x);
    }
  }

  /**
   * A visited index whose entry is spliced out: the source holds `REMOVE` there and is
   * not skipped, and the destination does not already hold `REMOVE` at that index.
   */
  predicate Spliced(d: seq<Value>, s: seq<Value>, i: nat, f: Flags) {
    !Skipped(s, i, f) && i < |s| && Norm(s[i]) == Remove && At(d, i) != Remove
  }

  /** The visited indices from `i` below `n` that survive the splicing, in increasing order. */
  function LiveFrom(d: seq<Value>, s: seq<Value>, f: Flags, i: nat, n: nat): (live: seq<nat>)
    requires i <= n
    ensures |live| <= n - i
    decreases n - i
  {
    if i == n then []
    else (if Spliced(d, s, i, f) then [] else [i]) + LiveFrom(d, s, f, i + 1, n)
  }

  /** The indices of the destination array whose entries the merged array keeps. */
  function Live(d: seq<Value>, s: seq<Value>, f: Flags): seq<nat> {
    LiveFrom(d, s, f, 0, ArrayLength(d, s, f))
  }

  /** The surviving indices are increasing and are exactly the visited indices that are not spliced out. */
  lemma {:induction false} LiveFromSpec(d: seq<Value>, s: seq<Value>, f: Flags, i: nat, n: nat)
    requires i <= n
    ensures forall j :: 0 <= j < |LiveFrom(d, s, f, i, n)| ==> i <= LiveFrom(d, s, f, i, n)[j] < n
    ensures forall j, k :: 0 <= j < k < |LiveFrom(d, s, f, i, n)| ==>
      LiveFrom(d, s, f, i, n)[j] < LiveFrom(d, s, f, i, n)[k]
    ensures forall x :: i <= x < n ==> (x in LiveFrom(d, s, f, i, n) <==> !Spliced(d, s, x, f))
    decreases n - i
  {
    if i < n {
      LiveFromSpec(d, s, f, i + 1, n);
    }
  }

  /** The kept entries are the entries at the surviving indices, once removals are matched with splices. */
  lemma {:induction false} KeptAtLive(d: seq<Value>, s: seq<Value>, f: Flags, e: seq<Val>, i: nat)
    requires i <= |e|
    requires forall j :: i <= j < |e| ==> (Dropped(d, e, j) <==> Spliced(d, s, j, f))
    ensures |KeptFrom(d, e, i)| == |LiveFrom(d, s, f, i, |e|)|
    ensures forall j :: 0 <= j < |KeptFrom(d, e, i)| ==>
      LiveFrom(d, s, f, i, |e|)[j] < |e| && KeptFrom(d, e, i)[j] == e[LiveFrom(d, s, f, i, |e|)[j]]
    decreases |e| - i
  {
    if i < |e| {
      KeptAtLive(d, s, f, e, i + 1);
      LiveFromSpec(d, s, f, i + 1, |e|);
    }
  }

  /** An entry is spliced out exactly when its source element is a `REMOVE` that the destination does not hold. */
  lemma DroppedIsSpliced(dst: Val, src: Value, f: Flags, fz: bool)
    requires dst.Arr? && src.Arr?
    ensures forall j :: 0 <= j < ArrayLength(dst.elems, src.elems, f) ==>
      (Dropped(dst.elems, ArrayEntries(dst.elems, src, f, fz), j) <==> Spliced(dst.elems, src.elems, j, f))
  {
    var d := dst.elems;
    var e := ArrayEntries(d, src, f, fz);
    forall j | 0 <= j < |e| ensures Dropped(d, e, j) <==> Spliced(d, src.elems, j, f) {
      if !Skipped(src.elems, j, f) {
        MergeResultType(At(d, j), src.elems[j], f.Nested(), fz);
      }
    }
  }

  /**
   * Combining two arrays: the indices are visited up to the desired length; an index whose
   * source element is `REMOVE` is spliced out (unless the destination holds `REMOVE`
   * there too), and the result lists, in order, the entries of the surviving indices: the
   * destination's element where array merging skips an empty source slot, and otherwise
   * the child combined under the nested flags.
   */
  lemma MergeArraysShape(dst: Val, src: Value, f: Flags, fz: bool)
    requires dst.Arr? && src.Arr?
    ensures forall x :: 0 <= x < ArrayLength(dst.elems, src.elems, f) ==>
      (x in Live(dst.elems, src.elems, f) <==> !Spliced(dst.elems, src.elems, x, f))
    ensures forall j :: 0 <= j < |Live(dst.elems, src.elems, f)| ==>
      Live(dst.elems, src.elems, f)[j] < ArrayLength(dst.elems, src.elems, f)
    ensures Merge(dst, src, f, fz).Arr?
    ensures |Merge(dst, src, f, fz).elems| == |Live(dst.elems, src.elems, f)|
    ensures forall j :: 0 <= j < |Merge(dst, src, f, fz).elems| ==>
      At(Merge(dst, src, f, fz).elems, j) ==
        var x := Live(dst.elems, src.elems, f)[j];
        if Skipped(src.elems, x, f) then At(dst.elems, x)
        else Merge(At(dst.elems, x), src.elems[x], f.Nested(), fz)
  {
    var d := dst.elems;
    var e := ArrayEntries(d, src, f, fz);
    var live := Live(d, src.elems, f);
    LiveFromSpec(d, src.elems, f, 0, |e|);
    DroppedIsSpliced(dst, src, f, fz);
    KeptAtLive(d, src.elems, f, e, 0);
    MergeArraysAlways(dst, src, f, fz);
    if !ArrayChanged(d, e) {
      forall j | 0 <= j < |e| ensures !Dropped(d, e, j) {
      }
      KeptAll(d, e, 0);
      forall j | 0 <= j < |d| ensures At(d, j) == e[live[j]] {
        assert e[0..][j] == e[j];
      }
    }
  }

  /** Without a `REMOVE` in the source, nothing is spliced: every visited index keeps its entry in place. */
  lemma MergeArraysNoRemove(dst: Val, src: Value, f: Flags, fz: bool)
    requires dst.Arr? && src.Arr?
    requires forall i :: 0 <= i < |src.elems| ==> src.elems[i] != Remove
    ensures Merge(dst, src, f, fz).Arr?
    ensures |Merge(dst, src, f, fz).elems| == ArrayLength(dst.elems, src.elems, f)
    ensures forall i :: 0 <= i < ArrayLength(dst.elems, src.elems, f) ==>
      At(Merge(dst, src, f, fz).elems, i) ==
        if Skipped(src.elems, i, f) then At(dst.elems, i)
        else Merge(At(dst.elems, i), src.elems[i], f.Nested(), fz)
  {
    var d := dst.elems;
    var e := ArrayEntries(d, src, f, fz);
    forall j | 0 <= j < |e| ensures !Dropped(d, e, j) {
      if !Skipped(src.elems, j, f) {
        MergeResultType(At(d, j), src.elems[j], f.Nested(), fz);
      }
    }
    KeptAll(d, e, 0);
    assert e[0..] == e;
    if dst == Norm(src) {
      forall i | 0 <= i < |e| ensures e[i] == At(d, i) {
        if !Skipped(src.elems, i, f) {
          assert Merge(At(d, i), src.elems[i], f.Nested(), fz) == At(d, i);
        }
      }
    }
  }

  /**
   * The object result key by key: a source key reads as its combined child, except that
   * a `REMOVE` child deletes it; a key the source lacks keeps the destination's value
   * when merging and is deleted when replacing.
   */
  lemma MergeObjectsFields(dst: Val, src: Value, f: Flags, fz: bool)
    requires dst.Obj? && src.Obj?
    ensures Merge(dst, src, f, fz).Obj?
    ensures forall k :: k in src.fields ==>
      FieldOf(Merge(dst, src, f, fz).fields, k) ==
        if ChildAt(dst, src, k, f, fz) == Remove && FieldOf(dst.fields, k) != Remove then Undef
        else ChildAt(dst, src, k, f, fz)
    ensures forall k :: k !in src.fields && f.mergeObjects ==>
      (k in Merge(dst, src, f, fz).fields <==> k in dst.fields)
    ensures forall k :: k !in src.fields && f.mergeObjects && k in dst.fields ==>
      Merge(dst, src, f, fz).fields[k] == dst.fields[k]
    ensures forall k :: k !in src.fields && !f.mergeObjects ==> k !in Merge(dst, src, f, fz).fields
  {
    var nv := FieldValues(dst.fields, src, f, fz);
    MergeUnfoldObjects(dst, src, f, fz);
    if dst == src {
      forall k | k in src.fields ensures ChildAt(dst, src, k, f, fz) == FieldOf(dst.fields, k) {
        assert Norm(src.fields[k]) == FieldOf(dst.fields, k);
      }
    } else {
      forall k | k in src.fields ensures ChildAt(dst, src, k, f, fz) == nv[k] {
      }
      CombineFieldsRead(dst, src.fields, nv, f, fz);
    }
  }

  /** CombineFields key by key, in terms of the combined children `nv`. */
  lemma CombineFieldsRead(dst: Val, s: map<string, Value>, nv: map<string, Val>, f: Flags, fz: bool)
    requires dst.Obj? && nv.Keys == s.Keys
    ensures CombineFields(dst, s, nv, f, fz).Obj?
    ensures forall k :: k in s ==>
      FieldOf(CombineFields(dst, s, nv, f, fz).fields, k) ==
        if nv[k] == Remove && FieldOf(dst.fields, k) != Remove then Undef else nv[k]
    ensures forall k :: k !in s && f.mergeObjects ==>
      (k in CombineFields(dst, s, nv, f, fz).fields <==> k in dst.fields)
    ensures forall k :: k !in s && f.mergeObjects && k in dst.fields ==>
      CombineFields(dst, s, nv, f, fz).fields[k] == dst.fields[k]
    ensures forall k :: k !in s && !f.mergeObjects ==> k !in CombineFields(dst, s, nv, f, fz).fields
  {
    var d := dst.fields;
    if !ObjectChanged(d, s, nv, f) {
      forall k | k in s ensures nv[k] == FieldOf(d, k) {
        assert !Writes(d, nv, k);
      }
      forall k | k in d && !f.mergeObjects ensures k in s {
        assert k !in DroppedKeys(d, s, f);
      }
    }
  }

  /** Source keys of a JSON source are all present, so the key set is the source's, plus the destination's when merging. */
  lemma MergeObjectsKeys(dst: Val, src: Value, f: Flags, fz: bool)
    requires dst.Obj? && src.Obj? && IsJson(src)
    ensures Merge(dst, src, f, fz).Obj?
    ensures Merge(dst, src, f, fz).fields.Keys ==
      src.fields.Keys + (if f.mergeObjects then dst.fields.Keys else {})
  {
    var r := Merge(dst, src, f, fz);
    MergeObjectsFields(dst, src, f, fz);
    forall k | k in src.fields ensures k in r.fields {
      MergeResultType(FieldOf(dst.fields, k), src.fields[k], f.Nested(), fz);
      assert FieldOf(r.fields, k) != Undef;
    }
  }

  /** A replace yields a tree deep-equal to any JSON source, whatever the destination. */
  lemma {:induction false} ReplaceYieldsSource(dst: Val, src: Value, fz: bool)
    requires IsJson(src)
    ensures DeepEqual(Merge(dst, src, SetFlags, fz), src)
    decreases src, 1
  {
    var s := Norm(src);
    if dst == s {
      DeepEqualRefl(src);
    } else if !SameType(dst, s) {
      MergeMismatch(dst, src, SetFlags, fz);
    } else if s.Arr? {
      ReplaceArrays(dst, src, fz);
    } else if s.Obj? {
      ReplaceObjects(dst, src, fz);
    }
  }

  lemma {:induction false} ReplaceArrays(dst: Val, src: Value, fz: bool)
    requires IsJson(src) && dst.Arr? && src.Arr?
    ensures DeepEqual(Merge(dst, src, SetFlags, fz), src)
    decreases src, 0
  {
    var d := dst.elems;
    var ss := src.elems;
    var e := ArrayEntries(d, src, SetFlags, fz);
    assert |e| == |ss|;
    forall i | 0 <= i < |e| ensures DeepEqual(e[i], ss[i]) && !Dropped(d, e, i) {
      assert e[i] == Merge(At(d, i), ss[i], SetFlags, fz);
      ReplaceYieldsSource(At(d, i), ss[i], fz);
      MergeResultType(At(d, i), ss[i], SetFlags, fz);
    }
    KeptAll(d, e, 0);
    assert e[0..] == e;
    if dst == Norm(src) {
      DeepEqualRefl(src);
    } else if !ArrayChanged(d, e) {
      forall i | 0 <= i < |d| ensures DeepEqual(d[i], ss[i]) {
        DeepEqualNorm(d[i], ss[i]);
      }
    }
  }

  lemma {:induction false} ReplaceObjects(dst: Val, src: Value, fz: bool)
    requires IsJson(src) && dst.Obj? && src.Obj?
    ensures DeepEqual(Merge(dst, src, SetFlags, fz), src)
    decreases src, 0
  {
    var d := dst.fields;
    var s := src.fields;
    var r := Merge(dst, src, SetFlags, fz);
    if dst == Norm(src) {
      DeepEqualRefl(src);
      return;
    }
    forall k | k in s ensures DeepEqual(ChildAt(dst, src, k, SetFlags, fz), s[k])
      && ChildAt(dst, src, k, SetFlags, fz) != Remove && ChildAt(dst, src, k, SetFlags, fz) != Undef
    {
      ReplaceYieldsSource(FieldOf(d, k), s[k], fz);
      MergeResultType(FieldOf(d, k), s[k], SetFlags, fz);
    }
    MergeObjectsFields(dst, src, SetFlags, fz);
    MergeObjectsKeys(dst, src, SetFlags, fz);
    forall k | k in s ensures DeepEqual(r.fields[k], s[k]) {
      assert FieldOf(r.fields, k) == ChildAt(dst, src, k, SetFlags, fz);
      DeepEqualNorm(r.fields[k], s[k]);
    }
  }

  /**
   * A destination whose top level holds no `REMOVE` gives a result whose top level holds
   * none either, when the source is of the destination's kind (a `REMOVE` child there is
   * spliced out or deleted, never stored) or holds no `REMOVE` at its top level. A
   * container source of another kind is copied with its `REMOVE` children in place.
   */
  lemma RemoveNeverStored(dst: Val, src: Value, f: Flags, fz: bool)
    requires NoTopRemove(dst) && (SameType(dst, Norm(src)) || NoTopRemove(Norm(src)))
    ensures NoTopRemove(Merge(dst, src, f, fz))
  {
    var s := Norm(src);
    if dst == s {
    } else if !SameType(dst, s) {
      if IsContainer(s) {
        CloneNoTopRemove(s, fz);
      }
    } else if s.Arr? {
      var d := dst.elems;
      var e := ArrayEntries(d, src, f, fz);
      MergeUnfoldArrays(dst, src, f, fz);
      if ArrayChanged(d, e) {
        KeptNoRemove(d, e);
      }
    } else if s.Obj? {
      MergeUnfoldObjects(dst, src, f, fz);
    }
  }

  /** An entry that was not spliced out is `REMOVE` only where the destination held one. */
  lemma KeptNoRemove(d: seq<Value>, e: seq<Val>)
    requires forall j :: 0 <= j < |d| ==> d[j] != Remove
    ensures forall i :: 0 <= i < |KeptFrom(d, e, 0)| ==> KeptFrom(d, e, 0)[i] != Remove
  {
    var kept := KeptFrom(d, e, 0);
    forall i | 0 <= i < |kept| ensures kept[i] != Remove {
      KeptFromMember(d, e, 0, kept[i]);
    }
  }

  /**
   * A container source of another kind keeps its `REMOVE` children, even under
   * `cmpAndApplyDiff`: applying `{a: REMOVE}` to a number gives back `{a: REMOVE}`.
   */
  lemma MismatchKeepsRemove(fz: bool)
    ensures Merge(Num(5), Obj(map["a" := Remove], false), ApplyDiffFlags, fz) == Obj(map["a" := Remove], fz)
  {
    var src := Obj(map["a" := Remove], false);
    assert !SameType(Num(5), src);
    assert Clone(Remove, fz) == Remove;
    assert Clone(src, fz).fields == map["a" := Remove];
  }

  /** A copy holds `REMOVE` at its top level only where the original does. */
  lemma CloneNoTopRemove(v: Value, fz: bool)
    requires NoTopRemove(v)
    ensures NoTopRemove(Clone(v, fz))
  {
    match v
    case Arr(e, _) =>
      forall i | 0 <= i < |e| ensures Clone(e[i], fz) != Remove {
        CloneDeepEqual(e[i], fz);
      }
    case Obj(m, _) =>
      forall k | k in m ensures Clone(m[k], fz) != Remove {
        CloneDeepEqual(m[k], fz);
      }
    case _ =>
  }

  /** With freezing on, a deep-frozen destination gives a deep-frozen result, whatever the source. */
  lemma {:induction false} MergeKeepsDeepFrozen(dst: Val, src: Value, f: Flags)
    requires DeepFrozen(dst)
    ensures DeepFrozen(Merge(dst, src, f, true))
    decreases src
  {
    var s := Norm(src);
    var r := Merge(dst, src, f, true);
    if dst == s {
    } else if !SameType(dst, s) {
      CloneFrozen(s, true);
    } else if s.Arr? {
      var d := dst.elems;
      var e := ArrayEntries(d, src, f, true);
      forall i | 0 <= i < |e| ensures DeepFrozen(e[i]) {
        if !Skipped(src.elems, i, f) {
          MergeKeepsDeepFrozen(At(d, i), src.elems[i], f.Nested());
        }
      }
      MergeUnfoldArrays(dst, src, f, true);
      if ArrayChanged(d, e) {
        var kept := KeptFrom(d, e, 0);
        forall x | x in kept ensures DeepFrozen(x) {
          KeptFromMember(d, e, 0, x);
        }
        assert forall i :: 0 <= i < |kept| ==> kept[i] in kept;
      }
    } else if s.Obj? {
      var d := dst.fields;
      var nv := FieldValues(d, src, f, true);
      MergeUnfoldObjects(dst, src, f, true);
      forall k | k in nv ensures DeepFrozen(nv[k]) {
        MergeKeepsDeepFrozen(FieldOf(d, k), src.fields[k], f.Nested());
      }
    }
  }

  /** `cmpAndMerge` merges the top level only: a nested object is replaced, losing keys its source lacks. */
  lemma MergeReplacesNestedObjects(dst: Val, src: Value, fz: bool, k: string, j: string)
    requires dst.Obj? && src.Obj? && k in dst.fields && k in src.fields
    requires dst.fields[k].Obj? && src.fields[k].Obj?
    requires j in dst.fields[k].fields && j !in src.fields[k].fields
    ensures Merge(dst, src, MergeFlags, fz).Obj?
    ensures FieldOf(Merge(dst, src, MergeFlags, fz).fields, k).Obj?
    ensures j !in FieldOf(Merge(dst, src, MergeFlags, fz).fields, k).fields
  {
    var c := ChildAt(dst, src, k, MergeFlags, fz);
    MergeObjectsFields(FieldOf(dst.fields, k), src.fields[k], MergeFlags.Nested(), fz);
    MergeObjectsFields(dst, src, MergeFlags, fz);
    assert FieldOf(Merge(dst, src, MergeFlags, fz).fields, k) == c;
  }

  /** `cmpAndDeepMerge` merges nested objects: a nested key the source lacks keeps its value. */
  lemma DeepMergeKeepsNestedKeys(dst: Val, src: Value, fz: bool, k: string, j: string)
    requires dst.Obj? && src.Obj? && k in dst.fields && k in src.fields
    requires dst.fields[k].Obj? && src.fields[k].Obj?
    requires j in dst.fields[k].fields && j !in src.fields[k].fields
    ensures Merge(dst, src, DeepMergeFlags, fz).Obj?
    ensures FieldOf(Merge(dst, src, DeepMergeFlags, fz).fields, k).Obj?
    ensures j in FieldOf(Merge(dst, src, DeepMergeFlags, fz).fields, k).fields
    ensures FieldOf(Merge(dst, src, DeepMergeFlags, fz).fields, k).fields[j] == dst.fields[k].fields[j]
  {
    var c := ChildAt(dst, src, k, DeepMergeFlags, fz);
    MergeObjectsFields(FieldOf(dst.fields, k), src.fields[k], DeepMergeFlags.Nested(), fz);
    MergeObjectsFields(dst, src, DeepMergeFlags, fz);
    assert FieldOf(Merge(dst, src, DeepMergeFlags, fz).fields, k) == c;
  }

  /** `cmpAndDeepMerge` replaces nested arrays: a nested array takes the source's length. */
  lemma DeepMergeReplacesNestedArrays(dst: Val, src: Value, fz: bool, k: string)
    requires dst.Obj? && src.Obj? && k in dst.fields && k in src.fields
    requires dst.fields[k].Arr? && src.fields[k].Arr?
    requires forall i :: 0 <= i < |src.fields[k].elems| ==> src.fields[k].elems[i] != Remove
    ensures Merge(dst, src, DeepMergeFlags, fz).Obj?
    ensures FieldOf(Merge(dst, src, DeepMergeFlags, fz).fields, k).Arr?
    ensures |FieldOf(Merge(dst, src, DeepMergeFlags, fz).fields, k).elems| == |src.fields[k].elems|
  {
    var c := ChildAt(dst, src, k, DeepMergeFlags, fz);
    MergeArraysNoRemove(FieldOf(dst.fields, k), src.fields[k], DeepMergeFlags.Nested(), fz);
    MergeObjectsFields(dst, src, DeepMergeFlags, fz);
    assert FieldOf(Merge(dst, src, DeepMergeFlags, fz).fields, k) == c;
  }
}
