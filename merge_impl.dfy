/**
 * `cmpAndSetOrMerge` as the library runs it: a backward index loop over arrays that
 * copies the destination only on the first change and splices out `REMOVE` entries, a
 * key loop over the source object, and for a replace a second loop deleting the
 * destination keys the source lacks. Each method is proved to compute the function of
 * the same name in module Merging.
 */
module MergeImpl {
  import opened Values
  import opened Helpers
  import opened Cloning
  import opened Merging
  import JsBuiltins

  method CmpAndSetOrMerge(dst: Val, src: Value, f: Flags, fz: bool) returns (r: Val)
    ensures r == Merge(dst, src, f, fz)
    decreases src, 3
  {
    // src is the content of a slot: a hole reads as undefined
    var s := Norm(src);
    if dst == s {
      return dst;
    }
    var dstType := GetType(dst);
    var srcType := GetType(s);
    if dstType != srcType {
      if srcType == "array" || srcType == "object" {
        r := CloneImmutable(s, fz);
      } else {
        r := s;
      }
    } else if dstType == "array" {
      r := CmpAndMergeArrays(dst, src, f, fz);
    } else if dstType == "object" {
      r := CmpAndMergeObjects(dst, src, f, fz);
    } else {
      r := s;
    }
  }

  /** The array branch: visit indices from the last down, copying `dst` on the first change. */
  method CmpAndMergeArrays(dst: Val, src: Value, f: Flags, fz: bool) returns (r: Val)
    requires dst.Arr? && src.Arr?
    ensures r == MergeArrays(dst, src, f, fz)
    decreases src, 1
  {
    var d := dst.elems;
    var s := src.elems;
    ghost var e := ArrayEntries(d, src, f, fz);
    var desiredLength: nat := if f.mergeArrays then JsBuiltins.Max(|s|, |d|) else |s|;
    var out := d;
    var copied := false;
    if |d| != desiredLength {
      out := ShallowCloneArray(d, desiredLength);
      copied := true;
    }
    PassStart(d, e, out, copied, desiredLength);
    var i := desiredLength;
    while i > 0
      invariant 0 <= i <= |e|
      invariant PassState(d, e, i, out, copied, desiredLength)
    {
      i := i - 1;
      out, copied, desiredLength := VisitIndex(d, src, f, fz, e, i, out, copied, desiredLength);
    }
    PassDone(d, e, out, copied, desiredLength);
    if copied {
      r := Arr(out, fz);
    } else {
      r := dst;
    }
  }

  lemma PassStart(d: seq<Value>, e: seq<Val>, out: seq<Value>, copied: bool, desiredLength: nat)
    requires desiredLength == |e|
    requires |d| != |e| ==> copied && out == Dense(d, |e|)
    requires |d| == |e| ==> !copied && out == d
    ensures PassState(d, e, |e|, out, copied, desiredLength)
  {
    assert Dense(d, |e|) + KeptFrom(d, e, |e|) == Dense(d, |e|);
  }

  lemma PassDone(d: seq<Value>, e: seq<Val>, out: seq<Value>, copied: bool, desiredLength: nat)
    requires PassState(d, e, 0, out, copied, desiredLength)
    ensures copied <==> ArrayChanged(d, e)
    ensures copied ==> out == KeptFrom(d, e, 0)
    ensures !copied ==> out == d
  {
    assert Dense(d, 0) == [];
  }

  /**
   * The state of the backward pass once the indices from `i` on are done: `out` is
   * still `dst` when nothing changed, and otherwise a copy whose first `i` slots are
   * the destination's and whose rest is the kept entries; `desiredLength` is its length.
   */
  ghost predicate PassState(d: seq<Value>, e: seq<Val>, i: nat, out: seq<Value>, copied: bool, desiredLength: nat)
    requires i <= |e|
  {
    && (copied <==> (|d| != |e| || exists j :: i <= j < |e| && e[j] != At(d, j)))
    && (!copied ==> out == d && desiredLength == |e|)
    && (copied ==> out == Dense(d, i) + KeptFrom(d, e, i) && desiredLength == |out|)
  }

  /** One turn of the backward loop, at index `i`. */
  method VisitIndex(d: seq<Value>, src: Value, f: Flags, fz: bool, ghost e: seq<Val>, i: nat,
                    out: seq<Value>, copied: bool, desiredLength: nat)
    returns (out': seq<Value>, copied': bool, desiredLength': nat)
    requires src.Arr? && i < |e|
    requires Skipped(src.elems, i, f) ==> e[i] == At(d, i)
    requires !Skipped(src.elems, i, f) ==> i < |src.elems| && e[i] == Merge(At(d, i), src.elems[i], f.Nested(), fz)
    requires PassState(d, e, i + 1, out, copied, desiredLength)
    ensures PassState(d, e, i, out', copied', desiredLength')
    decreases src, 0
  {
    var s := src.elems;
    out', copied', desiredLength' := out, copied, desiredLength;
    if f.mergeArrays && !HasIndex(s, i) {
      // merge sparse arrays: an index the source lacks keeps the destination's element
      if copied {
        StepUnchanged(d, e, i);
      }
      return;
    }
    var newVal := CmpAndSetOrMerge(At(d, i), s[i], f.Nested(), fz);
    assert newVal == e[i];
    if newVal != At(d, i) {
      if !copied' {
        out' := ShallowCloneArray(d, desiredLength');
        copied' := true;
        KeptAllUnchanged(d, e, i + 1);
      }
      StepWritten(d, e, i, out');
      if newVal == Remove {
        out' := out'[..i] + out'[i + 1..];
        desiredLength' := desiredLength' - 1;
      } else {
        out' := out'[i := newVal];
      }
    } else if copied {
      StepUnchanged(d, e, i);
    }
  }

  /** Past the last change the kept entries are the destination's own slots, read densely. */
  lemma {:induction false} KeptAllUnchanged(d: seq<Value>, e: seq<Val>, i: nat)
    requires i <= |e|
    requires forall j :: i <= j < |e| ==> e[j] == At(d, j)
    ensures Dense(d, i) + KeptFrom(d, e, i) == Dense(d, |e|)
    decreases |e| - i
  {
    if i < |e| {
      KeptAllUnchanged(d, e, i + 1);
      StepUnchanged(d, e, i);
    }
  }

  lemma StepUnchanged(d: seq<Value>, e: seq<Val>, i: nat)
    requires i < |e| && e[i] == At(d, i)
    ensures Dense(d, i + 1) + KeptFrom(d, e, i + 1) == Dense(d, i) + KeptFrom(d, e, i)
  {
    var back := KeptFrom(d, e, i + 1);
    assert Dense(d, i + 1) == Dense(d, i) + [At(d, i)];
    assert KeptFrom(d, e, i) == [At(d, i)] + back;
    assert (Dense(d, i) + [At(d, i)]) + back == Dense(d, i) + ([At(d, i)] + back);
  }

  lemma StepWritten(d: seq<Value>, e: seq<Val>, i: nat, out: seq<Value>)
    requires i < |e| && e[i] != At(d, i)
    requires out == Dense(d, i + 1) + KeptFrom(d, e, i + 1)
    ensures e[i] == Remove ==> out[..i] + out[i + 1..] == Dense(d, i) + KeptFrom(d, e, i)
    ensures e[i] != Remove ==> out[i := e[i]] == Dense(d, i) + KeptFrom(d, e, i)
  {
    var front := Dense(d, i);
    var back := KeptFrom(d, e, i + 1);
    assert Dense(d, i + 1) == front + [At(d, i)];
    assert out == front + ([At(d, i)] + back);
    SpliceAt(front, At(d, i), back, e[i]);
  }

  lemma SpliceAt<T>(front: seq<T>, x: T, back: seq<T>, y: T)
    ensures (front + ([x] + back))[..|front|] + (front + ([x] + back))[|front| + 1..] == front + back
    ensures (front + ([x] + back))[|front| := y] == front + ([y] + back)
  {
    var s := front + ([x] + back);
    assert s[..|front|] == front;
    assert s[|front| + 1..] == back;
  }

  /** The object branch: write the keys of `src`, then for a replace delete the keys only `dst` has. */
  method CmpAndMergeObjects(dst: Val, src: Value, f: Flags, fz: bool) returns (r: Val)
    requires dst.Obj? && src.Obj?
    ensures r == MergeObjects(dst, src, f, fz)
    decreases src, 2
  {
    var d := dst.fields;
    var s := src.fields;
    ghost var nv := FieldValues(d, src, f, fz);
    var out, copied := WriteSourceKeys(d, src, f, fz, nv);
    if !f.mergeObjects {
      out, copied := DeleteAbsentKeys(d, s, f, nv, out, copied);
    } else {
      assert out - DroppedKeys(d, s, f) == out;
    }
    if copied {
      r := Obj(out, fz);
    } else {
      r := dst;
    }
  }

  /** The loop over the keys of `src`, copying `d` before the first write. */
  method WriteSourceKeys(d: map<string, Value>, src: Value, f: Flags, fz: bool, ghost nv: map<string, Val>)
    returns (out: map<string, Value>, copied: bool)
    requires src.Obj? && nv == FieldValues(d, src, f, fz)
    ensures copied <==> SomeWrite(d, nv)
    ensures copied ==> out == AfterWrites(d, nv, src.fields.Keys)
    ensures !copied ==> out == d && AfterWrites(d, nv, src.fields.Keys) == d
    decreases src, 1
  {
    out := d;
    copied := false;
    var keys := src.fields.Keys;
    while keys != {}
      invariant keys <= nv.Keys
      invariant WriteState(d, nv, keys, out, copied)
      decreases keys
    {
      var key :| key in keys;
      out, copied := VisitKey(d, src, f, fz, nv, key, keys, out, copied);
      keys := keys - {key};
    }
    assert nv.Keys - {} == nv.Keys;
    if !copied {
      AfterWritesNone(d, nv, nv.Keys);
    }
  }

  /**
   * The state of the key loop while `keys` remain: `out` is still `d` when nothing was
   * written, and otherwise the copy with the done keys written.
   */
  ghost predicate WriteState(d: map<string, Value>, nv: map<string, Val>, keys: set<string>,
                             out: map<string, Value>, copied: bool)
    requires keys <= nv.Keys
  {
    && (copied <==> exists k :: k in nv && k !in keys && Writes(d, nv, k))
    && (!copied ==> out == d)
    && (copied ==> out == AfterWrites(d, nv, nv.Keys - keys))
  }

  /** One turn of the key loop, at `key`. */
  method VisitKey(d: map<string, Value>, src: Value, f: Flags, fz: bool, ghost nv: map<string, Val>,
                  key: string, ghost keys: set<string>, out: map<string, Value>, copied: bool)
    returns (out': map<string, Value>, copied': bool)
    requires src.Obj? && key in src.fields
    requires key in keys && keys <= nv.Keys
    requires nv[key] == Merge(FieldOf(d, key), src.fields[key], f.Nested(), fz)
    requires WriteState(d, nv, keys, out, copied)
    ensures WriteState(d, nv, keys - {key}, out', copied')
    decreases src, 0
  {
    ghost var done := nv.Keys - keys;
    out', copied' := out, copied;
    var newVal := CmpAndSetOrMerge(FieldOf(d, key), src.fields[key], f.Nested(), fz);
    assert newVal == nv[key];
    if newVal != FieldOf(d, key) {
      assert Writes(d, nv, key);
      if !copied' {
        out' := ShallowCloneObject(d);
        copied' := true;
        AfterWritesNone(d, nv, done);
      }
      if newVal == Remove {
        out' := out' - {key};
      } else {
        out' := out'[key := newVal];
      }
    }
    AfterWritesStep(d, nv, done, key);
    assert nv.Keys - (keys - {key}) == done + {key};
  }

  /** The replace pass: delete from the copy every key of `d` that `s` lacks. */
  method DeleteAbsentKeys(d: map<string, Value>, s: map<string, Value>, f: Flags, ghost nv: map<string, Val>,
                          out: map<string, Value>, copied: bool)
    returns (out': map<string, Value>, copied': bool)
    requires !f.mergeObjects && nv.Keys == s.Keys
    requires copied <==> SomeWrite(d, nv)
    requires copied ==> out == AfterWrites(d, nv, s.Keys)
    requires !copied ==> out == d && AfterWrites(d, nv, s.Keys) == d
    ensures copied' <==> ObjectChanged(d, s, nv, f)
    ensures copied' ==> out' == AfterWrites(d, nv, s.Keys) - DroppedKeys(d, s, f)
    ensures !copied' ==> out' == d
  {
    ghost var w := AfterWrites(d, nv, s.Keys);
    out', copied' := out, copied;
    var dkeys := d.Keys;
    while dkeys != {}
      invariant dkeys <= d.Keys
      invariant copied' <==> SomeWrite(d, nv) || exists k :: k in d && k !in dkeys && k !in s
      invariant !copied' ==> out' == d
      invariant copied' ==> out' == w - ((d.Keys - dkeys) - s.Keys)
      decreases dkeys
    {
      var key :| key in dkeys;
      dkeys := dkeys - {key};
      if key in s {
        continue;
      }
      if !copied' {
        out' := ShallowCloneObject(d);
        copied' := true;
      }
      out' := out' - {key};
    }
    assert (d.Keys - dkeys) - s.Keys == DroppedKeys(d, s, f);
    if DroppedKeys(d, s, f) != {} {
      var k :| k in DroppedKeys(d, s, f);
      assert k in d && k !in s;
    }
  }

  /** Before the first write the fields are the destination's. */
  lemma AfterWritesNone(d: map<string, Value>, nv: map<string, Val>, p: set<string>)
    requires p <= nv.Keys
    requires forall k :: k in p ==> !Writes(d, nv, k)
    ensures AfterWrites(d, nv, p) == d
  {
  }

  lemma AfterWritesStep(d: map<string, Value>, nv: map<string, Val>, p: set<string>, key: string)
    requires p <= nv.Keys && key in nv && key !in p
    ensures !Writes(d, nv, key) ==> AfterWrites(d, nv, p + {key}) == AfterWrites(d, nv, p)
    ensures Writes(d, nv, key) && nv[key] == Remove ==> AfterWrites(d, nv, p + {key}) == AfterWrites(d, nv, p) - {key}
    ensures Writes(d, nv, key) && nv[key] != Remove ==> AfterWrites(d, nv, p + {key}) == AfterWrites(d, nv, p)[key := nv[key]]
  {
  }
}
