/**
 * What `cmpAndSetOrMerge` computes, stated as functions on values. The method that
 * implements it with loops and lazy copies is in module MergeImpl.
 *
 * The four flags say whether the top level merges objects (keeps destination keys the
 * source does not mention) and arrays (keeps destination indices the source leaves
 * empty), and what the children are merged with: a child is combined under
 * `(deepMergeObjects, deepMergeArrays)` for both its own level and below.
 */
module Merging {
  import opened Values
  import opened Helpers
  import opened Cloning
  import JsBuiltins

  datatype Flags = Flags(mergeObjects: bool, mergeArrays: bool, deepMergeObjects: bool, deepMergeArrays: bool) {
    /** The flags a child is combined with. */
    function Nested(): Flags {
      Flags(deepMergeObjects, deepMergeArrays, deepMergeObjects, deepMergeArrays)
    }
  }

  /** `cmpAndSet`: replace. */
  const SetFlags := Flags(false, false, false, false)
  /** `cmpAndMerge`: merge the top level only. */
  const MergeFlags := Flags(true, true, false, false)
  /** `cmpAndDeepMerge`: merge objects at every level, replace nested arrays. */
  const DeepMergeFlags := Flags(true, true, true, false)
  /** `cmpAndApplyDiff`: merge objects and arrays at every level. */
  const ApplyDiffFlags := Flags(true, true, true, true)

  /**
   * The result of combining `dst` with `src`. `src` is the content of a slot, so a hole
   * is read as `undefined`. Identical inputs give `dst`; inputs of different kinds give
   * `src` (copied when it is a container); two arrays or two objects are combined
   * child by child; two primitives give `src`.
   */
  function Merge(dst: Val, src: Value, f: Flags, fz: bool): Val
    decreases src, 2
  {
    var s := Norm(src);
    if dst == s then dst
    else if !SameType(dst, s) then (if IsContainer(s) then Clone(s, fz) else s)
    else if s.Arr? then MergeArrays(dst, src, f, fz)
    else if s.Obj? then MergeObjects(dst, src, f, fz)
    else s
  }

  /** The number of indices visited: the source's length, or the longer of the two when merging. */
  function ArrayLength(d: seq<Value>, s: seq<Value>, f: Flags): nat {
    if f.mergeArrays then JsBuiltins.Max(|s|, |d|) else |s|
  }

  /** An index the merge leaves alone: merging arrays and the source has no element there. */
  predicate Skipped(s: seq<Value>, i: nat, f: Flags) {
    f.mergeArrays && !HasIndex(s, i)
  }

  /** The entry at each visited index before removals: the destination's element or the combined child. */
  function ArrayEntries(d: seq<Value>, src: Value, f: Flags, fz: bool): (e: seq<Val>)
    requires src.Arr?
    ensures |e| == ArrayLength(d, src.elems, f)
    decreases src, 0
  {
    var s := src.elems;
    var n := ArrayLength(d, s, f);
    seq(n, i requires 0 <= i < n =>
      if Skipped(s, i, f) then At(d, i) else Merge(At(d, i), s[i], f.Nested(), fz))
  }

  /** An entry that became `REMOVE`: it is spliced out. */
  predicate Dropped(d: seq<Value>, e: seq<Val>, i: nat)
    requires i < |e|
  {
    e[i] == Remove && e[i] != At(d, i)
  }

  /** The entries from index `i` on, without the dropped ones, in order. */
  function KeptFrom(d: seq<Value>, e: seq<Val>, i: nat): (r: seq<Val>)
    requires i <= |e|
    ensures |r| <= |e| - i
    decreases |e| - i
  {
    if i == |e| then []
    else (if Dropped(d, e, i) then [] else [e[i]]) + KeptFrom(d, e, i + 1)
  }

  /** The array needs a copy: its length changes or some entry differs from the destination's. */
  predicate ArrayChanged(d: seq<Value>, e: seq<Val>) {
    |e| != |d| || exists i :: 0 <= i < |e| && e[i] != At(d, i)
  }

  function MergeArrays(dst: Val, src: Value, f: Flags, fz: bool): Val
    requires dst.Arr? && src.Arr?
    decreases src, 1
  {
    CombineEntries(dst, ArrayEntries(dst.elems, src, f, fz), fz)
  }

  /** The destination itself when no entry changed, otherwise a fresh array of the kept entries. */
  function CombineEntries(dst: Val, e: seq<Val>, fz: bool): Val
    requires dst.Arr?
  {
    if ArrayChanged(dst.elems, e) then Arr(KeptFrom(dst.elems, e, 0), fz) else dst
  }

  /** The combined child for every key of the source object. */
  function FieldValues(d: map<string, Value>, src: Value, f: Flags, fz: bool): (nv: map<string, Val>)
    requires src.Obj?
    ensures nv.Keys == src.fields.Keys
    decreases src, 0
  {
    map k | k in src.fields :: Merge(FieldOf(d, k), src.fields[k], f.Nested(), fz)
  }

  /** The combined child differs from what the destination holds under `k`, so `k` is written. */
  predicate Writes(d: map<string, Value>, nv: map<string, Val>, k: string)
    requires k in nv
  {
    nv[k] != FieldOf(d, k)
  }

  /**
   * The destination's fields after writing the keys of `p`: a written key holds its
   * combined child, or is deleted when that child is `REMOVE`; other keys keep their value.
   */
  function AfterWrites(d: map<string, Value>, nv: map<string, Val>, p: set<string>): map<string, Value>
    requires p <= nv.Keys
  {
    map k | k in p + d.Keys && ((k in p && Writes(d, nv, k) && nv[k] != Remove) || (k in d && !(k in p && Writes(d, nv, k))))
      :: if k in p && Writes(d, nv, k) then nv[k] else d[k]
  }

  /** The destination keys a replace deletes: those the source does not have. */
  function DroppedKeys(d: map<string, Value>, s: map<string, Value>, f: Flags): set<string> {
    if f.mergeObjects then {} else d.Keys - s.Keys
  }

  /** Some key of the source is written. */
  predicate SomeWrite(d: map<string, Value>, nv: map<string, Val>) {
    exists k :: k in nv && Writes(d, nv, k)
  }

  /** The object needs a copy: a key is written, or a replace has keys to delete. */
  predicate ObjectChanged(d: map<string, Value>, s: map<string, Value>, nv: map<string, Val>, f: Flags) {
    SomeWrite(d, nv) || DroppedKeys(d, s, f) != {}
  }

  function MergeObjects(dst: Val, src: Value, f: Flags, fz: bool): Val
    requires dst.Obj? && src.Obj?
    decreases src, 1
  {
    CombineFields(dst, src.fields, FieldValues(dst.fields, src, f, fz), f, fz)
  }

  /**
   * The destination itself when no key is written or deleted, otherwise a fresh object
   * with the written keys and, for a replace, without the keys the source lacks.
   */
  function CombineFields(dst: Val, s: map<string, Value>, nv: map<string, Val>, f: Flags, fz: bool): Val
    requires dst.Obj? && nv.Keys == s.Keys
  {
    var d := dst.fields;
    if ObjectChanged(d, s, nv, f) then Obj(AfterWrites(d, nv, s.Keys) - DroppedKeys(d, s, f), fz) else dst
  }
}
