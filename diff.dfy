/**
 * `diffImmutable`: the patch that `applyDiffImmutable` turns the old tree into the new
 * one with. Identical trees give `undefined`. Below that, a value of another kind, or
 * a primitive, is the patch itself; objects give an object of the keys that changed
 * (a sub-patch), appeared (the new value) or disappeared (`REMOVE`); arrays give a
 * sparse array with a sub-patch at each changed index, the new element past the old
 * end, `REMOVE` past the new end and a hole everywhere else. A JavaScript array is as
 * long as its last written index allows, so trailing holes are not part of the patch.
 *
 * The functions state the patch; the methods are the library's loops, proved to
 * compute it.
 */
module Diffing {
  import opened Values
  import opened Helpers
  import JsBuiltins

  /** One past the last index below `n` that is not a hole: the length of a sparse array written up to `n`. */
  function WrittenLength(s: seq<Value>, n: nat): (r: nat)
    requires n <= |s|
    ensures r <= n
    ensures r == 0 || s[r - 1] != Hole
    ensures forall i :: r <= i < n ==> s[i] == Hole
  {
    if n == 0 || s[n - 1] != Hole then n else WrittenLength(s, n - 1)
  }

  /** The sequence without its trailing holes. */
  function TrimHoles(s: seq<Value>): seq<Value> {
    s[..WrittenLength(s, |s|)]
  }

  /** `diffImmutable(oNew, oOld)` */
  function Diff(oNew: Val, oOld: Val, fz: bool): Val {
    if oNew == oOld then Undef else DiffRecur(oNew, oOld, fz)
  }

  /**
   * `diffImmutableRecur(o, oOld)`; both are slot contents, a hole reading as
   * `undefined`. The patch containers are frozen when freezing is on.
   */
  function DiffRecur(o: Value, oOld: Value, fz: bool): Val
    decreases o, 2
  {
    var x := Norm(o);
    var y := Norm(oOld);
    if !SameType(x, y) then x
    else if x.Obj? then Obj(DiffFields(o, oOld, fz), fz)
    else if x.Arr? then Arr(TrimHoles(DiffEntries(o, oOld, fz)), fz)
    else x
  }

  /** Key `k` of either object is part of the object patch: it is new, gone, or holds another value. */
  predicate Listed(n: map<string, Value>, o: map<string, Value>, k: string) {
    (k in n && (k !in o || Norm(n[k]) != Norm(o[k]))) || (k in o && k !in n)
  }

  /** The object patch: the new value of a new key, a sub-patch for a changed key, `REMOVE` for a key that is gone. */
  function DiffFields(o: Value, oOld: Value, fz: bool): (m: map<string, Value>)
    requires o.Obj? && oOld.Obj?
    ensures forall k :: k in m <==> Listed(o.fields, oOld.fields, k)
    decreases o, 1
  {
    var n := o.fields;
    var p := oOld.fields;
    map k | k in n.Keys + p.Keys && Listed(n, p, k) ::
      if k !in p then n[k]
      else if k !in n then Remove
      else DiffRecur(n[k], p[k], fz)
  }

  /**
   * The array patch before the trailing holes are dropped, one entry per index of the
   * longer array: the new element past the old end, `REMOVE` past the new end, a
   * sub-patch where the elements differ and a hole where they are the same.
   */
  function DiffEntries(o: Value, oOld: Value, fz: bool): (e: seq<Value>)
    requires o.Arr? && oOld.Arr?
    ensures |e| == JsBuiltins.Max(|o.elems|, |oOld.elems|)
    ensures forall i :: 0 <= i < |e| ==> e[i] == Entry(o, oOld, i, fz)
    decreases o, 1
  {
    var n := JsBuiltins.Max(|o.elems|, |oOld.elems|);
    seq(n, i requires 0 <= i < n => Entry(o, oOld, i, fz))
  }

  /** The entry at index `i` of the array patch. */
  function Entry(o: Value, oOld: Value, i: nat, fz: bool): Value
    requires o.Arr? && oOld.Arr?
    decreases o, 0
  {
    var a := o.elems;
    var b := oOld.elems;
    if i >= |a| then Remove
    else if i >= |b| then At(a, i)
    else if At(a, i) != At(b, i) then DiffRecur(a[i], b[i], fz)
    else Hole
  }

  /** Writing entry `i` after a run of holes gives the entries up to `i`. */
  lemma AssignAfterHoles(e: seq<Value>, t: nat, i: nat)
    requires t <= i < |e|
    requires forall j :: t <= j < i ==> e[j] == Hole
    ensures AssignAt(e[..t], i, e[i]) == e[..i + 1]
  {
    var r := AssignAt(e[..t], i, e[i]);
    assert forall j :: 0 <= j < |r| ==> r[j] == e[j];
  }

  method DiffImmutable(oNew: Val, oOld: Val, fz: bool) returns (r: Val)
    ensures r == Diff(oNew, oOld, fz)
  {
    if oNew == oOld {
      return Undef;
    }
    r := DiffImmutableRecur(oNew, oOld, fz);
  }

  method DiffImmutableRecur(o: Value, oOld: Value, fz: bool) returns (r: Val)
    ensures r == DiffRecur(o, oOld, fz)
    decreases o, 2
  {
    var x := Norm(o);
    var y := Norm(oOld);
    var t := GetType(x);
    var tOld := GetType(y);
    if t != tOld {
      return x;
    }
    if t == "object" {
      var m := DiffObjects(o, oOld, fz);
      r := Obj(m, fz);
    } else if t == "array" {
      var e := DiffArrays(o, oOld, fz);
      r := Arr(e, fz);
    } else {
      r := x;
    }
  }

  /** The two key loops of the object case. */
  method DiffObjects(o: Value, oOld: Value, fz: bool) returns (diff: map<string, Value>)
    requires o.Obj? && oOld.Obj?
    ensures diff == DiffFields(o, oOld, fz)
    decreases o, 1
  {
    ghost var full := DiffFields(o, oOld, fz);
    var n := o.fields;
    var p := oOld.fields;
    diff := map[];
    var todo := n.Keys;
    ghost var done: set<string> := {};
    while todo != {}
      invariant todo + done == n.Keys && todo !! done
      invariant diff == map k | k in done && k in full :: full[k]
      decreases todo
    {
      var key :| key in todo;
      if key !in p {
        diff := diff[key := n[key]];
      } else if Norm(n[key]) != Norm(p[key]) {
        var sub := DiffImmutableRecur(n[key], p[key], fz);
        diff := diff[key := sub];
      }
      todo := todo - {key};
      done := done + {key};
    }
    diff := DeleteGoneKeys(n, p, diff, full);
  }

  /** `for (const key in oOld) if (!(key in o)) diff[key] = REMOVE` */
  method DeleteGoneKeys(n: map<string, Value>, p: map<string, Value>, diff0: map<string, Value>, ghost full: map<string, Value>)
    returns (diff: map<string, Value>)
    requires forall k :: k in full <==> Listed(n, p, k)
    requires forall k :: k in full && k in p && k !in n ==> full[k] == Remove
    requires diff0 == map k | k in n && k in full :: full[k]
    ensures diff == full
  {
    diff := diff0;
    var todo := p.Keys;
    ghost var done: set<string> := {};
    while todo != {}
      invariant todo + done == p.Keys && todo !! done
      invariant diff == map k | (k in n || k in done) && k in full :: full[k]
      decreases todo
    {
      var key :| key in todo;
      if key !in n {
        diff := diff[key := Remove];
      }
      todo := todo - {key};
      done := done + {key};
    }
  }

  /** The two index loops of the array case, writing into a growing sparse array. */
  method DiffArrays(o: Value, oOld: Value, fz: bool) returns (diff: seq<Value>)
    requires o.Arr? && oOld.Arr?
    ensures diff == TrimHoles(DiffEntries(o, oOld, fz))
    decreases o, 1
  {
    ghost var e := DiffEntries(o, oOld, fz);
    var a := o.elems;
    var b := oOld.elems;
    diff := [];
    var i := 0;
    while i < |a|
      invariant 0 <= i <= |a|
      invariant diff == e[..WrittenLength(e, i)]
    {
      diff := DiffIndex(o, oOld, fz, e, i, diff);
      i := i + 1;
    }
    while i < |b|
      invariant |a| <= i <= |e|
      invariant diff == e[..WrittenLength(e, i)]
    {
      assert e[i] == Entry(o, oOld, i, fz) == Remove;
      AssignAfterHoles(e, WrittenLength(e, i), i);
      diff := AssignAt(diff, i, Remove);
      i := i + 1;
    }
    assert i == |e|;
  }

  /** One turn of the first index loop. */
  method DiffIndex(o: Value, oOld: Value, fz: bool, ghost e: seq<Value>, i: nat, diff0: seq<Value>)
    returns (diff: seq<Value>)
    requires o.Arr? && oOld.Arr? && e == DiffEntries(o, oOld, fz)
    requires i < |o.elems| && diff0 == e[..WrittenLength(e, i)]
    ensures diff == e[..WrittenLength(e, i + 1)]
    decreases o, 0
  {
    var a := o.elems;
    var b := oOld.elems;
    assert e[i] == Entry(o, oOld, i, fz);
    if i >= |b| {
      AssignAfterHoles(e, WrittenLength(e, i), i);
      diff := AssignAt(diff0, i, At(a, i));
    } else if At(a, i) != At(b, i) {
      var sub := DiffImmutableRecur(a[i], b[i], fz);
      AssignAfterHoles(e, WrittenLength(e, i), i);
      diff := AssignAt(diff0, i, sub);
    } else {
      diff := diff0;
    }
  }
}
