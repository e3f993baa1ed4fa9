/**
 * Deep and shallow copies of a tree: `cloneImmutable`, `cloneMutable` and
 * `shallowCloneMutable`. `fz` is the library-wide freeze switch
 * (`freezeImmutableStructures`), passed down explicitly.
 */
module Cloning {
  import opened Values
  import opened Helpers

  /**
   * The deep copy: every container is fresh and frozen exactly when `fz` holds, and
   * every hole of a copied array is `undefined` (the shallow array copy reads each slot).
   */
  function Clone(v: Value, fz: bool): Val
    decreases v
  {
    match v
    case Arr(e, _) => Arr(seq(|e|, i requires 0 <= i < |e| => Clone(e[i], fz)), fz)
    case Obj(m, _) => Obj(map k | k in m :: Clone(m[k], fz), fz)
    case _ => Norm(v)
  }

  /** A tree without holes at any depth. */
  predicate NoHoles(v: Value) {
    match v
    case Hole => false
    case Arr(e, _) => forall i :: 0 <= i < |e| ==> NoHoles(e[i])
    case Obj(m, _) => forall k :: k in m ==> NoHoles(m[k])
    case _ => true
  }

  /** A tree in which no container is frozen. */
  predicate NoneFrozen(v: Value) {
    match v
    case Arr(e, f) => !f && forall i :: 0 <= i < |e| ==> NoneFrozen(e[i])
    case Obj(m, f) => !f && forall k :: k in m ==> NoneFrozen(m[k])
    case _ => true
  }

  /** The copy has the shape and contents of the original. */
  lemma {:induction false} CloneDeepEqual(v: Value, fz: bool)
    ensures DeepEqual(Clone(v, fz), v)
    ensures DeepEqual(v, Clone(v, fz))
    ensures GetType(Clone(v, fz)) == GetType(v)
    decreases v
  {
    match v
    case Arr(e, _) =>
      forall i | 0 <= i < |e| ensures DeepEqual(Clone(e[i], fz), e[i]) && DeepEqual(e[i], Clone(e[i], fz)) {
        CloneDeepEqual(e[i], fz);
      }
    case Obj(m, _) =>
      forall k | k in m ensures DeepEqual(Clone(m[k], fz), m[k]) && DeepEqual(m[k], Clone(m[k], fz)) {
        CloneDeepEqual(m[k], fz);
      }
    case _ =>
  }

  /** With freezing on, the copy is frozen all the way down; with freezing off, nowhere. */
  lemma {:induction false} CloneFrozen(v: Value, fz: bool)
    ensures fz ==> DeepFrozen(Clone(v, fz))
    ensures !fz ==> NoneFrozen(Clone(v, fz))
    ensures NoHoles(Clone(v, fz))
    decreases v
  {
    match v
    case Arr(e, _) =>
      forall i | 0 <= i < |e|
        ensures (fz ==> DeepFrozen(Clone(e[i], fz))) && (!fz ==> NoneFrozen(Clone(e[i], fz))) && NoHoles(Clone(e[i], fz))
      {
        CloneFrozen(e[i], fz);
      }
    case Obj(m, _) =>
      forall k | k in m
        ensures (fz ==> DeepFrozen(Clone(m[k], fz))) && (!fz ==> NoneFrozen(Clone(m[k], fz))) && NoHoles(Clone(m[k], fz))
      {
        CloneFrozen(m[k], fz);
      }
    case _ =>
  }

  /** Copying a copy gives the same copy. */
  lemma {:induction false} CloneIdempotent(v: Value, fz: bool)
    ensures Clone(Clone(v, fz), fz) == Clone(v, fz)
    decreases v
  {
    match v
    case Arr(e, _) =>
      var c := Clone(v, fz);
      forall i | 0 <= i < |e| ensures Clone(c.elems[i], fz) == c.elems[i] {
        CloneIdempotent(e[i], fz);
      }
      assert Clone(c, fz).elems == c.elems;
    case Obj(m, _) =>
      var c := Clone(v, fz);
      forall k | k in m ensures Clone(c.fields[k], fz) == c.fields[k] {
        CloneIdempotent(m[k], fz);
      }
      assert Clone(c, fz).fields == c.fields;
    case _ =>
  }

  /** A value without containers is its own copy. */
  lemma ClonePrimitive(v: Val, fz: bool)
    requires !IsContainer(v)
    ensures Clone(v, fz) == v
  {
  }

  /**
   * `cloneImmutable`: copies arrays slot by slot and objects key by key, cloning each
   * child, then freezes the copy when freezing is on.
   */
  method CloneImmutable(root: Value, fz: bool) returns (r: Val)
    ensures r == Clone(root, fz)
    decreases root, 1
  {
    var rootType := GetType(root);
    if rootType == "array" {
      var copy := ShallowCloneArray(root.elems, |root.elems|);
      copy := CloneSlots(root, fz, copy);
      r := Arr(copy, fz);
    } else if rootType == "object" {
      var copy := ShallowCloneObject(root.fields);
      copy := CloneFields(root, fz, copy);
      r := Obj(copy, fz);
    } else {
      r := Norm(root);
    }
  }

  /** The loop replacing each slot of the shallow copy of an array by its clone. */
  method CloneSlots(root: Value, fz: bool, copy: seq<Value>) returns (out: seq<Value>)
    requires root.Arr? && |copy| == |root.elems|
    ensures out == seq(|root.elems|, i requires 0 <= i < |root.elems| => Clone(root.elems[i], fz))
    decreases root, 0
  {
    out := copy;
    var i := 0;
    while i < |out|
      invariant |out| == |root.elems|
      invariant 0 <= i <= |out|
      invariant forall j :: 0 <= j < i ==> out[j] == Clone(root.elems[j], fz)
    {
      // out[i] reads root.elems[i]; a hole and `undefined` have the same copy
      var c := CloneImmutable(root.elems[i], fz);
      out := out[i := c];
      i := i + 1;
    }
  }

  /** The loop replacing each field of the shallow copy of an object by its clone. */
  method CloneFields(root: Value, fz: bool, copy: map<string, Value>) returns (out: map<string, Value>)
    requires root.Obj? && copy == root.fields
    ensures out == map k | k in root.fields :: Clone(root.fields[k], fz)
    decreases root, 0
  {
    out := copy;
    var keys := out.Keys;
    while keys != {}
      invariant keys <= root.fields.Keys
      invariant out.Keys == root.fields.Keys
      invariant forall k :: k in out ==> out[k] == if k in keys then root.fields[k] else Clone(root.fields[k], fz)
      decreases keys
    {
      var key :| key in keys;
      var c := CloneImmutable(out[key], fz);
      out := out[key := c];
      keys := keys - {key};
    }
  }

  /** `cloneMutable`: the same deep copy with no container frozen. */
  method CloneMutable(root: Value) returns (r: Val)
    ensures r == Clone(root, false)
    ensures DeepEqual(r, root)
    ensures NoneFrozen(r)
  {
    r := CloneImmutable(root, false);
    CloneDeepEqual(root, false);
    CloneFrozen(root, false);
  }

  /** `shallowCloneMutable`: a fresh unfrozen container holding the very same children. */
  method ShallowCloneMutable(root: Val) returns (r: Val)
    ensures root.Arr? ==> r == Arr(Dense(root.elems, |root.elems|), false)
    ensures root.Obj? ==> r == Obj(root.fields, false)
    ensures !IsContainer(root) ==> r == root
    ensures DeepEqual(r, root)
  {
    var rootType := GetType(root);
    if rootType == "array" {
      var copy := ShallowCloneArray(root.elems, |root.elems|);
      r := Arr(copy, false);
      forall i | 0 <= i < |copy| ensures DeepEqual(copy[i], root.elems[i]) {
        DeepEqualRefl(root.elems[i]);
      }
    } else if rootType == "object" {
      var copy := ShallowCloneObject(root.fields);
      r := Obj(copy, false);
      forall k | k in copy ensures DeepEqual(copy[k], root.fields[k]) {
        DeepEqualRefl(root.fields[k]);
      }
    } else {
      r := root;
    }
  }
}
