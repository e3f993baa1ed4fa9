/**
 * Type classification, the frozen-ness tests and the two shallow copies every
 * copy-on-write step starts from.
 */
module Helpers {
  import opened Values

  /** JavaScript `typeof`; a hole reads as `undefined` and `REMOVE` is a symbol. */
  function TypeOf(v: Value): string {
    match v
    case Undef => "undefined"
    case Hole => "undefined"
    case Null => "object"
    case Bool(_) => "boolean"
    case Num(_) => "number"
    case Str(_) => "string"
    case Arr(_, _) => "object"
    case Obj(_, _) => "object"
    case Remove => "symbol"
  }

  /**
   * `getType`: `typeof`, except that arrays report "array" and null reports "null".
   * Each kind of value gets its own name, so two values have the same type exactly
   * when they are of the same kind.
   */
  function GetType(v: Value): (t: string)
    ensures t == "array" <==> v.Arr?
    ensures t == "object" <==> v.Obj?
    ensures t == "null" <==> v.Null?
    ensures t == "undefined" <==> (v.Undef? || v.Hole?)
    ensures t == "boolean" <==> v.Bool?
    ensures t == "number" <==> v.Num?
    ensures t == "string" <==> v.Str?
    ensures t == "symbol" <==> v.Remove?
  {
    var t := TypeOf(v);
    if t == "object" then
      if v.Arr? then "array"
      else if v.Null? then "null"
      else t
    else t
  }

  /** Two values are of the same kind (the test `getType(a) === getType(b)`). */
  predicate SameType(a: Value, b: Value) {
    GetType(a) == GetType(b)
  }

  /** `isFrozen`: only containers can be unfrozen; primitives cannot take a property. */
  predicate IsFrozen(v: Value) {
    !IsContainer(v) || v.frozen
  }

  /** A tree in which every container is frozen. */
  predicate DeepFrozen(v: Value) {
    match v
    case Arr(e, f) => f && forall i :: 0 <= i < |e| ==> DeepFrozen(e[i])
    case Obj(m, f) => f && forall k :: k in m ==> DeepFrozen(m[k])
    case _ => true
  }

  /** `isDeepFrozen`: a scan that stops at the first unfrozen container. */
  method IsDeepFrozen(o: Value) returns (r: bool)
    ensures r == DeepFrozen(o)
    decreases o
  {
    var t := GetType(o);
    if t == "array" {
      if !IsFrozen(o) {
        return false;
      }
      var i := 0;
      while i < |o.elems|
        invariant 0 <= i <= |o.elems|
        invariant forall j :: 0 <= j < i ==> DeepFrozen(o.elems[j])
      {
        var c := IsDeepFrozen(o.elems[i]);
        if !c {
          return false;
        }
        i := i + 1;
      }
    } else if t == "object" {
      if !IsFrozen(o) {
        return false;
      }
      var keys := o.fields.Keys;
      while keys != {}
        invariant keys <= o.fields.Keys
        invariant forall k :: k in o.fields && k !in keys ==> DeepFrozen(o.fields[k])
        decreases keys
      {
        var key :| key in keys;
        var c := IsDeepFrozen(o.fields[key]);
        if !c {
          return false;
        }
        keys := keys - {key};
      }
    }
    return true;
  }

  /** The first `len` slots of `a` read one by one: holes and slots past the end become `undefined`. */
  function Dense(a: seq<Value>, len: nat): (r: seq<Value>)
    ensures |r| == len
    ensures forall i :: 0 <= i < len ==> r[i] == At(a, i)
  {
    seq(len, i requires 0 <= i < len => At(a, i))
  }

  /** `a[i] = x`: an index past the end lengthens the array, leaving holes between. */
  function AssignAt(a: seq<Value>, i: nat, x: Value): (r: seq<Value>)
    ensures |r| == if i < |a| then |a| else i + 1
    ensures r[i] == x
    ensures forall j :: 0 <= j < |a| && j != i ==> r[j] == a[j]
    ensures forall j :: |a| <= j < i ==> r[j] == Hole
  {
    if i < |a| then a[i := x] else a + seq(i - |a|, _ => Hole) + [x]
  }

  /** `shallowCloneArray(a, len)`: a fresh array of length `len` holding `a[i]` at every index. */
  method ShallowCloneArray(a: seq<Value>, len: nat) returns (out: seq<Value>)
    ensures |out| == len
    ensures forall i :: 0 <= i < len ==> out[i] == At(a, i)
    ensures forall i :: 0 <= i < len ==> !out[i].Hole?
    ensures forall i :: |a| <= i < len ==> out[i] == Undef
  {
    var buf := new Value[len];
    var i := 0;
    while i < len
      invariant 0 <= i <= len
      invariant forall j :: 0 <= j < i ==> buf[j] == At(a, j)
    {
      buf[i] := At(a, i);
      i := i + 1;
    }
    out := buf[..];
  }

  /** `shallowCloneObject(o)`: a fresh object with exactly the keys of `o`, each holding the same child. */
  method ShallowCloneObject(o: map<string, Value>) returns (out: map<string, Value>)
    ensures out.Keys == o.Keys
    ensures forall k :: k in o ==> out[k] == o[k]
  {
    out := map[];
    var keys := o.Keys;
    while keys != {}
      invariant keys <= o.Keys
      invariant out.Keys == o.Keys - keys
      invariant forall k :: k in out ==> out[k] == o[k]
      decreases keys
    {
      var key :| key in keys;
      out := out[key := o[key]];
      keys := keys - {key};
    }
  }
}
