/**
 * The data model: the JavaScript values a tree is made of.
 *
 * Containers carry the `frozen` flag that `Object.freeze` sets. A JavaScript array
 * may be sparse; `Hole` stands for an index below the length that holds no element
 * (a patch produced by the differ has them, and so does an array written past its
 * end). Reading a hole, a missing index or a missing key gives `Undef`, which is what
 * `At` and `FieldOf` return. `Remove` is the `REMOVE` symbol.
 *
 * Reference identity (`===`) is modelled as equality of values.
 */
module Values {

  datatype Value =
    | Undef
    | Null
    | Bool(b: bool)
    | Num(n: int)
    | Str(s: string)
    | Arr(elems: seq<Value>, frozen: bool)
    | Obj(fields: map<string, Value>, frozen: bool)
    | Remove
    | Hole

  /** Every value a JavaScript expression can evaluate to: anything but a hole. */
  type Val = v: Value | !v.Hole? witness Undef

  predicate IsContainer(v: Value) {
    v.Arr? || v.Obj?
  }

  /** What reading a slot gives: a hole reads as `undefined`. */
  function Norm(v: Value): (r: Val)
    ensures !v.Hole? ==> r == v
    ensures v.Hole? ==> r == Undef
  {
    if v.Hole? then Undef else v
  }

  /** `a[i]` */
  function At(a: seq<Value>, i: nat): Val {
    if i < |a| then Norm(a[i]) else Undef
  }

  /** `a.hasOwnProperty(i)` */
  predicate HasIndex(a: seq<Value>, i: nat) {
    i < |a| && !a[i].Hole?
  }

  /** `o[k]` for an own key, `undefined` when the key is absent. */
  function FieldOf(m: map<string, Value>, k: string): Val {
    if k in m then Norm(m[k]) else Undef
  }

  /** One step of a path: an object key (a string) or an array index (a number). */
  datatype Step = Key(key: string) | Idx(index: nat)

  /** A JSON-like tree: null, booleans, numbers, strings, dense arrays and objects of such trees. */
  predicate IsJson(v: Value) {
    match v
    case Null => true
    case Bool(_) => true
    case Num(_) => true
    case Str(_) => true
    case Arr(e, _) => forall i :: 0 <= i < |e| ==> IsJson(e[i])
    case Obj(m, _) => forall k :: k in m ==> IsJson(m[k])
    case _ => false
  }

  /**
   * Deep equality as the test suite's `deep.equal` checks it: same shape, same
   * primitives, same keys; frozen flags are not compared and a hole reads as `undefined`.
   */
  predicate DeepEqual(x: Value, y: Value) {
    if x.Arr? && y.Arr? then
      |x.elems| == |y.elems| && forall i :: 0 <= i < |x.elems| ==> DeepEqual(x.elems[i], y.elems[i])
    else if x.Obj? && y.Obj? then
      x.fields.Keys == y.fields.Keys && forall k :: k in x.fields ==> DeepEqual(x.fields[k], y.fields[k])
    else
      Norm(x) == Norm(y)
  }

  lemma {:induction false} DeepEqualRefl(x: Value)
    ensures DeepEqual(x, x)
  {
    match x
    case Arr(e, _) =>
      forall i | 0 <= i < |e| ensures DeepEqual(e[i], e[i]) { DeepEqualRefl(e[i]); }
    case Obj(m, _) =>
      forall k | k in m ensures DeepEqual(m[k], m[k]) { DeepEqualRefl(m[k]); }
    case _ =>
  }

  lemma {:induction false} DeepEqualSym(x: Value, y: Value)
    requires DeepEqual(x, y)
    ensures DeepEqual(y, x)
  {
    if x.Arr? && y.Arr? {
      forall i | 0 <= i < |y.elems| ensures DeepEqual(y.elems[i], x.elems[i]) {
        DeepEqualSym(x.elems[i], y.elems[i]);
      }
    } else if x.Obj? && y.Obj? {
      forall k | k in y.fields ensures DeepEqual(y.fields[k], x.fields[k]) {
        DeepEqualSym(x.fields[k], y.fields[k]);
      }
    }
  }

  lemma {:induction false} DeepEqualTrans(x: Value, y: Value, z: Value)
    requires DeepEqual(x, y) && DeepEqual(y, z)
    ensures DeepEqual(x, z)
  {
    if x.Arr? && y.Arr? && z.Arr? {
      forall i | 0 <= i < |x.elems| ensures DeepEqual(x.elems[i], z.elems[i]) {
        DeepEqualTrans(x.elems[i], y.elems[i], z.elems[i]);
      }
    } else if x.Obj? && y.Obj? && z.Obj? {
      forall k | k in x.fields ensures DeepEqual(x.fields[k], z.fields[k]) {
        DeepEqualTrans(x.fields[k], y.fields[k], z.fields[k]);
      }
    }
  }

  /** Reading a slot does not change what it is deep-equal to. */
  lemma DeepEqualNorm(x: Value, y: Value)
    ensures DeepEqual(Norm(x), y) <==> DeepEqual(x, y)
    ensures DeepEqual(y, Norm(x)) <==> DeepEqual(y, x)
  {
  }
}
