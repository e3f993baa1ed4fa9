/**
 * The update functions the walker applies at the end of a path besides the four
 * comparators: `incrementNumber`, `arrayJoin` (push, unshift, concat), `arraySlice`
 * (pop, shift, slice) and `arraySplice`. Numbers are integers.
 */
module LeafOps {
  import opened Wrappers
  import opened Values
  import opened Helpers
  import opened Cloning
  import JsBuiltins

  /** `incrementNumber`: adds to a number, and stands in for anything else. */
  function IncrementNumber(dst: Val, amount: int): (r: Val)
    ensures r.Num?
  {
    if dst.Num? then Num(dst.n + amount) else Num(amount)
  }

  /**
   * `arrayJoin`: the values are copied; onto an array they are appended, or prepended
   * when `atFront`, in a fresh array; anything else is replaced by the copy.
   */
  function ArrayJoin(dst: Val, values: Val, atFront: bool, fz: bool): (r: Val)
    requires values.Arr?
    ensures r.Arr?
  {
    var c := Clone(values, fz);
    if !dst.Arr? then c
    else Arr(if atFront then c.elems + dst.elems else dst.elems + c.elems, fz)
  }

  /** `arraySlice`: a fresh array holding `dst.slice(start, end)`, or an empty one when `dst` is not an array. */
  function ArraySlice(dst: Val, start: int, end: Option<int>, fz: bool): (r: Val)
    ensures r.Arr? && r.frozen == fz
  {
    Arr(if dst.Arr? then JsBuiltins.Slice(dst.elems, start, end) else [], fz)
  }

  /**
   * `arraySplice`: the copied values between `dst.slice(0, index)` and
   * `dst.slice(index + deleteCount)`, or the copy alone when `dst` is not an array.
   */
  function ArraySplice(dst: Val, values: Val, index: int, deleteCount: int, fz: bool): (r: Val)
    requires values.Arr?
    ensures r.Arr?
  {
    var c := Clone(values, fz);
    if !dst.Arr? then c
    else
      Arr(JsBuiltins.Slice(dst.elems, 0, Some(index)) + c.elems
        + JsBuiltins.Slice(dst.elems, index + deleteCount, None), fz)
  }

  /** Two increments add up, and increments of a non-number start from zero. */
  lemma IncrementCompose(dst: Val, a: int, b: int)
    ensures IncrementNumber(IncrementNumber(dst, a), b) == IncrementNumber(dst, a + b)
    ensures IncrementNumber(dst, a).n == (if dst.Num? then dst.n else 0) + a
  {
  }

  /** Every element of the copied values is the copy of the given element. */
  lemma CloneElems(values: Val, fz: bool)
    requires values.Arr?
    ensures Clone(values, fz).elems == seq(|values.elems|, i requires 0 <= i < |values.elems| => Clone(values.elems[i], fz))
    ensures |Clone(values, fz).elems| == |values.elems|
    ensures forall i :: 0 <= i < |values.elems| ==> Clone(values, fz).elems[i] == Clone(values.elems[i], fz)
  {
  }

  /** `arrayPush`/`arrayConcat` onto an array: the destination elements, then copies of the values, in a fresh array. */
  lemma JoinAppends(dst: Val, values: Val, fz: bool)
    requires dst.Arr? && values.Arr?
    ensures var r := ArrayJoin(dst, values, false, fz);
      && |r.elems| == |dst.elems| + |values.elems|
      && r.frozen == fz
      && r.elems[..|dst.elems|] == dst.elems
      && (forall i :: 0 <= i < |values.elems| ==> r.elems[|dst.elems| + i] == Clone(values.elems[i], fz))
  {
    CloneElems(values, fz);
    var c := Clone(values, fz).elems;
    assert ArrayJoin(dst, values, false, fz).elems == dst.elems + c;
  }

  /** `arrayUnshift` onto an array: copies of the values, then the destination elements, in a fresh array. */
  lemma JoinPrepends(dst: Val, values: Val, fz: bool)
    requires dst.Arr? && values.Arr?
    ensures var r := ArrayJoin(dst, values, true, fz);
      && |r.elems| == |dst.elems| + |values.elems|
      && r.frozen == fz
      && r.elems[|values.elems|..] == dst.elems
      && (forall i :: 0 <= i < |values.elems| ==> r.elems[i] == Clone(values.elems[i], fz))
  {
    CloneElems(values, fz);
    var c := Clone(values, fz).elems;
    assert ArrayJoin(dst, values, true, fz).elems == c + dst.elems;
  }

  /** Joining onto anything but an array gives a deep copy of the values, frozen all the way down when freezing is on. */
  lemma JoinCreates(dst: Val, values: Val, atFront: bool, fz: bool)
    requires !dst.Arr? && values.Arr?
    ensures DeepEqual(ArrayJoin(dst, values, atFront, fz), values)
    ensures fz ==> DeepFrozen(ArrayJoin(dst, values, atFront, fz))
  {
    CloneDeepEqual(values, fz);
    CloneFrozen(values, fz);
  }

  /** `arrayPop` (`slice(0, -1)`) drops the last element; `arrayShift` (`slice(1)`) drops the first. */
  lemma PopShiftShape(dst: Val, fz: bool)
    requires dst.Arr?
    ensures |dst.elems| > 0 ==> ArraySlice(dst, 0, Some(-1), fz).elems == dst.elems[..|dst.elems| - 1]
    ensures |dst.elems| > 0 ==> ArraySlice(dst, 1, None, fz).elems == dst.elems[1..]
    ensures |dst.elems| == 0 ==> ArraySlice(dst, 0, Some(-1), fz).elems == [] == ArraySlice(dst, 1, None, fz).elems
  {
  }

  /** Popping after pushing one value gives back the original elements. */
  lemma PushThenPop(dst: Val, x: Value, b: bool, fz: bool)
    requires dst.Arr?
    ensures ArraySlice(ArrayJoin(dst, Arr([x], b), false, fz), 0, Some(-1), fz) == Arr(dst.elems, fz)
  {
    var j := ArrayJoin(dst, Arr([x], b), false, fz);
    assert j.elems == dst.elems + [Clone(x, fz)];
    assert j.elems[..|j.elems| - 1] == dst.elems;
  }

  /** Shifting after unshifting one value gives back the original elements. */
  lemma UnshiftThenShift(dst: Val, x: Value, b: bool, fz: bool)
    requires dst.Arr?
    ensures ArraySlice(ArrayJoin(dst, Arr([x], b), true, fz), 1, None, fz) == Arr(dst.elems, fz)
  {
    var j := ArrayJoin(dst, Arr([x], b), true, fz);
    assert j.elems == [Clone(x, fz)] + dst.elems;
    assert j.elems[1..] == dst.elems;
  }

  /**
   * Within bounds, splicing replaces `deleteCount` elements at `index` by copies of the
   * values and keeps the elements around them.
   */
  lemma SpliceShape(dst: Val, values: Val, index: int, deleteCount: int, fz: bool)
    requires dst.Arr? && values.Arr?
    requires 0 <= index && 0 <= deleteCount && index + deleteCount <= |dst.elems|
    ensures ArraySplice(dst, values, index, deleteCount, fz).elems ==
      dst.elems[..index] + Clone(values, fz).elems + dst.elems[index + deleteCount..]
    ensures |ArraySplice(dst, values, index, deleteCount, fz).elems| ==
      |dst.elems| - deleteCount + |values.elems|
  {
    assert JsBuiltins.Slice(dst.elems, 0, Some(index)) == dst.elems[0..index];
  }

  /** Splicing in nothing and deleting nothing keeps the elements, at any index, even a negative one or one past the end. */
  lemma SpliceNothing(dst: Val, index: int, b: bool, fz: bool)
    requires dst.Arr?
    ensures ArraySplice(dst, Arr([], b), index, 0, fz) == Arr(dst.elems, fz)
  {
    var d := dst.elems;
    var k := JsBuiltins.RelativeIndex(index, |d|);
    assert JsBuiltins.Slice(d, 0, Some(index)) == d[..k];
    assert JsBuiltins.Slice(d, index, None) == d[k..];
    assert d[..k] + [] + d[k..] == d;
  }

  /**
   * Both slices take the index relative to the end when it is negative, so a negative
   * index with a count reaching past it keeps elements twice: index -1 with count 1 on
   * `[1, 2, 3]` gives `[1, 2, 1, 2, 3]`, where `Array.prototype.splice` would give `[1, 2]`.
   */
  lemma SpliceNegativeIndex(fz: bool)
    ensures ArraySplice(Arr([Num(1), Num(2), Num(3)], false), Arr([], false), -1, 1, fz) ==
      Arr([Num(1), Num(2), Num(1), Num(2), Num(3)], fz)
  {
    var d := [Num(1), Num(2), Num(3)];
    assert JsBuiltins.Slice(d, 0, Some(-1)) == [Num(1), Num(2)];
    assert JsBuiltins.Slice(d, 0, None) == d;
  }
}
