/**
 * The public entry points of the library and the collection helpers.
 *
 * `replaceImmutable`, `updateImmutable`, `deepUpdateImmutable`, `applyDiffImmutable` and
 * `deleteImmutable` normalise their path (an array or an accessor) and hand it to the
 * walker with their comparator; the one-argument form (no path) updates the root
 * itself. The increment and array entry points take an array path and pass their
 * update function with its parameter. `filterImmutable` and `mapImmutable` rebuild one
 * container, returning the input itself when nothing changes; `deepFreeze` freezes a
 * tree.
 */
module Utils {
  import opened Wrappers
  import opened Values
  import opened Helpers
  import opened Merging
  import opened Modifying
  import opened FunctionParse
  import opened Paths

  /** The path of an entry point that may omit it: the one-argument form updates the root (`[]`). */
  function PathOrRoot(path: Option<PathArg>): PathArg {
    if path.None? then Steps([]) else path.value
  }

  /** What an entry point with a path argument returns: the walk along the normalised path. */
  function UpdateAt(root: Val, path: Option<PathArg>, value: NewValue, paramValues: seq<Step>, op: UpdateFunc, fz: bool)
    : (r: Result<Val, PathError>)
    requires Accepts(op, value)
    ensures r.Err? <==> NormalPath(PathOrRoot(path), paramValues).Err?
  {
    var steps :- NormalPath(PathOrRoot(path), paramValues);
    Ok(Modify(root, steps, value, op, fz))
  }

  /** The shared body of the entry points that take a path argument. */
  method ModifyAt(parser: FunctionParser, root: Val, path: Option<PathArg>, value: NewValue, paramValues: seq<Step>,
                  op: UpdateFunc, fz: bool)
    returns (r: Result<Val, PathError>)
    requires parser.Valid() && Accepts(op, value)
    modifies parser
    ensures parser.Valid()
    ensures r == UpdateAt(root, path, value, paramValues, op, fz)
    ensures parser.cache == CacheAfter(old(parser.cache), PathOrRoot(path))
  {
    var steps := NormalizePath(parser, PathOrRoot(path), paramValues);
    if steps.Err? {
      return Err(steps.error);
    }
    var v := ModifyImmutableInternal(root, steps.value, value, op, fz);
    r := Ok(v);
  }

  /** `replaceImmutable`: the value replaces what the path holds. */
  method ReplaceImmutable(parser: FunctionParser, root: Val, path: Option<PathArg>, value: NewValue, paramValues: seq<Step>, fz: bool)
    returns (r: Result<Val, PathError>)
    requires parser.Valid()
    modifies parser
    ensures parser.Valid()
    ensures r == UpdateAt(root, path, value, paramValues, CmpAndSet, fz)
    ensures parser.cache == CacheAfter(old(parser.cache), PathOrRoot(path))
  {
    r := ModifyAt(parser, root, path, value, paramValues, CmpAndSet, fz);
  }

  /** `updateImmutable`: the value is merged one level deep into what the path holds. */
  method UpdateImmutable(parser: FunctionParser, root: Val, path: Option<PathArg>, value: NewValue, paramValues: seq<Step>, fz: bool)
    returns (r: Result<Val, PathError>)
    requires parser.Valid()
    modifies parser
    ensures parser.Valid()
    ensures r == UpdateAt(root, path, value, paramValues, CmpAndMerge, fz)
    ensures parser.cache == CacheAfter(old(parser.cache), PathOrRoot(path))
  {
    r := ModifyAt(parser, root, path, value, paramValues, CmpAndMerge, fz);
  }

  /** `deepUpdateImmutable`: objects are merged at every depth, arrays replaced below the top. */
  method DeepUpdateImmutable(parser: FunctionParser, root: Val, path: Option<PathArg>, value: NewValue, paramValues: seq<Step>, fz: bool)
    returns (r: Result<Val, PathError>)
    requires parser.Valid()
    modifies parser
    ensures parser.Valid()
    ensures r == UpdateAt(root, path, value, paramValues, CmpAndDeepMerge, fz)
    ensures parser.cache == CacheAfter(old(parser.cache), PathOrRoot(path))
  {
    r := ModifyAt(parser, root, path, value, paramValues, CmpAndDeepMerge, fz);
  }

  /** `applyDiffImmutable`: the value is a patch from the differ. */
  method ApplyDiffImmutable(parser: FunctionParser, root: Val, path: Option<PathArg>, value: NewValue, paramValues: seq<Step>, fz: bool)
    returns (r: Result<Val, PathError>)
    requires parser.Valid()
    modifies parser
    ensures parser.Valid()
    ensures r == UpdateAt(root, path, value, paramValues, CmpAndApplyDiff, fz)
    ensures parser.cache == CacheAfter(old(parser.cache), PathOrRoot(path))
  {
    r := ModifyAt(parser, root, path, value, paramValues, CmpAndApplyDiff, fz);
  }

  /** `deleteImmutable`: a replace by `REMOVE`. */
  method DeleteImmutable(parser: FunctionParser, root: Val, path: PathArg, paramValues: seq<Step>, fz: bool)
    returns (r: Result<Val, PathError>)
    requires parser.Valid()
    modifies parser
    ensures parser.Valid()
    ensures r == UpdateAt(root, Some(path), Literal(Remove), paramValues, CmpAndSet, fz)
    ensures parser.cache == CacheAfter(old(parser.cache), path)
  {
    r := ModifyAt(parser, root, Some(path), Literal(Remove), paramValues, CmpAndSet, fz);
  }

  /** `incrementImmutable` */
  method IncrementImmutable(root: Val, path: seq<Step>, amount: int, fz: bool) returns (r: Val)
    ensures r == Modify(root, path, Literal(Num(amount)), Increment, fz)
  {
    r := ModifyImmutableInternal(root, path, Literal(Num(amount)), Increment, fz);
  }

  /** `arrayConcatImmutable` */
  method ArrayConcatImmutable(root: Val, path: seq<Step>, values: Val, fz: bool) returns (r: Val)
    requires values.Arr?
    ensures r == Modify(root, path, Literal(values), Join(false), fz)
  {
    r := ModifyImmutableInternal(root, path, Literal(values), Join(false), fz);
  }

  /** `arrayPushImmutable`: the rest arguments form a fresh array. */
  method ArrayPushImmutable(root: Val, path: seq<Step>, values: seq<Val>, fz: bool) returns (r: Val)
    ensures r == Modify(root, path, Literal(Arr(values, false)), Join(false), fz)
  {
    r := ModifyImmutableInternal(root, path, Literal(Arr(values, false)), Join(false), fz);
  }

  /** `arrayPopImmutable`: `slice(0, -1)` */
  method ArrayPopImmutable(root: Val, path: seq<Step>, fz: bool) returns (r: Val)
    ensures r == Modify(root, path, Literal(Null), SliceRange(0, Some(-1)), fz)
  {
    r := ModifyImmutableInternal(root, path, Literal(Null), SliceRange(0, Some(-1)), fz);
  }

  /** `arrayShiftImmutable`: `slice(1)` */
  method ArrayShiftImmutable(root: Val, path: seq<Step>, fz: bool) returns (r: Val)
    ensures r == Modify(root, path, Literal(Null), SliceRange(1, None), fz)
  {
    r := ModifyImmutableInternal(root, path, Literal(Null), SliceRange(1, None), fz);
  }

  /** `arrayUnshiftImmutable` */
  method ArrayUnshiftImmutable(root: Val, path: seq<Step>, values: seq<Val>, fz: bool) returns (r: Val)
    ensures r == Modify(root, path, Literal(Arr(values, false)), Join(true), fz)
  {
    r := ModifyImmutableInternal(root, path, Literal(Arr(values, false)), Join(true), fz);
  }

  /** `arraySliceImmutable` */
  method ArraySliceImmutable(root: Val, path: seq<Step>, start: int, end: Option<int>, fz: bool) returns (r: Val)
    ensures r == Modify(root, path, Literal(Null), SliceRange(start, end), fz)
  {
    r := ModifyImmutableInternal(root, path, Literal(Null), SliceRange(start, end), fz);
  }

  /** `arraySpliceImmutable` */
  method ArraySpliceImmutable(root: Val, path: seq<Step>, index: int, deleteCount: int, values: seq<Val>, fz: bool)
    returns (r: Val)
    ensures r == Modify(root, path, Literal(Arr(values, false)), Splice(index, deleteCount), fz)
  {
    r := ModifyImmutableInternal(root, path, Literal(Arr(values, false)), Splice(index, deleteCount), fz);
  }

  /** The elements that pass the filter, in order, each read as `for...of` reads it. */
  function Passing(s: seq<Value>, keep: Val -> bool): (r: seq<Val>)
    ensures |r| <= |s|
    decreases |s|
  {
    if s == [] then []
    else
      var x := Norm(s[|s| - 1]);
      Passing(s[..|s| - 1], keep) + (if keep(x) then [x] else [])
  }

  /** Every element passes the filter. */
  predicate AllPass(s: seq<Value>, keep: Val -> bool) {
    forall i :: 0 <= i < |s| ==> keep(Norm(s[i]))
  }

  /** Every field passes the filter. */
  predicate AllFieldsPass(m: map<string, Value>, keep: Val -> bool) {
    forall k :: k in m ==> keep(Norm(m[k]))
  }

  /** The fields that pass the filter, with their values. */
  function PassingFields(m: map<string, Value>, keep: Val -> bool): (r: map<string, Val>)
    ensures forall k :: k in r <==> k in m && keep(Norm(m[k]))
    ensures forall k :: k in r ==> r[k] == Norm(m[k])
  {
    map k | k in m && keep(Norm(m[k])) :: Norm(m[k])
  }

  /** What `filterImmutable` returns: the input itself when every entry passes, else a fresh container of the passing entries. */
  function Filter(val: Val, keep: Val -> bool, fz: bool): Val
    requires val.Arr? || val.Obj?
  {
    if val.Arr? then
      if AllPass(val.elems, keep) then val else Arr(Passing(val.elems, keep), fz)
    else
      if AllFieldsPass(val.fields, keep) then val else Obj(PassingFields(val.fields, keep), fz)
  }

  /** `filterImmutable`: one loop over the entries, remembering whether any was dropped. */
  method FilterImmutable(val: Val, keep: Val -> bool, fz: bool) returns (r: Val)
    requires val.Arr? || val.Obj?
    ensures r == Filter(val, keep, fz)
  {
    if val.Arr? {
      var out, changed := FilterElems(val.elems, keep);
      if !changed {
        return val;
      }
      r := Arr(out, fz);
    } else {
      var out, changed := FilterFields(val.fields, keep);
      if !changed {
        return val;
      }
      r := Obj(out, fz);
    }
  }

  /** The array loop of `filterImmutable`. */
  method FilterElems(s: seq<Value>, keep: Val -> bool) returns (out: seq<Val>, changed: bool)
    ensures out == Passing(s, keep)
    ensures changed <==> !AllPass(s, keep)
  {
    changed := false;
    out := [];
    var i := 0;
    while i < |s|
      invariant 0 <= i <= |s|
      invariant out == Passing(s[..i], keep)
      invariant changed <==> !AllPass(s[..i], keep)
    {
      assert s[..i + 1][..i] == s[..i];
      var v := Norm(s[i]);
      if keep(v) {
        out := out + [v];
      } else {
        changed := true;
      }
      i := i + 1;
    }
    assert s[..|s|] == s;
  }

  /** The key loop of `filterImmutable`. */
  method FilterFields(m: map<string, Value>, keep: Val -> bool) returns (out: map<string, Val>, changed: bool)
    ensures out == PassingFields(m, keep)
    ensures changed <==> !AllFieldsPass(m, keep)
  {
    changed := false;
    out := map[];
    var todo := m.Keys;
    while todo != {}
      invariant todo <= m.Keys
      invariant out == map k | k in m && k !in todo && keep(Norm(m[k])) :: Norm(m[k])
      invariant changed <==> exists k :: k in m && k !in todo && !keep(Norm(m[k]))
      decreases todo
    {
      var key :| key in todo;
      if keep(Norm(m[key])) {
        out := out[key := Norm(m[key])];
      } else {
        changed := true;
      }
      todo := todo - {key};
    }
  }

  /** The fresh container `out` that `mapImmutable` fills with the callback's results. */
  function Mapped(val: Val, callback: (Val, Step) -> Val): (out: Val)
    requires val.Arr? || val.Obj?
    ensures val.Arr? ==> out.Arr? && |out.elems| == |val.elems|
    ensures val.Arr? ==> forall i :: 0 <= i < |val.elems| ==> out.elems[i] == callback(At(val.elems, i), Idx(i))
    ensures val.Obj? ==> out.Obj? && out.fields.Keys == val.fields.Keys
    ensures val.Obj? ==> forall k :: k in val.fields ==> out.fields[k] == callback(FieldOf(val.fields, k), Key(k))
  {
    if val.Arr? then
      var elems: seq<Value> := seq(|val.elems|, i requires 0 <= i < |val.elems| => callback(At(val.elems, i), Idx(i)));
      var r: Value := Arr(elems, false);
      r
    else
      var fields: map<string, Value> := map k | k in val.fields :: callback(FieldOf(val.fields, k), Key(k));
      var r: Value := Obj(fields, false);
      r
  }

  /** What `mapImmutable` returns: `replaceImmutable(val, out)`, the one-argument form. */
  function MapResult(val: Val, callback: (Val, Step) -> Val, fz: bool): Val
    requires val.Arr? || val.Obj?
  {
    Modify(val, [], Literal(Mapped(val, callback)), CmpAndSet, fz)
  }

  /** `mapImmutable`: the callback fills a fresh container, which then replaces `val`. */
  method MapImmutable(val: Val, callback: (Val, Step) -> Val, fz: bool) returns (r: Val)
    requires val.Arr? || val.Obj?
    ensures r == MapResult(val, callback, fz)
  {
    var out: Val;
    if val.Arr? {
      var e := MapElems(val.elems, callback);
      out := Arr(e, false);
    } else {
      var o := MapFields(val.fields, callback);
      out := Obj(o, false);
    }
    r := ModifyImmutableInternal(val, [], Literal(out), CmpAndSet, fz);
  }

  /** `for (let i = 0; i < val.length; ++i) out[i] = callback(val[i], i)` */
  method MapElems(s: seq<Value>, callback: (Val, Step) -> Val) returns (e: seq<Val>)
    ensures e == Mapped(Arr(s, false), callback).elems
  {
    e := [];
    var i := 0;
    while i < |s|
      invariant 0 <= i <= |s| && |e| == i
      invariant forall j :: 0 <= j < i ==> e[j] == callback(At(s, j), Idx(j))
    {
      e := e + [callback(At(s, i), Idx(i))];
      i := i + 1;
    }
  }

  /** `for (const key in val) out[key] = callback(val[key], key)` */
  method MapFields(m: map<string, Value>, callback: (Val, Step) -> Val) returns (o: map<string, Val>)
    ensures o == Mapped(Obj(m, false), callback).fields
  {
    o := map[];
    var todo := m.Keys;
    while todo != {}
      invariant todo <= m.Keys
      invariant o == map k | k in m && k !in todo :: callback(FieldOf(m, k), Key(k))
      decreases todo
    {
      var key :| key in todo;
      o := o[key := callback(FieldOf(m, key), Key(key))];
      todo := todo - {key};
    }
  }

  /** The tree with every container frozen; what the children of a container read stays the same. */
  function Freeze(v: Value): (r: Value)
    ensures v.Arr? ==> r.Arr? && |r.elems| == |v.elems|
    ensures v.Obj? ==> r.Obj? && r.fields.Keys == v.fields.Keys
    ensures !IsContainer(v) ==> r == v
    decreases v
  {
    match v
    case Arr(e, _) => Arr(seq(|e|, i requires 0 <= i < |e| => Freeze(e[i])), true)
    case Obj(m, _) => Obj(map k | k in m :: Freeze(m[k]), true)
    case _ => v
  }

  /** `deepFreeze`: the children first, then the container itself. */
  method DeepFreeze(o: Value) returns (r: Value)
    ensures r == Freeze(o)
    decreases o
  {
    var t := GetType(o);
    if t == "object" {
      var m := o.fields;
      var out: map<string, Value> := map[];
      var todo := m.Keys;
      while todo != {}
        invariant todo <= m.Keys
        invariant out == map k | k in m && k !in todo :: Freeze(m[k])
        decreases todo
      {
        var key :| key in todo;
        var c := DeepFreeze(m[key]);
        out := out[key := c];
        todo := todo - {key};
      }
      r := Obj(out, true);
    } else if t == "array" {
      var s := o.elems;
      var out: seq<Value> := [];
      var i := 0;
      while i < |s|
        invariant 0 <= i <= |s| && |out| == i
        invariant forall j :: 0 <= j < i ==> out[j] == Freeze(s[j])
      {
        var c := DeepFreeze(s[i]);
        out := out + [c];
        i := i + 1;
      }
      r := Arr(out, true);
    } else {
      r := o;
    }
  }
}
