/**
 * `normalizePath`: the path argument of the entry points is either an array of keys,
 * used as it is, or an accessor function, whose parsed path has each reference to an
 * extra parameter replaced by the value given for that parameter.
 *
 * Parameter values are modelled as path steps (string keys and array indices); a
 * reference past the values given reads `undefined`, which the walker uses as the key
 * "undefined". The parser's negative and `NaN` indices have no step in this model.
 */
module Paths {
  import opened Wrappers
  import opened Values
  import opened FunctionParse

  /** The path argument: an array of keys, or an accessor function given by its source text. */
  datatype PathArg = Steps(steps: seq<Step>) | Accessor(source: string)

  /** The accessor did not parse, or its path holds a numeric step outside the model. */
  datatype PathError = ParseFailed(error: ParseError) | Unsupported(seg: Seg)

  /** The step a parsed segment stands for. */
  function StepOf(seg: Seg, paramValues: seq<Step>): (r: Result<Step, PathError>)
    ensures seg.Name? ==> r == Ok(Key(seg.name))
    ensures seg.Param? && seg.paramIdx < |paramValues| ==> r == Ok(paramValues[seg.paramIdx])
    ensures seg.Param? && seg.paramIdx >= |paramValues| ==> r == Ok(Key("undefined"))
    ensures seg.Index? && seg.n >= 0 ==> r == Ok(Idx(seg.n))
    ensures r.Err? <==> (seg.Index? && seg.n < 0) || seg.NotANumber?
  {
    match seg
    case Name(n) => Ok(Key(n))
    case Index(v) => if v >= 0 then Ok(Idx(v)) else Err(Unsupported(seg))
    case NotANumber => Err(Unsupported(seg))
    case Param(k) => Ok(if k < |paramValues| then paramValues[k] else Key("undefined"))
  }

  /** `parsedPath.map(...)`: every segment replaced by its step. */
  function Substitute(segs: seq<Seg>, paramValues: seq<Step>): (r: Result<seq<Step>, PathError>)
    ensures r.Ok? ==> |r.value| == |segs|
    ensures r.Ok? ==> forall i :: 0 <= i < |segs| ==> StepOf(segs[i], paramValues) == Ok(r.value[i])
    ensures r.Err? <==> exists i :: 0 <= i < |segs| && StepOf(segs[i], paramValues).Err?
    decreases |segs|
  {
    if segs == [] then Ok([])
    else
      var step :- StepOf(segs[0], paramValues);
      var rest :- Substitute(segs[1..], paramValues);
      Ok([step] + rest)
  }

  /** What `normalizePath(path, paramValues)` returns. */
  function NormalPath(path: PathArg, paramValues: seq<Step>): (r: Result<seq<Step>, PathError>)
    ensures path.Steps? ==> r == Ok(path.steps)
    ensures path.Accessor? && ParseFunctionResult(path.source).Err? ==>
      r == Err(ParseFailed(ParseFunctionResult(path.source).error))
    ensures path.Accessor? && ParseFunctionResult(path.source).Ok? ==>
      r == Substitute(ParseFunctionResult(path.source).value, paramValues)
  {
    match path
    case Steps(s) => Ok(s)
    case Accessor(src) =>
      match ParseFunctionResult(src)
      case Err(e) => Err(ParseFailed(e))
      case Ok(segs) => Substitute(segs, paramValues)
  }

  /** The parser's memo table after normalising `path`: only an accessor is parsed. */
  function CacheAfter(cache: map<string, seq<Seg>>, path: PathArg): map<string, seq<Seg>> {
    if path.Accessor? then Remember(cache, path.source) else cache
  }

  /** `normalizePath`, parsing an accessor through the memoising parser. */
  method NormalizePath(parser: FunctionParser, path: PathArg, paramValues: seq<Step>)
    returns (r: Result<seq<Step>, PathError>)
    requires parser.Valid()
    modifies parser
    ensures parser.Valid()
    ensures r == NormalPath(path, paramValues)
    ensures parser.cache == CacheAfter(old(parser.cache), path)
  {
    if path.Steps? {
      return Ok(path.steps);
    }
    var parsed := parser.ParseFunction(path.source);
    if parsed.Err? {
      return Err(ParseFailed(parsed.error));
    }
    r := Substitute(parsed.value, paramValues);
  }
}
