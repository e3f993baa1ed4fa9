/**
 * The accessor parser: the source text of an accessor such as `(o, s) => o.a[s].b`
 * becomes the path `['a', {paramIdx: 0}, 'b']`. `parseParams` reads the parameter
 * names, `parseReturnPath` splits the returned expression into segments, and
 * `parseFunction` checks that the path starts at the first parameter, drops it and
 * memoises the result per source text.
 *
 * A thrown error is an `Err(Throws(message))`. A bracket with no closing `]` whose content
 * is accepted makes the library's loop spin forever on the same text; the model
 * reports that as `Err(Diverges)`.
 */
module FunctionParse {
  import opened Wrappers
  import opened JsBuiltins

  /** A path segment: a property name, an integer index, `NaN`, or a reference to an extra parameter. */
  datatype Seg = Name(name: string) | Index(n: int) | NotANumber | Param(paramIdx: nat)

  datatype ParseError = Throws(message: string) | Diverges

  /** Each piece trimmed, as `map(s => s.trim())` does. */
  function TrimAll(pieces: seq<string>): (r: seq<string>)
    ensures |r| == |pieces|
    ensures forall i :: 0 <= i < |r| ==> r[i] == Trim(pieces[i])
  {
    seq(|pieces|, i requires 0 <= i < |pieces| => Trim(pieces[i]))
  }

  /**
   * The text holding the parameter list: between the first `(` and the next `)` for a
   * `function` or a parenthesised arrow, else the text before `=>` (or all but the last
   * character when there is no `=>`, as `slice(0, -1)` gives).
   */
  function ParamText(funcStr: string): Result<string, ParseError> {
    if StartsWith(funcStr, "function") || (|funcStr| > 0 && funcStr[0] == '(') then
      var open := IndexOf(funcStr, "(");
      if open < 0 then Err(Throws("failed to parse function parameters: " + funcStr))
      else
        var rest := funcStr[open + 1..];
        var close := IndexOf(rest, ")");
        if close < 0 then Err(Throws("failed to parse function parameters: " + funcStr))
        else Ok(rest[..close])
    else Ok(Slice(funcStr, 0, Some(IndexOf(funcStr, "=>"))))
  }

  /** `parseParams`: the comma-separated names of the parameter text, trimmed. */
  function ParseParams(funcStr: string): (r: Result<seq<string>, ParseError>)
    ensures r.Ok? ==> |r.value| >= 1
  {
    var text :- ParamText(funcStr);
    Ok(TrimAll(Split(text, ',')))
  }

  /**
   * The returned expression: from after the first `return ` (or, without one, after the
   * first `=>`) up to the first `;`, or without one up to the first newline.
   */
  function ReturnText(funcStr: string): Result<string, ParseError> {
    var r := IndexOf(funcStr, "return ");
    var a := IndexOf(funcStr, "=>");
    if r < 0 && a < 0 then Err(Throws("failed to parse function return value: " + funcStr))
    else
      var retStr := funcStr[if r >= 0 then r + 7 else a + 2..];
      var semi := IndexOf(retStr, ";");
      var term := if semi < 0 then IndexOf(retStr, "\n") else semi;
      Ok(if term >= 0 then retStr[..term] else retStr)
  }

  /**
   * The segment a bracket holds: a listed parameter (its position), else an integer
   * written in canonical form, else `NaN` spelled out; anything else throws.
   */
  function BracketSeg(inner: string, params: seq<string>): Result<Seg, ParseError> {
    var p := IndexOf(params, [inner]);
    if p >= 0 then Ok(Param(p))
    else
      match ParseInt(inner)
      case None =>
        if inner == "NaN" then Ok(NotANumber)
        else Err(Throws("failed to parse return value, unknown param \"" + inner + "\" found"))
      case Some(v) =>
        if IntToString(v) == inner then Ok(Index(v))
        else Err(Throws("failed to parse return value, unknown param \"" + inner + "\" found"))
  }

  /** `segs` in front of a successful parse; a failure stays as it is. */
  function Prepend(segs: seq<Seg>, r: Result<seq<Seg>, ParseError>): Result<seq<Seg>, ParseError> {
    if r.Ok? then Ok(segs + r.value) else r
  }

  lemma OccursAtStart(s: string, c: char)
    requires |s| > 0
    ensures OccursAt(s, [c], 0) <==> s[0] == c
  {
    assert s[0..1] == [s[0]];
  }

  /** The end of the name that starts `t`: the first `.` or `[`, whichever comes first; -1 when there is neither. */
  function NameEnd(t: string): (r: int)
    ensures r == -1 || 0 <= r < |t|
  {
    var dot := IndexOf(t, ".");
    var br := IndexOf(t, "[");
    if dot < 0 then br else if br < 0 then dot else Min(dot, br)
  }

  /**
   * One turn of the library's segment loop on a non-empty `retStr`: the segment at its
   * front and the text after it. A bracket gives the segment for its content; otherwise
   * a leading `.` is skipped and the text up to the next `.` or `[` is a trimmed name,
   * the last name taking all that is left.
   */
  function NextTurn(retStr: string, params: seq<string>): (r: Result<(Seg, string), ParseError>)
    requires |retStr| > 0
    ensures r.Ok? ==> |r.value.1| < |retStr|
  {
    if retStr[0] == '[' then
      var close := IndexOf(retStr, "]");
      var inner := Slice(retStr, 1, Some(close));
      var seg :- BracketSeg(inner, params);
      if close < 0 then Err(Diverges)
      else
        assert close != 0 by { OccursAtStart(retStr, ']'); }
        Ok((seg, retStr[close + 1..]))
    else
      var t := if retStr[0] == '.' then retStr[1..] else retStr;
      var end := NameEnd(t);
      if end < 0 then Ok((Name(Trim(t)), ""))
      else
        assert retStr[0] != '.' ==> end != 0 by {
          OccursAtStart(retStr, '.');
          OccursAtStart(retStr, '[');
        }
        Ok((Name(Trim(t[..end])), t[end..]))
  }

  /** The segments of the returned expression: the library's loop, turn by turn. */
  function Segments(retStr: string, params: seq<string>): Result<seq<Seg>, ParseError>
    decreases |retStr|
  {
    if |retStr| == 0 then Ok([])
    else
      var turn :- NextTurn(retStr, params);
      Prepend([turn.0], Segments(turn.1, params))
  }

  /** `parseReturnPath(funcStr, params)` */
  function ReturnPath(funcStr: string, params: seq<string>): Result<seq<Seg>, ParseError> {
    var text :- ReturnText(funcStr);
    Segments(text, params)
  }

  /**
   * What `parseFunction` computes for a source text: the returned path must start with
   * the first parameter, which is dropped; the other parameters are numbered from 0.
   */
  function ParseFunctionResult(funcStr: string): Result<seq<Seg>, ParseError> {
    var params :- ParseParams(funcStr);
    var path :- ReturnPath(funcStr, params[1..]);
    if |path| == 0 || path[0] != Name(params[0]) then
      Err(Throws("failed to parse function; must return a path from the root: " + funcStr))
    else Ok(path[1..])
  }

  lemma PrependAssoc(path: seq<Seg>, seg: Seg, r: Result<seq<Seg>, ParseError>)
    ensures Prepend(path, Prepend([seg], r)) == Prepend(path + [seg], r)
  {
    if r.Ok? {
      assert path + ([seg] + r.value) == path + [seg] + r.value;
    }
  }

  /** `parseReturnPath`: the cut of the returned expression, then the segment loop. */
  method ParseReturnPath(funcStr: string, params: seq<string>) returns (r: Result<seq<Seg>, ParseError>)
    ensures r == ReturnPath(funcStr, params)
  {
    var text := ReturnText(funcStr);
    if text.Err? {
      return Err(text.error);
    }
    var retStr := text.value;
    var path: seq<Seg> := [];
    assert Segments(retStr, params).Ok? ==> [] + Segments(retStr, params).value == Segments(retStr, params).value;
    while |retStr| > 0
      invariant ReturnPath(funcStr, params) == Prepend(path, Segments(retStr, params))
      decreases |retStr|
    {
      var turn := NextTurn(retStr, params);
      if turn.Err? {
        return Err(turn.error);
      }
      var (seg, rest) := turn.value;
      PrependAssoc(path, seg, Segments(rest, params));
      path := path + [seg];
      retStr := rest;
    }
    assert path + [] == path;
    r := Ok(path);
  }

  /** The memo table after parsing `funcStr`: a successful parse is stored under its text, a failure adds nothing. */
  function Remember(cache: map<string, seq<Seg>>, funcStr: string): (c: map<string, seq<Seg>>)
    ensures ParseFunctionResult(funcStr).Ok? ==> funcStr in c && c[funcStr] == ParseFunctionResult(funcStr).value
    ensures forall s :: s != funcStr ==> (s in c <==> s in cache)
    ensures forall s :: s != funcStr && s in cache ==> c[s] == cache[s]
  {
    match ParseFunctionResult(funcStr)
    case Ok(path) => cache[funcStr := path]
    case Err(_) => cache
  }

  /** `parseFunction` with its memo table, keyed by the accessor's source text. */
  class FunctionParser {
    var cache: map<string, seq<Seg>>

    /** Every stored path is the parse of its source text. */
    ghost predicate Valid()
      reads this
    {
      forall s :: s in cache ==> ParseFunctionResult(s) == Ok(cache[s])
    }

    constructor()
      ensures Valid() && cache == map[]
    {
      cache := map[];
    }

    /**
     * A source text parsed before gives the stored path and leaves the table as it was; a
     * new one is parsed and stored when it parses, and a failure stores nothing.
     */
    method ParseFunction(funcStr: string) returns (r: Result<seq<Seg>, ParseError>)
      requires Valid()
      modifies this
      ensures Valid()
      ensures r == ParseFunctionResult(funcStr)
      ensures funcStr in old(cache) ==> cache == old(cache) && r == Ok(old(cache)[funcStr])
      ensures funcStr !in old(cache) && r.Ok? ==> cache == old(cache)[funcStr := r.value]
      ensures r.Err? ==> cache == old(cache)
      ensures cache == Remember(old(cache), funcStr)
    {
      if funcStr !in cache {
        var params := ParseParams(funcStr);
        if params.Err? {
          return Err(params.error);
        }
        var path := ParseReturnPath(funcStr, params.value[1..]);
        if path.Err? {
          return Err(path.error);
        }
        if |path.value| == 0 || path.value[0] != Name(params.value[0]) {
          return Err(Throws("failed to parse function; must return a path from the root: " + funcStr));
        }
        cache := cache[funcStr := path.value[1..]];
      }
      r := Ok(cache[funcStr]);
    }
  }
}
