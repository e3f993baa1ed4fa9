/**
 * Properties of the accessor parser: what the parameter list and the returned
 * expression consist of, when each fails, the shape of the segments, and a rendering
 * of paths as accessor text that the parser reads back unchanged.
 */
module FunctionParseProps {
  import opened Wrappers
  import opened JsBuiltins
  import opened FunctionParse

  // ---------------------------------------------------------------------------------
  // Facts about the string built-ins

  lemma TrimInside(s: string)
    ensures forall c :: c in Trim(s) ==> c in s
  {
    var a := TrimStart(s);
    assert forall c :: c in a ==> c in s;
    assert forall c :: c in TrimEnd(a) ==> c in a;
  }

  /** No white space at either end. */
  predicate Trimmed(n: string) {
    n == [] || (!IsJsSpace(n[0]) && !IsJsSpace(n[|n| - 1]))
  }

  /** Trimming a trimmed string changes nothing, so trimming twice trims nothing more. */
  lemma TrimmedTrim(n: string)
    requires Trimmed(n)
    ensures Trim(n) == n
  {
    if n != [] {
      NoLeadingSpace(n);
      NoTrailingSpace(n);
      TrimBothEnds(n);
    } else {
      assert TrimStart(n) == n;
    }
  }

  lemma NoTrailingSpace(s: string)
    requires |s| > 0 && !IsJsSpace(s[|s| - 1])
    ensures TrimEnd(s) == s
  {
  }

  lemma TrimBothEnds(s: string)
    requires TrimStart(s) == s && TrimEnd(s) == s
    ensures Trim(s) == s
  {
  }

  /** The first `c` of `s` is at `k`. */
  lemma FirstChar(s: string, c: char, k: nat)
    requires k < |s| && s[k] == c && c !in s[..k]
    ensures IndexOf(s, [c]) == k
  {
    forall j | 0 <= j < k ensures s[j] != c {
      assert s[..k][j] == s[j];
    }
    assert s[k..k + 1] == [c];
    assert OccursAt(s, [c], k);
    var r := IndexOf(s, [c]);
    assert r != -1 && r <= k;
    assert s[r..r + 1] == [c];
    assert s[r] == c;
  }

  /** Without a `c` in its first `m` characters, `s` has its first `c` at `m` or later. */
  lemma CharNotBefore(s: string, c: char, m: nat)
    requires m <= |s| && c !in s[..m]
    ensures IndexOf(s, [c]) == -1 || IndexOf(s, [c]) >= m
  {
    forall j | 0 <= j < m ensures s[j] != c {
      assert s[..m][j] == s[j];
    }
    var r := IndexOf(s, [c]);
    if r != -1 {
      assert s[r..r + 1] == [c];
      assert s[r] == c;
    }
  }

  /** `indexOf` finds a character exactly when it is there, and it is there where reported. */
  lemma IndexOfChar(s: string, c: char)
    ensures IndexOf(s, [c]) == -1 <==> c !in s
    ensures IndexOf(s, [c]) >= 0 ==> s[IndexOf(s, [c])] == c && c !in s[..IndexOf(s, [c])]
  {
    var r := IndexOf(s, [c]);
    if r >= 0 {
      assert s[r..r + 1] == [c];
      assert s[r] == c;
      CharAbsentBefore(s, c, r);
    } else {
      CharAbsentBefore(s, c, |s|);
      assert s[..|s|] == s;
    }
  }

  /** `indexOf` on a list of strings finds the first equal entry. */
  lemma IndexOfEntry(ps: seq<string>, x: string)
    ensures IndexOf(ps, [x]) == -1 <==> x !in ps
    ensures IndexOf(ps, [x]) >= 0 ==> ps[IndexOf(ps, [x])] == x && x !in ps[..IndexOf(ps, [x])]
  {
    var r := IndexOf(ps, [x]);
    if r >= 0 {
      assert ps[r..r + 1] == [x];
      assert ps[r] == x;
      forall j | 0 <= j < r ensures ps[j] != x {
        assert !OccursAt(ps, [x], j);
        assert ps[j..j + 1] == [ps[j]];
      }
    } else {
      forall j | 0 <= j < |ps| ensures ps[j] != x {
        assert !OccursAt(ps, [x], j);
        assert ps[j..j + 1] == [ps[j]];
      }
    }
  }

  lemma IntToStringChars(v: int)
    ensures ']' !in IntToString(v) && '.' !in IntToString(v) && '[' !in IntToString(v)
  {
    if v < 0 {
      var d := NatToString(-v);
      assert forall c :: c in d ==> IsDigit(c);
    } else {
      var d := NatToString(v);
      assert forall c :: c in d ==> IsDigit(c);
    }
  }

  // ---------------------------------------------------------------------------------
  // parseParams

  /** Every parameter name is trimmed and holds no comma. */
  lemma ParamNamesTrimmed(funcStr: string)
    requires ParseParams(funcStr).Ok?
    ensures forall i :: 0 <= i < |ParseParams(funcStr).value| ==>
      ',' !in ParseParams(funcStr).value[i] && Trimmed(ParseParams(funcStr).value[i])
  {
    var pieces := Split(ParamText(funcStr).value, ',');
    var names := ParseParams(funcStr).value;
    forall i | 0 <= i < |names|
      ensures ',' !in names[i] && Trimmed(names[i])
    {
      TrimInside(pieces[i]);
    }
  }

  /**
   * The names are the trimmed pieces of the parameter text cut at every comma: gluing
   * the pieces back with commas gives the text.
   */
  lemma ParamNamesFromText(funcStr: string)
    requires ParseParams(funcStr).Ok?
    ensures ParamText(funcStr).Ok?
    ensures exists pieces: seq<string> ::
      |pieces| == |ParseParams(funcStr).value| && |pieces| >= 1 &&
      JoinWith(pieces, ',') == ParamText(funcStr).value &&
      (forall i :: 0 <= i < |pieces| ==> ',' !in pieces[i] && ParseParams(funcStr).value[i] == Trim(pieces[i]))
  {
    var pieces := Split(ParamText(funcStr).value, ',');
    SplitJoin(ParamText(funcStr).value, ',');
  }

  /** A parenthesised or `function` text has its parameters between some `(` and a later `)`. */
  predicate HasParenPair(s: string) {
    exists i, j :: 0 <= i < j < |s| && s[i] == '(' && s[j] == ')'
  }

  /**
   * `parseParams` throws exactly for a text that starts with `function` or `(` and has no
   * `(` followed later by a `)`; the bare arrow form always gives names.
   */
  lemma ParamsFailure(funcStr: string)
    ensures ParseParams(funcStr).Err? <==>
      (StartsWith(funcStr, "function") || (|funcStr| > 0 && funcStr[0] == '(')) && !HasParenPair(funcStr)
  {
    var s := funcStr;
    IndexOfChar(s, '(');
    var open := IndexOf(s, "(");
    if open >= 0 {
      var rest := s[open + 1..];
      IndexOfChar(rest, ')');
      if HasParenPair(s) {
        var i, j :| 0 <= i < j < |s| && s[i] == '(' && s[j] == ')';
        assert rest[j - open - 1] == ')';
      }
      if IndexOf(rest, ")") >= 0 {
        var j := open + 1 + IndexOf(rest, ")");
        assert s[j] == ')';
      }
    } else {
      forall i, j | 0 <= i < j < |s| ensures !(s[i] == '(' && s[j] == ')') {
        assert s[i] in s;
      }
    }
  }

  // ---------------------------------------------------------------------------------
  // The returned expression

  /** Without `return ` and without `=>` there is no returned expression to read. */
  lemma ReturnTextFailure(funcStr: string)
    ensures ReturnText(funcStr).Err? <==>
      (forall i :: !OccursAt(funcStr, "return ", i)) && (forall i :: !OccursAt(funcStr, "=>", i))
  {
  }

  /**
   * The returned expression is a piece of the source text without a `;`; it is cut
   * right before a `;`, or else holds no newline.
   */
  lemma ReturnTextCut(funcStr: string)
    requires ReturnText(funcStr).Ok?
    ensures ';' !in ReturnText(funcStr).value
    ensures exists i :: OccursAt(funcStr, ReturnText(funcStr).value, i)
    ensures (exists i :: OccursAt(funcStr, ReturnText(funcStr).value + [';'], i)) || '\n' !in ReturnText(funcStr).value
  {
    var r := IndexOf(funcStr, "return ");
    var a := IndexOf(funcStr, "=>");
    CutAtTerminator(funcStr, if r >= 0 then r + 7 else a + 2);
  }

  /** The text from `start` up to the first `;`, or else up to the first newline. */
  lemma CutAtTerminator(funcStr: string, start: nat)
    requires start <= |funcStr|
    ensures var retStr := funcStr[start..];
      var semi := IndexOf(retStr, ";");
      var term := if semi < 0 then IndexOf(retStr, "\n") else semi;
      var t := if term >= 0 then retStr[..term] else retStr;
      && ';' !in t
      && OccursAt(funcStr, t, start)
      && (OccursAt(funcStr, t + [';'], start) || '\n' !in t)
  {
    var retStr := funcStr[start..];
    IndexOfChar(retStr, ';');
    IndexOfChar(retStr, '\n');
    var semi := IndexOf(retStr, ";");
    var nl := IndexOf(retStr, "\n");
    if semi >= 0 {
      var t := retStr[..semi];
      assert funcStr[start..start + |t|] == t;
      assert funcStr[start..start + |t| + 1] == t + [';'];
    } else if nl >= 0 {
      var t := retStr[..nl];
      assert funcStr[start..start + |t|] == t;
      assert forall c :: c in t ==> c in retStr;
    } else {
      assert funcStr[start..start + |retStr|] == retStr;
    }
  }

  // ---------------------------------------------------------------------------------
  // Segments

  /** A segment the parser can produce: names are trimmed and hold no `.` or `[`; parameter references are in range. */
  predicate WellFormed(seg: Seg, params: seq<string>) {
    match seg
    case Name(n) => '.' !in n && '[' !in n && Trimmed(n)
    case Param(i) => i < |params|
    case _ => true
  }

  /** One turn of the loop gives a well-formed segment. */
  lemma TurnWellFormed(retStr: string, params: seq<string>)
    requires |retStr| > 0 && NextTurn(retStr, params).Ok?
    ensures WellFormed(NextTurn(retStr, params).value.0, params)
  {
    if retStr[0] == '[' {
      var close := IndexOf(retStr, "]");
      var inner := Slice(retStr, 1, Some(close));
      IndexOfEntry(params, inner);
    } else {
      var t := if retStr[0] == '.' then retStr[1..] else retStr;
      NameWellFormed(t, params);
    }
  }

  /** The name cut from the front of `t`, up to its first `.` or `[`, is well formed. */
  lemma NameWellFormed(t: string, params: seq<string>)
    ensures var end := NameEnd(t);
      WellFormed(Name(Trim(if end < 0 then t else t[..end])), params)
  {
    var end := NameEnd(t);
    IndexOfChar(t, '.');
    IndexOfChar(t, '[');
    if end < 0 {
      TrimInside(t);
    } else {
      var n := t[..end];
      var dot := IndexOf(t, ".");
      var br := IndexOf(t, "[");
      assert dot < 0 || end <= dot;
      assert br < 0 || end <= br;
      assert '.' !in n by {
        if dot >= 0 {
          assert n == t[..dot][..end];
        }
      }
      assert '[' !in n by {
        if br >= 0 {
          assert n == t[..br][..end];
        }
      }
      TrimInside(n);
    }
  }

  lemma {:induction false} SegmentsWellFormed(retStr: string, params: seq<string>)
    requires Segments(retStr, params).Ok?
    ensures forall k :: 0 <= k < |Segments(retStr, params).value| ==> WellFormed(Segments(retStr, params).value[k], params)
    decreases |retStr|
  {
    if |retStr| > 0 {
      var turn := NextTurn(retStr, params).value;
      TurnWellFormed(retStr, params);
      SegmentsWellFormed(turn.1, params);
      var path := Segments(retStr, params).value;
      assert path == [turn.0] + Segments(turn.1, params).value;
    }
  }

  // ---------------------------------------------------------------------------------
  // Rendering a path as accessor text

  /** A segment that renders to text the parser reads back as the same segment. */
  predicate Renderable(seg: Seg, params: seq<string>) {
    match seg
    case Name(n) => '.' !in n && '[' !in n && Trimmed(n)
    case Index(v) => IntToString(v) !in params
    case NotANumber => "NaN" !in params
    case Param(i) => i < |params| && ']' !in params[i] && params[i] !in params[..i]
  }

  /** `.name`, `[index]`, `[NaN]` or `[param]`. */
  function RenderSeg(seg: Seg, params: seq<string>): string
    requires Renderable(seg, params)
  {
    match seg
    case Name(n) => "." + n
    case Index(v) => "[" + IntToString(v) + "]"
    case NotANumber => "[NaN]"
    case Param(i) => "[" + params[i] + "]"
  }

  function Render(segs: seq<Seg>, params: seq<string>): string
    requires forall k :: 0 <= k < |segs| ==> Renderable(segs[k], params)
  {
    if segs == [] then "" else RenderSeg(segs[0], params) + Render(segs[1..], params)
  }

  lemma RenderStart(segs: seq<Seg>, params: seq<string>)
    requires forall k :: 0 <= k < |segs| ==> Renderable(segs[k], params)
    ensures Render(segs, params) == [] || Render(segs, params)[0] in {'.', '['}
  {
  }

  /** The bracket content a renderable non-name segment prints reads back as that segment. */
  lemma BracketReadsBack(seg: Seg, params: seq<string>, inner: string)
    requires Renderable(seg, params) && !seg.Name?
    requires inner == RenderSeg(seg, params)[1..|RenderSeg(seg, params)| - 1]
    ensures ']' !in inner
    ensures BracketSeg(inner, params) == Ok(seg)
  {
    match seg
    case Index(v) =>
      assert inner == IntToString(v);
      IndexReadsBack(v, params);
    case NotANumber =>
      assert inner == "NaN";
      NaNReadsBack(inner, params);
    case Param(i) =>
      assert inner == params[i];
      ParamReadsBack(i, params);
  }

  lemma IndexReadsBack(v: int, params: seq<string>)
    requires IntToString(v) !in params
    ensures ']' !in IntToString(v)
    ensures BracketSeg(IntToString(v), params) == Ok(Index(v))
  {
    IntToStringChars(v);
    IndexOfEntry(params, IntToString(v));
    IntToStringRoundTrip(v);
  }

  /** `parseInt('NaN')` is NaN, whose text is `NaN` again. */
  lemma NaNReadsBack(inner: string, params: seq<string>)
    requires inner == "NaN" && inner !in params
    ensures ']' !in inner
    ensures BracketSeg(inner, params) == Ok(NotANumber)
  {
    IndexOfEntry(params, inner);
    NoNumber(inner);
  }

  lemma ParamReadsBack(i: nat, params: seq<string>)
    requires i < |params| && ']' !in params[i] && params[i] !in params[..i]
    ensures BracketSeg(params[i], params) == Ok(Param(i))
  {
    IndexOfEntry(params, params[i]);
    var p := IndexOf(params, [params[i]]);
    assert p == i;
  }

  /** A name followed by rendered segments ends where the next segment starts. */
  lemma NameEndBefore(n: string, rest: string)
    requires '.' !in n && '[' !in n
    requires rest == [] || rest[0] in {'.', '['}
    ensures NameEnd(n + rest) == if rest == [] then -1 else |n|
  {
    var t := n + rest;
    assert t[..|n|] == n;
    IndexOfChar(t, '.');
    IndexOfChar(t, '[');
    if rest == [] {
      assert t == n;
    } else {
      CharNotBefore(t, '.', |n|);
      CharNotBefore(t, '[', |n|);
      if rest[0] == '.' {
        FirstChar(t, '.', |n|);
      } else {
        FirstChar(t, '[', |n|);
      }
    }
  }

  /** One turn of the loop on a rendered segment reads that segment and leaves the rest. */
  /** A name's text up to the next `.` or `[` is one turn of the loop. */
  lemma NameTurn(t: string, n: string, tail: string, params: seq<string>)
    requires '.' !in n && '[' !in n
    requires tail == [] || tail[0] in {'.', '['}
    requires t == n + tail
    ensures NextTurn("." + t, params) == Ok((Name(Trim(n)), tail))
    ensures |n| > 0 ==> NextTurn(t, params) == Ok((Name(Trim(n)), tail))
  {
    var s := "." + t;
    assert s[0] == '.' && s[1..] == t;
    NameEndBefore(n, tail);
    if tail == [] {
      assert t == n;
    } else {
      assert t[..|n|] == n && t[|n|..] == tail;
    }
    if |n| > 0 {
      assert t[0] == n[0];
    }
  }

  /** A bracket closed by the first `]` is one turn of the loop. */
  lemma BracketTurn(s: string, inner: string, tail: string, params: seq<string>)
    requires ']' !in inner && BracketSeg(inner, params).Ok?
    requires s == "[" + inner + "]" + tail
    ensures NextTurn(s, params) == Ok((BracketSeg(inner, params).value, tail))
  {
    assert s[0] == '[';
    assert s[..|inner| + 1] == "[" + inner;
    FirstChar(s, ']', |inner| + 1);
    assert Slice(s, 1, Some(|inner| + 1)) == inner;
    assert s[|inner| + 2..] == tail;
  }

  /** One turn of the loop on a rendered segment reads that segment and leaves the rest. */
  lemma RenderedTurn(seg: Seg, tail: string, params: seq<string>)
    requires Renderable(seg, params)
    requires tail == [] || tail[0] in {'.', '['}
    ensures NextTurn(RenderSeg(seg, params) + tail, params) == Ok((seg, tail))
  {
    if seg.Name? {
      RenderedNameTurn(seg, tail, params);
    } else {
      RenderedBracketTurn(seg, tail, params);
    }
  }

  lemma RenderedNameTurn(seg: Seg, tail: string, params: seq<string>)
    requires seg.Name? && Renderable(seg, params)
    requires tail == [] || tail[0] in {'.', '['}
    ensures NextTurn(RenderSeg(seg, params) + tail, params) == Ok((seg, tail))
  {
    var head := RenderSeg(seg, params);
    assert head + tail == "." + (seg.name + tail);
    NameTurn(seg.name + tail, seg.name, tail, params);
    TrimmedTrim(seg.name);
  }

  lemma RenderedBracketTurn(seg: Seg, tail: string, params: seq<string>)
    requires !seg.Name? && Renderable(seg, params)
    requires tail == [] || tail[0] in {'.', '['}
    ensures NextTurn(RenderSeg(seg, params) + tail, params) == Ok((seg, tail))
  {
    var head := RenderSeg(seg, params);
    var inner := head[1..|head| - 1];
    BracketReadsBack(seg, params, inner);
    assert head == "[" + inner + "]";
    BracketTurn(head + tail, inner, tail, params);
  }

  /** The parser reads a rendered path back as the path. */
  lemma {:induction false} RenderThenParse(segs: seq<Seg>, params: seq<string>)
    requires forall k :: 0 <= k < |segs| ==> Renderable(segs[k], params)
    ensures Segments(Render(segs, params), params) == Ok(segs)
  {
    if segs != [] {
      var tail := Render(segs[1..], params);
      RenderThenParse(segs[1..], params);
      RenderStart(segs[1..], params);
      RenderedTurn(segs[0], tail, params);
      assert segs == [segs[0]] + segs[1..];
    }
  }

  /** An accessor body `root.a[1]...` reads back as the trimmed root name followed by the path. */
  lemma AccessorReadsBack(root: string, segs: seq<Seg>, params: seq<string>)
    requires |root| > 0 && '.' !in root && '[' !in root
    requires forall k :: 0 <= k < |segs| ==> Renderable(segs[k], params)
    ensures Segments(root + Render(segs, params), params) == Ok([Name(Trim(root))] + segs)
  {
    var tail := Render(segs, params);
    RenderStart(segs, params);
    RenderThenParse(segs, params);
    NameTurn(root + tail, root, tail, params);
  }

  /**
   * `parseFunction` on a text whose parameters are `root, p1, ...` and whose returned
   * expression is the root (white space around it allowed) followed by a rendered path
   * gives that path.
   */
  lemma ParseFunctionReadsPath(funcStr: string, root: string, segs: seq<Seg>)
    requires ParseParams(funcStr).Ok?
    requires var names := ParseParams(funcStr).value;
      |root| > 0 && '.' !in root && '[' !in root && Trim(root) == names[0] &&
      (forall k :: 0 <= k < |segs| ==> Renderable(segs[k], names[1..])) &&
      ReturnText(funcStr) == Ok(root + Render(segs, names[1..]))
    ensures ParseFunctionResult(funcStr) == Ok(segs)
  {
    var names := ParseParams(funcStr).value;
    AccessorReadsBack(root, segs, names[1..]);
    var path := [Name(names[0])] + segs;
    assert ReturnPath(funcStr, names[1..]) == Ok(path);
    ParseFunctionFold(funcStr, path);
    assert path[1..] == segs;
  }

  lemma ParseFunctionFold(funcStr: string, path: seq<Seg>)
    requires ParseParams(funcStr).Ok?
    requires ReturnPath(funcStr, ParseParams(funcStr).value[1..]) == Ok(path)
    requires |path| > 0 && path[0] == Name(ParseParams(funcStr).value[0])
    ensures ParseFunctionResult(funcStr) == Ok(path[1..])
  {
  }

  lemma ParseFunctionUnfold(funcStr: string)
    requires ParseFunctionResult(funcStr).Ok?
    ensures ParseParams(funcStr).Ok?
    ensures ReturnPath(funcStr, ParseParams(funcStr).value[1..]).Ok?
    ensures var path := ReturnPath(funcStr, ParseParams(funcStr).value[1..]).value;
      |path| > 0 && path[0] == Name(ParseParams(funcStr).value[0]) && ParseFunctionResult(funcStr).value == path[1..]
  {
  }

  /** The path `parseFunction` returns refers only to the extra parameters, by position. */
  lemma ParseFunctionParamsInRange(funcStr: string)
    requires ParseFunctionResult(funcStr).Ok?
    ensures forall k :: 0 <= k < |ParseFunctionResult(funcStr).value| ==>
      WellFormed(ParseFunctionResult(funcStr).value[k], ParseParams(funcStr).value[1..])
  {
    ParseFunctionUnfold(funcStr);
    var names := ParseParams(funcStr).value;
    var text := ReturnText(funcStr).value;
    SegmentsWellFormed(text, names[1..]);
    var path := Segments(text, names[1..]).value;
    assert forall k :: 0 <= k < |path| - 1 ==> path[1..][k] == path[k + 1];
  }
}
