/**
 * The parser on the accessor texts of the library's own unit tests.
 */
module FunctionParseExamples {
  import opened Wrappers
  import opened JsBuiltins
  import opened FunctionParse
  import opened FunctionParseProps

  /** The first occurrence of `t` in `s` is at `k` when `t` starts with a character absent before `k`. */
  lemma FirstOccurrence(s: string, t: string, k: nat)
    requires |t| > 0 && OccursAt(s, t, k) && t[0] !in s[..k]
    ensures IndexOf(s, t) == k
  {
    forall j | 0 <= j < k ensures !OccursAt(s, t, j) {
      assert s[..k][j] == s[j];
    }
  }

  lemma NoOccurrence(s: string, t: string)
    requires |t| > 0 && t[0] !in s
    ensures IndexOf(s, t) == -1
  {
  }

  lemma SplitNone(s: string, c: char)
    requires c !in s
    ensures Split(s, c) == [s]
  {
    IndexOfChar(s, c);
  }

  lemma SplitAt(s: string, c: char, k: nat)
    requires k < |s| && s[k] == c && c !in s[..k]
    ensures Split(s, c) == [s[..k]] + Split(s[k + 1..], c)
  {
    FirstChar(s, c, k);
  }

  /** A name with one trailing space trims to the name. */
  lemma TrimTrailing(n: string)
    requires |n| > 0 && !IsJsSpace(n[0]) && !IsJsSpace(n[|n| - 1])
    ensures Trim(n + " ") == n
  {
    var s := n + " ";
    NoLeadingSpace(s);
    assert s[..|s| - 1] == n;
    NoTrailingSpace(n);
  }

  /** A name with one leading space trims to the name. */
  lemma TrimLeading(s: string, n: string)
    requires |n| > 0 && !IsJsSpace(n[0]) && !IsJsSpace(n[|n| - 1])
    requires s == " " + n
    ensures Trim(s) == n
  {
    assert s[1..] == n;
    NoLeadingSpace(n);
    NoTrailingSpace(n);
  }

  lemma ArrowParamText()
    ensures ParamText("o => o.a.b.c") == Ok("o ")
  {
    var s := "o => o.a.b.c";
    assert !StartsWith(s, "function") by { assert s[0] != 'f'; }
    FirstOccurrence(s, "=>", 2);
    assert s[..2] == "o ";
  }

  lemma ArrowParams()
    ensures ParseParams("o => o.a.b.c") == Ok(["o"])
  {
    ArrowParamText();
    SplitNone("o ", ',');
    TrimTrailing("o");
    assert "o" + " " == "o ";
    var r := TrimAll(["o "]);
    assert r[0] == "o";
    assert r == ["o"];
  }

  predicate PlainParam(x: string) {
    |x| > 0 && !IsJsSpace(x[0]) && !IsJsSpace(x[|x| - 1]) && ',' !in x
  }

  lemma SplitPair(x: string, y: string)
    requires ',' !in x && ',' !in y
    ensures Split(x + ", " + y, ',') == [x, " " + y]
  {
    var text := x + ", " + y;
    assert text[..|x|] == x && text[|x|] == ',';
    SplitAt(text, ',', |x|);
    assert text[|x| + 1..] == " " + y;
    SplitNone(" " + y, ',');
  }

  lemma TrimPair(x: string, y: string)
    requires PlainParam(x) && PlainParam(y)
    ensures TrimAll([x, " " + y]) == [x, y]
  {
    TrimmedTrim(x);
    TrimLeading(" " + y, y);
    var r := TrimAll([x, " " + y]);
    assert r[0] == x && r[1] == y;
  }

  /** `parseParams` of a text whose parameter text is `x, y` with names `x` and `y`. */
  lemma TwoParams(funcStr: string, x: string, y: string)
    requires ParamText(funcStr) == Ok(x + ", " + y)
    requires PlainParam(x) && PlainParam(y)
    ensures ParseParams(funcStr) == Ok([x, y])
  {
    SplitPair(x, y);
    TrimPair(x, y);
  }

  lemma ParenParamText()
    ensures ParamText("(o, s) => o.a.b.c") == Ok("o, s")
  {
    assert "(o, s) => o.a.b.c" == "" + "(" + "o, s" + ")" + " => o.a.b.c";
    ParenthesisedParamText("(o, s) => o.a.b.c", "", "o, s", " => o.a.b.c");
  }

  lemma ParenParams()
    ensures ParseParams("(o, s) => o.a.b.c") == Ok(["o", "s"])
  {
    ParenParamText();
    assert "o, s" == "o" + ", " + "s";
    TwoParams("(o, s) => o.a.b.c", "o", "s");
  }

  /** The parameter text of `prefix(text)rest` when `prefix` starts the text with `function` or `(` and holds no parenthesis. */
  lemma ParenthesisedParamText(s: string, prefix: string, text: string, rest: string)
    requires s == prefix + "(" + text + ")" + rest
    requires (|prefix| >= 8 && prefix[..8] == "function") || prefix == []
    requires '(' !in prefix && ')' !in text
    ensures ParamText(s) == Ok(text)
  {
    var k := |prefix|;
    assert s[..k] == prefix && s[k] == '(';
    if prefix != [] {
      assert s[..8] == prefix[..8];
    }
    FirstChar(s, '(', k);
    var after := s[k + 1..];
    assert after == text + ")" + rest;
    assert after[..|text|] == text && after[|text|] == ')';
    FirstChar(after, ')', |text|);
  }

  /** `function(o, $a) { return o.a.b.c; }` has the parameters `o` and `$a`. */
  lemma FunctionParams(prefix: string, text: string, rest: string)
    requires prefix == "function" && text == "o, $a" && rest == " { return o.a.b.c; }"
    ensures ParseParams(prefix + "(" + text + ")" + rest) == Ok(["o", "$a"])
  {
    var s := prefix + "(" + text + ")" + rest;
    assert prefix[..8] == prefix;
    ParenthesisedParamText(s, prefix, text, rest);
    assert PlainParam("o") && PlainParam("$a");
    assert text == "o" + ", " + "$a";
    TwoParams(s, "o", "$a");
  }

  /** The returned expression of `head=>body` when neither holds `return ` and the only `=>` ends `head`. */
  lemma ArrowReturnText(head: string, body: string)
    requires |head| >= 2 && head[|head| - 2..] == "=>" && '=' !in head[..|head| - 2]
    requires 'r' !in head && 'r' !in body && ';' !in body && '\n' !in body
    ensures ReturnText(head + body) == Ok(body)
  {
    var s := head + body;
    var k := |head| - 2;
    assert s[..|head|] == head;
    assert 'r' !in s;
    NoOccurrence(s, "return ");
    assert s[k..k + 2] == "=>" && s[..k] == head[..k];
    FirstOccurrence(s, "=>", k);
    assert s[k + 2..] == body;
    IndexOfChar(body, ';');
    IndexOfChar(body, '\n');
  }

  /** The returned path of a text whose returned expression is a root followed by a rendered path. */
  lemma PathFromText(funcStr: string, root: string, segs: seq<Seg>, params: seq<string>)
    requires |root| > 0 && '.' !in root && '[' !in root
    requires forall k :: 0 <= k < |segs| ==> Renderable(segs[k], params)
    requires ReturnText(funcStr) == Ok(root + Render(segs, params))
    ensures ReturnPath(funcStr, params) == Ok([Name(Trim(root))] + segs)
  {
    AccessorReadsBack(root, segs, params);
  }

  /** A name with no separator and no white space at either end. */
  predicate PlainName(n: string) {
    |n| > 0 && '.' !in n && '[' !in n && !IsJsSpace(n[0]) && !IsJsSpace(n[|n| - 1])
  }

  lemma RenderCons(seg: Seg, segs: seq<Seg>, params: seq<string>)
    requires Renderable(seg, params)
    requires forall k :: 0 <= k < |segs| ==> Renderable(segs[k], params)
    ensures forall k :: 0 <= k < |[seg] + segs| ==> Renderable(([seg] + segs)[k], params)
    ensures Render([seg] + segs, params) == RenderSeg(seg, params) + Render(segs, params)
  {
    assert ([seg] + segs)[1..] == segs;
  }

  lemma RenderThreeNames(a: string, b: string, c: string)
    requires PlainName(a) && PlainName(b) && PlainName(c)
    ensures forall k :: 0 <= k < 3 ==> Renderable([Name(a), Name(b), Name(c)][k], [])
    ensures Render([Name(a), Name(b), Name(c)], []) == "." + a + "." + b + "." + c
  {
    RenderCons(Name(c), [], []);
    assert [Name(c)] + [] == [Name(c)];
    RenderCons(Name(b), [Name(c)], []);
    assert [Name(b)] + [Name(c)] == [Name(b), Name(c)];
    RenderCons(Name(a), [Name(b), Name(c)], []);
    assert [Name(a)] + [Name(b), Name(c)] == [Name(a), Name(b), Name(c)];
  }

  /** The returned path of a returned expression that is a root after one space, then a rendered path. */
  lemma PaddedRootPath(funcStr: string, root: string, segs: seq<Seg>)
    requires PlainName(root)
    requires forall k :: 0 <= k < |segs| ==> Renderable(segs[k], [])
    requires ReturnText(funcStr) == Ok((" " + root) + Render(segs, []))
    ensures ReturnPath(funcStr, []) == Ok([Name(root)] + segs)
  {
    PathFromText(funcStr, " " + root, segs, []);
    TrimLeading(" " + root, root);
  }

  lemma DottedNames(root: string, a: string, b: string, c: string)
    ensures " " + root + "." + a + "." + b + "." + c == (" " + root) + ("." + a + "." + b + "." + c)
  {
  }

  /** The returned path of ` root.a.b.c`. */
  lemma ThreeNamesPath(funcStr: string, root: string, a: string, b: string, c: string)
    requires PlainName(root) && PlainName(a) && PlainName(b) && PlainName(c)
    requires ReturnText(funcStr) == Ok(" " + root + "." + a + "." + b + "." + c)
    ensures ReturnPath(funcStr, []) == Ok([Name(root), Name(a), Name(b), Name(c)])
  {
    var segs := [Name(a), Name(b), Name(c)];
    RenderThreeNames(a, b, c);
    DottedNames(root, a, b, c);
    PaddedRootPath(funcStr, root, segs);
    PrependName(Name(root), segs);
  }

  lemma PrependName(x: Seg, segs: seq<Seg>)
    requires |segs| == 3
    ensures [x] + segs == [x, segs[0], segs[1], segs[2]]
  {
  }

  lemma ArrowBody(body: string)
    requires body == " o.a.b.c"
    ensures body == " " + "o" + "." + "a" + "." + "b" + "." + "c"
  {
  }

  lemma ArrowHead(head: string)
    requires head == "o =>"
    ensures |head| >= 2 && head[|head| - 2..] == "=>" && '=' !in head[..|head| - 2] && 'r' !in head
  {
    assert head[2..] == "=>" && head[..2] == "o ";
  }

  lemma LiteralNames()
    ensures PlainName("o") && PlainName("a") && PlainName("b") && PlainName("c")
  {
  }

  /** `parseReturnPath('o => o.a.b.c', [])` */
  lemma ArrowPath(body: string)
    requires body == " o.a.b.c"
    ensures ReturnPath("o =>" + body, []) == Ok([Name("o"), Name("a"), Name("b"), Name("c")])
  {
    ArrowHead("o =>");
    ArrowReturnText("o =>", body);
    ArrowBody(body);
    LiteralNames();
    ThreeNamesPath("o =>" + body, "o", "a", "b", "c");
  }

  /** `.a[p].c` against the single extra parameter `p`. */
  lemma RenderNameParamName(a: string, p: string, c: string)
    requires PlainName(a) && PlainName(c) && ']' !in p
    ensures forall k :: 0 <= k < 3 ==> Renderable([Name(a), Param(0), Name(c)][k], [p])
    ensures Render([Name(a), Param(0), Name(c)], [p]) == "." + a + "[" + p + "]" + "." + c
  {
    assert [p][..0] == [];
    RenderCons(Name(c), [], [p]);
    assert [Name(c)] + [] == [Name(c)];
    RenderCons(Param(0), [Name(c)], [p]);
    assert [Param(0)] + [Name(c)] == [Param(0), Name(c)];
    RenderCons(Name(a), [Param(0), Name(c)], [p]);
    assert [Name(a)] + [Param(0), Name(c)] == [Name(a), Param(0), Name(c)];
  }

  lemma ParamAccessorBody(body: string)
    requires body == " o.a[s].c"
    ensures body == " o" + ("." + "a" + "[" + "s" + "]" + "." + "c")
    ensures 'r' !in body && ';' !in body && '\n' !in body
  {
  }

  lemma ParamAccessorHead(head: string)
    requires head == "(o, s) =>"
    ensures |head| >= 2 && head[|head| - 2..] == "=>" && '=' !in head[..|head| - 2] && 'r' !in head
    ensures head == "" + "(" + "o, s" + ")" + " =>"
  {
    assert head[7..] == "=>" && head[..7] == "(o, s) ";
  }

  lemma ParamsOS(funcStr: string, rest: string)
    requires funcStr == "" + "(" + "o, s" + ")" + rest
    ensures ParseParams(funcStr) == Ok(["o", "s"])
  {
    ParenthesisedParamText(funcStr, "", "o, s", rest);
    assert "o, s" == "o" + ", " + "s";
    assert PlainParam("o") && PlainParam("s");
    TwoParams(funcStr, "o", "s");
  }

  /** `parseFunction((o, s) => o.a[s].c)` is `['a', {paramIdx: 0}, 'c']`. */
  lemma ParamAccessor(head: string, body: string)
    requires head == "(o, s) =>" && body == " o.a[s].c"
    ensures ParseFunctionResult(head + body) == Ok([Name("a"), Param(0), Name("c")])
  {
    var funcStr := head + body;
    ParamAccessorHead(head);
    ParamAccessorBody(body);
    assert funcStr == "" + "(" + "o, s" + ")" + (" =>" + body);
    ParamsOS(funcStr, " =>" + body);
    assert ["o", "s"][1..] == ["s"];
    ArrowReturnText(head, body);
    LiteralNames();
    assert PlainName("c");
    RenderNameParamName("a", "s", "c");
    TrimLeading(" o", "o");
    ParseFunctionReadsPath(funcStr, " o", [Name("a"), Param(0), Name("c")]);
  }
}
