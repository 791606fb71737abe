/**
  The template scanner (`expandTemplate`, the `expand` export of
  util/uriTemplate.js): literal text is copied as it is and every
  `{...}` span is handed to expression expansion. The first `}` after a
  `{` closes the expression; there is no nesting.

  The reference definition splits a template into segments (`Scan`),
  which `Render` expands left to right; the method `ExpandTemplate` is the
  source's cursor loop, proved equal to it. Where the source sends its
  cursor back to 0 on a `{` without a `}` and loops forever, the model
  fails with `UnterminatedExpression` (module AsWritten keeps the loop as
  the source has it).
 */
module Templates {
  import opened Wrappers
  import opened Text
  import opened Operators
  import opened Expressions

  /** A piece of a template: literal text, a closed `{body}`, or a `{` that no `}` follows. */
  datatype Segment = Literal(text: string) | Expression(body: string) | Unterminated(rest: string)

  /** The template text a segment stands for. */
  function SegmentText(seg: Segment): (r: string) {
    match seg
    case Literal(text) => text
    case Expression(body) => "{" + body + "}"
    case Unterminated(rest) => "{" + rest
  }

  function Unparse(segs: seq<Segment>): (r: string)
    decreases |segs|
  {
    if |segs| == 0 then "" else SegmentText(segs[0]) + Unparse(segs[1..])
  }

  /**
    A segmentation the scanner could produce: a literal without `{`, then
    either nothing, an unterminated rest without `}`, or an expression body
    without `}` followed by another such segmentation.
   */
  predicate WellFormed(segs: seq<Segment>)
    decreases |segs|
  {
    && |segs| > 0
    && segs[0].Literal? && Free(segs[0].text, '{')
    && (|| |segs| == 1
        || (|segs| == 2 && segs[1].Unterminated? && Free(segs[1].rest, '}'))
        || (|segs| > 2 && segs[1].Expression? && Free(segs[1].body, '}') && WellFormed(segs[2..])))
  }

  /** Splits a template at the first `{` and the first `}` after it, again and again. */
  function Scan(s: string): (segs: seq<Segment>)
    ensures |segs| > 0 && segs[0].Literal?
    decreases |s|
  {
    var start := IndexOf(s, '{', 0);
    if start == -1 then
      [Literal(s)]
    else
      var close := IndexOf(s, '}', start);
      var lit := Literal(s[..start]);
      if close == -1 then [lit, Unterminated(s[start + 1..])]
      else [lit, Expression(s[start + 1..close])] + Scan(s[close + 1..])
  }

  lemma UnparseExpression(a: string, b: string, rest: seq<Segment>)
    ensures Unparse([Literal(a), Expression(b)] + rest) == a + "{" + b + "}" + Unparse(rest)
  {
    var segs := [Literal(a), Expression(b)] + rest;
    assert segs[1..] == [Expression(b)] + rest;
    assert segs[1..][1..] == rest;
    assert Unparse(segs) == a + (("{" + b + "}") + Unparse(rest));
  }

  lemma UnparseUnterminated(a: string, b: string)
    ensures Unparse([Literal(a), Unterminated(b)]) == a + "{" + b
  {
    var segs := [Literal(a), Unterminated(b)];
    assert segs[1..] == [Unterminated(b)];
    assert segs[1..][1..] == [];
    assert Unparse(segs[1..]) == ("{" + b) + "";
    assert ("{" + b) + "" == "{" + b;
  }

  /** The template around a `{` and the `}` that closes it. */
  lemma Cut(s: string, start: nat, close: nat)
    requires start < close < |s| && s[start] == '{' && s[close] == '}'
    ensures s == s[..start] + "{" + s[start + 1..close] + "}" + s[close + 1..]
  {
    assert s == s[..start] + [s[start]] + s[start + 1..close] + [s[close]] + s[close + 1..];
  }

  /** Text without `{` is one literal segment. */
  lemma ScanLiteral(a: string)
    requires Free(a, '{')
    ensures Scan(a) == [Literal(a)]
  {
    IndexOfNone(a, '{', 0);
  }

  /** A literal, then a `{` that nothing closes. */
  lemma ScanUnterminated(a: string, b: string)
    requires Free(a, '{') && Free(b, '}')
    ensures Scan(a + "{" + b) == [Literal(a), Unterminated(b)]
  {
    var s := a + "{" + b;
    IndexOfIs(s, '{', 0, |a|);
    assert s[..|a|] == a;
    assert s[|a| + 1..] == b;
    assert forall i :: |a| <= i < |s| ==> s[i] != '}' by {
      forall i | |a| <= i < |s| ensures s[i] != '}' {
        if i > |a| { assert s[i] == b[i - |a| - 1]; }
      }
    }
  }

  /** A literal, then an expression that the first `}` closes, then the rest of the template. */
  lemma ScanExpression(a: string, b: string, r: string)
    requires Free(a, '{') && Free(b, '}')
    ensures Scan(a + "{" + b + "}" + r) == [Literal(a), Expression(b)] + Scan(r)
  {
    ExpressionPositions(a, b, r);
  }

  /** Where the scanner's two searches stop in `a{b}r`, and the pieces they cut out. */
  lemma ExpressionPositions(a: string, b: string, r: string)
    requires Free(a, '{') && Free(b, '}')
    ensures IndexOf(a + "{" + b + "}" + r, '{', 0) == |a|
    ensures IndexOf(a + "{" + b + "}" + r, '}', |a|) == |a| + 1 + |b|
    ensures (a + "{" + b + "}" + r)[..|a|] == a
    ensures (a + "{" + b + "}" + r)[|a| + 1..|a| + 1 + |b|] == b
    ensures (a + "{" + b + "}" + r)[|a| + 1 + |b| + 1..] == r
  {
    var s := a + "{" + b + "}" + r;
    var close := |a| + 1 + |b|;
    forall i | 0 <= i < |a| ensures s[i] != '{' {
      assert s[i] == a[i];
    }
    IndexOfIs(s, '{', 0, |a|);
    forall i | |a| <= i < close ensures s[i] != '}' {
      if i > |a| { assert s[i] == b[i - |a| - 1]; }
    }
    IndexOfIs(s, '}', |a|, close);
    assert s[..|a|] == a;
    assert s[|a| + 1..close] == b;
    assert s[close + 1..] == r;
  }

  /** The scanner's first step where the first `{` is at `start` and the first `}` after it at `close`. */
  lemma ScanAt(s: string, start: nat, close: nat)
    requires start < close < |s| && s[start] == '{' && s[close] == '}'
    requires forall i :: 0 <= i < start ==> s[i] != '{'
    requires forall i :: start <= i < close ==> s[i] != '}'
    ensures Free(s[..start], '{') && Free(s[start + 1..close], '}')
    ensures s == s[..start] + "{" + s[start + 1..close] + "}" + s[close + 1..]
    ensures Scan(s) == [Literal(s[..start]), Expression(s[start + 1..close])] + Scan(s[close + 1..])
  {
    Cut(s, start, close);
    ScanExpression(s[..start], s[start + 1..close], s[close + 1..]);
  }

  /** The scanner's first step where the first `{`, at `start`, has no `}` after it. */
  lemma ScanStop(s: string, start: nat)
    requires start < |s| && s[start] == '{'
    requires forall i :: 0 <= i < start ==> s[i] != '{'
    requires forall i :: start <= i < |s| ==> s[i] != '}'
    ensures Free(s[..start], '{') && Free(s[start + 1..], '}')
    ensures s == s[..start] + "{" + s[start + 1..]
    ensures Scan(s) == [Literal(s[..start]), Unterminated(s[start + 1..])]
  {
    assert s == s[..start] + [s[start]] + s[start + 1..];
    ScanUnterminated(s[..start], s[start + 1..]);
  }

  lemma UnparseLiteral(a: string)
    ensures Unparse([Literal(a)]) == a
  {
    assert [Literal(a)][1..] == [];
    assert Unparse([Literal(a)]) == a + "";
  }

  /** Every segmentation `Scan` produces is well formed. */
  lemma {:induction false} ScanWellFormed(s: string)
    ensures WellFormed(Scan(s))
    decreases |s|
  {
    var start := IndexOf(s, '{', 0);
    IndexOfFirst(s, '{', 0);
    if start == -1 {
      ScanLiteral(s);
    } else {
      var close := IndexOf(s, '}', start);
      IndexOfFirst(s, '}', start);
      if close == -1 {
        ScanStop(s, start);
      } else {
        ScanAt(s, start, close);
        var rest := Scan(s[close + 1..]);
        ScanWellFormed(s[close + 1..]);
        assert ([Literal(s[..start]), Expression(s[start + 1..close])] + rest)[2..] == rest;
      }
    }
  }

  /** The segments `Scan` produces spell the template they came from. */
  lemma {:induction false} ScanSpells(s: string)
    ensures Unparse(Scan(s)) == s
    decreases |s|
  {
    var start := IndexOf(s, '{', 0);
    IndexOfFirst(s, '{', 0);
    if start == -1 {
      ScanLiteral(s);
      UnparseLiteral(s);
    } else {
      var close := IndexOf(s, '}', start);
      IndexOfFirst(s, '}', start);
      if close == -1 {
        ScanStop(s, start);
        UnparseUnterminated(s[..start], s[start + 1..]);
      } else {
        ScanAt(s, start, close);
        ScanSpells(s[close + 1..]);
        UnparseExpression(s[..start], s[start + 1..close], Scan(s[close + 1..]));
      }
    }
  }

  /** `Scan` is the only well-formed segmentation of a template: on well-formed segments it inverts `Unparse`. */
  lemma {:induction false} ScanUnique(segs: seq<Segment>)
    requires WellFormed(segs)
    ensures Scan(Unparse(segs)) == segs
    decreases |segs|
  {
    var a := segs[0].text;
    if |segs| == 1 {
      assert segs == [Literal(a)];
      UnparseLiteral(a);
      ScanLiteral(a);
    } else if |segs| == 2 {
      var b := segs[1].rest;
      assert segs == [Literal(a), Unterminated(b)];
      UnparseUnterminated(a, b);
      ScanUnterminated(a, b);
    } else {
      var b := segs[1].body;
      var rest := segs[2..];
      assert segs == [Literal(a), Expression(b)] + rest;
      UnparseExpression(a, b, rest);
      ScanExpression(a, b, Unparse(rest));
      ScanUnique(rest);
    }
  }

  /** Some `{` has no `}` anywhere after it. */
  predicate Unclosed(s: string) {
    exists i :: 0 <= i < |s| && s[i] == '{' && Free(s[i..], '}')
  }

  /** The segmentation ends in an unterminated expression exactly when some `{` is never closed. */
  lemma {:induction false} ScanUnterminatedIff(s: string)
    ensures Scan(s)[|Scan(s)| - 1].Unterminated? <==> Unclosed(s)
    decreases |s|
  {
    var start := IndexOf(s, '{', 0);
    IndexOfFirst(s, '{', 0);
    if start == -1 {
      ScanLiteral(s);
      assert !Unclosed(s);
    } else {
      var close := IndexOf(s, '}', start);
      IndexOfFirst(s, '}', start);
      if close == -1 {
        ScanStop(s, start);
        assert Free(s[start..], '}');
      } else {
        var r := s[close + 1..];
        ScanAt(s, start, close);
        var segs := Scan(s);
        assert segs[|segs| - 1] == Scan(r)[|Scan(r)| - 1];
        ScanUnterminatedIff(r);
        UnclosedAfter(s, close);
      }
    }
  }

  /** No `{` before a `}` can be unclosed, so only what follows the `}` matters. */
  lemma UnclosedAfter(s: string, close: nat)
    requires close < |s| && s[close] == '}'
    ensures Unclosed(s) <==> Unclosed(s[close + 1..])
  {
    var r := s[close + 1..];
    if Unclosed(r) {
      var k :| 0 <= k < |r| && r[k] == '{' && Free(r[k..], '}');
      assert s[close + 1 + k..] == r[k..];
      assert s[close + 1 + k] == '{';
    }
    if Unclosed(s) {
      var i :| 0 <= i < |s| && s[i] == '{' && Free(s[i..], '}');
      assert i > close;
      assert r[i - close - 1..] == s[i..];
      assert r[i - close - 1] == '{';
    }
  }

  /** What the scanner hands each closed `{body}` to: `expandExpression`, or any other expander. */
  type Expander = string -> Result<string, Error>

  /** `expandExpression` over fixed encoders and parameters, as an expander. */
  function ExpressionExpander(codec: Codec, params: Params): (r: Expander) {
    body => ExpandExpression(codec, body, params)
  }

  /** A segment's own expansion: literal text as it is, an expression through `expand`. */
  function RenderSegment(expand: Expander, seg: Segment): (r: Result<string, Error>) {
    match seg
    case Literal(text) => Success(text)
    case Expression(body) => expand(body)
    case Unterminated(_) => Failure(UnterminatedExpression)
  }

  /** Expands the segments left to right; the first failure aborts with no partial output. */
  function Render(expand: Expander, segs: seq<Segment>): (r: Result<string, Error>)
    decreases |segs|
  {
    if |segs| == 0 then Success("")
    else
      var head :- RenderSegment(expand, segs[0]);
      var tail :- Render(expand, segs[1..]);
      Success(head + tail)
  }

  /** `prefix` in front of a successful result; a failure stays as it is. */
  function Prepend(prefix: string, r: Result<string, Error>): (p: Result<string, Error>) {
    match r
    case Success(s) => Success(prefix + s)
    case Failure(e) => Failure(e)
  }

  /** Literal text `a`, then an expression's result `x`, then the result of the rest: the first failure wins. */
  function Continue(a: string, x: Result<string, Error>, rest: Result<string, Error>): (r: Result<string, Error>) {
    if x.Failure? then Failure(x.error) else Prepend(a + x.value, rest)
  }

  lemma PrependEmpty(r: Result<string, Error>)
    ensures Prepend("", r) == r
  {
    if r.Success? {
      assert "" + r.value == r.value;
    }
  }

  lemma PrependThree(u: string, a: string, x: string, r: Result<string, Error>)
    ensures Prepend(u, Prepend(a + x, r)) == Prepend(u + a + x, r)
  {
    if r.Success? {
      assert u + ((a + x) + r.value) == (u + a + x) + r.value;
    }
  }

  /** A literal and an expression expand to the literal and the expression's expansion, then the rest. */
  lemma RenderExpression(expand: Expander, a: string, b: string, rest: seq<Segment>)
    ensures Render(expand, [Literal(a), Expression(b)] + rest) == Continue(a, expand(b), Render(expand, rest))
  {
    var segs := [Literal(a), Expression(b)] + rest;
    assert segs[1..] == [Expression(b)] + rest;
    assert segs[1..][1..] == rest;
    var r := Render(expand, rest);
    if expand(b).Success? && r.Success? {
      var x := expand(b).value;
      assert a + (x + r.value) == (a + x) + r.value;
    }
  }

  /** Segments that end in an unterminated expression never render successfully. */
  lemma {:induction false} RenderUnterminated(expand: Expander, segs: seq<Segment>)
    requires |segs| > 0 && segs[|segs| - 1].Unterminated?
    ensures Render(expand, segs).Failure?
    decreases |segs|
  {
    if |segs| > 1 {
      assert segs[1..][|segs[1..]| - 1] == segs[|segs| - 1];
      RenderUnterminated(expand, segs[1..]);
    }
  }

  /** A template's expansion with `expand` for its expressions, as the reference definition gives it. */
  function Substitute(expand: Expander, template: string): (r: Result<string, Error>) {
    Render(expand, Scan(template))
  }

  /** A template's expansion through `expandExpression`. */
  function Expand(codec: Codec, template: string, params: Params): (r: Result<string, Error>) {
    Substitute(ExpressionExpander(codec, params), template)
  }

  /** A template without `{` expands to itself; a stray `}` is copied like any other character. */
  lemma SubstituteLiteral(expand: Expander, template: string)
    requires Free(template, '{')
    ensures Substitute(expand, template) == Success(template)
  {
    ScanLiteral(template);
    var segs := [Literal(template)];
    assert RenderSegment(expand, segs[0]) == Success(template);
    assert segs[1..] == [];
    assert Render(expand, segs[1..]) == Success("");
    assert template + "" == template;
  }

  /**
    Literal text, then the first `}` closes the expression that the
    first `{` opens: the literal is copied, the body is expanded, and the
    rest of the template is expanded on its own.
   */
  lemma SubstituteConcat(expand: Expander, a: string, b: string, r: string)
    requires Free(a, '{') && Free(b, '}')
    ensures Substitute(expand, a + "{" + b + "}" + r) == Continue(a, expand(b), Substitute(expand, r))
  {
    ScanExpression(a, b, r);
    RenderExpression(expand, a, b, Scan(r));
  }

  /**
    When every expression before it expands, a `{` that nothing closes
    fails with `UnterminatedExpression` in particular.
   */
  lemma SubstituteUnterminated(expand: Expander, a: string, b: string)
    requires Free(a, '{') && Free(b, '}')
    ensures Substitute(expand, a + "{" + b) == Failure(UnterminatedExpression)
  {
    ScanUnterminated(a, b);
    var segs := [Literal(a), Unterminated(b)];
    assert RenderSegment(expand, segs[0]) == Success(a);
    assert segs[1..] == [Unterminated(b)];
    assert segs[1..][0] == Unterminated(b);
    assert Render(expand, segs[1..]) == Failure(UnterminatedExpression);
  }

  /** A template without `{` expands to itself. */
  lemma ExpandLiteral(codec: Codec, template: string, params: Params)
    requires Free(template, '{')
    ensures Expand(codec, template, params) == Success(template)
  {
    SubstituteLiteral(ExpressionExpander(codec, params), template);
  }

  /** The literal before the first `{`, the expression it opens, and the rest of the template, in that order. */
  lemma ExpandConcat(codec: Codec, a: string, b: string, r: string, params: Params)
    requires Free(a, '{') && Free(b, '}')
    ensures Expand(codec, a + "{" + b + "}" + r, params)
            == Continue(a, ExpandExpression(codec, b, params), Expand(codec, r, params))
  {
    SubstituteConcat(ExpressionExpander(codec, params), a, b, r);
  }

  /** A `{` that no `}` follows makes the expansion fail; it never loops. */
  lemma ExpandUnclosedFails(codec: Codec, template: string, params: Params)
    requires Unclosed(template)
    ensures Expand(codec, template, params).Failure?
  {
    ScanUnterminatedIff(template);
    RenderUnterminated(ExpressionExpander(codec, params), Scan(template));
  }

  /** An unclosed `{` after literal text fails with `UnterminatedExpression`. */
  lemma ExpandUnterminated(codec: Codec, a: string, b: string, params: Params)
    requires Free(a, '{') && Free(b, '}')
    ensures Expand(codec, a + "{" + b, params) == Failure(UnterminatedExpression)
  {
    SubstituteUnterminated(ExpressionExpander(codec, params), a, b);
  }

  /** The unscanned rest of a template around the next `{` and the `}` that closes it. */
  lemma SplitRest(t: string, end: nat, start: nat, close: nat)
    requires end <= start < close < |t| && t[start] == '{' && t[close] == '}'
    requires forall i :: end <= i < start ==> t[i] != '{'
    requires forall i :: start <= i < close ==> t[i] != '}'
    ensures Free(t[end..start], '{') && Free(t[start + 1..close], '}')
    ensures t[end..] == t[end..start] + "{" + t[start + 1..close] + "}" + t[close + 1..]
  {
    var s := t[end..];
    Cut(s, start - end, close - end);
    assert s[..start - end] == t[end..start];
    assert s[start - end + 1..close - end] == t[start + 1..close];
    assert s[close - end + 1..] == t[close + 1..];
  }

  /** The unscanned rest of a template around a `{` that nothing closes. */
  lemma SplitUnterminated(t: string, end: nat, start: nat)
    requires end <= start < |t| && t[start] == '{'
    requires forall i :: end <= i < start ==> t[i] != '{'
    requires forall i :: start <= i < |t| ==> t[i] != '}'
    ensures Free(t[end..start], '{') && Free(t[start + 1..], '}')
    ensures t[end..] == t[end..start] + "{" + t[start + 1..]
  {
    assert t[end..] == t[end..start] + [t[start]] + t[start + 1..];
  }

  /** What is left of a template from cursor `end`, around the next `{` and the `}` that closes it. */
  lemma SubstituteAt(expand: Expander, t: string, end: nat, start: nat, close: nat)
    requires end <= start < close < |t| && t[start] == '{' && t[close] == '}'
    requires forall i :: end <= i < start ==> t[i] != '{'
    requires forall i :: start <= i < close ==> t[i] != '}'
    ensures Substitute(expand, t[end..])
            == Continue(t[end..start], expand(t[start + 1..close]), Substitute(expand, t[close + 1..]))
  {
    SplitRest(t, end, start, close);
    SubstituteConcat(expand, t[end..start], t[start + 1..close], t[close + 1..]);
  }

  /** What is left of a template from cursor `end`, around a `{` that nothing closes. */
  lemma SubstituteStopAt(expand: Expander, t: string, end: nat, start: nat)
    requires end <= start < |t| && t[start] == '{'
    requires forall i :: end <= i < start ==> t[i] != '{'
    requires forall i :: start <= i < |t| ==> t[i] != '}'
    ensures Substitute(expand, t[end..]) == Failure(UnterminatedExpression)
  {
    SplitUnterminated(t, end, start);
    SubstituteUnterminated(expand, t[end..start], t[start + 1..]);
  }

  /**
    What is left to add from cursor `end` of template `t`, expression by
    expression: the literal up to the next `{`, the expansion of the
    body up to the next `}`, then the rest; the first failure wins.
   */
  function Rest(expand: Expander, t: string, end: nat): (r: Result<string, Error>)
    requires end <= |t|
    decreases |t| - end
  {
    var start := IndexOf(t, '{', end);
    if start == -1 then Success(t[end..])
    else
      var close := IndexOf(t, '}', start);
      if close == -1 then Failure(UnterminatedExpression)
      else Continue(t[end..start], expand(t[start + 1..close]), Rest(expand, t, close + 1))
  }

  lemma RestFinish(expand: Expander, t: string, end: nat)
    requires end <= |t| && IndexOf(t, '{', end) == -1
    ensures Rest(expand, t, end) == Substitute(expand, t[end..])
  {
    IndexOfFirst(t, '{', end);
    assert Free(t[end..], '{');
    SubstituteLiteral(expand, t[end..]);
  }

  lemma RestStop(expand: Expander, t: string, end: nat, start: int)
    requires end <= |t| && start == IndexOf(t, '{', end) && start != -1
    requires IndexOf(t, '}', start) == -1
    ensures Rest(expand, t, end) == Substitute(expand, t[end..])
  {
    IndexOfFirst(t, '{', end);
    IndexOfFirst(t, '}', start);
    SubstituteStopAt(expand, t, end, start);
  }

  /** Any result that continues the way the next turn does, from where the rest agrees, is what the rest adds. */
  lemma RestResume(expand: Expander, t: string, end: nat, start: int, close: int, here: Result<string, Error>, after: Result<string, Error>)
    requires end <= |t| && start == IndexOf(t, '{', end) && start != -1
    requires close == IndexOf(t, '}', start) && close != -1
    requires here == Continue(t[end..start], expand(t[start + 1..close]), after)
    requires Rest(expand, t, close + 1) == after
    ensures Rest(expand, t, end) == here
  {
  }

  /** The turn-by-turn expansion is the reference expansion of what is left of the template. */
  lemma {:induction false} RestIsSubstitute(expand: Expander, t: string, end: nat)
    requires end <= |t|
    ensures Rest(expand, t, end) == Substitute(expand, t[end..])
    decreases |t| - end
  {
    var start := IndexOf(t, '{', end);
    IndexOfFirst(t, '{', end);
    if start == -1 {
      RestFinish(expand, t, end);
    } else {
      var close := IndexOf(t, '}', start);
      IndexOfFirst(t, '}', start);
      if close == -1 {
        RestStop(expand, t, end, start);
      } else {
        RestIsSubstitute(expand, t, close + 1);
        SubstituteAt(expand, t, end, start, close);
        RestResume(expand, t, end, start, close, Substitute(expand, t[end..]), Substitute(expand, t[close + 1..]));
      }
    }
  }

  /** The loop's invariant carried over one closed expression that expands to `x`. */
  lemma ResumeAfter(expand: Expander, t: string, whole: Result<string, Error>, done: string, end: nat, start: int, close: int, x: string)
    requires end <= |t| && start == IndexOf(t, '{', end) && start != -1
    requires close == IndexOf(t, '}', start) && close != -1
    requires expand(t[start + 1..close]) == Success(x)
    requires whole == Prepend(done, Substitute(expand, t[end..]))
    ensures whole == Prepend(done + t[end..start] + x, Substitute(expand, t[close + 1..]))
  {
    IndexOfFirst(t, '{', end);
    IndexOfFirst(t, '}', start);
    SubstituteAt(expand, t, end, start, close);
    PrependThree(done, t[end..start], x, Substitute(expand, t[close + 1..]));
  }

  /** The loop's result when a closed expression fails with `e`. */
  lemma FailAt(expand: Expander, t: string, whole: Result<string, Error>, done: string, end: nat, start: int, close: int, e: Error)
    requires end <= |t| && start == IndexOf(t, '{', end) && start != -1
    requires close == IndexOf(t, '}', start) && close != -1
    requires expand(t[start + 1..close]) == Failure(e)
    requires whole == Prepend(done, Substitute(expand, t[end..]))
    ensures whole == Failure(e)
  {
    IndexOfFirst(t, '{', end);
    IndexOfFirst(t, '}', start);
    SubstituteAt(expand, t, end, start, close);
  }

  /** The loop's result when no `{` is left. */
  lemma FinishAt(expand: Expander, t: string, whole: Result<string, Error>, done: string, end: nat)
    requires end <= |t| && IndexOf(t, '{', end) == -1
    requires whole == Prepend(done, Substitute(expand, t[end..]))
    ensures whole == Success(done + t[end..])
  {
    IndexOfFirst(t, '{', end);
    SubstituteLiteral(expand, t[end..]);
  }

  /** The loop's result when the `{` at `start` is never closed. */
  lemma StopAt(expand: Expander, t: string, whole: Result<string, Error>, done: string, end: nat, start: int)
    requires end <= |t| && start == IndexOf(t, '{', end) && start != -1
    requires IndexOf(t, '}', start) == -1
    requires whole == Prepend(done, Substitute(expand, t[end..]))
    ensures whole == Failure(UnterminatedExpression)
  {
    IndexOfFirst(t, '{', end);
    IndexOfFirst(t, '}', start);
    SubstituteStopAt(expand, t, end, start);
  }

  /**
    The cursor loop of `expandTemplate`, with the expression expander
    passed in: literal text up to the next `{` is copied, the body up to
    the next `}` is expanded, and the cursor moves past the `}`. Where
    the source sends its cursor back to 0 on a `{` without a `}`, the
    loop fails with `UnterminatedExpression`.
   */
  method ScanLoop(expand: Expander, template: string) returns (r: Result<string, Error>)
    ensures r == Substitute(expand, template)
  {
    ghost var whole := Substitute(expand, template);
    var uri := "";
    var end := 0;
    assert template[end..] == template;
    PrependEmpty(whole);
    while true
      invariant end <= |template|
      invariant whole == Prepend(uri, Substitute(expand, template[end..]))
      decreases |template| - end
    {
      var start := IndexOf(template, '{', end);
      if start == -1 {
        // no more expressions
        FinishAt(expand, template, whole, uri, end);
        return Success(uri + template[end..]);
      }
      var close := IndexOf(template, '}', start);
      if close == -1 {
        StopAt(expand, template, whole, uri, end, start);
        return Failure(UnterminatedExpression);
      }
      assert end <= start < close < |template|;
      var x := expand(template[start + 1..close]);
      if x.Failure? {
        FailAt(expand, template, whole, uri, end, start, close, x.error);
        return Failure(x.error);
      }
      ResumeAfter(expand, template, whole, uri, end, start, close, x.value);
      uri := uri + template[end..start] + x.value;
      end := close + 1;
    }
  }



  /** `expandTemplate`: the cursor loop over `expandExpression`. */
  method ExpandTemplate(codec: Codec, template: string, params: Params) returns (r: Result<string, Error>)
    ensures r == Expand(codec, template, params)
  {
    r := ScanLoop(ExpressionExpander(codec, params), template);
  }
}
