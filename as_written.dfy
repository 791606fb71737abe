/**
  The cursor loop of `expandTemplate` exactly as util/uriTemplate.js
  writes it, one turn at a time. The position after the closing brace is
  `template.indexOf('}', start) + 1`, which is 0 when no `}` follows the
  `{`: the cursor then jumps back to the start of the template, the body
  handed to `expandExpression` is `template.slice(start + 1, -1)`, and
  the loop never reaches its `break`.

  Where every `{` is closed the loop ends with the reference expansion of
  module Templates; where some `{` is not, it never ends unless an
  expression throws first.
 */
module AsWritten {
  import opened Wrappers
  import opened Text
  import opened Operators
  import opened Expressions
  import opened Templates

  /** Where the loop stands: still turning at a cursor, done with a URI, or ended by a throw. */
  datatype LoopState = Running(uri: string, end: nat) | Finished(uri: string) | Threw(error: Error)

  /** The state a loop ends in when it hands back `r`: finished with the URI, or thrown. */
  function Ended(r: Result<string, Error>): (s: LoopState)
    ensures !s.Running?
  {
    match r
    case Success(uri) => Finished(uri)
    case Failure(e) => Threw(e)
  }

  /** One turn of the loop body from cursor `end` with the URI built so far. */
  function Step(expand: Expander, t: string, uri: string, end: nat): (s: LoopState)
    requires end <= |t|
    ensures s.Running? ==> s.end <= |t|
  {
    var start := IndexOf(t, '{', end);
    if start == -1 then Finished(uri + t[end..])
    else
      var next := IndexOf(t, '}', start) + 1;
      var x := expand(JsSlice(t, start + 1, next - 1));
      if x.Failure? then Threw(x.error) else Running(uri + t[end..start] + x.value, next)
  }

  /** At most `fuel` turns of the loop from state `s`. */
  function Run(expand: Expander, t: string, s: LoopState, fuel: nat): (r: LoopState)
    requires s.Running? ==> s.end <= |t|
    ensures r.Running? ==> r.end <= |t|
    decreases fuel
  {
    if fuel == 0 || !s.Running? then s
    else Run(expand, t, Step(expand, t, s.uri, s.end), fuel - 1)
  }

  /** The loop as `expandTemplate` starts it: an empty URI and the cursor at 0. */
  function Loop(expand: Expander, t: string, fuel: nat): (r: LoopState)
    ensures r.Running? ==> r.end <= |t|
  {
    Run(expand, t, Running("", 0), fuel)
  }

  /** A `}` closes every `{` that has no unclosed `{` around it: the search for `}` cannot fail. */
  lemma ClosedAt(t: string, start: nat)
    requires !Unclosed(t) && start < |t| && t[start] == '{'
    ensures IndexOf(t, '}', start) != -1
  {
    IndexOfFirst(t, '}', start);
    assert !Free(t[start..], '}');
  }

  /** Every `{` has a `}` after it, as the search for `}` sees it. */
  predicate AllClosed(t: string) {
    forall i {:trigger CloseAfter(t, i)} :: 0 <= i < |t| && t[i] == '{' ==> CloseAfter(t, i) != -1
  }

  /** Where the search for `}` from `i` stops. */
  function CloseAfter(t: string, i: nat): (r: int)
    requires i <= |t|
  {
    IndexOf(t, '}', i)
  }

  lemma ClosedAll(t: string)
    requires !Unclosed(t)
    ensures AllClosed(t)
  {
    forall i | 0 <= i < |t| && t[i] == '{'
      ensures CloseAfter(t, i) != -1
    {
      ClosedAt(t, i);
    }
  }

  /** A loop that has finished or thrown stays so. */
  lemma RunStopped(expand: Expander, t: string, s: LoopState, fuel: nat)
    requires !s.Running?
    ensures Run(expand, t, s, fuel) == s
  {
  }

  /** The last turn when no `{` is left: the loop finishes with the rest of the template. */
  lemma RunFinish(expand: Expander, t: string, uri: string, end: nat, fuel: nat)
    requires end <= |t| && 0 < fuel && IndexOf(t, '{', end) == -1
    ensures Run(expand, t, Running(uri, end), fuel) == Ended(Prepend(uri, Rest(expand, t, end)))
  {
    RunStopped(expand, t, Finished(uri + t[end..]), fuel - 1);
  }

  /** The last turn when a closed expression fails: the loop throws its error. */
  lemma RunThrow(expand: Expander, t: string, uri: string, end: nat, start: int, close: int, fuel: nat)
    requires end <= |t| && 0 < fuel
    requires start == IndexOf(t, '{', end) && start != -1
    requires close == IndexOf(t, '}', start) && close != -1
    requires expand(t[start + 1..close]).Failure?
    ensures Run(expand, t, Running(uri, end), fuel) == Ended(Prepend(uri, Rest(expand, t, end)))
  {
    var e := expand(t[start + 1..close]).error;
    assert JsSlice(t, start + 1, close + 1 - 1) == t[start + 1..close];
    assert Step(expand, t, uri, end) == Threw(e);
    RunStopped(expand, t, Threw(e), fuel - 1);
  }

  /** A turn over a closed expression that expands to `x`: the loop goes on past its `}`. */
  lemma RunResume(expand: Expander, t: string, uri: string, end: nat, start: int, close: int, fuel: nat,
                  x: string, after: Result<string, Error>)
    requires end <= |t| && 0 < fuel
    requires start == IndexOf(t, '{', end) && start != -1
    requires close == IndexOf(t, '}', start) && close != -1
    requires expand(t[start + 1..close]) == Success(x)
    requires Rest(expand, t, close + 1) == after
    requires Run(expand, t, Running(uri + t[end..start] + x, close + 1), fuel - 1)
             == Ended(Prepend(uri + t[end..start] + x, after))
    ensures Run(expand, t, Running(uri, end), fuel) == Ended(Prepend(uri, Rest(expand, t, end)))
  {
    StepResume(expand, t, uri, end, start, close, x);
    RestAfter(expand, t, uri, end, start, close, x, after);
  }

  /** The turn itself: the literal and the expansion are appended and the cursor moves past the `}`. */
  lemma StepResume(expand: Expander, t: string, uri: string, end: nat, start: int, close: int, x: string)
    requires end <= |t|
    requires start == IndexOf(t, '{', end) && start != -1
    requires close == IndexOf(t, '}', start) && close != -1
    requires expand(t[start + 1..close]) == Success(x)
    ensures end <= start < close < |t|
    ensures Step(expand, t, uri, end) == Running(uri + t[end..start] + x, close + 1)
  {
    assert JsSlice(t, start + 1, close + 1 - 1) == t[start + 1..close];
  }

  /** What the turn-by-turn expansion adds from `end` is what it adds past the `}`, behind the turn's text. */
  lemma RestAfter(expand: Expander, t: string, uri: string, end: nat, start: int, close: int, x: string,
                  after: Result<string, Error>)
    requires end <= |t|
    requires start == IndexOf(t, '{', end) && start != -1
    requires close == IndexOf(t, '}', start) && close != -1
    requires expand(t[start + 1..close]) == Success(x)
    requires Rest(expand, t, close + 1) == after
    ensures Prepend(uri, Rest(expand, t, end)) == Prepend(uri + t[end..start] + x, after)
  {
    var here := Continue(t[end..start], expand(t[start + 1..close]), after);
    RestResume(expand, t, end, start, close, here, after);
    assert here == Prepend(t[end..start] + x, after);
    PrependThree(uri, t[end..start], x, after);
  }

  /**
    From cursor `end` of a template whose every `{` is closed, the loop
    as written finishes, or throws, within as many turns as there are
    characters left, with what the turn-by-turn expansion adds.
   */
  lemma {:induction false} RunAgrees(expand: Expander, t: string, uri: string, end: nat, fuel: nat)
    requires end <= |t| && AllClosed(t) && |t| - end < fuel
    ensures Run(expand, t, Running(uri, end), fuel) == Ended(Prepend(uri, Rest(expand, t, end)))
    decreases fuel, 2
  {
    var start := IndexOf(t, '{', end);
    if start == -1 {
      RunFinish(expand, t, uri, end, fuel);
    } else {
      RunAgreesAt(expand, t, uri, end, start, fuel);
    }
  }

  /** `RunAgrees` when the search from `end` finds a `{` at `start`. */
  lemma {:induction false} RunAgreesAt(expand: Expander, t: string, uri: string, end: nat, start: int, fuel: nat)
    requires end <= |t| && AllClosed(t) && |t| - end < fuel
    requires start == IndexOf(t, '{', end) && start != -1
    ensures Run(expand, t, Running(uri, end), fuel) == Ended(Prepend(uri, Rest(expand, t, end)))
    decreases fuel, 1
  {
    assert CloseAfter(t, start) != -1;
    RunAgreesClosed(expand, t, uri, end, start, IndexOf(t, '}', start), fuel);
  }

  /** `RunAgreesAt` when the search from `start` finds a `}` at `close`. */
  lemma {:induction false} RunAgreesClosed(expand: Expander, t: string, uri: string, end: nat, start: int, close: int, fuel: nat)
    requires end <= |t| && AllClosed(t) && |t| - end < fuel
    requires start == IndexOf(t, '{', end) && start != -1
    requires close == IndexOf(t, '}', start) && close != -1
    ensures Run(expand, t, Running(uri, end), fuel) == Ended(Prepend(uri, Rest(expand, t, end)))
    decreases fuel, 0
  {
    assert end <= start < close < |t|;
    var x := expand(t[start + 1..close]);
    if x.Failure? {
      RunThrow(expand, t, uri, end, start, close, fuel);
    } else {
      RunAgrees(expand, t, uri + t[end..start] + x.value, close + 1, fuel - 1);
      RunResume(expand, t, uri, end, start, close, fuel, x.value, Rest(expand, t, close + 1));
    }
  }


  /**
    Where every `{` is closed, the loop as written ends within `|t| + 1`
    turns, and with exactly the reference expansion: the correction in
    module Templates changes nothing on these templates.
   */
  lemma LoopAgrees(expand: Expander, t: string)
    requires !Unclosed(t)
    ensures Loop(expand, t, |t| + 1) == Ended(Substitute(expand, t))
  {
    ClosedAll(t);
    RunAgrees(expand, t, "", 0, |t| + 1);
    PrependEmpty(Rest(expand, t, 0));
    RestIsSubstitute(expand, t, 0);
    assert t[0..] == t;
  }

  /** `LoopAgrees` for `expandExpression`. */
  lemma ExpandTemplateAgrees(codec: Codec, t: string, params: Params)
    requires !Unclosed(t)
    ensures Loop(ExpressionExpander(codec, params), t, |t| + 1) == Ended(Expand(codec, t, params))
  {
    LoopAgrees(ExpressionExpander(codec, params), t);
  }

  /**
    While the cursor is at or before an unclosed `{` at `p`, a turn can
    throw but cannot finish, and the cursor it leaves is again at or
    before `p`: every `}` lies before `p`, and a missing one sends the
    cursor to 0.
   */
  lemma StepStaysBefore(expand: Expander, t: string, uri: string, end: nat, p: nat)
    requires end <= p < |t| && t[p] == '{' && Free(t[p..], '}')
    ensures !Step(expand, t, uri, end).Finished?
    ensures Step(expand, t, uri, end).Running? ==> Step(expand, t, uri, end).end <= p
  {
    var start := IndexOf(t, '{', end);
    IndexOfFirst(t, '{', end);
    assert start != -1;
    var close := IndexOf(t, '}', start);
    IndexOfFirst(t, '}', start);
    if close != -1 {
      assert close < p;
    }
  }

  lemma {:induction false} RunNeverFinishes(expand: Expander, t: string, s: LoopState, p: nat, fuel: nat)
    requires p < |t| && t[p] == '{' && Free(t[p..], '}')
    requires !s.Finished? && (s.Running? ==> s.end <= p)
    ensures !Run(expand, t, s, fuel).Finished?
    decreases fuel
  {
    if fuel > 0 && s.Running? {
      StepStaysBefore(expand, t, s.uri, s.end, p);
      RunNeverFinishes(expand, t, Step(expand, t, s.uri, s.end), p, fuel - 1);
    }
  }

  /**
    A template with an unclosed `{` never finishes, however many turns
    the loop is given: it keeps turning, or an expression throws.
   */
  lemma NeverFinishes(expand: Expander, t: string, fuel: nat)
    requires Unclosed(t)
    ensures !Loop(expand, t, fuel).Finished?
  {
    var p :| 0 <= p < |t| && t[p] == '{' && Free(t[p..], '}');
    RunNeverFinishes(expand, t, Running("", 0), p, fuel);
  }

  /**
    On `{` followed by a name with no `}`, a turn hands the body without
    its last character to the expander (`slice(start + 1, -1)`) and moves
    the cursor back to 0 with the expansion appended, so the next turn
    starts over on the same `{`.
   */
  lemma RestartsOnUnclosed(expand: Expander, name: string, uri: string)
    requires |name| > 0 && Free(name, '}')
    ensures var x := expand(name[..|name| - 1]);
            Step(expand, "{" + name, uri, 0) == if x.Failure? then Threw(x.error) else Running(uri + x.value, 0)
  {
    var t := "{" + name;
    IndexOfIs(t, '{', 0, 0);
    assert Free(t, '}') by {
      forall k | 0 <= k < |t| ensures t[k] != '}' {
        if k > 0 {
          assert t[k] == name[k - 1];
        }
      }
    }
    assert JsSlice(t, 1, -1) == name[..|name| - 1];
    assert t[0..0] == "";
    assert uri + "" == uri;
  }

  lemma {:induction false} RunsForeverFrom(expand: Expander, name: string, uri: string, fuel: nat)
    requires |name| > 0 && Free(name, '}') && expand(name[..|name| - 1]).Success?
    ensures Run(expand, "{" + name, Running(uri, 0), fuel).Running?
    decreases fuel
  {
    if fuel > 0 {
      RestartsOnUnclosed(expand, name, uri);
      RunsForeverFrom(expand, name, uri + expand(name[..|name| - 1]).value, fuel - 1);
    }
  }

  /**
    A body whose first character is no operator names a variable under
    the default operator, and cutting one character off its end keeps
    that so: its expansion cannot fail.
   */
  lemma ShortenedExpands(codec: Codec, params: Params, name: string)
    requires |name| > 0 && name[..1] !in ReservedKeys
    ensures ExpressionExpander(codec, params)(name[..|name| - 1]).Success?
  {
    var body := name[..|name| - 1];
    assert body == "" || body[..1] == name[..1];
    assert ExpressionExpander(codec, params)(body) == ExpandExpression(codec, body, params);
  }

  /**
    With `expandExpression`, `{` followed by a name with no `}` and no
    reserved operator (`{var`, say) never finishes, while the reference
    expansion fails with `UnterminatedExpression`.
   */
  lemma UnclosedNameLoops(codec: Codec, params: Params, name: string, fuel: nat)
    requires |name| > 0 && Free(name, '}') && name[..1] !in ReservedKeys
    ensures Loop(ExpressionExpander(codec, params), "{" + name, fuel).Running?
    ensures Expand(codec, "{" + name, params) == Failure(UnterminatedExpression)
  {
    UnclosedNameRuns(codec, params, name, fuel);
    UnclosedNameFails(codec, params, name);
  }

  lemma UnclosedNameRuns(codec: Codec, params: Params, name: string, fuel: nat)
    requires |name| > 0 && Free(name, '}') && name[..1] !in ReservedKeys
    ensures Loop(ExpressionExpander(codec, params), "{" + name, fuel).Running?
  {
    ShortenedExpands(codec, params, name);
    RunsForeverFrom(ExpressionExpander(codec, params), name, "", fuel);
  }

  lemma UnclosedNameFails(codec: Codec, params: Params, name: string)
    requires Free(name, '}')
    ensures Expand(codec, "{" + name, params) == Failure(UnterminatedExpression)
  {
    assert "{" + name == "" + "{" + name;
    ExpandUnterminated(codec, "", name, params);
  }

  /** The template `{var` is one such input. */
  lemma UnterminatedVar(codec: Codec, params: Params, fuel: nat)
    ensures Loop(ExpressionExpander(codec, params), "{var", fuel).Running?
    ensures Expand(codec, "{var", params) == Failure(UnterminatedExpression)
  {
    assert "var"[..1] == "v";
    UnclosedNameLoops(codec, params, "var", fuel);
    assert "{" + "var" == "{var";
  }

  /**
    An unclosed `{` whose truncated body starts with a reserved operator
    does not loop: the first turn hands that body to `expandExpression`,
    which throws. The reference expansion reports `UnterminatedExpression`
    for the same template.
   */
  lemma UnclosedReservedThrows(codec: Codec, params: Params, name: string, fuel: nat)
    requires |name| > 1 && Free(name, '}') && name[..1] in ReservedKeys && fuel > 0
    ensures Loop(ExpressionExpander(codec, params), "{" + name, fuel) == Threw(UnsupportedOperator)
    ensures Expand(codec, "{" + name, params) == Failure(UnterminatedExpression)
  {
    var expand := ExpressionExpander(codec, params);
    ShortenedThrows(codec, params, name);
    RestartsOnUnclosed(expand, name, "");
    assert Step(expand, "{" + name, "", 0) == Threw(UnsupportedOperator);
    RunStopped(expand, "{" + name, Threw(UnsupportedOperator), fuel - 1);
    UnclosedNameFails(codec, params, name);
  }

  lemma ShortenedThrows(codec: Codec, params: Params, name: string)
    requires |name| > 1 && name[..1] in ReservedKeys
    ensures ExpressionExpander(codec, params)(name[..|name| - 1]) == Failure(UnsupportedOperator)
  {
    var body := name[..|name| - 1];
    assert body[..1] == name[..1];
    assert ExpressionExpander(codec, params)(body) == ExpandExpression(codec, body, params);
  }

  /** The template `{=var` is one such input: the source throws the reserved-operator error. */
  lemma UnterminatedReserved(codec: Codec, params: Params, fuel: nat)
    requires fuel > 0
    ensures Loop(ExpressionExpander(codec, params), "{=var", fuel) == Threw(UnsupportedOperator)
    ensures Expand(codec, "{=var", params) == Failure(UnterminatedExpression)
  {
    assert "=var"[..1] == "=";
    UnclosedReservedThrows(codec, params, "=var", fuel);
    assert "{" + "=var" == "{=var";
  }
}
