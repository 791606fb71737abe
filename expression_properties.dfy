/**
  What the per-variable reduces of util/uriTemplate.js compute, stated
  against reference definitions: a list is its rendered items joined by
  one separator, a map is its rendered pairs joined the same way behind
  at most one name prefix, the prefix modifier touches scalars only, and
  the fragments of an expression come in declaration order.
 */
module ExpressionProperties {
  import opened Wrappers
  import opened Text
  import opened Operators
  import opened Expressions

  // ---------------------------------------------------------------- lists

  /** One rendered list item: the name prefix when the operator is named and the item is exploded or first. */
  function RenderItem(op: Op, codec: Codec, spec: VarSpec, item: string, first: bool): (r: string) {
    (if op.named && (spec.explode || first) then NamePrefix(op, codec, spec.name, item) else "")
    + Encoder(codec, op.mode)(item)
  }

  /** The rendered items of a list, in order; only the first may count as first. */
  function RenderItems(op: Op, codec: Codec, spec: VarSpec, items: seq<string>, first: bool): (r: seq<string>)
    ensures |r| == |items|
    decreases |items|
  {
    if |items| == 0 then []
    else [RenderItem(op, codec, spec, items[0], first)] + RenderItems(op, codec, spec, items[1..], false)
  }

  /** A step from a non-empty accumulated string appends the separator and the rendered item. */
  lemma ListStepNonEmpty(op: Op, codec: Codec, spec: VarSpec, acc: string, item: string)
    requires |acc| > 0
    ensures ListStep(op, codec, spec, acc, item) == acc + ItemSeparator(op, spec) + RenderItem(op, codec, spec, item, false)
  {
    var p := if op.named && spec.explode then NamePrefix(op, codec, spec.name, item) else "";
    var e := Encoder(codec, op.mode)(item);
    assert acc + ItemSeparator(op, spec) + p + e == acc + ItemSeparator(op, spec) + (p + e);
  }

  lemma ConsTwo(a: string, x: string, rest: seq<string>)
    ensures [a] + ([x] + rest) == [a, x] + rest
  {
  }

  /** Once the accumulated string is non-empty, every further item is appended behind the item separator. */
  lemma {:induction false} ListFoldFromNonEmpty(op: Op, codec: Codec, spec: VarSpec, acc: string, items: seq<string>)
    requires |acc| > 0
    ensures ListFold(op, codec, spec, acc, items)
            == Join([acc] + RenderItems(op, codec, spec, items, false), ItemSeparator(op, spec))
    decreases |items|
  {
    var sep := ItemSeparator(op, spec);
    if |items| == 0 {
      assert [acc] + RenderItems(op, codec, spec, items, false) == [acc];
    } else {
      var x := RenderItem(op, codec, spec, items[0], false);
      var rest := RenderItems(op, codec, spec, items[1..], false);
      var next := ListStep(op, codec, spec, acc, items[0]);
      ListStepNonEmpty(op, codec, spec, acc, items[0]);
      ListFoldFromNonEmpty(op, codec, spec, next, items[1..]);
      JoinGlue(acc, x, rest, sep);
      ConsTwo(acc, x, rest);
    }
  }

  /**
    A list renders as its items in order, joined by the operator's
    separator when exploded and by `,` otherwise; with a named operator
    every exploded item, and otherwise only the first, carries the name
    prefix. This holds whenever the first rendered item is not empty.
   */
  lemma ListFragmentIsJoin(op: Op, codec: Codec, spec: VarSpec, items: seq<string>)
    requires |items| > 0 && |RenderItem(op, codec, spec, items[0], true)| > 0
    ensures VarFragment(op, codec, spec, List(items))
            == Some(Join(RenderItems(op, codec, spec, items, true), ItemSeparator(op, spec)))
  {
    var first := RenderItem(op, codec, spec, items[0], true);
    assert ListStep(op, codec, spec, "", items[0]) == first;
    ListFoldFromNonEmpty(op, codec, spec, first, items[1..]);
    assert RenderItems(op, codec, spec, items, true) == [first] + RenderItems(op, codec, spec, items[1..], false);
  }

  /**
    The separator test is on the accumulated string, not on the item's
    index: a leading item that renders as nothing is dropped without a
    trace, and the next item is treated as the first.
   */
  lemma ListFragmentSkipsEmptyLead(op: Op, codec: Codec, spec: VarSpec, items: seq<string>)
    requires |items| > 0 && RenderItem(op, codec, spec, items[0], true) == ""
    ensures VarFragment(op, codec, spec, List(items)) == VarFragment(op, codec, spec, List(items[1..]))
  {
    assert ListStep(op, codec, spec, "", items[0]) == "";
  }

  /** An empty list still yields a fragment, the empty one. */
  lemma EmptyListFragment(op: Op, codec: Codec, spec: VarSpec)
    ensures VarFragment(op, codec, spec, List([])) == Some("")
  {
  }

  // ---------------------------------------------------------------- maps

  /** One rendered pair: `key=value` when exploded, `key,value` otherwise. */
  function RenderPair(op: Op, codec: Codec, spec: VarSpec, pair: (string, string)): (r: string) {
    var enc := Encoder(codec, op.mode);
    enc(pair.0) + (if spec.explode then "=" else ",") + enc(pair.1)
  }

  function RenderPairs(op: Op, codec: Codec, spec: VarSpec, pairs: seq<(string, string)>): (r: seq<string>)
    ensures |r| == |pairs|
    decreases |pairs|
  {
    if |pairs| == 0 then []
    else [RenderPair(op, codec, spec, pairs[0])] + RenderPairs(op, codec, spec, pairs[1..])
  }

  /** The single prefix of a named, non-exploded map: `=` or `empty` chosen by the first value's length. */
  function MapPrefix(op: Op, codec: Codec, spec: VarSpec, pairs: seq<(string, string)>): (r: string)
    requires |pairs| > 0
  {
    if op.named && !spec.explode then NamePrefix(op, codec, spec.name, pairs[0].1) else ""
  }

  /** A step from a non-empty accumulated string appends the separator and the rendered pair. */
  lemma MapStepNonEmpty(op: Op, codec: Codec, spec: VarSpec, acc: string, pair: (string, string))
    requires |acc| > 0
    ensures MapStep(op, codec, spec, acc, pair) == acc + ItemSeparator(op, spec) + RenderPair(op, codec, spec, pair)
  {
    var enc := Encoder(codec, op.mode);
    var m := if spec.explode then "=" else ",";
    assert acc + ItemSeparator(op, spec) + enc(pair.0) + m + enc(pair.1)
        == acc + ItemSeparator(op, spec) + (enc(pair.0) + m + enc(pair.1));
  }

  lemma {:induction false} MapFoldFromNonEmpty(op: Op, codec: Codec, spec: VarSpec, acc: string, pairs: seq<(string, string)>)
    requires |acc| > 0
    ensures MapFold(op, codec, spec, acc, pairs)
            == Join([acc] + RenderPairs(op, codec, spec, pairs), ItemSeparator(op, spec))
    decreases |pairs|
  {
    var sep := ItemSeparator(op, spec);
    if |pairs| == 0 {
      assert [acc] + RenderPairs(op, codec, spec, pairs) == [acc];
    } else {
      var x := RenderPair(op, codec, spec, pairs[0]);
      var rest := RenderPairs(op, codec, spec, pairs[1..]);
      var next := MapStep(op, codec, spec, acc, pairs[0]);
      MapStepNonEmpty(op, codec, spec, acc, pairs[0]);
      MapFoldFromNonEmpty(op, codec, spec, next, pairs[1..]);
      JoinGlue(acc, x, rest, sep);
      ConsTwo(acc, x, rest);
    }
  }

  /**
    A non-empty map renders as its pairs in order, joined by the
    operator's separator when exploded and by `,` otherwise, behind the
    one name prefix of a named, non-exploded map.
   */
  lemma MapFragmentIsJoin(op: Op, codec: Codec, spec: VarSpec, pairs: seq<(string, string)>)
    requires |pairs| > 0
    ensures VarFragment(op, codec, spec, Map(pairs))
            == Some(MapPrefix(op, codec, spec, pairs) + Join(RenderPairs(op, codec, spec, pairs), ItemSeparator(op, spec)))
  {
    var sep := ItemSeparator(op, spec);
    var prefix := MapPrefix(op, codec, spec, pairs);
    var x := RenderPair(op, codec, spec, pairs[0]);
    var rest := RenderPairs(op, codec, spec, pairs[1..]);
    var first := MapStep(op, codec, spec, "", pairs[0]);
    assert first == prefix + x;
    MapFoldFromNonEmpty(op, codec, spec, first, pairs[1..]);
    JoinFront(prefix, x, rest, sep);
    assert RenderPairs(op, codec, spec, pairs) == [x] + rest;
  }

  // ---------------------------------------------------------------- modifiers

  lemma {:induction false} ListFoldIgnoresMaxLength(op: Op, codec: Codec, name: string, explode: bool,
                                                     m1: Option<nat>, m2: Option<nat>, acc: string, items: seq<string>)
    ensures ListFold(op, codec, VarSpec(name, explode, m1), acc, items)
            == ListFold(op, codec, VarSpec(name, explode, m2), acc, items)
    decreases |items|
  {
    if |items| > 0 {
      var next := ListStep(op, codec, VarSpec(name, explode, m1), acc, items[0]);
      assert next == ListStep(op, codec, VarSpec(name, explode, m2), acc, items[0]);
      ListFoldIgnoresMaxLength(op, codec, name, explode, m1, m2, next, items[1..]);
    }
  }

  lemma {:induction false} MapFoldIgnoresMaxLength(op: Op, codec: Codec, name: string, explode: bool,
                                                    m1: Option<nat>, m2: Option<nat>, acc: string, pairs: seq<(string, string)>)
    ensures MapFold(op, codec, VarSpec(name, explode, m1), acc, pairs)
            == MapFold(op, codec, VarSpec(name, explode, m2), acc, pairs)
    decreases |pairs|
  {
    if |pairs| > 0 {
      var next := MapStep(op, codec, VarSpec(name, explode, m1), acc, pairs[0]);
      assert next == MapStep(op, codec, VarSpec(name, explode, m2), acc, pairs[0]);
      MapFoldIgnoresMaxLength(op, codec, name, explode, m1, m2, next, pairs[1..]);
    }
  }

  /** The prefix modifier has no effect on list and map values. */
  lemma MaxLengthIgnoredForCollections(op: Op, codec: Codec, name: string, explode: bool,
                                       m1: Option<nat>, m2: Option<nat>, value: Value)
    requires value.List? || value.Map?
    ensures VarFragment(op, codec, VarSpec(name, explode, m1), value)
            == VarFragment(op, codec, VarSpec(name, explode, m2), value)
  {
    if value.List? {
      ListFoldIgnoresMaxLength(op, codec, name, explode, m1, m2, "", value.items);
    } else {
      MapFoldIgnoresMaxLength(op, codec, name, explode, m1, m2, "", value.pairs);
    }
  }

  /** `:N` renders a scalar as if only its first N characters had been given. */
  lemma ScalarPrefixTruncates(op: Op, codec: Codec, name: string, explode: bool, n: nat, s: string)
    requires 0 < n < |s|
    ensures VarFragment(op, codec, VarSpec(name, explode, Some(n)), Scalar(s))
            == VarFragment(op, codec, VarSpec(name, explode, None), Scalar(s[..n]))
  {
  }

  /** `:0` is not a truncation (the test is on truthiness), and neither is a prefix as long as the value. */
  lemma ScalarPrefixNoEffect(op: Op, codec: Codec, name: string, explode: bool, n: nat, s: string)
    requires n == 0 || n >= |s|
    ensures VarFragment(op, codec, VarSpec(name, explode, Some(n)), Scalar(s))
            == VarFragment(op, codec, VarSpec(name, explode, None), Scalar(s))
  {
  }

  /**
    A scalar renders as `enc(name)`, `=` or the operator's `empty` string,
    and `enc(value)` under a named operator, and as `enc(value)` alone
    otherwise; explode does not change it.
   */
  lemma ScalarFragment(op: Op, codec: Codec, spec: VarSpec, s: string)
    requires spec.maxLength.None?
    ensures var enc := Encoder(codec, op.mode);
            VarFragment(op, codec, spec, Scalar(s))
            == Some(if op.named then enc(spec.name) + (if s == "" then op.empty else "=") + enc(s) else enc(s))
  {
  }

  // ---------------------------------------------------------------- expressions

  /** Fragments come in declaration order: the fragments of a concatenation are the concatenated fragments. */
  lemma {:induction false} FragmentsConcat(op: Op, codec: Codec, a: seq<string>, b: seq<string>, params: Params)
    ensures Fragments(op, codec, a + b, params) == Fragments(op, codec, a, params) + Fragments(op, codec, b, params)
    decreases |a|
  {
    if |a| > 0 {
      assert (a + b)[0] == a[0];
      assert (a + b)[1..] == a[1..] + b;
      FragmentsConcat(op, codec, a[1..], b, params);
    } else {
      assert a + b == b;
    }
  }

  /** Every variable token names a variable that is undefined. */
  predicate AllAbsent(codec: Codec, tokens: seq<string>, params: Params) {
    forall i :: 0 <= i < |tokens| ==> Resolve(params, ParseVarSpec(codec, tokens[i]).name).Absent?
  }

  /** Variables that are all undefined produce no fragment. */
  lemma {:induction false} FragmentsAllAbsent(op: Op, codec: Codec, tokens: seq<string>, params: Params)
    requires AllAbsent(codec, tokens, params)
    ensures Fragments(op, codec, tokens, params) == []
    decreases |tokens|
  {
    if |tokens| > 0 {
      assert Resolve(params, ParseVarSpec(codec, tokens[0]).name).Absent?;
      FragmentsAllAbsent(op, codec, tokens[1..], params);
    }
  }

  /** A variable with a defined value (other than an empty map) produces a fragment. */
  lemma {:induction false} FragmentsDefined(op: Op, codec: Codec, tokens: seq<string>, params: Params, k: nat)
    requires k < |tokens|
    requires var v := Resolve(params, ParseVarSpec(codec, tokens[k]).name);
             !v.Absent? && !(v.Map? && |v.pairs| == 0)
    ensures Fragments(op, codec, tokens, params) != []
    decreases k
  {
    var spec := ParseVarSpec(codec, tokens[0]);
    var f := VarFragment(op, codec, spec, Resolve(params, spec.name));
    var rest := Fragments(op, codec, tokens[1..], params);
    assert Fragments(op, codec, tokens, params) == if f.Some? then [f.value] + rest else rest;
    if k > 0 && f.None? {
      assert tokens[1..][k - 1] == tokens[k];
      FragmentsDefined(op, codec, tokens[1..], params, k - 1);
    }
  }

  /**
    An expression whose variables are all undefined renders as the empty
    string, without the operator's prefix.
   */
  lemma ExpressionAllAbsent(codec: Codec, expr: string, params: Params)
    requires Select(expr).0.Active?
    requires AllAbsent(codec, Split(Select(expr).1, ','), params)
    ensures ExpandExpression(codec, expr, params) == Success("")
  {
    FragmentsAllAbsent(Select(expr).0.op, codec, Split(Select(expr).1, ','), params);
  }

  /**
    An expression with at least one defined variable renders as the
    operator's prefix followed by the fragments joined by its separator.
   */
  lemma ExpressionDefined(codec: Codec, expr: string, params: Params, k: nat)
    requires Select(expr).0.Active?
    requires k < |Split(Select(expr).1, ',')|
    requires var v := Resolve(params, ParseVarSpec(codec, Split(Select(expr).1, ',')[k]).name);
             !v.Absent? && !(v.Map? && |v.pairs| == 0)
    ensures var op := Select(expr).0.op;
            var frags := Fragments(op, codec, Split(Select(expr).1, ','), params);
            frags != [] && ExpandExpression(codec, expr, params) == Success(op.first + Join(frags, op.separator))
  {
    FragmentsDefined(Select(expr).0.op, codec, Split(Select(expr).1, ','), params, k);
  }

  /**
    Operator selection: a reserved leading character fails, a leading
    character in the table is stripped and selects its operator, and any
    other leading character is kept under the default operator.
   */
  lemma OperatorSelection(codec: Codec, c: char, rest: string, params: Params)
    ensures [c] in ReservedKeys ==> ExpandExpression(codec, [c] + rest, params) == Failure(UnsupportedOperator)
    ensures [c] in ActiveKeys ==>
              ExpandExpression(codec, [c] + rest, params) == Success(Apply(Lookup([c]).value.op, codec, rest, params))
    ensures [c] !in ActiveKeys + ReservedKeys ==>
              ExpandExpression(codec, [c] + rest, params) == Success(Apply(DefaultOp, codec, [c] + rest, params))
  {
    var expr := [c] + rest;
    assert expr[..1] == [c];
    assert expr[1..] == rest;
  }
}
