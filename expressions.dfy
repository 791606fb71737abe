/**
  Expansion of one `{...}` expression (`apply` and `expandExpression` in
  util/uriTemplate.js): the body is split on `,`, each variable token is
  stripped of its explode (`*`) and prefix (`:N`) modifiers (sections
  2.4.1 and 2.4.2 of RFC 6570), its name is percent-decoded and looked up,
  and its value is rendered as a fragment (sections 3.2.1 to 3.2.9 of
  RFC 6570). The fragments are joined by the operator's separator behind
  the operator's prefix.
 */
module Expressions {
  import opened Wrappers
  import opened Text
  import opened Operators

  /** A parameter value, already told apart by shape; `Absent` stands for `undefined` and `null`. */
  datatype Value =
    | Absent
    | Scalar(s: string)
    | List(items: seq<string>)
    // the pairs in the order `Object.keys` enumerates them
    | Map(pairs: seq<(string, string)>)

  type Params = map<string, Value>

  /** A parsed variable token: the decoded name and its two modifiers. */
  datatype VarSpec = VarSpec(name: string, explode: bool, maxLength: Option<nat>)

  datatype Error = UnsupportedOperator | UnterminatedExpression

  /** `params[name]`, where a missing key reads as `undefined`. */
  function Resolve(params: Params, name: string): (r: Value) {
    if name in params then params[name] else Absent
  }

  // ---------------------------------------------------------------- modifiers

  /**
    The match of `/^([^:]*):([0-9]+)$/`: the text before the first colon
    and a non-empty run of digits that reaches the end.
   */
  function MatchPrefix(v: string): (m: Option<(string, string)>)
    ensures m.Some? ==> v == m.value.0 + ":" + m.value.1
    ensures m.Some? ==> ':' !in m.value.0 && |m.value.1| > 0 && AllDigits(m.value.1)
  {
    var i := IndexOf(v, ':', 0);
    IndexOfFirst(v, ':', 0);
    if i == -1 then None
    else
      var digits := v[i + 1..];
      if |digits| > 0 && AllDigits(digits) then
        assert v == v[..i] + ":" + digits;
        Some((v[..i], digits))
      else None
  }

  /** Every string of the regular expression's shape is matched, with the split it describes. */
  lemma MatchPrefixComplete(name: string, digits: string)
    requires ':' !in name && |digits| > 0 && AllDigits(digits)
    ensures MatchPrefix(name + ":" + digits) == Some((name, digits))
  {
    var v := name + ":" + digits;
    assert forall i :: 0 <= i < |name| ==> v[i] == name[i];
    IndexOfIs(v, ':', 0, |name|);
    assert v[..|name|] == name;
    assert v[|name| + 1..] == digits;
  }

  /** A string without a colon is not matched. */
  lemma MatchPrefixNoColon(v: string)
    requires forall k :: 0 <= k < |v| ==> v[k] != ':'
    ensures MatchPrefix(v) == None
  {
  }

  /** The explode modifier is a trailing `*`. */
  predicate Exploded(token: string) {
    |token| > 0 && token[|token| - 1] == '*'
  }

  /**
    Parses one variable token: a trailing `*` is removed first and sets
    `explode`, then a `:digits` suffix sets `maxLength`, then the
    remaining name is percent-decoded.
   */
  function ParseVarSpec(codec: Codec, token: string): (spec: VarSpec)
    ensures spec.explode <==> Exploded(token)
    ensures var v := if Exploded(token) then token[..|token| - 1] else token;
            spec.maxLength.Some? <==> MatchPrefix(v).Some?
  {
    var explode := Exploded(token);
    var v := if explode then token[..|token| - 1] else token;
    match MatchPrefix(v)
    case Some((name, digits)) => VarSpec(codec.decode(name), explode, Some(ParseDecimal(digits)))
    case None => VarSpec(codec.decode(v), explode, None)
  }

  /** The token text that writes a name with the given modifiers, `name:N*` at most. */
  function VarSpecText(raw: string, explode: bool, maxLength: Option<nat>): (r: string) {
    raw + (if maxLength.Some? then ":" + Decimal(maxLength.value) else "") + (if explode then "*" else "")
  }

  /** A trailing `*` is recognised exactly when it was written, and removing it leaves the rest. */
  lemma StripExplode(v: string, explode: bool)
    requires !Exploded(v)
    ensures var token := v + (if explode then "*" else "");
            Exploded(token) == explode && (if explode then token[..|token| - 1] else token) == v
  {
    var token := v + (if explode then "*" else "");
    if explode {
      assert token[..|token| - 1] == v;
    } else {
      assert token == v;
    }
  }

  /** Parsing a written variable token recovers the decoded name and both modifiers. */
  lemma ParseVarSpecRoundTrip(codec: Codec, raw: string, explode: bool, maxLength: Option<nat>)
    requires ':' !in raw && '*' !in raw
    ensures ParseVarSpec(codec, VarSpecText(raw, explode, maxLength)) == VarSpec(codec.decode(raw), explode, maxLength)
  {
    var v := raw + (if maxLength.Some? then ":" + Decimal(maxLength.value) else "");
    assert VarSpecText(raw, explode, maxLength) == v + (if explode then "*" else "");
    if maxLength.Some? {
      var d := Decimal(maxLength.value);
      assert v == raw + ":" + d;
      assert v[|v| - 1] == d[|d| - 1];
      StripExplode(v, explode);
      MatchPrefixComplete(raw, d);
      DecimalRoundTrip(maxLength.value);
    } else {
      assert v == raw;
      assert |v| > 0 ==> v[|v| - 1] in raw;
      StripExplode(v, explode);
      MatchPrefixNoColon(raw);
    }
  }

  // ---------------------------------------------------------------- fragments

  /** `encoder(name)` followed by `'='` for a non-empty value, or by the operator's `empty` string. */
  function NamePrefix(op: Op, codec: Codec, name: string, v: string): (r: string) {
    Encoder(codec, op.mode)(name) + (if |v| > 0 then "=" else op.empty)
  }

  /** The string between two rendered items of an exploded, or of a non-exploded, list or map. */
  function ItemSeparator(op: Op, spec: VarSpec): (r: string) {
    if spec.explode then op.separator else ","
  }

  /** One step of the reduce over a list value. */
  function ListStep(op: Op, codec: Codec, spec: VarSpec, acc: string, item: string): (r: string)
    ensures |acc| > 0 ==> |acc| <= |r| && r[..|acc|] == acc
  {
    var enc := Encoder(codec, op.mode);
    if |acc| > 0 then
      acc + ItemSeparator(op, spec)
      + (if op.named && spec.explode then NamePrefix(op, codec, spec.name, item) else "")
      + enc(item)
    else if op.named then
      NamePrefix(op, codec, spec.name, item) + enc(item)
    else
      enc(item)
  }

  /** The reduce over a list value, from the accumulated string `acc`. */
  function ListFold(op: Op, codec: Codec, spec: VarSpec, acc: string, items: seq<string>): (r: string)
    ensures |acc| > 0 ==> |acc| <= |r| && r[..|acc|] == acc
    decreases |items|
  {
    if |items| == 0 then acc
    else ListFold(op, codec, spec, ListStep(op, codec, spec, acc, items[0]), items[1..])
  }

  /** One step of the reduce over the keys of a map value. */
  function MapStep(op: Op, codec: Codec, spec: VarSpec, acc: string, pair: (string, string)): (r: string)
    ensures |acc| < |r| && r[..|acc|] == acc
  {
    var enc := Encoder(codec, op.mode);
    (if |acc| > 0 then acc + ItemSeparator(op, spec)
     else if op.named && !spec.explode then NamePrefix(op, codec, spec.name, pair.1)
     else "")
    + enc(pair.0) + (if spec.explode then "=" else ",") + enc(pair.1)
  }

  /** The reduce over the keys of a map value, from the accumulated string `acc`. */
  function MapFold(op: Op, codec: Codec, spec: VarSpec, acc: string, pairs: seq<(string, string)>): (r: string)
    ensures |acc| + |pairs| <= |r| && r[..|acc|] == acc
    decreases |pairs|
  {
    if |pairs| == 0 then acc
    else MapFold(op, codec, spec, MapStep(op, codec, spec, acc, pairs[0]), pairs[1..])
  }

  /** The scalar after the prefix modifier: only a `maxLength` that is present and not 0 truncates. */
  function Truncated(spec: VarSpec, s: string): (r: string) {
    if spec.maxLength.Some? && spec.maxLength.value != 0 then Take(s, spec.maxLength.value) else s
  }

  /**
    The fragment one variable contributes, or `None` when it contributes
    none. An empty list still contributes the empty fragment (the reduce
    yields `''`, which is pushed), although section 2.3 of RFC 6570 treats
    an empty list as undefined; an empty map contributes nothing.
   */
  function VarFragment(op: Op, codec: Codec, spec: VarSpec, value: Value): (f: Option<string>)
    ensures f.None? <==> value.Absent? || (value.Map? && |value.pairs| == 0)
  {
    match value
    case Absent => None
    case List(items) => Some(ListFold(op, codec, spec, "", items))
    case Map(pairs) =>
      var s := MapFold(op, codec, spec, "", pairs);
      if |s| > 0 then Some(s) else None
    case Scalar(s) =>
      var v := Truncated(spec, s);
      var enc := Encoder(codec, op.mode);
      Some(if op.named then NamePrefix(op, codec, spec.name, v) + enc(v) else enc(v))
  }

  /** The fragments of the variable tokens, in declaration order, skipping the ones that contribute none. */
  function Fragments(op: Op, codec: Codec, tokens: seq<string>, params: Params): (frags: seq<string>)
    ensures |frags| <= |tokens|
    decreases |tokens|
  {
    if |tokens| == 0 then []
    else
      var spec := ParseVarSpec(codec, tokens[0]);
      var rest := Fragments(op, codec, tokens[1..], params);
      match VarFragment(op, codec, spec, Resolve(params, spec.name))
      case Some(f) => [f] + rest
      case None => rest
  }

  /** `apply`: the operator's prefix and the fragments joined by its separator, or `''` when there are none. */
  function Apply(op: Op, codec: Codec, body: string, params: Params): (r: string)
    ensures Fragments(op, codec, Split(body, ','), params) == [] ==> r == ""
    ensures Fragments(op, codec, Split(body, ','), params) != [] ==> |op.first| <= |r| && r[..|op.first|] == op.first
  {
    var frags := Fragments(op, codec, Split(body, ','), params);
    if |frags| > 0 then op.first + Join(frags, op.separator) else ""
  }

  /** `expandExpression`: selects the operator, fails on a reserved one, and applies it to the rest. */
  function ExpandExpression(codec: Codec, expr: string, params: Params): (r: Result<string, Error>)
    ensures r.Failure? <==> |expr| > 0 && expr[..1] in ReservedKeys
    ensures r.Failure? ==> r.error == UnsupportedOperator
  {
    var (entry, body) := Select(expr);
    match entry
    case Reserved => Failure(UnsupportedOperator)
    case Active(op) => Success(Apply(op, codec, body, params))
  }
}
