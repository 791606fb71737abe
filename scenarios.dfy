/**
  Worked expansions of util/uriTemplate.js with the encoders left
  abstract: each states what a template expands to in terms of the
  encoder calls it makes, for `list = ["red", "green", "blue"]`,
  `keys = [("semi", ";"), ("dot", "."), ("comma", ",")]` and
  `var = "value"`. The general lemmas first, then the concrete templates.
 */
module Scenarios {
  import opened Wrappers
  import opened Text
  import opened Operators
  import opened Expressions
  import opened ExpressionProperties
  import opened Templates

  const Colours: seq<string> := ["red", "green", "blue"]
  const Keys: seq<(string, string)> := [("semi", ";"), ("dot", "."), ("comma", ",")]

  // the table's entries for `+`, `#`, `/`, `;` and `?`
  const Plus: Op := Op("", ",", false, "", ReservedPreserving)
  const Hash: Op := Op("#", ",", false, "", ReservedPreserving)
  const Slash: Op := Op("/", "/", false, "", Strict)
  const Semi: Op := Op(";", ";", true, "", Strict)
  const Query: Op := Op("?", "&", true, "=", Strict)

  // ---------------------------------------------------------------- one variable

  /** A template that is one closed expression expands to that expression's expansion. */
  lemma Braced(codec: Codec, template: string, body: string, params: Params, x: Result<string, Error>)
    requires template == "{" + body + "}" && Free(body, '}')
    requires ExpandExpression(codec, body, params) == x
    ensures Expand(codec, template, params) == x
  {
    BracedText(body);
    ExpandConcat(codec, "", body, "", params);
    ExpandLiteral(codec, "", params);
    ContinueEmpty(x);
  }

  lemma BracedText(body: string)
    ensures "" + "{" + body + "}" + "" == "{" + body + "}"
  {
  }

  lemma ContinueEmpty(x: Result<string, Error>)
    ensures Continue("", x, Success("")) == x
  {
    if x.Success? {
      assert "" + x.value + "" == x.value;
    }
  }

  /** A body without `,` is one variable token. */
  lemma SplitSingle(s: string)
    requires Free(s, ',')
    ensures Split(s, ',') == [s]
  {
    IndexOfNone(s, ',', 0);
  }

  /** An expression of one variable renders as the prefix and that variable's fragment, or as `''`. */
  lemma OneVariable(codec: Codec, op: Op, token: string, params: Params)
    requires Free(token, ',')
    ensures var f := VarFragment(op, codec, ParseVarSpec(codec, token), Resolve(params, ParseVarSpec(codec, token).name));
            Apply(op, codec, token, params) == if f.Some? then op.first + f.value else ""
  {
    SplitSingle(token);
    var f := VarFragment(op, codec, ParseVarSpec(codec, token), Resolve(params, ParseVarSpec(codec, token).name));
    assert [token][1..] == [];
    assert Fragments(op, codec, [token], params) == if f.Some? then [f.value] else [];
    if f.Some? {
      assert Join([f.value], op.separator) == f.value;
    }
  }

  /** A plain name, with or without `*`, parses to itself and stays one token. */
  lemma PlainToken(codec: Codec, name: string, explode: bool)
    requires Free(name, ',') && ':' !in name && '*' !in name && codec.decode(name) == name
    ensures var token := name + (if explode then "*" else "");
            ParseVarSpec(codec, token) == VarSpec(name, explode, None) && Free(token, ',')
  {
    var token := name + (if explode then "*" else "");
    ParseVarSpecRoundTrip(codec, name, explode, None);
    assert VarSpecText(name, explode, None) == token;
    forall k | 0 <= k < |token| ensures token[k] != ',' {
      if k < |name| { assert token[k] == name[k]; }
    }
  }

  /** One variable token that parses to `spec`, behind an operator character `c` that selects `op`. */
  lemma OneBehind(codec: Codec, c: char, op: Op, token: string, spec: VarSpec, params: Params, frag: string)
    requires [c] in ActiveKeys && Lookup([c]) == Some(Active(op)) && Free(token, ',')
    requires ParseVarSpec(codec, token) == spec
    requires VarFragment(op, codec, spec, Resolve(params, spec.name)) == Some(frag)
    ensures ExpandExpression(codec, [c] + token, params) == Success(op.first + frag)
  {
    var expr := [c] + token;
    assert expr[..1] == [c] && expr[1..] == token;
    OneVariable(codec, op, token, params);
  }

  /** `{`, an operator character, a name without `}`, an optional `*`, and `}`: the body has no `}`. */
  lemma BodyFree(c: char, name: string, explode: bool)
    requires [c] in ActiveKeys && Free(name, '}')
    ensures Free([c] + (name + (if explode then "*" else "")), '}')
  {
    var body := [c] + (name + (if explode then "*" else ""));
    forall k | 0 <= k < |body| ensures body[k] != '}' {
      if 0 < k <= |name| { assert body[k] == name[k - 1]; }
    }
  }

  lemma Join3(a: string, b: string, c: string, sep: string)
    ensures Join([a, b, c], sep) == a + sep + b + sep + c
  {
    assert [a, b, c][1..] == [b, c];
    assert [b, c][1..] == [c];
    assert Join([b, c], sep) == b + sep + Join([c], sep);
    assert Join([a, b, c], sep) == a + sep + Join([b, c], sep);
  }

  /** A three-item list renders its items in order under the item separator. */
  lemma ListOfThree(op: Op, codec: Codec, spec: VarSpec, a: string, b: string, c: string)
    requires |RenderItem(op, codec, spec, a, true)| > 0
    ensures VarFragment(op, codec, spec, List([a, b, c]))
            == Some(RenderItem(op, codec, spec, a, true) + ItemSeparator(op, spec) + RenderItem(op, codec, spec, b, false)
                    + ItemSeparator(op, spec) + RenderItem(op, codec, spec, c, false))
  {
    ListFragmentIsJoin(op, codec, spec, [a, b, c]);
    assert [a, b, c][1..] == [b, c];
    assert [b, c][1..] == [c];
    var x, y, z := RenderItem(op, codec, spec, a, true), RenderItem(op, codec, spec, b, false), RenderItem(op, codec, spec, c, false);
    assert RenderItems(op, codec, spec, [c], false) == [z] by { assert [c][1..] == []; }
    assert RenderItems(op, codec, spec, [b, c], false) == [y] + RenderItems(op, codec, spec, [c], false);
    assert RenderItems(op, codec, spec, [a, b, c], true) == [x] + RenderItems(op, codec, spec, [b, c], false);
    assert RenderItems(op, codec, spec, [a, b, c], true) == [x, y, z];
    Join3(x, y, z, ItemSeparator(op, spec));
  }

  /** A three-pair map renders its pairs in order behind the map's one prefix. */
  lemma MapOfThree(op: Op, codec: Codec, spec: VarSpec, p: (string, string), q: (string, string), r: (string, string))
    ensures VarFragment(op, codec, spec, Map([p, q, r]))
            == Some(MapPrefix(op, codec, spec, [p, q, r]) + RenderPair(op, codec, spec, p) + ItemSeparator(op, spec)
                    + RenderPair(op, codec, spec, q) + ItemSeparator(op, spec) + RenderPair(op, codec, spec, r))
  {
    MapFragmentIsJoin(op, codec, spec, [p, q, r]);
    var x, y, z := RenderPair(op, codec, spec, p), RenderPair(op, codec, spec, q), RenderPair(op, codec, spec, r);
    ThreePairs(op, codec, spec, p, q, r);
    var sep, m := ItemSeparator(op, spec), MapPrefix(op, codec, spec, [p, q, r]);
    Join3(x, y, z, sep);
    Regroup(m, x, sep, y, z);
  }

  lemma ThreePairs(op: Op, codec: Codec, spec: VarSpec, p: (string, string), q: (string, string), r: (string, string))
    ensures RenderPairs(op, codec, spec, [p, q, r])
            == [RenderPair(op, codec, spec, p), RenderPair(op, codec, spec, q), RenderPair(op, codec, spec, r)]
  {
    assert [p, q, r][1..] == [q, r];
    assert [q, r][1..] == [r];
    var x, y, z := RenderPair(op, codec, spec, p), RenderPair(op, codec, spec, q), RenderPair(op, codec, spec, r);
    assert RenderPairs(op, codec, spec, [r]) == [z] by { assert [r][1..] == []; }
    assert RenderPairs(op, codec, spec, [q, r]) == [y] + RenderPairs(op, codec, spec, [r]);
    assert RenderPairs(op, codec, spec, [p, q, r]) == [x] + RenderPairs(op, codec, spec, [q, r]);
  }

  // ---------------------------------------------------------------- one-variable templates

  /** `{name}` or `{name:N}` with a scalar: the default operator encodes the (truncated) value. */
  lemma TemplateDefaultScalar(codec: Codec, template: string, name: string, m: Option<nat>, val: string)
    requires |name| > 0 && name[..1] !in ActiveKeys + ReservedKeys
    requires Free(name, ',') && Free(name, '}') && ':' !in name && '*' !in name && codec.decode(name) == name
    requires template == "{" + VarSpecText(name, false, m) + "}"
    ensures Expand(codec, template, map[name := Scalar(val)]) == Success(codec.encode(Truncated(VarSpec(name, false, m), val)))
  {
    var token := VarSpecText(name, false, m);
    var params := map[name := Scalar(val)];
    ParseVarSpecRoundTrip(codec, name, false, m);
    var tail := if m.Some? then ":" + Decimal(m.value) else "";
    assert token == name + tail;
    assert token[..1] == name[..1];
    assert Free(token, ',') && Free(token, '}') by {
      forall k | 0 <= k < |token| ensures token[k] != ',' && token[k] != '}' {
        if k < |name| {
          assert token[k] == name[k];
        } else if k > |name| {
          assert token[k] == Decimal(m.value)[k - |name| - 1];
        }
      }
    }
    OneVariable(codec, DefaultOp, token, params);
    Braced(codec, template, token, params, Success(codec.encode(Truncated(VarSpec(name, false, m), val))));
  }

  /** `{cname}` with a scalar, for an operator character `c` that selects `op`. */
  lemma TemplateScalar(codec: Codec, template: string, c: char, op: Op, name: string, val: string)
    requires [c] in ActiveKeys && Lookup([c]) == Some(Active(op))
    requires Free(name, ',') && Free(name, '}') && ':' !in name && '*' !in name && codec.decode(name) == name
    requires template == "{" + ([c] + (name + "")) + "}"
    ensures var enc := Encoder(codec, op.mode);
            Expand(codec, template, map[name := Scalar(val)])
            == Success(op.first + if op.named then enc(name) + (if val == "" then op.empty else "=") + enc(val) else enc(val))
  {
    var enc := Encoder(codec, op.mode);
    var spec := VarSpec(name, false, None);
    var params := map[name := Scalar(val)];
    var frag := if op.named then enc(name) + (if val == "" then op.empty else "=") + enc(val) else enc(val);
    PlainToken(codec, name, false);
    ScalarFragment(op, codec, spec, val);
    OneBehind(codec, c, op, name + "", spec, params, frag);
    BodyFree(c, name, false);
    Braced(codec, template, [c] + (name + ""), params, Success(op.first + frag));
  }

  /** `{cname}` or `{cname*}` with a three-item list, for an operator character `c` that selects `op`. */
  lemma TemplateList(codec: Codec, template: string, c: char, op: Op, name: string, explode: bool, a: string, b: string, z: string)
    requires [c] in ActiveKeys && Lookup([c]) == Some(Active(op))
    requires Free(name, ',') && Free(name, '}') && ':' !in name && '*' !in name && codec.decode(name) == name
    requires |RenderItem(op, codec, VarSpec(name, explode, None), a, true)| > 0
    requires template == "{" + ([c] + (name + (if explode then "*" else ""))) + "}"
    ensures var spec := VarSpec(name, explode, None);
            var sep := ItemSeparator(op, spec);
            Expand(codec, template, map[name := List([a, b, z])])
            == Success(op.first + (RenderItem(op, codec, spec, a, true) + sep + RenderItem(op, codec, spec, b, false)
                                   + sep + RenderItem(op, codec, spec, z, false)))
  {
    var spec := VarSpec(name, explode, None);
    var sep := ItemSeparator(op, spec);
    var token := name + (if explode then "*" else "");
    var params := map[name := List([a, b, z])];
    var frag := RenderItem(op, codec, spec, a, true) + sep + RenderItem(op, codec, spec, b, false)
                + sep + RenderItem(op, codec, spec, z, false);
    PlainToken(codec, name, explode);
    ListOfThree(op, codec, spec, a, b, z);
    OneBehind(codec, c, op, token, spec, params, frag);
    BodyFree(c, name, explode);
    Braced(codec, template, [c] + token, params, Success(op.first + frag));
  }

  /** `{cname}` or `{cname*}` with a three-pair map, for an operator character `c` that selects `op`. */
  lemma TemplateMap(codec: Codec, template: string, c: char, op: Op, name: string, explode: bool,
                    p: (string, string), q: (string, string), r: (string, string))
    requires [c] in ActiveKeys && Lookup([c]) == Some(Active(op))
    requires Free(name, ',') && Free(name, '}') && ':' !in name && '*' !in name && codec.decode(name) == name
    requires template == "{" + ([c] + (name + (if explode then "*" else ""))) + "}"
    ensures var spec := VarSpec(name, explode, None);
            var sep := ItemSeparator(op, spec);
            Expand(codec, template, map[name := Map([p, q, r])])
            == Success(op.first + (MapPrefix(op, codec, spec, [p, q, r]) + RenderPair(op, codec, spec, p) + sep
                                   + RenderPair(op, codec, spec, q) + sep + RenderPair(op, codec, spec, r)))
  {
    var spec := VarSpec(name, explode, None);
    var sep := ItemSeparator(op, spec);
    var token := name + (if explode then "*" else "");
    var params := map[name := Map([p, q, r])];
    var frag := MapPrefix(op, codec, spec, [p, q, r]) + RenderPair(op, codec, spec, p) + sep
                + RenderPair(op, codec, spec, q) + sep + RenderPair(op, codec, spec, r);
    PlainToken(codec, name, explode);
    MapOfThree(op, codec, spec, p, q, r);
    OneBehind(codec, c, op, token, spec, params, frag);
    BodyFree(c, name, explode);
    Braced(codec, template, [c] + token, params, Success(op.first + frag));
  }

  // ---------------------------------------------------------------- regrouping concatenations

  lemma Regroup(p: string, a: string, s: string, b: string, c: string)
    ensures p + (a + s + b + s + c) == p + a + s + b + s + c
  {
  }

  /** Only the first of three items carries the name prefix `n` and `q`. */
  lemma RegroupFirst(p: string, n: string, q: string, x: string, s: string, y: string, z: string)
    ensures p + (n + q + x + s + y + s + z) == p + n + q + x + s + y + s + z
  {
  }

  /** Each of three items carries the name prefix `n` and `q`. */
  lemma RegroupEach(p: string, n: string, q: string, s: string, x: string, y: string, z: string)
    ensures p + (n + q + x + s + (n + q + y) + s + (n + q + z)) == p + n + q + x + s + n + q + y + s + n + q + z
  {
  }

  /** A map prefix `n` and `q`, then three key/value pairs split by `t`, joined by `s`. */
  lemma RegroupPairs(p: string, n: string, q: string, k1: string, t: string, v1: string, s: string,
                     k2: string, v2: string, k3: string, v3: string)
    ensures p + (n + q + (k1 + t + v1) + s + (k2 + t + v2) + s + (k3 + t + v3))
            == p + n + q + k1 + t + v1 + s + k2 + t + v2 + s + k3 + t + v3
  {
  }

  // ---------------------------------------------------------------- concrete templates

  /** `{var}` with `var = "value"` gives the encoded value; `{var:3}` keeps three characters and `{var:0}` all. */
  lemma ScenarioVar(codec: Codec)
    requires codec.decode("var") == "var"
    ensures Expand(codec, "{var}", map["var" := Scalar("value")]) == Success(codec.encode("value"))
    ensures Expand(codec, "{var:3}", map["var" := Scalar("value")]) == Success(codec.encode("val"))
    ensures Expand(codec, "{var:0}", map["var" := Scalar("value")]) == Success(codec.encode("value"))
  {
    PrefixTexts();
    TemplateDefaultScalar(codec, "{var}", "var", None, "value");
    TemplateDefaultScalar(codec, "{var:3}", "var", Some(3), "value");
    TemplateDefaultScalar(codec, "{var:0}", "var", Some(0), "value");
  }

  lemma PrefixTexts()
    ensures "var"[..1] !in ActiveKeys + ReservedKeys && Free("var", ',') && Free("var", '}')
    ensures "{var}" == "{" + VarSpecText("var", false, None) + "}"
    ensures "{var:3}" == "{" + VarSpecText("var", false, Some(3)) + "}"
    ensures "{var:0}" == "{" + VarSpecText("var", false, Some(0)) + "}"
    ensures Truncated(VarSpec("var", false, None), "value") == "value"
    ensures Truncated(VarSpec("var", false, Some(3)), "value") == "val"
    ensures Truncated(VarSpec("var", false, Some(0)), "value") == "value"
  {
    assert "var"[..1] == "v";
    assert Decimal(3) == "3" && Decimal(0) == "0";
  }

  /** `{+var}` and `{#var}` use the reserved-preserving encoder; `#` adds its prefix. */
  lemma ScenarioReserved(codec: Codec)
    requires codec.decode("var") == "var"
    ensures Expand(codec, "{+var}", map["var" := Scalar("value")]) == Success(codec.encodeURL("value"))
    ensures Expand(codec, "{#var}", map["var" := Scalar("value")]) == Success("#" + codec.encodeURL("value"))
  {
    ReservedTexts(codec);
    TemplateScalar(codec, "{+var}", '+', Plus, "var", "value");
    TemplateScalar(codec, "{#var}", '#', Hash, "var", "value");
  }

  lemma ReservedTexts(codec: Codec)
    ensures Lookup("+") == Some(Active(Plus)) && Lookup("#") == Some(Active(Hash))
    ensures "{+var}" == "{" + (['+'] + ("var" + "")) + "}" && "{#var}" == "{" + (['#'] + ("var" + "")) + "}"
    ensures "" + codec.encodeURL("value") == codec.encodeURL("value")
  {
  }

  /** `{/list*}` puts a `/` in front of every item. */
  lemma ScenarioPathExplode(codec: Codec)
    requires codec.decode("list") == "list" && |codec.encode("red")| > 0
    ensures var e := codec.encode;
            Expand(codec, "{/list*}", map["list" := List(Colours)])
            == Success("/" + e("red") + "/" + e("green") + "/" + e("blue"))
  {
    PathExplodeTexts(codec);
    TemplateList(codec, "{/list*}", '/', Slash, "list", true, "red", "green", "blue");
  }

  lemma PathExplodeTexts(codec: Codec)
    ensures Lookup("/") == Some(Active(Slash)) && "{/list*}" == "{" + (['/'] + ("list" + "*")) + "}"
    ensures var spec, e := VarSpec("list", true, None), codec.encode;
            && RenderItem(Slash, codec, spec, "red", true) == e("red")
            && Slash.first + (RenderItem(Slash, codec, spec, "red", true) + "/" + RenderItem(Slash, codec, spec, "green", false)
                              + "/" + RenderItem(Slash, codec, spec, "blue", false))
               == "/" + e("red") + "/" + e("green") + "/" + e("blue")
  {
    PathExplodeLiterals();
    PathExplodeRender(codec);
  }

  lemma PathExplodeLiterals()
    ensures Lookup("/") == Some(Active(Slash)) && "{/list*}" == "{" + (['/'] + ("list" + "*")) + "}"
  {
  }

  lemma PathExplodeRender(codec: Codec)
    ensures var spec, e := VarSpec("list", true, None), codec.encode;
            && RenderItem(Slash, codec, spec, "red", true) == e("red")
            && Slash.first + (RenderItem(Slash, codec, spec, "red", true) + "/" + RenderItem(Slash, codec, spec, "green", false)
                              + "/" + RenderItem(Slash, codec, spec, "blue", false))
               == "/" + e("red") + "/" + e("green") + "/" + e("blue")
  {
    var spec, e := VarSpec("list", true, None), codec.encode;
    assert RenderItem(Slash, codec, spec, "red", true) == e("red");
    assert RenderItem(Slash, codec, spec, "green", false) == e("green");
    assert RenderItem(Slash, codec, spec, "blue", false) == e("blue");
    Regroup("/", e("red"), "/", e("green"), e("blue"));
  }

  /** `{;list}` names the list once; `{;list*}` names every item. */
  lemma ScenarioPathParams(codec: Codec)
    requires codec.decode("list") == "list"
    ensures var e := codec.encode;
            Expand(codec, "{;list}", map["list" := List(Colours)])
            == Success(";" + e("list") + "=" + e("red") + "," + e("green") + "," + e("blue"))
    ensures var e := codec.encode;
            Expand(codec, "{;list*}", map["list" := List(Colours)])
            == Success(";" + e("list") + "=" + e("red") + ";" + e("list") + "=" + e("green")
                       + ";" + e("list") + "=" + e("blue"))
  {
    PathParamsTexts();
    NamedListOnce(codec);
    NamedListEach(codec);
    TemplateList(codec, "{;list}", ';', Semi, "list", false, "red", "green", "blue");
    TemplateList(codec, "{;list*}", ';', Semi, "list", true, "red", "green", "blue");
  }

  lemma PathParamsTexts()
    ensures Lookup(";") == Some(Active(Semi))
    ensures "{;list}" == "{" + ([';'] + ("list" + "")) + "}" && "{;list*}" == "{" + ([';'] + ("list" + "*")) + "}"
  {
  }

  /** `{;list}`: only the first item carries `list=`. */
  lemma NamedListOnce(codec: Codec)
    ensures var spec, e := VarSpec("list", false, None), codec.encode;
            && |RenderItem(Semi, codec, spec, "red", true)| > 0
            && Semi.first + (RenderItem(Semi, codec, spec, "red", true) + "," + RenderItem(Semi, codec, spec, "green", false)
                             + "," + RenderItem(Semi, codec, spec, "blue", false))
               == ";" + e("list") + "=" + e("red") + "," + e("green") + "," + e("blue")
  {
    var spec, e := VarSpec("list", false, None), codec.encode;
    var n := e("list");
    assert RenderItem(Semi, codec, spec, "red", true) == n + "=" + e("red");
    assert RenderItem(Semi, codec, spec, "green", false) == e("green");
    assert RenderItem(Semi, codec, spec, "blue", false) == e("blue");
    RegroupFirst(";", n, "=", e("red"), ",", e("green"), e("blue"));
  }

  /** `{;list*}`: every item carries `list=`. */
  lemma NamedListEach(codec: Codec)
    ensures var spec, e := VarSpec("list", true, None), codec.encode;
            && |RenderItem(Semi, codec, spec, "red", true)| > 0
            && Semi.first + (RenderItem(Semi, codec, spec, "red", true) + ";" + RenderItem(Semi, codec, spec, "green", false)
                             + ";" + RenderItem(Semi, codec, spec, "blue", false))
               == ";" + e("list") + "=" + e("red") + ";" + e("list") + "=" + e("green") + ";" + e("list") + "=" + e("blue")
  {
    var spec, e := VarSpec("list", true, None), codec.encode;
    var n := e("list");
    assert RenderItem(Semi, codec, spec, "red", true) == n + "=" + e("red");
    assert RenderItem(Semi, codec, spec, "green", false) == n + "=" + e("green");
    assert RenderItem(Semi, codec, spec, "blue", false) == n + "=" + e("blue");
    RegroupEach(";", n, "=", ";", e("red"), e("green"), e("blue"));
  }

  /** `{?list*}` renders one `list=` pair per item, joined by `&`. */
  lemma ScenarioQueryExplode(codec: Codec)
    requires codec.decode("list") == "list"
    ensures var e := codec.encode;
            Expand(codec, "{?list*}", map["list" := List(Colours)])
            == Success("?" + e("list") + "=" + e("red") + "&" + e("list") + "=" + e("green")
                       + "&" + e("list") + "=" + e("blue"))
  {
    QueryTexts(codec);
    TemplateList(codec, "{?list*}", '?', Query, "list", true, "red", "green", "blue");
  }

  lemma QueryTexts(codec: Codec)
    ensures Lookup("?") == Some(Active(Query)) && "{?list*}" == "{" + (['?'] + ("list" + "*")) + "}"
    ensures var spec, e := VarSpec("list", true, None), codec.encode;
            && |RenderItem(Query, codec, spec, "red", true)| > 0
            && Query.first + (RenderItem(Query, codec, spec, "red", true) + "&" + RenderItem(Query, codec, spec, "green", false)
                              + "&" + RenderItem(Query, codec, spec, "blue", false))
               == "?" + e("list") + "=" + e("red") + "&" + e("list") + "=" + e("green") + "&" + e("list") + "=" + e("blue")
  {
    QueryLiterals();
    QueryRender(codec);
  }

  lemma QueryLiterals()
    ensures Lookup("?") == Some(Active(Query)) && "{?list*}" == "{" + (['?'] + ("list" + "*")) + "}"
  {
  }

  lemma QueryRender(codec: Codec)
    ensures var spec, e := VarSpec("list", true, None), codec.encode;
            && |RenderItem(Query, codec, spec, "red", true)| > 0
            && Query.first + (RenderItem(Query, codec, spec, "red", true) + "&" + RenderItem(Query, codec, spec, "green", false)
                              + "&" + RenderItem(Query, codec, spec, "blue", false))
               == "?" + e("list") + "=" + e("red") + "&" + e("list") + "=" + e("green") + "&" + e("list") + "=" + e("blue")
  {
    var spec, e := VarSpec("list", true, None), codec.encode;
    var n := e("list");
    assert RenderItem(Query, codec, spec, "red", true) == n + "=" + e("red");
    assert RenderItem(Query, codec, spec, "green", false) == n + "=" + e("green");
    assert RenderItem(Query, codec, spec, "blue", false) == n + "=" + e("blue");
    RegroupEach("?", n, "=", "&", e("red"), e("green"), e("blue"));
  }

  /** `{;keys}` renders one `keys=` prefix and the keys and values alike; `{;keys*}` renders `key=value` pairs. */
  lemma ScenarioMap(codec: Codec)
    requires codec.decode("keys") == "keys"
    ensures var e := codec.encode;
            Expand(codec, "{;keys}", map["keys" := Map(Keys)])
            == Success(";" + e("keys") + "=" + e("semi") + "," + e(";") + "," + e("dot") + "," + e(".")
                       + "," + e("comma") + "," + e(","))
    ensures var e := codec.encode;
            Expand(codec, "{;keys*}", map["keys" := Map(Keys)])
            == Success(";" + e("semi") + "=" + e(";") + ";" + e("dot") + "=" + e(".") + ";" + e("comma") + "=" + e(","))
  {
    MapTexts(codec);
    TemplateMap(codec, "{;keys}", ';', Semi, "keys", false, Keys[0], Keys[1], Keys[2]);
    TemplateMap(codec, "{;keys*}", ';', Semi, "keys", true, Keys[0], Keys[1], Keys[2]);
  }

  lemma MapTexts(codec: Codec)
    ensures Lookup(";") == Some(Active(Semi)) && Keys == [Keys[0], Keys[1], Keys[2]]
    ensures "{;keys}" == "{" + ([';'] + ("keys" + "")) + "}" && "{;keys*}" == "{" + ([';'] + ("keys" + "*")) + "}"
    ensures var spec, e := VarSpec("keys", false, None), codec.encode;
            Semi.first + (MapPrefix(Semi, codec, spec, Keys) + RenderPair(Semi, codec, spec, Keys[0]) + ","
                          + RenderPair(Semi, codec, spec, Keys[1]) + "," + RenderPair(Semi, codec, spec, Keys[2]))
            == ";" + e("keys") + "=" + e("semi") + "," + e(";") + "," + e("dot") + "," + e(".") + "," + e("comma") + "," + e(",")
    ensures var spec, e := VarSpec("keys", true, None), codec.encode;
            Semi.first + (MapPrefix(Semi, codec, spec, Keys) + RenderPair(Semi, codec, spec, Keys[0]) + ";"
                          + RenderPair(Semi, codec, spec, Keys[1]) + ";" + RenderPair(Semi, codec, spec, Keys[2]))
            == ";" + e("semi") + "=" + e(";") + ";" + e("dot") + "=" + e(".") + ";" + e("comma") + "=" + e(",")
  {
    MapJoined(codec);
    MapExploded(codec);
  }

  /** `{;keys}`: one `keys=` prefix, then keys and values joined by `,`. */
  lemma MapJoined(codec: Codec)
    ensures var spec, e := VarSpec("keys", false, None), codec.encode;
            Semi.first + (MapPrefix(Semi, codec, spec, Keys) + RenderPair(Semi, codec, spec, Keys[0]) + ","
                          + RenderPair(Semi, codec, spec, Keys[1]) + "," + RenderPair(Semi, codec, spec, Keys[2]))
            == ";" + e("keys") + "=" + e("semi") + "," + e(";") + "," + e("dot") + "," + e(".") + "," + e("comma") + "," + e(",")
  {
    var spec, e := VarSpec("keys", false, None), codec.encode;
    assert MapPrefix(Semi, codec, spec, Keys) == e("keys") + "=";
    assert RenderPair(Semi, codec, spec, Keys[0]) == e("semi") + "," + e(";");
    assert RenderPair(Semi, codec, spec, Keys[1]) == e("dot") + "," + e(".");
    assert RenderPair(Semi, codec, spec, Keys[2]) == e("comma") + "," + e(",");
    RegroupPairs(";", e("keys"), "=", e("semi"), ",", e(";"), ",", e("dot"), e("."), e("comma"), e(","));
  }

  /** `{;keys*}`: no name prefix, `key=value` pairs joined by `;`. */
  lemma MapExploded(codec: Codec)
    ensures var spec, e := VarSpec("keys", true, None), codec.encode;
            Semi.first + (MapPrefix(Semi, codec, spec, Keys) + RenderPair(Semi, codec, spec, Keys[0]) + ";"
                          + RenderPair(Semi, codec, spec, Keys[1]) + ";" + RenderPair(Semi, codec, spec, Keys[2]))
            == ";" + e("semi") + "=" + e(";") + ";" + e("dot") + "=" + e(".") + ";" + e("comma") + "=" + e(",")
  {
    var spec, e := VarSpec("keys", true, None), codec.encode;
    assert MapPrefix(Semi, codec, spec, Keys) == "";
    assert RenderPair(Semi, codec, spec, Keys[0]) == e("semi") + "=" + e(";");
    assert RenderPair(Semi, codec, spec, Keys[1]) == e("dot") + "=" + e(".");
    assert RenderPair(Semi, codec, spec, Keys[2]) == e("comma") + "=" + e(",");
    RegroupPairs(";", "", "", e("semi"), "=", e(";"), ";", e("dot"), e("."), e("comma"), e(","));
    assert ";" + "" + "" == ";";
  }

  /** `{;list}` with an empty list still emits the operator's prefix, unlike section 2.3 of RFC 6570. */
  lemma ScenarioEmptyList(codec: Codec)
    requires codec.decode("list") == "list"
    ensures Expand(codec, "{;list}", map["list" := List([])]) == Success(";")
  {
    EmptyListTexts(codec);
    EmptyListTemplate(codec, "{;list}", ';', Semi, "list");
  }

  lemma EmptyListTexts(codec: Codec)
    ensures Lookup(";") == Some(Active(Semi)) && "{;list}" == "{" + ([';'] + ("list" + "")) + "}"
    ensures Semi.first + "" == ";"
  {
  }

  /** `{cname}` with an empty list renders the operator's prefix and nothing else. */
  lemma EmptyListTemplate(codec: Codec, template: string, c: char, op: Op, name: string)
    requires [c] in ActiveKeys && Lookup([c]) == Some(Active(op))
    requires Free(name, ',') && Free(name, '}') && ':' !in name && '*' !in name && codec.decode(name) == name
    requires template == "{" + ([c] + (name + "")) + "}"
    ensures Expand(codec, template, map[name := List([])]) == Success(op.first + "")
  {
    var params := map[name := List([])];
    PlainToken(codec, name, false);
    EmptyListFragment(op, codec, VarSpec(name, false, None));
    OneBehind(codec, c, op, name + "", VarSpec(name, false, None), params, "");
    BodyFree(c, name, false);
    Braced(codec, template, [c] + (name + ""), params, Success(op.first + ""));
  }

  /** `{=var}` uses a reserved operator and fails; `{var` is never closed and fails. */
  lemma ScenarioErrors(codec: Codec)
    ensures Expand(codec, "{=var}", map["var" := Scalar("value")]) == Failure(UnsupportedOperator)
    ensures Expand(codec, "{var", map["var" := Scalar("value")]) == Failure(UnterminatedExpression)
  {
    var params := map["var" := Scalar("value")];
    ErrorTexts();
    ReservedTemplate(codec, "{=var}", "=var", params);
    UnclosedTemplate(codec, "{var", "var", params);
  }

  lemma ErrorTexts()
    ensures "{=var}" == "{" + "=var" + "}" && Free("=var", '}') && |"=var"| > 0 && "=var"[..1] in ReservedKeys
    ensures "{var" == "" + "{" + "var" && Free("", '{') && Free("var", '}')
  {
    assert "=var"[..1] == "=";
  }

  /** `{` and a body whose leading character is a reserved operator, then `}`, fails. */
  lemma ReservedTemplate(codec: Codec, template: string, body: string, params: Params)
    requires template == "{" + body + "}" && Free(body, '}') && |body| > 0 && body[..1] in ReservedKeys
    ensures Expand(codec, template, params) == Failure(UnsupportedOperator)
  {
    Braced(codec, template, body, params, Failure(UnsupportedOperator));
  }

  /** `{` and a body without `}` fails as unterminated. */
  lemma UnclosedTemplate(codec: Codec, template: string, body: string, params: Params)
    requires template == "" + "{" + body && Free(body, '}')
    ensures Expand(codec, template, params) == Failure(UnterminatedExpression)
  {
    ExpandUnterminated(codec, "", body, params);
  }
}
