# URI Template expansion (RFC 6570, level 4) in Dafny

This project models `util/uriTemplate.js`, the URI Template expander of the
`rest` client library. `expand(template, params)` copies literal text as it
is. It replaces every `{...}` expression with the expansion of its
variables. The leading character of an expression selects an operator from a
fixed table (the table of Appendix A of RFC 6570). That operator decides the
prefix, the separator, whether values are named, what an empty value renders
as, and which encoder is used. Each variable may carry the explode modifier
`*` or the prefix modifier `:N` (sections 2.4.1 and 2.4.2 of RFC 6570). Its
value can be a scalar, a list or an ordered map, rendered as sections 3.2.1
to 3.2.9 of RFC 6570 describe.

Modules:

- `Wrappers`: `Option` and `Result`.
- `Text`: the JavaScript string operations the source relies on. These are
  `indexOf` with a start position, `slice`, `split(',')`, `join`, and the
  `[0-9]+` / `parseInt` pair.
- `Operators`: the operator table and operator selection.
- `Expressions`: variable-token parsing, the per-variable reduces (`apply`)
  and `expandExpression`.
- `ExpressionProperties`: what the reduces compute, stated against
  reference definitions (joins of rendered items and pairs).
- `Templates`: the template scanner. It has a reference definition (a
  tokenizer `Scan` and left-to-right `Render`) and the cursor loop of
  `expandTemplate` as a method proved equal to it. Wherever a `{` is never
  closed, the model returns `UnterminatedExpression`: where the source loops
  forever, and also where it throws first (see "## Left out").
- `AsWritten`: the scanner loop exactly as the source writes it, as a
  step function with fuel. It is proved to agree with `Templates` whenever
  every `{` is closed, and never to finish when one is not.
- `Scenarios`: concrete expansions (`{var}`, `{+var}`, `{/list*}`,
  `{;list}`, `{?list*}`, `{;keys*}`, `{=var}`, `{var`, ...) stated in terms
  of the abstract encoders.

The percent-encoding module (`./uriEncoder`) is not part of this model. Its
three functions `encode`, `encodeURL` and `decode` are the function-valued
fields of the `Codec` datatype. Every result holds for every choice of them,
except that a few scenarios assume `decode` leaves a plain name unchanged, or
that `encode` of a non-empty item is non-empty.

Behaviour kept from the code where it departs from RFC 6570:

- An empty list still contributes an empty fragment. The reduce yields `''`,
  which is pushed unconditionally. So `{;list}` with `[]` expands to `;`
  (`ScenarioEmptyList`), although section 2.3 of RFC 6570 treats an empty
  list as undefined. An empty map contributes nothing.
- The list separator is chosen by whether the accumulated string is
  non-empty, not by the item's index. A leading item that renders as
  nothing is dropped, and the next item is treated as the first
  (`ListFragmentSkipsEmptyLead`).
- A named, non-exploded map picks `=` or the operator's `empty` string by the
  length of its first value.
- `:0` does not truncate, because the source tests `maxLength` for
  truthiness.
- Variable names go through the operator's own encoder. Every named operator
  uses the strict encoder (`Operators.Lookup` states this), so names are in
  effect always strictly encoded.

## Model

| member | source | states |
|---|---|---|
| `Text.IndexOf` | util/uriTemplate.js:119 | `indexOf(c, from)`: -1 or a position at or after `from` that holds `c` |
| `Text.IndexOfFirst` | util/uriTemplate.js:119-126 | the position `indexOf` finds is the first occurrence, and -1 means there is none |
| `Text.Split` | util/uriTemplate.js:30 | `split(',')` yields at least one piece, and no piece contains the separator |
| `Text.JoinSplit` | util/uriTemplate.js:30 | joining the pieces of a split with the separator gives back the expression body |
| `Text.SplitJoin` | util/uriTemplate.js:30 | splitting a join of separator-free tokens gives back the tokens |
| `Text.Take` | util/uriTemplate.js:81 | `slice(0, n)` has length `min(n, |s|)` and is a prefix of `s` |
| `Text.JsSlice` | util/uriTemplate.js:122-127 | `slice(b, e)` is the plain sub-sequence whenever `0 <= b <= e <= |s|`, and never longer than `s` |
| `Text.ParseDecimal` | util/uriTemplate.js:40 | `parseInt` of a digit string is 0 exactly when every digit is `0` |
| `Text.DecimalRoundTrip` | util/uriTemplate.js:40 | reading back the decimal digits of `n` gives `n` |
| `Text.ParseDecimalLeadingZero` | util/uriTemplate.js:40 | leading zeros do not change the value `parseInt` reads |
| `Operators.Lookup` | util/uriTemplate.js:13-27 | the table has exactly the keys `'' + # . / ; ? &` and the reserved `= , ! @ \|`; named operators use the strict encoder; only `+` and `#` keep reserved characters; `first` is the key except for `+` |
| `Operators.Select` | util/uriTemplate.js:100-105 | a leading character found in the table is stripped; otherwise the whole text is kept under the default operator; the entry is reserved exactly when the leading character is `= , ! @ \|` |
| `Expressions.MatchPrefix` | util/uriTemplate.js:12 | a match of `^([^:]*):([0-9]+)$` splits the token into a colon-free name, `:`, and a non-empty digit run |
| `Expressions.MatchPrefixComplete` | util/uriTemplate.js:12 | every colon-free name followed by `:` and digits is matched, with exactly that split |
| `Expressions.MatchPrefixNoColon` | util/uriTemplate.js:37 | a token without a colon carries no prefix modifier |
| `Expressions.ParseVarSpec` | util/uriTemplate.js:33-43 | `explode` is set exactly when the token ends in `*`; `maxLength` is set exactly when the token, with `*` removed, matches the prefix pattern |
| `Expressions.ParseVarSpecRoundTrip` | util/uriTemplate.js:33-43 | parsing `name:N*` (either modifier optional) gives the decoded name, the explode flag and `N` |
| `Expressions.ListFold` | util/uriTemplate.js:50-63 | once the accumulated string is non-empty, the reduce over a list only appends to it |
| `Expressions.MapFold` | util/uriTemplate.js:65-76 | the reduce over a map only appends, and grows by at least one character per pair |
| `Expressions.VarFragment` | util/uriTemplate.js:46-91 | a variable contributes no fragment exactly when it is undefined or an empty map; an empty list still contributes one |
| `Expressions.Fragments` | util/uriTemplate.js:30-94 | at most one fragment per variable token |
| `Expressions.Apply` | util/uriTemplate.js:96 | no fragments render as `''`, without the operator's prefix; otherwise the result starts with the operator's `first` |
| `Expressions.ExpandExpression` | util/uriTemplate.js:99-112 | expansion fails, with `UnsupportedOperator`, exactly when the leading character is a reserved operator |
| `ExpressionProperties.ListFoldFromNonEmpty` | util/uriTemplate.js:51-56 | after a non-empty start, every further item is appended behind the item separator |
| `ExpressionProperties.ListFragmentIsJoin` | util/uriTemplate.js:49-63 | when the first item renders non-empty (`ListFragmentSkipsEmptyLead` covers the other case), a list renders as its items in order, joined by the operator's separator when exploded and by `,` otherwise; a named operator prefixes every exploded item, and otherwise only the first, with `enc(name)` and `=` or `empty` |
| `ExpressionProperties.ListFragmentSkipsEmptyLead` | util/uriTemplate.js:51-60 | a leading item that renders as nothing leaves no separator, and the next item is treated as the first |
| `ExpressionProperties.EmptyListFragment` | util/uriTemplate.js:50-63 | an empty list contributes the empty fragment |
| `ExpressionProperties.MapFoldFromNonEmpty` | util/uriTemplate.js:66-67 | after a non-empty start, every further pair is appended behind the item separator |
| `ExpressionProperties.MapFragmentIsJoin` | util/uriTemplate.js:64-77 | a non-empty map renders as `enc(k)=enc(v)` (exploded) or `enc(k),enc(v)` pairs in order, joined by the separator or `,`, behind one `enc(name)` prefix that a named, non-exploded map chooses by its first value |
| `ExpressionProperties.ListFoldIgnoresMaxLength` | util/uriTemplate.js:49-63 | the list reduce does not depend on the prefix modifier |
| `ExpressionProperties.MapFoldIgnoresMaxLength` | util/uriTemplate.js:64-76 | the map reduce does not depend on the prefix modifier |
| `ExpressionProperties.MaxLengthIgnoredForCollections` | util/uriTemplate.js:49-82 | `:N` has no effect on list and map values |
| `ExpressionProperties.ScalarPrefixTruncates` | util/uriTemplate.js:80-82 | `:N` with `0 < N < |s|` renders a scalar as if only its first N characters were given |
| `ExpressionProperties.ScalarPrefixNoEffect` | util/uriTemplate.js:80-82 | `:0`, and any `N` at least the value's length, leaves a scalar unchanged |
| `ExpressionProperties.ScalarFragment` | util/uriTemplate.js:83-90 | a scalar renders as `enc(name)`, `=` or `empty`, then `enc(value)` under a named operator, and as `enc(value)` otherwise |
| `ExpressionProperties.FragmentsConcat` | util/uriTemplate.js:30-94 | fragments come in declaration order |
| `ExpressionProperties.FragmentsAllAbsent` | util/uriTemplate.js:46-48 | undefined variables produce no fragments |
| `ExpressionProperties.FragmentsDefined` | util/uriTemplate.js:46-91 | any variable that is defined and not an empty map produces a fragment |
| `ExpressionProperties.ExpressionAllAbsent` | util/uriTemplate.js:96 | an expression whose variables are all undefined renders as `''`, with no operator prefix |
| `ExpressionProperties.ExpressionDefined` | util/uriTemplate.js:96 | with at least one defined variable, the expression renders as `first` followed by the fragments joined by `separator` |
| `ExpressionProperties.OperatorSelection` | util/uriTemplate.js:100-111 | a reserved leading character fails; a table character is stripped and selects its operator; any other character is kept under the default operator |
| `Templates.Scan` | util/uriTemplate.js:118-128 | the tokenizer always yields a leading literal segment |
| `Templates.ScanWellFormed` | util/uriTemplate.js:118-128 | literals contain no `{`, and expression bodies and unterminated rests contain no `}`: the first `}` closes an expression and there is no nesting |
| `Templates.ScanSpells` | util/uriTemplate.js:118-128 | the segments spell the template they came from |
| `Templates.ScanUnique` | util/uriTemplate.js:118-128 | the tokenizer is the only well-formed segmentation of a template |
| `Templates.ScanUnterminatedIff` | util/uriTemplate.js:126 | the segmentation ends in an unterminated expression exactly when some `{` has no later `}` |
| `Templates.SubstituteLiteral` | util/uriTemplate.js:119-123 | a template without `{` expands to itself, stray `}` included, whatever the expression expander |
| `Templates.ExpandLiteral` | util/uriTemplate.js:119-123 | a template without `{` expands to itself |
| `Templates.ExpandConcat` | util/uriTemplate.js:119-127 | the literal before the first `{` is copied, the body up to the first `}` is expanded, then the rest; the first failure aborts with no partial output |
| `Templates.ExpandUnclosedFails` | util/uriTemplate.js:126 | a `{` with no later `}` makes expansion fail instead of looping |
| `Templates.ExpandUnterminated` | util/uriTemplate.js:126 | literal text then an unclosed `{` fails with `UnterminatedExpression` |
| `Templates.RestIsSubstitute` | util/uriTemplate.js:118-128 | the turn-by-turn expansion from any cursor equals the reference expansion of the rest of the template |
| `Templates.ScanLoop` | util/uriTemplate.js:114-131 | the cursor loop terminates and, for any expander, returns the reference expansion of the template |
| `Templates.ExpandTemplate` | util/uriTemplate.js:114-131 | `expand` returns the reference expansion of the template through `expandExpression` |
| `AsWritten.Step` | util/uriTemplate.js:118-128 | one turn of the loop as written keeps the cursor within the template |
| `AsWritten.LoopAgrees` | util/uriTemplate.js:114-131 | when every `{` is closed, the loop as written ends within `|t| + 1` turns with exactly the reference expansion |
| `AsWritten.ExpandTemplateAgrees` | util/uriTemplate.js:114-131 | the same for `expandExpression`: the correction changes nothing on well-formed templates |
| `AsWritten.NeverFinishes` | util/uriTemplate.js:126 | with an unclosed `{`, the loop as written never finishes, however many turns it is given |
| `AsWritten.RestartsOnUnclosed` | util/uriTemplate.js:126-127 | on `{name` the body handed over is `name` minus its last character, and the cursor returns to 0 |
| `AsWritten.UnclosedNameLoops` | util/uriTemplate.js:126 | `{` and a name with no `}` and no reserved operator keeps the loop running forever, while the model fails with `UnterminatedExpression` |
| `AsWritten.UnterminatedVar` | util/uriTemplate.js:126 | `{var` is such an input |
| `AsWritten.UnclosedReservedThrows` | util/uriTemplate.js:107-108 | with an unclosed `{` whose truncated body starts with a reserved operator, the loop as written throws `UnsupportedOperator` on its first turn, while the model reports `UnterminatedExpression` |
| `AsWritten.UnterminatedReserved` | util/uriTemplate.js:126-127 | `{=var` is such an input |
| `Scenarios.ScenarioVar` | util/uriTemplate.js:79-89 | `{var}` gives `enc("value")`, `{var:3}` gives `enc("val")` and `{var:0}` gives `enc("value")` |
| `Scenarios.ScenarioReserved` | util/uriTemplate.js:15-16 | `{+var}` gives `encodeURL("value")` and `{#var}` gives `#` then `encodeURL("value")` |
| `Scenarios.ScenarioPathExplode` | util/uriTemplate.js:18 | `{/list*}` gives `/red/green/blue`, each item encoded |
| `Scenarios.ScenarioPathParams` | util/uriTemplate.js:49-63 | `{;list}` gives `;list=red,green,blue` and `{;list*}` gives `;list=red;list=green;list=blue`, encoded |
| `Scenarios.ScenarioQueryExplode` | util/uriTemplate.js:20 | `{?list*}` gives `?list=red&list=green&list=blue`, encoded |
| `Scenarios.ScenarioMap` | util/uriTemplate.js:64-77 | `{;keys}` gives `;keys=semi,;,dot,.,comma,,` and `{;keys*}` gives `;semi=;;dot=.;comma=,`, encoded |
| `Scenarios.ScenarioEmptyList` | util/uriTemplate.js:50-63 | `{;list}` with an empty list gives `;` |
| `Scenarios.ScenarioErrors` | util/uriTemplate.js:107-109 | `{=var}` fails with `UnsupportedOperator` and `{var` fails with `UnterminatedExpression` |

## Left out

- The encoders of `./uriEncoder` (util/uriTemplate.js:10): `uriEncoder.js`
  is not part of this model. `encode`, `encodeURL` and `decode` are
  arbitrary functions carried by `Codec`. The RFC 3986 character classes are
  not modelled, so scenarios state results in terms of encoder calls rather
  than literal `%xx` text.
- JavaScript dynamic typing. `String(value)` coercion of numbers and
  booleans, the `Array.isArray` / `typeof` dispatch and the `null` /
  `undefined` checks are replaced by the tagged `Value` datatype. List items
  and map values are strings, so `value.length` on a number is not modelled.
- A `null` value inside a map crashes the source at `value[name].length`
  (line 70). It cannot arise with string map values.
- Property lookup on plain objects. `params[variable]` also sees inherited
  properties such as `constructor`, and `Object.keys` lists integer-like keys
  first. In the model, lookup sees only the keys of `params`, and a map's
  association list is its enumeration order.
- A missing `params` argument. The source then throws a `TypeError` at the
  first expression. The model always takes a map.
- The regular expression engine and `parseInt` (lines 12, 37-40) are written
  out as `MatchPrefix` and `ParseDecimal`. `maxLength` is an unbounded
  natural number, so the precision of JavaScript numbers beyond 2^53 is not
  modelled.
- `value.slice` (line 81) works on UTF-16 code units. The model truncates
  `seq<char>` by element count.
- The thrown `Error` and its message (line 108) become
  `Failure(UnsupportedOperator)`.
- The non-terminating loop (line 126) is not reproduced by `ExpandTemplate`.
  It exists only in module `AsWritten`, as a fuel-bounded step function.
- `Templates.ExpandTemplate` changes the error kind on some unclosed
  templates. If the body handed over when the loop reaches an unclosed `{`
  starts with `= , ! @ |`, the source throws the reserved-operator error
  (lines 107-108, 126-127). Examples are `{=var` and `{a}{=b`. The model
  reports `UnterminatedExpression` for these templates
  (`AsWritten.UnclosedReservedThrows`).
- Module export boilerplate (lines 133-147).

## Findings

| source | as written | input that shows it | evidently intended | confidence | as-written member | corrected member |
|---|---|---|---|---|---|---|
| util/uriTemplate.js:126 | `end = template.indexOf('}', start) + 1` is 0 when no `}` follows the `{`, so the loop starts over at the beginning of the template and never reaches its `break` | `expand("{var", {})`: each turn hands `va` to `expandExpression`, appends the result and returns to position 0 | fail with `UnterminatedExpression` instead of looping (`Templates.ExpandUnterminated`) | high (not executed; proved in the model) | `AsWritten.UnterminatedVar` | `Templates.ExpandTemplate` |
