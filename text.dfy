/**
  The string primitives the expander relies on, with the JavaScript
  semantics the source uses: `indexOf` with a start position, `slice`,
  `split(',')`, `join`, and the `[0-9]+` / `parseInt` pair used for the
  prefix modifier.
 */
module Text {

  /** `s.indexOf(c, from)`: the first position at or after `from` that holds `c`, or -1. */
  function IndexOf(s: string, c: char, from: nat): (r: int)
    requires from <= |s|
    ensures r == -1 || from <= r < |s|
    ensures r != -1 ==> s[r] == c
    decreases |s| - from
  {
    if from == |s| then -1
    else if s[from] == c then from
    else IndexOf(s, c, from + 1)
  }

  /** `IndexOf` finds the first `c` from `from` on, and -1 only when there is none. */
  lemma {:induction false} IndexOfFirst(s: string, c: char, from: nat)
    requires from <= |s|
    ensures IndexOf(s, c, from) == -1 ==> forall i :: from <= i < |s| ==> s[i] != c
    ensures IndexOf(s, c, from) != -1 ==> forall i :: from <= i < IndexOf(s, c, from) ==> s[i] != c
    decreases |s| - from
  {
    if from < |s| && s[from] != c {
      IndexOfFirst(s, c, from + 1);
    }
  }

  /** `s` contains no `c`. */
  predicate Free(s: string, c: char) {
    forall i :: 0 <= i < |s| ==> s[i] != c
  }

  /** A position that holds `c` with no `c` before it (from `from` on) is the one `IndexOf` finds. */
  lemma IndexOfIs(s: string, c: char, from: nat, j: nat)
    requires from <= j < |s| && s[j] == c
    requires forall i :: from <= i < j ==> s[i] != c
    ensures IndexOf(s, c, from) == j
    decreases j - from
  {
    if from < j {
      IndexOfIs(s, c, from + 1, j);
    }
  }

  /** With no `c` from `from` on, `IndexOf` gives -1. */
  lemma IndexOfNone(s: string, c: char, from: nat)
    requires from <= |s| && forall i :: from <= i < |s| ==> s[i] != c
    ensures IndexOf(s, c, from) == -1
    decreases |s| - from
  {
    if from < |s| {
      IndexOfNone(s, c, from + 1);
    }
  }

  /** Searching a suffix finds the same occurrence, shifted by the length of what was cut off. */
  lemma IndexOfSuffix(s: string, c: char, from: nat, j: nat)
    requires from <= j <= |s|
    ensures IndexOf(s[from..], c, j - from) ==
            if IndexOf(s, c, j) == -1 then -1 else IndexOf(s, c, j) - from
  {
    var r := IndexOf(s, c, j);
    IndexOfFirst(s, c, j);
    if r != -1 {
      IndexOfIs(s[from..], c, j - from, r - from);
    } else {
      IndexOfNone(s[from..], c, j - from);
    }
  }

  /** `s.slice(0, n)` for a non-negative `n`: the first `n` characters, or all of `s` when it is shorter. */
  function Take(s: string, n: nat): (r: string)
    ensures |r| == if n < |s| then n else |s|
    ensures r == s[..|r|]
  {
    if n < |s| then s[..n] else s
  }

  /** `s.slice(begin, end)` with JavaScript's handling of negative and out-of-range positions. */
  function JsSlice(s: string, begin: int, end: int): (r: string)
    ensures 0 <= begin <= end <= |s| ==> r == s[begin..end]
    ensures |r| <= |s|
  {
    var b := if begin < 0 then (if |s| + begin < 0 then 0 else |s| + begin)
             else if begin > |s| then |s| else begin;
    var e := if end < 0 then (if |s| + end < 0 then 0 else |s| + end)
             else if end > |s| then |s| else end;
    if b < e then s[b..e] else ""
  }

  /** `s.split(d)` for a one-character separator. */
  function Split(s: string, d: char): (parts: seq<string>)
    ensures |parts| > 0
    ensures forall i :: 0 <= i < |parts| ==> d !in parts[i]
    decreases |s|
  {
    var i := IndexOf(s, d, 0);
    IndexOfFirst(s, d, 0);
    if i == -1 then [s] else [s[..i]] + Split(s[i + 1..], d)
  }

  /** `parts.join(sep)`. */
  function Join(parts: seq<string>, sep: string): (r: string)
    decreases |parts|
  {
    if |parts| == 0 then ""
    else if |parts| == 1 then parts[0]
    else parts[0] + sep + Join(parts[1..], sep)
  }

  lemma JoinCons(a: string, rest: seq<string>, sep: string)
    requires |rest| > 0
    ensures Join([a] + rest, sep) == a + sep + Join(rest, sep)
  {
    assert ([a] + rest)[1..] == rest;
  }

  /** The first piece of a split ends at the first separator. */
  lemma SplitAt(s: string, d: char, i: nat)
    requires i < |s| && s[i] == d && forall k :: 0 <= k < i ==> s[k] != d
    ensures Split(s, d) == [s[..i]] + Split(s[i + 1..], d)
    ensures s == s[..i] + [d] + s[i + 1..]
  {
    IndexOfIs(s, d, 0, i);
    assert s == s[..i] + [s[i]] + s[i + 1..];
  }

  /** Joining the pieces of a split by the separator gives back the original string. */
  lemma {:induction false} JoinSplit(s: string, d: char)
    ensures Join(Split(s, d), [d]) == s
    decreases |s|
  {
    var i := IndexOf(s, d, 0);
    IndexOfFirst(s, d, 0);
    if i != -1 {
      SplitAt(s, d, i);
      JoinSplit(s[i + 1..], d);
      JoinCons(s[..i], Split(s[i + 1..], d), [d]);
    }
  }

  /** Splitting a join of separator-free pieces gives back the pieces. */
  lemma {:induction false} SplitJoin(parts: seq<string>, d: char)
    requires |parts| > 0
    requires forall i :: 0 <= i < |parts| ==> d !in parts[i]
    ensures Split(Join(parts, [d]), d) == parts
    decreases |parts|
  {
    var s := Join(parts, [d]);
    if |parts| == 1 {
      assert s == parts[0];
      assert s[0..] == s;
    } else {
      var tail := Join(parts[1..], [d]);
      assert parts == [parts[0]] + parts[1..];
      JoinCons(parts[0], parts[1..], [d]);
      var n := |parts[0]|;
      assert s[..n] == parts[0];
      assert s[n + 1..] == tail;
      SplitAt(s, d, n);
      SplitJoin(parts[1..], d);
    }
  }

  /** A join whose first two pieces are glued by the separator is the join of the longer list. */
  lemma JoinGlue(a: string, b: string, rest: seq<string>, sep: string)
    ensures Join([a + sep + b] + rest, sep) == Join([a, b] + rest, sep)
  {
    assert ([a, b] + rest)[1..] == [b] + rest;
    assert ([b] + rest)[1..] == rest;
    assert ([a + sep + b] + rest)[1..] == rest;
  }

  /** Text in front of the first piece of a join stays in front of the whole join. */
  lemma JoinFront(a: string, b: string, rest: seq<string>, sep: string)
    ensures Join([a + b] + rest, sep) == a + Join([b] + rest, sep)
  {
    assert ([a + b] + rest)[1..] == rest;
    assert ([b] + rest)[1..] == rest;
  }

  predicate IsDigit(c: char) {
    '0' <= c <= '9'
  }

  predicate AllDigits(s: string) {
    forall i :: 0 <= i < |s| ==> IsDigit(s[i])
  }

  /** `parseInt` on a string of decimal digits; leading zeros are allowed and ignored. */
  function ParseDecimal(s: string): (n: nat)
    requires AllDigits(s)
    ensures n == 0 <==> forall i :: 0 <= i < |s| ==> s[i] == '0'
    decreases |s|
  {
    if |s| == 0 then 0
    else
      var init := s[..|s| - 1];
      assert forall i :: 0 <= i < |init| ==> init[i] == s[i];
      10 * ParseDecimal(init) + (s[|s| - 1] as int - '0' as int)
  }

  /** The shortest decimal digit string of `n`. */
  function Decimal(n: nat): (s: string)
    ensures |s| > 0 && AllDigits(s)
  {
    if n < 10 then [('0' as int + n) as char]
    else Decimal(n / 10) + [('0' as int + n % 10) as char]
  }

  /** Reading back the digits of `n` gives `n`. */
  lemma {:induction false} DecimalRoundTrip(n: nat)
    ensures ParseDecimal(Decimal(n)) == n
  {
    if n >= 10 {
      DecimalRoundTrip(n / 10);
      var s := Decimal(n);
      assert s[..|s| - 1] == Decimal(n / 10);
    }
  }

  /** Leading zeros do not change the value `parseInt` reads. */
  lemma {:induction false} ParseDecimalLeadingZero(s: string)
    requires AllDigits(s)
    ensures AllDigits("0" + s) && ParseDecimal("0" + s) == ParseDecimal(s)
    decreases |s|
  {
    var z := "0" + s;
    assert AllDigits(z) by {
      forall i | 0 <= i < |z| ensures IsDigit(z[i]) {
        if i > 0 { assert z[i] == s[i - 1]; }
      }
    }
    if |s| > 0 {
      var init := s[..|s| - 1];
      assert AllDigits(init) by {
        forall i | 0 <= i < |init| ensures IsDigit(init[i]) { assert init[i] == s[i]; }
      }
      ParseDecimalLeadingZero(init);
      assert z[..|z| - 1] == "0" + init;
      assert z[|z| - 1] == s[|s| - 1];
    }
  }
}
