/**
 * BuildPreference: one entry of a job's build preferences (a label expression and
 * the preference given to the nodes it matches), and the checks and completion
 * offered while it is being configured.
 */
module BuildPreferences {
  import opened JavaLang
  import opened ValidationUtil
  import opened Jenkins

  datatype BuildPreference = BuildPreference(labelExpression: Option<string>, preference: int)

  /** The constructor stores the label expression trimmed, and null as null. */
  function NewBuildPreference(labelExpression: Option<string>, preference: int): (p: BuildPreference)
    ensures p.preference == preference
    ensures p.labelExpression.None? <==> labelExpression.None?
    ensures labelExpression.Some? ==> p.labelExpression.value == Trim(labelExpression.value)
  {
    BuildPreference(if labelExpression.None? then None else Some(Trim(labelExpression.value)), preference)
  }

  /** A stored label expression is already trimmed: rebuilding an entry from its own
      values changes nothing. */
  lemma NewBuildPreferenceStable(labelExpression: Option<string>, preference: int)
    ensures var p := NewBuildPreference(labelExpression, preference);
            NewBuildPreference(p.labelExpression, p.preference) == p
  {
    if labelExpression.Some? {
      TrimIdempotent(labelExpression.value);
    }
  }

  /** Spaces typed around a label expression are not kept. */
  lemma NewBuildPreferenceDropsSpaces(p: string, s: string, q: string, preference: int)
    requires AllSpaces(p) && AllSpaces(q)
    requires s != [] && !Trimmed(s[0]) && !Trimmed(s[|s| - 1])
    ensures NewBuildPreference(Some(p + s + q), preference).labelExpression == Some(s)
  {
    TrimPadded(p, s, q);
  }

  /** doCheckLabelExpression: missing or blank is an error, an expression that does not
      parse is an error, one that matches no node is a warning. The value is not trimmed. */
  function DoCheckLabelExpression(value: Option<string>, parser: LabelParser): (r: FormValidation)
    ensures r == Error(LabelExpressionRequired) <==> value.None? || IsBlank(value.value)
    ensures r == Error(LabelExpressionInvalid) <==>
              value.Some? && !IsBlank(value.value) && !parser.parses(value)
    ensures r == Warning(LabelExpressionEmpty) <==>
              value.Some? && !IsBlank(value.value) && parser.parses(value) && !parser.hasNodes(value.value)
    ensures r == Ok <==>
              value.Some? && !IsBlank(value.value) && parser.parses(value) && parser.hasNodes(value.value)
  {
    if value.None? || IsBlank(value.value) then Error(LabelExpressionRequired)
    else if !parser.parses(value) then Error(LabelExpressionInvalid)
    else if !parser.hasNodes(value.value) then Warning(LabelExpressionEmpty)
    else Ok
  }

  /** doCheckPreference delegates to the shared integer check. */
  function DoCheckPreference(value: Option<string>): (r: FormValidation)
    ensures r == Ok <==> value.Some? && ParseInt(Trim(value.value)).Some?
    ensures r == Error(IntegerRequired) <==> value.None? || IsBlank(value.value)
  {
    DoCheckInteger(value)
  }

  // ---------------------------------------------------------------------------
  // java.util.StringTokenizer with its default delimiters

  /** The default delimiters: space, tab, newline, carriage return and form feed. */
  predicate IsDelimiter(c: char) {
    c == ' ' || c == '\t' || c == '\n' || c == '\r' || c == '\U{000C}'
  }

  predicate NoDelimiter(s: string) {
    forall i :: 0 <= i < |s| ==> !IsDelimiter(s[i])
  }

  predicate AllDelimiters(s: string) {
    forall i :: 0 <= i < |s| ==> IsDelimiter(s[i])
  }

  /** The length of the run of non-delimiters that starts `s`. */
  function TokenLength(s: string): (k: nat)
    ensures k <= |s| && NoDelimiter(s[..k])
    ensures k < |s| ==> IsDelimiter(s[k])
  {
    if s == [] || IsDelimiter(s[0]) then 0
    else
      var k := 1 + TokenLength(s[1..]);
      assert s[..k] == [s[0]] + s[1..][..k - 1];
      k
  }

  /** The tokens nextToken() returns one after another, scanning from the left. */
  function Tokens(s: string): (r: seq<string>)
    ensures forall i :: 0 <= i < |r| ==> r[i] != [] && NoDelimiter(r[i])
    decreases |s|
  {
    if s == [] then []
    else if IsDelimiter(s[0]) then Tokens(s[1..])
    else
      var k := TokenLength(s);
      [s[..k]] + Tokens(s[k..])
  }

  /** The run of non-delimiters that ends `s`. */
  function TrailingRun(s: string): (r: string)
    ensures |r| <= |s| && r == s[|s| - |r|..] && NoDelimiter(r)
    ensures |r| < |s| ==> IsDelimiter(s[|s| - |r| - 1])
  {
    if s == [] || IsDelimiter(s[|s| - 1]) then []
    else TrailingRun(s[..|s| - 1]) + [s[|s| - 1]]
  }

  /** What is left once trailing delimiters are dropped. */
  function DropTrailingDelimiters(s: string): (r: string)
    ensures |r| <= |s| && r == s[..|r|] && AllDelimiters(s[|r|..])
    ensures r == [] || !IsDelimiter(r[|r| - 1])
  {
    if s != [] && IsDelimiter(s[|s| - 1]) then DropTrailingDelimiters(s[..|s| - 1]) else s
  }

  /** The word being typed: the last run of non-delimiters, read from the right. */
  function LastWord(s: string): string {
    TrailingRun(DropTrailingDelimiters(s))
  }

  /** A string of delimiters yields no token, and only such a string does. */
  lemma {:induction false} TokensEmpty(s: string)
    ensures Tokens(s) == [] <==> AllDelimiters(s)
    decreases |s|
  {
    if s != [] {
      if IsDelimiter(s[0]) {
        TokensEmpty(s[1..]);
        assert AllDelimiters(s) <==> AllDelimiters(s[1..]) by {
          assert forall i :: 1 <= i < |s| ==> s[i] == s[1..][i - 1];
        }
      }
    }
  }

  /** No word runs across the seam between `p` and `s`. */
  predicate Separated(p: string, s: string) {
    p == [] || IsDelimiter(p[|p| - 1]) || (s != [] && IsDelimiter(s[0]))
  }

  /** Putting a separated prefix before text that still holds a word does not change
      the last word. */
  lemma {:induction false} LastWordOfSuffix(p: string, s: string)
    requires Separated(p, s) && !AllDelimiters(s)
    ensures LastWord(p + s) == LastWord(s)
    decreases |s|
  {
    var ps := p + s;
    var n := |s| - 1;
    if IsDelimiter(s[n]) {
      var s' := s[..n];
      assert ps[..|ps| - 1] == p + s';
      assert DropTrailingDelimiters(ps) == DropTrailingDelimiters(p + s');
      assert DropTrailingDelimiters(s) == DropTrailingDelimiters(s');
      assert !AllDelimiters(s') by {
        var i :| 0 <= i < |s| && !IsDelimiter(s[i]);
        assert i < n && s'[i] == s[i];
      }
      assert Separated(p, s');
      LastWordOfSuffix(p, s');
    } else {
      assert ps[|ps| - 1] == s[n];
      assert DropTrailingDelimiters(s) == s;
      assert DropTrailingDelimiters(ps) == ps;
      TrailingRunOfSuffix(p, s);
    }
  }

  /** The trailing run of `p + s` stays inside `s` when nothing joins them. */
  lemma {:induction false} TrailingRunOfSuffix(p: string, s: string)
    requires Separated(p, s)
    ensures TrailingRun(p + s) == TrailingRun(s)
    decreases |s|
  {
    var ps := p + s;
    if s == [] {
      assert ps == p;
    } else if IsDelimiter(s[|s| - 1]) {
      assert ps[|ps| - 1] == s[|s| - 1];
    } else {
      var s' := s[..|s| - 1];
      var c := s[|s| - 1];
      assert ps[|ps| - 1] == c;
      assert ps[..|ps| - 1] == p + s';
      assert Separated(p, s') by {
        if s' != [] {
          assert s'[0] == s[0];
        }
      }
      TrailingRunOfSuffix(p, s');
      TrailingRunStep(ps);
      TrailingRunStep(s);
    }
  }

  /** A string ending in a non-delimiter: its trailing run is that of the rest, plus the
      last character. */
  lemma TrailingRunStep(t: string)
    requires t != [] && !IsDelimiter(t[|t| - 1])
    ensures TrailingRun(t) == TrailingRun(t[..|t| - 1]) + [t[|t| - 1]]
  {
  }

  /** The value a loop over all the tokens is left holding is the word being typed:
      the last token is the last run of non-delimiters. */
  lemma {:induction false} LastTokenIsLastWord(s: string)
    requires Tokens(s) != []
    ensures Tokens(s)[|Tokens(s)| - 1] == LastWord(s)
    decreases |s|, 1
  {
    if IsDelimiter(s[0]) {
      LastTokenAfterDelimiter(s);
    } else {
      LastTokenAfterWord(s);
    }
  }

  /** A leading delimiter changes neither the tokens nor the last word. */
  lemma {:induction false} LastTokenAfterDelimiter(s: string)
    requires Tokens(s) != [] && IsDelimiter(s[0])
    ensures Tokens(s)[|Tokens(s)| - 1] == LastWord(s)
    decreases |s|, 0
  {
    assert Tokens(s) == Tokens(s[1..]);
    LastTokenIsLastWord(s[1..]);
    assert s == [s[0]] + s[1..];
    TokensEmpty(s[1..]);
    LastWordOfSuffix([s[0]], s[1..]);
  }

  /** A leading word is the first token; it is also the last word when only
      delimiters follow it. */
  lemma {:induction false} LastTokenAfterWord(s: string)
    requires Tokens(s) != [] && !IsDelimiter(s[0])
    ensures Tokens(s)[|Tokens(s)| - 1] == LastWord(s)
    decreases |s|, 0
  {
    var k := TokenLength(s);
    var w := s[..k];
    var rest := s[k..];
    assert s == w + rest;
    assert Tokens(s) == [w] + Tokens(rest);
    TokensEmpty(rest);
    if AllDelimiters(rest) {
      DropDelimiterTail(w, rest);
      WholeRun(w);
    } else {
      LastTokenIsLastWord(rest);
      LastWordOfSuffix(w, rest);
    }
  }

  /** Delimiters after a word are what DropTrailingDelimiters removes. */
  lemma {:induction false} DropDelimiterTail(w: string, d: string)
    requires w != [] && !IsDelimiter(w[|w| - 1]) && AllDelimiters(d)
    ensures DropTrailingDelimiters(w + d) == w
    decreases |d|
  {
    if d == [] {
      assert w + d == w;
    } else {
      assert (w + d)[..|w + d| - 1] == w + d[..|d| - 1];
      DropDelimiterTail(w, d[..|d| - 1]);
    }
  }

  /** A string without delimiters is its own trailing run. */
  lemma {:induction false} WholeRun(w: string)
    requires NoDelimiter(w)
    ensures TrailingRun(w) == w
  {
    if w != [] {
      WholeRun(w[..|w| - 1]);
    }
  }

  // ---------------------------------------------------------------------------
  // String.compareTo and Collections.sort

  /** The lexicographic order of String.compareTo, character by character. */
  predicate StrLessEq(a: string, b: string) {
    a == [] || (b != [] && (a[0] < b[0] || (a[0] == b[0] && StrLessEq(a[1..], b[1..]))))
  }

  predicate StrLess(a: string, b: string) {
    StrLessEq(a, b) && a != b
  }

  lemma {:induction false} StrLessEqTotal(a: string, b: string)
    ensures StrLessEq(a, b) || StrLessEq(b, a)
  {
    if a != [] && b != [] && a[0] == b[0] {
      StrLessEqTotal(a[1..], b[1..]);
    }
  }

  lemma {:induction false} StrLessEqTransitive(a: string, b: string, c: string)
    requires StrLessEq(a, b) && StrLessEq(b, c)
    ensures StrLessEq(a, c)
  {
    if a != [] && b != [] && c != [] && a[0] == b[0] && b[0] == c[0] {
      StrLessEqTransitive(a[1..], b[1..], c[1..]);
    }
  }

  lemma {:induction false} StrLessEqAntisymmetric(a: string, b: string)
    requires StrLessEq(a, b) && StrLessEq(b, a)
    ensures a == b
  {
    if a != [] && b != [] {
      StrLessEqAntisymmetric(a[1..], b[1..]);
      assert a == [a[0]] + a[1..] && b == [b[0]] + b[1..];
    }
  }

  predicate SortedStrings(s: seq<string>) {
    forall i, j :: 0 <= i < j < |s| ==> StrLessEq(s[i], s[j])
  }

  /** Inserts `x` before the first element greater than it. */
  function InsertString(x: string, s: seq<string>): (r: seq<string>)
    requires SortedStrings(s)
    ensures SortedStrings(r) && multiset(r) == multiset(s) + multiset{x}
  {
    if s == [] then [x]
    else if StrLessEq(x, s[0]) then
      assert forall j :: 0 <= j < |s| ==> StrLessEq(x, s[j]) by {
        forall j | 0 <= j < |s| ensures StrLessEq(x, s[j]) {
          if j > 0 { StrLessEqTransitive(x, s[0], s[j]); }
        }
      }
      [x] + s
    else
      StrLessEqTotal(x, s[0]);
      var t := InsertString(x, s[1..]);
      assert s == [s[0]] + s[1..];
      assert forall k :: 0 <= k < |t| ==> StrLessEq(s[0], t[k]) by {
        forall k | 0 <= k < |t| ensures StrLessEq(s[0], t[k]) {
          assert t[k] in multiset(t);
          if t[k] != x {
            assert t[k] in multiset(s[1..]);
            var j :| 0 <= j < |s[1..]| && s[1..][j] == t[k];
            assert s[j + 1] == t[k];
          }
        }
      }
      [s[0]] + t
  }

  /** Collections.sort on a list of strings (an insertion sort stands for the library's
      merge sort; both yield the single sorted arrangement of the same elements). */
  function SortStrings(s: seq<string>): (r: seq<string>)
    ensures SortedStrings(r) && multiset(r) == multiset(s)
  {
    if s == [] then [] else
      assert s == s[..|s| - 1] + [s[|s| - 1]];
      InsertString(s[|s| - 1], SortStrings(s[..|s| - 1]))
  }

  /** Two equal entries at different positions count twice in the multiset. */
  lemma RepeatedEntry(s: seq<string>, i: nat, j: nat)
    requires i < j < |s| && s[i] == s[j]
    ensures multiset(s)[s[i]] >= 2
  {
    assert s == s[..i] + [s[i]] + s[i + 1..j] + [s[j]] + s[j + 1..];
  }

  /** doAutoCompleteLabelExpression: the names of the known labels that start with the
      word being typed, in ascending order; nothing for a missing or empty value or one
      made of delimiters only. `labels` stands for the names of Jenkins.getLabels(). */
  method DoAutoCompleteLabelExpression(value: Option<string>, labels: set<string>)
      returns (candidates: seq<string>)
    ensures value.None? || value.value == [] || AllDelimiters(value.value) ==> candidates == []
    ensures value.Some? && !AllDelimiters(value.value) ==>
              forall name :: name in candidates <==> name in labels && LastWord(value.value) <= name
    ensures forall i, j :: 0 <= i < j < |candidates| ==> StrLess(candidates[i], candidates[j])
  {
    candidates := [];
    if value.None? || |value.value| == 0 {
      return;
    }
    var tokens := Tokens(value.value);
    var currentValue: Option<string> := None;
    for t := 0 to |tokens|
      invariant t == 0 ==> currentValue == None
      invariant t > 0 ==> currentValue == Some(tokens[t - 1])
    {
      currentValue := Some(tokens[t]);
    }
    TokensEmpty(value.value);
    if currentValue.None? || |currentValue.value| == 0 {
      return;
    }
    LastTokenIsLastWord(value.value);
    var prefix := currentValue.value;
    var cands := MatchingLabels(prefix, labels);
    candidates := SortStrings(cands);
    SortingDistinctNames(cands);
  }

  /** The loop over Jenkins.getLabels(): the names that start with `prefix`, each once,
      in the order the set yields them. */
  method MatchingLabels(prefix: string, labels: set<string>) returns (cands: seq<string>)
    ensures forall name :: name in cands <==> name in labels && prefix <= name
    ensures forall name :: multiset(cands)[name] <= 1
  {
    cands := [];
    var rest := labels;
    while rest != {}
      invariant rest <= labels
      invariant forall name :: name in cands <==> name in labels - rest && prefix <= name
      invariant forall name :: multiset(cands)[name] <= 1
      decreases |rest|
    {
      var l :| l in rest;
      if prefix <= l {
        assert l !in cands;
        cands := cands + [l];
      }
      rest := rest - {l};
    }
  }

  /** Sorting names that occur once each gives the same names in strictly ascending
      order. */
  lemma SortingDistinctNames(s: seq<string>)
    requires forall name :: multiset(s)[name] <= 1
    ensures forall name :: name in SortStrings(s) <==> name in s
    ensures forall i, j :: 0 <= i < j < |SortStrings(s)| ==> StrLess(SortStrings(s)[i], SortStrings(s)[j])
  {
    var r := SortStrings(s);
    forall name ensures name in r <==> name in s {
      assert name in r <==> name in multiset(r);
      assert name in s <==> name in multiset(s);
    }
    forall i, j | 0 <= i < j < |r|
      ensures StrLess(r[i], r[j])
    {
      if r[i] == r[j] {
        RepeatedEntry(r, i, j);
        assert false;
      }
    }
  }
}
