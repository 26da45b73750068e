/** pkg/icept: do two intercepts ask for the same requests? A syntactic test, and what it has to do with the
    requests that the filters match. */
module Conflicts {
  import opened Matcher

  datatype Spec = Spec(headers: map<string, string>, paths: seq<string>)

  // ---------- Two values ----------

  function TrimPrefix(s: string): string {
    if "^" <= s then s[1..] else s
  }

  function TrimSuffix(s: string): string {
    if |s| >= 2 && s[|s| - 2..] == ".*" then s[..|s| - 2] else s
  }

  function Literal(s: string): (r: string)
    ensures r <= s && (forall i :: 0 <= i < |r| ==> !IsMeta(r[i]))
    ensures |r| < |s| ==> IsMeta(s[|r|])
  {
    if s == "" || IsMeta(s[0]) then ""
    else
      var r := Literal(s[1..]);
      assert [s[0]] + r <= s;
      [s[0]] + r
  }

  function LiteralPrefix(pattern: string): string {
    Literal(TrimSuffix(TrimPrefix(pattern)))
  }

  /** The loop stops at the first character with a meaning of its own. */
  method RegexLiteralPrefix(pattern: string) returns (prefix: string)
    ensures prefix == LiteralPrefix(pattern)
  {
    prefix := "";
    var p := TrimSuffix(TrimPrefix(pattern));
    var i := 0;
    assert p[0..] == p;
    while i < |p|
      invariant 0 <= i <= |p|
      invariant prefix + Literal(p[i..]) == Literal(p)
    {
      if IsMeta(p[i]) {
        return;
      }
      assert p[i..][1..] == p[i + 1..];
      prefix := prefix + [p[i]];
      i := i + 1;
    }
  }

  predicate Comparable(a: string, b: string) {
    a <= b || b <= a
  }

  predicate RegexCanMatchValue(e: Engine, regex: string, op: Op, value: string) {
    if value == "" || !("^" <= regex) then true
    else
      match op
      case Equal => if e.compiles(regex) then e.matches(regex, value) else true
      case Prefix => LiteralPrefix(regex) == "" || Comparable(value, LiteralPrefix(regex))
      case Regex => true
  }

  predicate RegexesCanMatch(p1: string, p2: string) {
    p1 == p2 || !("^" <= p1) || !("^" <= p2) || Comparable(LiteralPrefix(p1), LiteralPrefix(p2))
  }

  predicate ValuesCanMatch(e: Engine, v1: Value, v2: Value) {
    match (v1.op, v2.op)
    case (Equal, Equal) => v1.text == v2.text
    case (Prefix, Prefix) => Comparable(v1.text, v2.text)
    case (Prefix, Equal) => v1.text <= v2.text
    case (Equal, Prefix) => v2.text <= v1.text
    case (Regex, Regex) => RegexesCanMatch(v1.text, v2.text)
    case (Regex, _) => RegexCanMatchValue(e, v1.text, v2.op, v2.text)
    case (_, Regex) => RegexCanMatchValue(e, v2.text, v1.op, v1.text)
  }

  lemma ValuesAreSymmetric(e: Engine, v1: Value, v2: Value)
    ensures ValuesCanMatch(e, v1, v2) == ValuesCanMatch(e, v2, v1)
  {
  }

  /** Something is matched by both. */
  ghost predicate Overlap(e: Engine, v1: Value, v2: Value) {
    exists s :: v1.Matches(e, s) && v2.Matches(e, s)
  }

  /** Without regular expressions the test is exact. */
  lemma LiteralOverlapExactly(e: Engine, v1: Value, v2: Value)
    requires v1.op != Regex && v2.op != Regex
    ensures ValuesCanMatch(e, v1, v2) <==> Overlap(e, v1, v2)
  {
    if ValuesCanMatch(e, v1, v2) {
      var s := if v1.op == Equal || (v2.op == Prefix && v2.text <= v1.text) then v1.text else v2.text;
      assert v1.Matches(e, s) && v2.Matches(e, s);
    }
  }

  /** Everything that the value matches starts with its literal prefix, if it is an anchored expression. */
  ghost predicate StartsLiterally(e: Engine, v: Value) {
    v.op == Regex && "^" <= v.text ==> forall s :: v.Matches(e, s) ==> LiteralPrefix(v.text) <= s
  }

  /** Or at least nothing that it matches departs from the literal prefix; it may end before. */
  ghost predicate FollowsLiteral(e: Engine, v: Value) {
    v.op == Regex && "^" <= v.text ==> forall s :: v.Matches(e, s) ==> Comparable(LiteralPrefix(v.text), s)
  }

  lemma CloseToOne(a: string, b: string, s: string)
    requires a <= s && Comparable(b, s)
    ensures Comparable(a, b)
  {
  }

  /** No overlap of two values is missed when both follow their literal prefix and one starts with it. */
  lemma NoOverlapIsMissed(e: Engine, v1: Value, v2: Value)
    requires FollowsLiteral(e, v1) && FollowsLiteral(e, v2) && (StartsLiterally(e, v1) || StartsLiterally(e, v2))
    ensures Overlap(e, v1, v2) ==> ValuesCanMatch(e, v1, v2)
  {
    if s :| v1.Matches(e, s) && v2.Matches(e, s) {
      var l1, l2 := LiteralPrefix(v1.text), LiteralPrefix(v2.text);
      if v1.op == Prefix && v2.op == Regex && "^" <= v2.text {
        CloseToOne(v1.text, l2, s);
      } else if v1.op == Regex && v2.op == Prefix && "^" <= v1.text {
        CloseToOne(v2.text, l1, s);
      }
    }
  }

  /** For one expression that is exactly right: no overlap with an equal or prefix filter, or with an expression
      that starts with its literal prefix, is missed if and only if the expression follows its own. */
  lemma LiteralFiltersNotMissedExactly(e: Engine, v: Value)
    requires v.op == Regex
    ensures (forall u: Value :: StartsLiterally(e, u) && Overlap(e, v, u) ==> ValuesCanMatch(e, v, u)) <==>
              FollowsLiteral(e, v)
  {
    if FollowsLiteral(e, v) {
      forall u: Value | StartsLiterally(e, u) && Overlap(e, v, u)
        ensures ValuesCanMatch(e, v, u)
      {
        NoOverlapIsMissed(e, v, u);
      }
    } else {
      var s :| v.Matches(e, s) && !Comparable(LiteralPrefix(v.text), s);
      var u := Value(Prefix, s);
      assert u.Matches(e, s);
      assert Overlap(e, v, u) && !ValuesCanMatch(e, v, u);
    }
  }

  /** An anchored text whose last character is optional. */
  function Optional(text: string, last: char): string {
    "^" + text + [last, '?']
  }

  /** A repetition operator behind the literal: `^/ab?` and `^/ac?` both match `/a`, so neither starts with its
      literal prefix, and the overlap is missed. */
  lemma OptionalLiteralIsMissed(e: Engine, text: string, b: char, c: char)
    requires text != "" && (forall i :: 0 <= i < |text| ==> !IsMeta(text[i]))
    requires !IsMeta(b) && !IsMeta(c) && b != c
    requires e.matches(Optional(text, b), text) && e.matches(Optional(text, c), text)
    ensures Overlap(e, Value(Regex, Optional(text, b)), Value(Regex, Optional(text, c)))
    ensures !ValuesCanMatch(e, Value(Regex, Optional(text, b)), Value(Regex, Optional(text, c)))
  {
    OptionalsAreNotComparable(text, b, c);
    var v1, v2 := Value(Regex, Optional(text, b)), Value(Regex, Optional(text, c));
    assert v1.Matches(e, text) && v2.Matches(e, text);
  }

  lemma LastDiffers(text: string, b: char, c: char)
    requires b != c
    ensures !Comparable(text + [b], text + [c])
  {
    assert (text + [b])[|text|] != (text + [c])[|text|];
  }

  lemma OptionalsAreNotComparable(text: string, b: char, c: char)
    requires forall i :: 0 <= i < |text| ==> !IsMeta(text[i])
    requires !IsMeta(b) && !IsMeta(c) && b != c
    ensures !RegexesCanMatch(Optional(text, b), Optional(text, c))
  {
    var p1, p2 := Optional(text, b), Optional(text, c);
    LiteralOfOptional(text, b);
    LiteralOfOptional(text, c);
    LastDiffers(text, b, c);
    assert p1[|text| + 1] != p2[|text| + 1];
    assert "^" <= p1 && "^" <= p2;
  }

  lemma LiteralOfOptional(text: string, last: char)
    requires !IsMeta(last) && forall i :: 0 <= i < |text| ==> !IsMeta(text[i])
    ensures LiteralPrefix(Optional(text, last)) == text + [last]
  {
    var t := text + [last, '?'];
    assert TrimPrefix(Optional(text, last)) == t;
    assert t[|t| - 2..][1] == '?';
    assert TrimSuffix(t) == t;
    assert Literal("?") == "";
    assert [last, '?'][1..] == "?";
    LiteralOfPlain(text + [last], "?");
    assert t == text + [last] + "?";
  }

  lemma {:induction false} LiteralOfPlain(text: string, rest: string)
    requires forall i :: 0 <= i < |text| ==> !IsMeta(text[i])
    ensures Literal(text + rest) == text + Literal(rest)
    decreases |text|
  {
    if text == "" {
      assert text + rest == rest;
    } else {
      var after := text[1..] + rest;
      assert (text + rest)[1..] == after && (text + rest)[0] == text[0];
      LiteralOfPlain(text[1..], rest);
      assert Literal(text + rest) == [text[0]] + Literal(after);
    }
  }

  // ---------- What is reported ----------

  /** An expression that says where it starts. Only expressions that compile become values. */
  predicate Anchored(e: Engine, v: Value) {
    v.op == Regex && "^" <= v.text && e.compiles(v.text)
  }

  /** An expression that compiles is reported against an equal filter if both match something, and besides if the
      filter is empty or the expression is not anchored. */
  lemma ReportedAgainstEqualExactly(e: Engine, v: Value, u: Value)
    requires v.op == Regex && e.compiles(v.text) && u.op == Equal
    ensures ValuesCanMatch(e, v, u) <==> Overlap(e, v, u) || u.text == "" || !("^" <= v.text)
    ensures ValuesCanMatch(e, u, v) <==> ValuesCanMatch(e, v, u)
    ensures u.text == "" ==> !Overlap(e, v, u)
  {
    if u.text != "" && e.matches(v.text, u.text) {
      assert v.Matches(e, u.text) && u.Matches(e, u.text);
    }
  }

  /** The two values for which the test is exact: no expression, or an anchored one and an equal filter that is
      not empty. */
  predicate Decidable(e: Engine, v1: Value, v2: Value) {
    || (v1.op != Regex && v2.op != Regex)
    || (Anchored(e, v1) && v2.op == Equal && v2.text != "")
    || (Anchored(e, v2) && v1.op == Equal && v1.text != "")
  }

  lemma DecidedExactly(e: Engine, v1: Value, v2: Value)
    requires Decidable(e, v1, v2)
    ensures ValuesCanMatch(e, v1, v2) <==> Overlap(e, v1, v2)
  {
    if v1.op != Regex && v2.op != Regex {
      LiteralOverlapExactly(e, v1, v2);
    } else if v1.op == Regex {
      ReportedAgainstEqualExactly(e, v1, v2);
    } else {
      ReportedAgainstEqualExactly(e, v2, v1);
      assert Overlap(e, v1, v2) <==> Overlap(e, v2, v1);
    }
  }

  /** The value, or the prefix filter that takes the place of an expression. */
  function AsPrefix(v: Value): Value {
    if v.op == Regex then Value(Prefix, LiteralPrefix(v.text)) else v
  }

  /** Anchored expressions are reported against prefix filters, and against each other, as if they were the filters
      of their literal prefixes. */
  lemma ReportedAgainstPrefixExactly(e: Engine, v: Value, u: Value)
    requires v.op == Regex && "^" <= v.text && (u.op == Prefix || (u.op == Regex && "^" <= u.text))
    ensures ValuesCanMatch(e, v, u) <==> Overlap(e, AsPrefix(v), AsPrefix(u))
    ensures ValuesCanMatch(e, u, v) <==> ValuesCanMatch(e, v, u)
  {
    LiteralOverlapExactly(e, AsPrefix(v), AsPrefix(u));
    ValuesAreSymmetric(e, u, v);
  }

  lemma UnanchoredIsReported(e: Engine, v: Value, u: Value)
    requires v.op == Regex && !("^" <= v.text)
    ensures ValuesCanMatch(e, v, u) && ValuesCanMatch(e, u, v)
  {
  }

  lemma LiteralIs(s: string, r: string)
    requires r <= s && (forall i :: 0 <= i < |r| ==> !IsMeta(r[i])) && (|r| < |s| ==> IsMeta(s[|r|]))
    ensures Literal(s) == r
  {
    var l := Literal(s);
    assert l == s[..|l|] && r == s[..|r|];
  }

  /** The literal prefix of an anchored expression is what stands between the anchor and the first character with
      a meaning. */
  lemma LiteralPrefixExactly(text: string, rest: string)
    requires (forall i :: 0 <= i < |text| ==> !IsMeta(text[i])) && (rest == "" || IsMeta(rest[0]))
    ensures LiteralPrefix("^" + text + rest) == text
  {
    var t := text + rest;
    assert TrimPrefix("^" + text + rest) == t;
    if TrimSuffix(t) != t {
      assert t[|t| - 2] == t[|t| - 2..][0] == '.';
      assert |text| <= |t| - 2;
    }
    LiteralIs(TrimSuffix(t), text);
  }

  // ---------- Paths and headers ----------

  ghost predicate PathsOverlap(e: Engine, p1: seq<Value>, p2: seq<Value>) {
    exists i, j :: 0 <= i < |p1| && 0 <= j < |p2| && ValuesCanMatch(e, p1[i], p2[j])
  }

  /** The nested loops, for any relation. */
  method AnyPair(p1: seq<Value>, p2: seq<Value>, related: (Value, Value) -> bool) returns (r: bool)
    ensures r <==> exists i, j :: 0 <= i < |p1| && 0 <= j < |p2| && related(p1[i], p2[j])
  {
    for i := 0 to |p1|
      invariant forall k, l :: 0 <= k < i && 0 <= l < |p2| ==> !related(p1[k], p2[l])
    {
      for j := 0 to |p2|
        invariant forall l :: 0 <= l < j ==> !related(p1[i], p2[l])
      {
        if related(p1[i], p2[j]) {
          return true;
        }
      }
    }
    r := false;
  }

  method PathFiltersOverlap(e: Engine, paths1: seq<string>, paths2: seq<string>) returns (r: bool)
    ensures r <==> PathsOverlap(e, NewPaths(e, paths1), NewPaths(e, paths2))
  {
    r := AnyPair(NewPaths(e, paths1), NewPaths(e, paths2), (a, b) => ValuesCanMatch(e, a, b));
  }

  ghost predicate HeaderSubset(e: Engine, h1: HeaderMap, h2: HeaderMap) {
    forall k :: k in h1 ==> k in h2 && ValuesCanMatch(e, h1[k], h2[k])
  }

  method IsHeaderSubset(e: Engine, subset: HeaderMap, superset: HeaderMap) returns (r: bool)
    ensures r <==> HeaderSubset(e, subset, superset)
  {
    var todo := subset.Keys;
    while todo != {}
      invariant todo <= subset.Keys
      invariant forall k :: k in subset && k !in todo ==> k in superset && ValuesCanMatch(e, subset[k], superset[k])
      decreases todo
    {
      var k :| k in todo;
      if k !in superset || !ValuesCanMatch(e, subset[k], superset[k]) {
        return false;
      }
      todo := todo - {k};
    }
    r := true;
  }

  // ---------- Two intercepts ----------

  ghost predicate InConflict(e: Engine, s1: Spec, s2: Spec, h1: HeaderMap, h2: HeaderMap) {
    var headers1, headers2 := s1.headers != map[], s2.headers != map[];
    var p1, p2 := NewPaths(e, s1.paths), NewPaths(e, s2.paths);
    || (!headers1 && s1.paths == [])
    || (!headers2 && s2.paths == [])
    || (&& headers1 == headers2
        && (headers1 ==> HeaderSubset(e, h1, h2) || HeaderSubset(e, h2, h1))
        && ((headers1 && (s1.paths == [] || s2.paths == [])) || PathsOverlap(e, p1, p2)))
  }

  /** The decision for the header maps that the source can have made, which it does only to compare them. */
  ghost predicate Decides(e: Engine, s1: Spec, s2: Spec, h1: HeaderMap, h2: HeaderMap, r: bool) {
    && (s1.headers != map[] && s2.headers != map[] ==> Resolves(e, s1.headers, h1) && Resolves(e, s2.headers, h2))
    && (r <==> InConflict(e, s1, s2, h1, h2))
  }

  /** The rules in the order of the source. */
  method IsInConflict(e: Engine, s1: Spec, s2: Spec) returns (r: bool)
    ensures exists h1, h2 :: Decides(e, s1, s2, h1, h2, r)
  {
    ghost var h1, h2;
    r, h1, h2 := Decide(e, s1, s2);
    assert Decides(e, s1, s2, h1, h2, r);
  }

  method Decide(e: Engine, s1: Spec, s2: Spec) returns (r: bool, ghost h1: HeaderMap, ghost h2: HeaderMap)
    ensures Decides(e, s1, s2, h1, h2, r)
  {
    var hasHeaders1, hasHeaders2 := s1.headers != map[], s2.headers != map[];
    var hasPaths1, hasPaths2 := s1.paths != [], s2.paths != [];
    h1, h2 := map[], map[];
    if (!hasHeaders1 && !hasPaths1) || (!hasHeaders2 && !hasPaths2) {
      return true, h1, h2;
    }
    if hasHeaders1 != hasHeaders2 {
      return false, h1, h2;
    }
    if hasHeaders1 {
      var headers1 := NewHeaders(e, s1.headers);
      var headers2 := NewHeaders(e, s2.headers);
      h1, h2 := headers1, headers2;
      var nested := IsHeaderSubset(e, headers1, headers2);
      if !nested {
        nested := IsHeaderSubset(e, headers2, headers1);
      }
      if !nested {
        return false, h1, h2;
      }
      if !hasPaths1 || !hasPaths2 {
        return true, h1, h2;
      }
    }
    r := PathFiltersOverlap(e, s1.paths, s2.paths);
  }

  /** It does not matter which intercept came first. This holds for all filters, regular expressions
      included, and for every engine. */
  lemma ConflictIsSymmetric(e: Engine, s1: Spec, s2: Spec, h1: HeaderMap, h2: HeaderMap)
    requires InConflict(e, s1, s2, h1, h2)
    ensures InConflict(e, s2, s1, h2, h1)
  {
  }

  // ---------- What a conflict means ----------

  ghost predicate Literals(p: seq<Value>) {
    forall i :: 0 <= i < |p| ==> p[i].op != Regex
  }

  /** Filters of any kind, whose expressions start with their literal prefixes. */
  ghost predicate AllStartLiterally(e: Engine, p: seq<Value>, h: HeaderMap) {
    && (forall i :: 0 <= i < |p| ==> StartsLiterally(e, p[i]))
    && (forall k :: k in h ==> StartsLiterally(e, h[k]))
  }

  ghost predicate LiteralHeaders(h: HeaderMap) {
    forall k :: k in h ==> h[k].op == Equal
  }

  /** A request that both intercepts match. */
  ghost predicate Contested(e: Engine, s1: Spec, s2: Spec, h1: HeaderMap, h2: HeaderMap, path: string,
                            header: map<string, string>) {
    && RequestMatches(e, NewPaths(e, s1.paths), h1, path, header)
    && RequestMatches(e, NewPaths(e, s2.paths), h2, path, header)
  }

  /** Every pair is one that the test decides. */
  ghost predicate AllDecidable(e: Engine, p1: seq<Value>, p2: seq<Value>) {
    forall i, j :: 0 <= i < |p1| && 0 <= j < |p2| ==> Decidable(e, p1[i], p2[j])
  }

  /** The filter matches something. */
  ghost predicate Satisfiable(e: Engine, v: Value) {
    exists s :: v.Matches(e, s)
  }

  lemma LiteralIsSatisfiable(e: Engine, v: Value)
    requires v.op != Regex
    ensures Satisfiable(e, v)
  {
    assert v.Matches(e, v.text);
  }

  ghost predicate AllSatisfiable(e: Engine, p: seq<Value>, h: HeaderMap) {
    && (forall i :: 0 <= i < |p| ==> Satisfiable(e, p[i]))
    && (forall k :: k in h ==> Satisfiable(e, h[k]))
  }

  /** A path that both lists of filters match exists exactly when the lists overlap or one is empty. */
  lemma CommonPathExactly(e: Engine, p1: seq<Value>, p2: seq<Value>)
    requires AllDecidable(e, p1, p2) && AllSatisfiable(e, p1, map[]) && AllSatisfiable(e, p2, map[])
    ensures (exists path :: PathsMatch(e, p1, path) && PathsMatch(e, p2, path)) <==>
              p1 == [] || p2 == [] || PathsOverlap(e, p1, p2)
  {
    if path :| PathsMatch(e, p1, path) && PathsMatch(e, p2, path) {
      if p1 != [] && p2 != [] {
        MatchedPathOverlaps(e, p1, p2, path);
      }
    }
    if p1 == [] || p2 == [] || PathsOverlap(e, p1, p2) {
      var path := CommonPath(e, p1, p2);
    }
  }

  lemma MatchedPathOverlaps(e: Engine, p1: seq<Value>, p2: seq<Value>, path: string)
    requires AllDecidable(e, p1, p2) && p1 != [] && p2 != [] && PathsMatch(e, p1, path) && PathsMatch(e, p2, path)
    ensures PathsOverlap(e, p1, p2)
  {
    var i :| 0 <= i < |p1| && p1[i].Matches(e, path);
    var j :| 0 <= j < |p2| && p2[j].Matches(e, path);
    DecidedExactly(e, p1[i], p2[j]);
    assert ValuesCanMatch(e, p1[i], p2[j]);
  }

  lemma CommonPath(e: Engine, p1: seq<Value>, p2: seq<Value>) returns (path: string)
    requires AllDecidable(e, p1, p2) && AllSatisfiable(e, p1, map[]) && AllSatisfiable(e, p2, map[])
    requires p1 == [] || p2 == [] || PathsOverlap(e, p1, p2)
    ensures PathsMatch(e, p1, path) && PathsMatch(e, p2, path)
  {
    if p1 == [] && p2 == [] {
      path := "";
    } else if p1 == [] {
      path :| p2[0].Matches(e, path);
    } else if p2 == [] {
      path :| p1[0].Matches(e, path);
    } else {
      var i, j :| 0 <= i < |p1| && 0 <= j < |p2| && ValuesCanMatch(e, p1[i], p2[j]);
      DecidedExactly(e, p1[i], p2[j]);
      path :| p1[i].Matches(e, path) && p2[j].Matches(e, path);
    }
  }

  /** Every header that both ask for is one that the test decides. */
  ghost predicate HeadersDecidable(e: Engine, h1: HeaderMap, h2: HeaderMap) {
    forall k :: k in h1 && k in h2 ==> Decidable(e, h1[k], h2[k])
  }

  /** A value of the header that satisfies both. */
  lemma CommonValue(e: Engine, h1: HeaderMap, h2: HeaderMap, k: string) returns (value: string)
    requires HeadersDecidable(e, h1, h2) && AllSatisfiable(e, [], h2) && HeaderSubset(e, h1, h2) && k in h2
    ensures h2[k].Matches(e, value) && (k in h1 ==> h1[k].Matches(e, value))
  {
    if k in h1 {
      DecidedExactly(e, h1[k], h2[k]);
      value :| h1[k].Matches(e, value) && h2[k].Matches(e, value);
    } else {
      value :| h2[k].Matches(e, value);
    }
  }

  lemma {:induction false} CommonValues(e: Engine, h1: HeaderMap, h2: HeaderMap, keys: set<string>)
      returns (header: map<string, string>)
    requires HeadersDecidable(e, h1, h2) && AllSatisfiable(e, [], h2) && HeaderSubset(e, h1, h2) && keys <= h2.Keys
    ensures header.Keys == keys
    ensures forall k :: k in keys ==> h2[k].Matches(e, header[k]) && (k in h1 ==> h1[k].Matches(e, header[k]))
    decreases keys
  {
    if keys == {} {
      header := map[];
    } else {
      var k :| k in keys;
      var value := CommonValue(e, h1, h2, k);
      var rest := CommonValues(e, h1, h2, keys - {k});
      header := rest[k := value];
    }
  }

  /** Headers that satisfy the larger of two nested maps satisfy both. */
  lemma CommonHeader(e: Engine, h1: HeaderMap, h2: HeaderMap) returns (header: map<string, string>)
    requires HeadersDecidable(e, h1, h2) && AllSatisfiable(e, [], h2) && HeaderSubset(e, h1, h2)
    ensures HeadersMatch(e, h1, header) && HeadersMatch(e, h2, header)
  {
    header := CommonValues(e, h1, h2, h2.Keys);
  }

  /** The intercepts that the test compares at all: one takes everything, or both are of the same tier and,
      with headers, the names of one are among the names of the other. */
  ghost predicate Compared(s1: Spec, s2: Spec, h1: HeaderMap, h2: HeaderMap) {
    || (s1.headers == map[] && s1.paths == [])
    || (s2.headers == map[] && s2.paths == [])
    || ((s1.headers == map[]) == (s2.headers == map[]) && (h1.Keys <= h2.Keys || h2.Keys <= h1.Keys))
  }

  ghost predicate Plain(e: Engine, s: Spec, h: HeaderMap) {
    && Resolves(e, s.headers, h) && LiteralHeaders(h) && Literals(NewPaths(e, s.paths))
  }

  /** The filters are those of the specs, each of them matches something, and whatever is compared is one that the
      test decides. */
  ghost predicate Decided(e: Engine, s1: Spec, s2: Spec, h1: HeaderMap, h2: HeaderMap) {
    var p1, p2 := NewPaths(e, s1.paths), NewPaths(e, s2.paths);
    && Resolves(e, s1.headers, h1) && Resolves(e, s2.headers, h2)
    && AllDecidable(e, p1, p2) && HeadersDecidable(e, h1, h2)
    && AllSatisfiable(e, p1, h1) && AllSatisfiable(e, p2, h2)
  }

  /** In particular filters without regular expressions. */
  lemma PlainIsDecided(e: Engine, s1: Spec, s2: Spec, h1: HeaderMap, h2: HeaderMap)
    requires Plain(e, s1, h1) && Plain(e, s2, h2)
    ensures Decided(e, s1, s2, h1, h2)
  {
    forall v: Value | v.op != Regex
      ensures Satisfiable(e, v)
    {
      LiteralIsSatisfiable(e, v);
    }
  }

  lemma HeadersDecidableSwap(e: Engine, h1: HeaderMap, h2: HeaderMap)
    requires HeadersDecidable(e, h1, h2)
    ensures HeadersDecidable(e, h2, h1)
  {
  }

  lemma NestedAgree(e: Engine, h1: HeaderMap, h2: HeaderMap, header: map<string, string>)
    requires AllStartLiterally(e, [], h1) && AllStartLiterally(e, [], h2) && h1.Keys <= h2.Keys
    requires HeadersMatch(e, h1, header) && HeadersMatch(e, h2, header)
    ensures HeaderSubset(e, h1, h2)
  {
    forall k | k in h1
      ensures k in h2 && ValuesCanMatch(e, h1[k], h2[k])
    {
      assert k in h2.Keys && h1[k].Matches(e, Get(header, k)) && h2[k].Matches(e, Get(header, k));
      NoOverlapIsMissed(e, h1[k], h2[k]);
    }
  }

  /** A path that is matched by both lists makes them overlap. */
  lemma CommonPathOverlaps(e: Engine, p1: seq<Value>, p2: seq<Value>, path: string)
    requires AllStartLiterally(e, p1, map[]) && AllStartLiterally(e, p2, map[])
    requires p1 != [] && p2 != [] && PathsMatch(e, p1, path) && PathsMatch(e, p2, path)
    ensures PathsOverlap(e, p1, p2)
  {
    var i :| 0 <= i < |p1| && p1[i].Matches(e, path);
    var j :| 0 <= j < |p2| && p2[j].Matches(e, path);
    NoOverlapIsMissed(e, p1[i], p2[j]);
    assert ValuesCanMatch(e, p1[i], p2[j]);
  }

  /** A contested request of intercepts that are compared is reported, regular expressions included as long as
      they start with their literal prefixes. */
  lemma ContestedIsReported(e: Engine, s1: Spec, s2: Spec, h1: HeaderMap, h2: HeaderMap, path: string,
                            header: map<string, string>)
    requires AllStartLiterally(e, NewPaths(e, s1.paths), h1) && AllStartLiterally(e, NewPaths(e, s2.paths), h2)
    requires Compared(s1, s2, h1, h2) && Contested(e, s1, s2, h1, h2, path, header)
    ensures InConflict(e, s1, s2, h1, h2)
  {
    if s1.paths != [] && s2.paths != [] {
      CommonPathOverlaps(e, NewPaths(e, s1.paths), NewPaths(e, s2.paths), path);
    }
    if h1.Keys <= h2.Keys {
      NestedAgree(e, h1, h2, header);
    } else if h2.Keys <= h1.Keys {
      NestedAgree(e, h2, h1, header);
    }
  }

  /** A reported conflict is one: there is a request that both match. */
  lemma ReportedIsContested(e: Engine, s1: Spec, s2: Spec, h1: HeaderMap, h2: HeaderMap)
      returns (path: string, header: map<string, string>)
    requires Decided(e, s1, s2, h1, h2) && InConflict(e, s1, s2, h1, h2)
    ensures Contested(e, s1, s2, h1, h2, path, header)
  {
    path := CommonPath(e, NewPaths(e, s1.paths), NewPaths(e, s2.paths));
    if HeaderSubset(e, h1, h2) {
      header := CommonHeader(e, h1, h2);
    } else {
      HeadersDecidableSwap(e, h1, h2);
      header := CommonHeader(e, h2, h1);
    }
  }

  lemma ReportedIsCompared(e: Engine, s1: Spec, s2: Spec, h1: HeaderMap, h2: HeaderMap)
    requires Decided(e, s1, s2, h1, h2) && InConflict(e, s1, s2, h1, h2)
    ensures Compared(s1, s2, h1, h2)
  {
  }

  lemma NestedHeadersAgree(e: Engine, h1: HeaderMap, h2: HeaderMap, header: map<string, string>)
    requires HeadersDecidable(e, h1, h2) && h1.Keys <= h2.Keys
    requires HeadersMatch(e, h1, header) && HeadersMatch(e, h2, header)
    ensures HeaderSubset(e, h1, h2)
  {
    forall k | k in h1
      ensures k in h2 && ValuesCanMatch(e, h1[k], h2[k])
    {
      assert k in h2.Keys && h1[k].Matches(e, Get(header, k)) && h2[k].Matches(e, Get(header, k));
      DecidedExactly(e, h1[k], h2[k]);
    }
  }

  lemma DecidedContestIsReported(e: Engine, s1: Spec, s2: Spec, h1: HeaderMap, h2: HeaderMap, path: string,
                                 header: map<string, string>)
    requires Decided(e, s1, s2, h1, h2) && Compared(s1, s2, h1, h2) && Contested(e, s1, s2, h1, h2, path, header)
    ensures InConflict(e, s1, s2, h1, h2)
  {
    if s1.paths != [] && s2.paths != [] {
      MatchedPathOverlaps(e, NewPaths(e, s1.paths), NewPaths(e, s2.paths), path);
    }
    if h1.Keys <= h2.Keys {
      NestedHeadersAgree(e, h1, h2, header);
    } else if h2.Keys <= h1.Keys {
      HeadersDecidableSwap(e, h1, h2);
      NestedHeadersAgree(e, h2, h1, header);
    }
  }

  /** For filters that the test decides, without regular expressions or with anchored ones against equal filters, a
      conflict is reported exactly when the intercepts are compared and some request is matched by both. */
  lemma ConflictExactly(e: Engine, s1: Spec, s2: Spec, h1: HeaderMap, h2: HeaderMap)
    requires Decided(e, s1, s2, h1, h2)
    ensures InConflict(e, s1, s2, h1, h2) <==>
              Compared(s1, s2, h1, h2) && exists path, header :: Contested(e, s1, s2, h1, h2, path, header)
  {
    if InConflict(e, s1, s2, h1, h2) {
      ReportedIsCompared(e, s1, s2, h1, h2);
      var path, header := ReportedIsContested(e, s1, s2, h1, h2);
    }
    if Compared(s1, s2, h1, h2) {
      if path, header :| Contested(e, s1, s2, h1, h2, path, header) {
        DecidedContestIsReported(e, s1, s2, h1, h2, path, header);
      }
    }
  }

  /** With paths only, everything is compared: a conflict is reported exactly when some path is matched by
      both. */
  lemma PathConflictExactly(e: Engine, s1: Spec, s2: Spec)
    requires s1.headers == map[] && s2.headers == map[] && Decided(e, s1, s2, map[], map[])
    ensures InConflict(e, s1, s2, map[], map[]) <==>
              exists path :: PathsMatch(e, NewPaths(e, s1.paths), path) && PathsMatch(e, NewPaths(e, s2.paths), path)
  {
    CommonPathExactly(e, NewPaths(e, s1.paths), NewPaths(e, s2.paths));
  }

  /** Headers that are not nested are never reported, although a request can carry both. */
  lemma UnrelatedHeadersAreNotReported(e: Engine, name1: string, name2: string, v1: string, v2: string)
    requires e.canonical(name1) != e.canonical(name2) && !HasMeta(v1) && !HasMeta(v2)
    ensures var s1, s2 := Spec(map[name1 := v1], []), Spec(map[name2 := v2], []);
            var c1, c2 := e.canonical(name1), e.canonical(name2);
            var h1: HeaderMap, h2: HeaderMap := map[c1 := Value(Equal, v1)], map[c2 := Value(Equal, v2)];
            Plain(e, s1, h1) && Plain(e, s2, h2) && !InConflict(e, s1, s2, h1, h2) &&
            Contested(e, s1, s2, h1, h2, "", map[c1 := v1, c2 := v2])
  {
    var s1, s2 := Spec(map[name1 := v1], []), Spec(map[name2 := v2], []);
    var c1, c2 := e.canonical(name1), e.canonical(name2);
    var h1: HeaderMap, h2: HeaderMap := map[c1 := Value(Equal, v1)], map[c2 := Value(Equal, v2)];
    assert name1 in s1.headers && name2 in s2.headers;
    assert c1 in h1 && c2 in h2;
  }
}
