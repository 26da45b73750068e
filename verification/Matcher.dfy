/** pkg/matcher: how the filters of an intercept match the path and the headers of a request. */
module Matcher {

  /** Go's regexp package and the canonical form of header names are parameters of the model. */
  datatype Engine = Engine(compiles: string -> bool, matches: (string, string) -> bool, canonical: string -> string)

  datatype Op = Equal | Prefix | Regex

  datatype Value = Value(op: Op, text: string) {
    predicate Matches(e: Engine, value: string) {
      match op
      case Equal => text == value
      case Prefix => text <= value
      case Regex => value != "" && e.matches(text, value)
    }
  }

  // ---------- Constructors ----------

  predicate IsMeta(c: char) {
    c in "\\.+*?()|[]{}^$"
  }

  predicate HasMeta(v: string) {
    exists i :: 0 <= i < |v| && IsMeta(v[i])
  }

  /** A text that does not compile is matched literally. */
  function NewRegex(e: Engine, v: string): Value {
    if e.compiles(v) then Value(Regex, v) else Value(Equal, v)
  }

  function NewValue(e: Engine, v: string): Value {
    if HasMeta(v) then NewRegex(e, v) else Value(Equal, v)
  }

  const PATH_EQUAL := ":path-equal:"
  const PATH_PREFIX := ":path-prefix:"
  const PATH_REGEX := ":path-regex:"

  function IndexColon(s: string): (i: int)
    ensures -1 <= i < |s|
    ensures i >= 0 ==> s[i] == ':'
    ensures forall k :: 0 <= k < (if i < 0 then |s| else i) ==> s[k] != ':'
  {
    if s == "" then -1
    else if s[0] == ':' then 0
    else
      var i := IndexColon(s[1..]);
      assert forall k :: 0 < k < |s| ==> s[k] == s[1..][k - 1];
      if i < 0 then -1 else i + 1
  }

  /** Two colons with something in between, and no colon in that. */
  predicate IsMarker(m: string) {
    |m| >= 3 && m[0] == ':' && m[|m| - 1] == ':' && forall i :: 0 < i < |m| - 1 ==> m[i] != ':'
  }

  /** A filter that starts with a marker. */
  predicate HasMarker(path: string) {
    exists n :: 3 <= n <= |path| && IsMarker(path[..n])
  }

  /** The marker in front of a path filter; `::` is no marker. */
  function SplitPath(path: string): (r: (string, string))
    ensures if HasMarker(path) then r.0 + r.1 == path && IsMarker(r.0) else r == (PATH_EQUAL, path)
  {
    if path != "" && path[0] == ':' then
      var next := IndexColon(path[1..]);
      if next > 0 then (path[..next + 2], path[next + 2..]) else (PATH_EQUAL, path)
    else (PATH_EQUAL, path)
  }

  /** An unknown marker is dropped, and the rest has to be equal. */
  function PathValue(e: Engine, path: string): Value {
    var (marker, v) := SplitPath(path);
    if marker == PATH_PREFIX then Value(Prefix, v)
    else if marker == PATH_REGEX then NewRegex(e, v)
    else Value(Equal, v)
  }

  /** The three markers are told apart, and what follows them is taken as it is. */
  lemma MarkersAreRead(e: Engine, v: string)
    ensures PathValue(e, PATH_EQUAL + v) == Value(Equal, v)
    ensures PathValue(e, PATH_PREFIX + v) == Value(Prefix, v)
    ensures PathValue(e, PATH_REGEX + v) == if e.compiles(v) then Value(Regex, v) else Value(Equal, v)
  {
    EqualIsRead(e, v);
    PrefixIsRead(e, v);
    RegexIsRead(e, v);
  }

  /** A header filter is an expression if and only if it compiles and has one of these characters; otherwise it is
      the text that the header must be equal to. */
  lemma HeaderFilterIsRead(e: Engine, v: string)
    ensures var special := exists c :: c in v && c in "\\.+*?()|[]{}^$";
            NewValue(e, v) == if special && e.compiles(v) then Value(Regex, v) else Value(Equal, v)
  {
    if c :| c in v && IsMeta(c) {
      var i :| 0 <= i < |v| && v[i] == c;
      assert HasMeta(v);
    }
  }

  lemma EqualIsRead(e: Engine, v: string)
    ensures PathValue(e, PATH_EQUAL + v) == Value(Equal, v)
  {
    MarkerIsRead("path-equal", v);
    assert PATH_EQUAL == ":" + "path-equal" + ":";
    assert |PATH_EQUAL| == 12 && |PATH_PREFIX| == 13;
    assert PATH_REGEX[6] != PATH_EQUAL[6];
  }

  lemma PrefixIsRead(e: Engine, v: string)
    ensures PathValue(e, PATH_PREFIX + v) == Value(Prefix, v)
  {
    MarkerIsRead("path-prefix", v);
    assert PATH_PREFIX == ":" + "path-prefix" + ":";
  }

  lemma RegexIsRead(e: Engine, v: string)
    ensures PathValue(e, PATH_REGEX + v) == NewRegex(e, v)
  {
    MarkerIsRead("path-regex", v);
    assert PATH_REGEX == ":" + "path-regex" + ":";
    assert |PATH_REGEX| == 12 && |PATH_PREFIX| == 13;
  }

  lemma MarkerIsRead(name: string, v: string)
    requires name != "" && ':' !in name
    ensures SplitPath(":" + name + ":" + v) == (":" + name + ":", v)
  {
    var path := ":" + name + ":" + v;
    var rest := path[1..];
    assert rest == name + ":" + v;
    assert rest[|name|] == ':' && forall k :: 0 <= k < |name| ==> rest[k] == name[k];
    var i := IndexColon(rest);
    assert i == |name|;
    assert path[..i + 2] == ":" + name + ":" && path[i + 2..] == v;
  }

  // ---------- Requests ----------

  type HeaderMap = map<string, Value>

  function NewPaths(e: Engine, paths: seq<string>): (r: seq<Value>)
    ensures |r| == |paths|
    ensures forall i :: 0 <= i < |r| ==> r[i] == PathValue(e, paths[i])
  {
    seq(|paths|, i requires 0 <= i < |paths| => PathValue(e, paths[i]))
  }

  /** `hm` can be the result of NewHeaders: of filters whose names have the same canonical form one is kept,
      and Go's iteration order does not say which. */
  ghost predicate Resolves(e: Engine, hs: map<string, string>, hm: HeaderMap) {
    && (forall k :: k in hs ==> e.canonical(k) in hm)
    && (forall c :: c in hm ==> exists k :: k in hs && e.canonical(k) == c && hm[c] == NewValue(e, hs[k]))
  }

  method NewHeaders(e: Engine, hs: map<string, string>) returns (hm: HeaderMap)
    ensures Resolves(e, hs, hm)
  {
    hm := map[];
    var todo := hs.Keys;
    while todo != {}
      invariant todo <= hs.Keys
      invariant forall k :: k in hs && k !in todo ==> e.canonical(k) in hm
      invariant forall c :: c in hm ==> exists k :: k in hs && e.canonical(k) == c && hm[c] == NewValue(e, hs[k])
      decreases todo
    {
      var k :| k in todo;
      hm := hm[e.canonical(k) := NewValue(e, hs[k])];
      todo := todo - {k};
    }
  }

  ghost predicate DistinctNames(e: Engine, hs: map<string, string>) {
    forall k, l :: k in hs && l in hs && e.canonical(k) == e.canonical(l) ==> k == l
  }

  /** With distinct names there is no choice. */
  lemma ResolutionIsUnique(e: Engine, hs: map<string, string>, a: HeaderMap, b: HeaderMap)
    requires DistinctNames(e, hs) && Resolves(e, hs, a) && Resolves(e, hs, b)
    ensures a == b
  {
    assert a.Keys == b.Keys;
    forall c | c in a
      ensures a[c] == b[c]
    {
      var k :| k in hs && e.canonical(k) == c && a[c] == NewValue(e, hs[k]);
      var l :| l in hs && e.canonical(l) == c && b[c] == NewValue(e, hs[l]);
    }
  }

  /** The first value of a header, or nothing when it is missing. Names are canonical. */
  function Get(header: map<string, string>, name: string): string {
    if name in header then header[name] else ""
  }

  ghost predicate PathsMatch(e: Engine, paths: seq<Value>, path: string) {
    paths == [] || exists i :: 0 <= i < |paths| && paths[i].Matches(e, path)
  }

  ghost predicate HeadersMatch(e: Engine, hm: HeaderMap, header: map<string, string>) {
    forall name :: name in hm ==> hm[name].Matches(e, Get(header, name))
  }

  /** `MatchesPathAndHeader` of a request matcher. */
  ghost predicate RequestMatches(e: Engine, paths: seq<Value>, hm: HeaderMap, path: string,
                                 header: map<string, string>) {
    PathsMatch(e, paths, path) && HeadersMatch(e, hm, header)
  }
}
