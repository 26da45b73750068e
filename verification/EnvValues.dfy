/** How appendAppContainerEnv of pkg/agentconfig prefixes the names in the values of variables: with a regular
    expression, and not with prefixInterpolated. For which texts the two do the same is proved here. */
module EnvValues {
  import opened Interpolation

  // ---------- The regular expression ----------

  /** How many characters there are before the first `)`. */
  function UpToParen(s: string): (n: nat)
    ensures n <= |s| && ')' !in s[..n] && (n < |s| ==> s[n] == ')')
  {
    if s == "" || s[0] == ')' then 0
    else
      var n := UpToParen(s[1..]);
      assert s[..n + 1] == [s[0]] + s[1..][..n];
      n + 1
  }

  /** Does the expression `\$\(([^)]+)\)` match here? */
  predicate Matches(s: string) {
    "$(" <= s && 0 < UpToParen(s[2..]) < |s[2..]|
  }

  /** The name in the match, and what stands behind the match. */
  function NameIn(s: string): string
    requires Matches(s)
  {
    s[2..][..UpToParen(s[2..])]
  }

  function Behind(s: string): (t: string)
    requires Matches(s)
    ensures |t| < |s|
  {
    s[2..][UpToParen(s[2..]) + 1..]
  }

  /** `ReplaceAllString`: from left to right, every match gets the prefix in front of its name. */
  function ReplaceAll(s: string, pfx: string): string
    decreases |s|
  {
    if s == "" then ""
    else if Matches(s) then Reference(pfx + NameIn(s)) + ReplaceAll(Behind(s), pfx)
    else [s[0]] + ReplaceAll(s[1..], pfx)
  }

  lemma {:induction false} UpToParenOf(name: string, rest: string)
    requires ')' !in name
    ensures UpToParen(name + (")" + rest)) == |name|
    decreases |name|
  {
    if name == "" {
      assert name + (")" + rest) == ")" + rest;
    } else {
      assert (name + (")" + rest))[1..] == name[1..] + (")" + rest);
      UpToParenOf(name[1..], rest);
    }
  }

  /** Is the text a match with this name, followed by `rest`? */
  predicate Splits(s: string, name: string, rest: string) {
    name != "" && ')' !in name && s == Reference(name) + rest
  }

  lemma ReferenceTail(name: string, rest: string)
    ensures (Reference(name) + rest)[2..] == name + (")" + rest)
  {
  }

  lemma MatchSplits(s: string)
    requires Matches(s)
    ensures Splits(s, NameIn(s), Behind(s))
  {
    var n := UpToParen(s[2..]);
    assert s == "$(" + s[2..];
    assert s[2..] == s[2..][..n] + (")" + s[2..][n + 1..]);
    ReferenceTail(NameIn(s), Behind(s));
  }

  lemma SplitMatches(s: string, name: string, rest: string)
    requires Splits(s, name, rest)
    ensures Matches(s) && NameIn(s) == name && Behind(s) == rest
  {
    ReferenceTail(name, rest);
    UpToParenOf(name, rest);
    var t := name + (")" + rest);
    assert s[2..] == t && t[..|name|] == name && t[|name| + 1..] == rest;
  }

  /** What the expression says. */
  lemma MatchesExactly(s: string)
    ensures Matches(s) <==> exists name, rest :: Splits(s, name, rest)
  {
    if Matches(s) {
      MatchSplits(s);
    }
    if name, rest :| Splits(s, name, rest) {
      SplitMatches(s, name, rest);
    }
  }

  lemma ReplaceMatch(s: string, name: string, rest: string, pfx: string)
    requires Splits(s, name, rest)
    ensures ReplaceAll(s, pfx) == Reference(pfx + name) + ReplaceAll(rest, pfx)
  {
    SplitMatches(s, name, rest);
  }

  lemma ReplaceSkip(s: string, c: char, rest: string, pfx: string)
    requires s == [c] + rest && !Matches(s)
    ensures ReplaceAll(s, pfx) == [c] + ReplaceAll(rest, pfx)
  {
    assert s[1..] == rest;
  }

  /** No match starts within the first `n` characters. */
  ghost predicate NoMatchBefore(s: string, n: nat) {
    n <= |s| && forall i :: 0 <= i < n ==> !Matches(s[i..])
  }

  lemma NoMatchBehind(s: string, n: nat)
    requires n > 0 && NoMatchBefore(s, n)
    ensures !Matches(s) && NoMatchBefore(s[1..], n - 1)
  {
    assert s[0..] == s;
    forall i | 0 <= i < n - 1
      ensures !Matches(s[1..][i..])
    {
      assert s[1..][i..] == s[i + 1..];
    }
  }

  /** What stands in front of the leftmost match is copied. */
  lemma {:induction false} GapIsCopied(s: string, n: nat, pfx: string)
    requires NoMatchBefore(s, n)
    ensures ReplaceAll(s, pfx) == s[..n] + ReplaceAll(s[n..], pfx)
    decreases n
  {
    if n == 0 {
      assert s[0..] == s;
    } else {
      NoMatchBehind(s, n);
      GapIsCopied(s[1..], n - 1, pfx);
      Regroup(s, n, ReplaceAll(s[n..], pfx));
    }
  }

  lemma Regroup(s: string, n: nat, after: string)
    requires 0 < n <= |s|
    ensures s[1..][n - 1..] == s[n..] && [s[0]] + (s[1..][..n - 1] + after) == s[..n] + after
  {
  }

  /** The leftmost match is replaced, and the search goes on behind it. */
  lemma LeftmostIsReplaced(s: string, n: nat, name: string, rest: string, pfx: string)
    requires NoMatchBefore(s, n) && Splits(s[n..], name, rest)
    ensures ReplaceAll(s, pfx) == s[..n] + (Reference(pfx + name) + ReplaceAll(rest, pfx))
  {
    GapIsCopied(s, n, pfx);
    ReplaceMatch(s[n..], name, rest, pfx);
  }

  /** Without a match nothing changes. */
  lemma NoMatchNoChange(s: string, pfx: string)
    requires NoMatchBefore(s, |s|)
    ensures ReplaceAll(s, pfx) == s
  {
    GapIsCopied(s, |s|, pfx);
    assert s[|s|..] == "" && s[..|s|] == s;
  }

  lemma {:induction false} NoPrefixNoReplacement(s: string)
    ensures ReplaceAll(s, "") == s
    decreases |s|
  {
    if s != "" {
      if Matches(s) {
        MatchSplits(s);
        NoPrefixNoReplacement(Behind(s));
        assert "" + NameIn(s) == NameIn(s);
      } else {
        NoPrefixNoReplacement(s[1..]);
      }
    }
  }

  // ---------- Lengths of names ----------

  /** Rewriting leaves the characters in front of the first special one alone. */
  lemma {:induction false} NameLenIsKept(s: string, pfx: string)
    ensures NameLen(Rewrite(s, pfx)) == NameLen(s)
    decreases |s|
  {
    if s != "" {
      FirstIsKept(s, pfx);
      if !IsSpecial(s[0]) {
        NameLenIsKept(s[1..], pfx);
        assert Rewrite(s, pfx)[1..] == Rewrite(s[1..], pfx);
      }
    }
  }

  lemma {:induction false} NameLenPrefixed(pfx: string, s: string)
    requires Clean(pfx)
    ensures NameLen(pfx + s) == |pfx| + NameLen(s)
    decreases |pfx|
  {
    if pfx == "" {
      assert pfx + s == s;
    } else {
      assert (pfx + s)[1..] == pfx[1..] + s;
      NameLenPrefixed(pfx[1..], s);
    }
  }

  /** What stands behind the first special character does not matter. */
  lemma {:induction false} NameLenLocal(s: string, x: string, y: string)
    ensures NameLen(s + (")" + x)) == NameLen(s + (")" + y))
    decreases |s|
  {
    if s == "" {
      assert s + (")" + x) == ")" + x && s + (")" + y) == ")" + y;
    } else {
      assert (s + (")" + x))[1..] == s[1..] + (")" + x) && (s + (")" + y))[1..] == s[1..] + (")" + y);
      NameLenLocal(s[1..], x, y);
    }
  }

  /** A prefix that is written in one text and not in the other makes them different. */
  lemma PrefixShows(pfx: string, name: string, x: string, y: string, other: string)
    requires Clean(pfx) && pfx != "" && NameLen(other) == NameLen(name + (")" + y))
    ensures pfx + (name + (")" + x)) != other
  {
    NameLenPrefixed(pfx, name + (")" + x));
    NameLenLocal(name, x, y);
  }

  // ---------- Where the two agree ----------

  /** Every match has a name without special characters, and its `$` is not escaped by another one. */
  predicate Plain(s: string)
    decreases |s|
  {
    if s == "" then true
    else if "$$" <= s then !Matches(s[1..]) && Plain(s[2..])
    else if Matches(s) then Clean(NameIn(s)) && Plain(Behind(s))
    else Plain(s[1..])
  }

  lemma SameBehind(head: string, a: string, b: string)
    ensures head + a == head + b <==> a == b
  {
    assert (head + a)[|head|..] == a && (head + b)[|head|..] == b;
  }

  lemma PrefixedText(pfx: string, name: string, x: string)
    ensures Reference(pfx + name) + x == "$(" + (pfx + (name + (")" + x)))
  {
  }

  lemma EscapedText(s: string, name: string, rest: string)
    requires s == "$" + (Reference(name) + rest)
    ensures s == "$$" + ("(" + (name + (")" + rest)))
  {
  }

  lemma RewriteParen(t: string, pfx: string)
    ensures Rewrite("(" + t, pfx) == "(" + Rewrite(t, pfx)
  {
    assert ("(" + t)[1..] == t;
  }

  /** An escaped reference is rewritten by the expression only. */
  lemma EscapedDiffers(s: string, name: string, rest: string, pfx: string)
    requires s == "$" + (Reference(name) + rest) && name != "" && ')' !in name && Clean(pfx) && pfx != ""
    ensures ReplaceAll(s, pfx) != Rewrite(s, pfx)
  {
    var t, x := name + (")" + rest), ReplaceAll(rest, pfx);
    EscapedText(s, name, rest);
    RewriteEscaped("(" + t, pfx);
    RewriteParen(t, pfx);
    NameLenIsKept(t, pfx);
    PrefixShows(pfx, name, x, rest, Rewrite(t, pfx));
    ReplaceSkip(s, '$', Reference(name) + rest, pfx);
    ReplaceMatch(Reference(name) + rest, name, rest, pfx);
    PrefixedText(pfx, name, x);
    ThreeBehind(pfx + (name + (")" + x)), Rewrite(t, pfx));
  }

  lemma ThreeBehind(a: string, b: string)
    requires a != b
    ensures "$" + ("$(" + a) != "$$" + ("(" + b)
  {
    SameBehind("$$(", a, b);
    assert "$" + ("$(" + a) == "$$(" + a && "$$" + ("(" + b) == "$$(" + b;
  }

  lemma NotClean(name: string, after: string)
    requires !Clean(name)
    ensures NameLen(name + after) < |name|
  {
    var i :| 0 <= i < |name| && IsSpecial(name[i]);
    assert (name + after)[i] == name[i];
  }

  /** An expression that breaks off is left alone. */
  lemma BrokenIsLeft(clean: string, rest: string, pfx: string)
    requires Clean(clean) && rest != "" && IsSpecial(rest[0]) && rest[0] != ')'
    ensures Rewrite("$(" + (clean + rest), pfx) == "$(" + (clean + Rewrite(rest, pfx))
    ensures NameLen(clean + Rewrite(rest, pfx)) == |clean|
  {
    OpenIsLeft(clean, rest, pfx);
    RewriteParen(clean + rest, pfx);
    CleanIsCopied(clean, rest, pfx);
    FirstIsKept(rest, pfx);
    NameLenOf(clean, Rewrite(rest, pfx));
    Paren("", clean + Rewrite(rest, pfx));
  }

  /** A name with a special character is a name for the expression only. */
  lemma SpecialDiffers(s: string, name: string, rest: string, pfx: string)
    requires Splits(s, name, rest) && !Clean(name) && Clean(pfx) && pfx != ""
    ensures ReplaceAll(s, pfx) != Rewrite(s, pfx)
  {
    var t, x := name + (")" + rest), ReplaceAll(rest, pfx);
    ReferenceTail(name, rest);
    assert s == "$(" + t;
    NotClean(name, ")" + rest);
    var clean, broken := t[..NameLen(t)], t[NameLen(t)..];
    assert t == clean + broken && broken[0] == name[NameLen(t)];
    BrokenIsLeft(clean, broken, pfx);
    var r := clean + Rewrite(broken, pfx);
    PrefixShows(pfx, name, x, rest, r);
    ReplaceMatch(s, name, rest, pfx);
    PrefixedText(pfx, name, x);
    SameBehind("$(", pfx + (name + (")" + x)), r);
  }

  /** A reference to both. */
  lemma BothReplace(s: string, name: string, rest: string, pfx: string)
    requires Splits(s, name, rest) && Clean(name)
    ensures ReplaceAll(s, pfx) == Rewrite(s, pfx) <==> ReplaceAll(rest, pfx) == Rewrite(rest, pfx)
  {
    ReplaceMatch(s, name, rest, pfx);
    RewriteReferenceText(name, rest, pfx);
    SameBehind(Reference(pfx + name), ReplaceAll(rest, pfx), Rewrite(rest, pfx));
  }

  lemma {:induction false} CleanIsCopied(name: string, rest: string, pfx: string)
    requires Clean(name)
    ensures Rewrite(name + rest, pfx) == name + Rewrite(rest, pfx)
    decreases |name|
  {
    if name == "" {
      assert name + rest == rest;
    } else {
      assert (name + rest)[1..] == name[1..] + rest;
      CleanIsCopied(name[1..], rest, pfx);
    }
  }

  lemma ReferenceText(name: string, rest: string)
    ensures "$(" + (name + (")" + rest)) == Reference(name) + rest
  {
  }

  /** A reference of the automaton is a match. */
  lemma ClosedMatches(clean: string, rest: string)
    requires Clean(clean) && clean != "" && rest != "" && rest[0] == ')'
    ensures Matches("$(" + (clean + rest))
  {
    assert rest == ")" + rest[1..];
    ReferenceText(clean, rest[1..]);
    SplitMatches("$(" + (clean + rest), clean, rest[1..]);
  }

  lemma OpenIsLeft(clean: string, rest: string, pfx: string)
    requires Clean(clean) && (rest == "" || IsSpecial(rest[0])) && (clean == "" || rest == "" || rest[0] != ')')
    ensures Rewrite("$(" + (clean + rest), pfx) == "$" + Rewrite("(" + (clean + rest), pfx)
  {
    assert "$(" + (clean + rest) == "$(" + clean + rest;
    RewriteNoReference(clean, rest, pfx);
    CleanIsCopied(clean, rest, pfx);
    RewriteParen(clean + rest, pfx);
    Paren(clean, Rewrite(rest, pfx));
  }

  lemma Paren(a: string, b: string)
    ensures "$(" + a + b == "$" + ("(" + (a + b))
  {
  }

  lemma OpenIsSkipped(t: string, pfx: string)
    requires !Matches("$(" + t)
    ensures Rewrite("$(" + t, pfx) == "$" + Rewrite("(" + t, pfx)
  {
    var clean, rest := t[..NameLen(t)], t[NameLen(t)..];
    assert t == clean + rest;
    if clean == "" || rest == "" || rest[0] != ')' {
      OpenIsLeft(clean, rest, pfx);
    } else {
      ClosedMatches(clean, rest);
      assert false;
    }
  }

  /** Where nothing starts both go on by a character. */
  lemma BothSkip(s: string, pfx: string)
    requires s != "" && !Matches(s) && !("$$" <= s)
    ensures ReplaceAll(s, pfx) == Rewrite(s, pfx) <==> ReplaceAll(s[1..], pfx) == Rewrite(s[1..], pfx)
  {
    if "$(" <= s {
      assert s == "$(" + s[2..] && s[1..] == "(" + s[2..];
      OpenIsSkipped(s[2..], pfx);
    }
    SameBehind([s[0]], ReplaceAll(s[1..], pfx), Rewrite(s[1..], pfx));
  }

  lemma ReplaceTwo(rest: string, pfx: string)
    requires !Matches("$" + rest)
    ensures ReplaceAll("$$" + rest, pfx) == "$$" + ReplaceAll(rest, pfx)
  {
    var r := ReplaceAll(rest, pfx);
    ReplaceSkip("$" + rest, '$', rest, pfx);
    assert "$$" + rest == "$" + ("$" + rest) && "$" + ("$" + r) == "$$" + r;
    assert ("$$" + rest)[1] == '$' && !("$(" <= "$$" + rest);
    ReplaceSkip("$$" + rest, '$', "$" + rest, pfx);
  }

  /** Behind an escaped `$` that starts no match both are at the same place again. */
  lemma BothSkipTwo(rest: string, pfx: string)
    requires !Matches("$" + rest)
    ensures ReplaceAll("$$" + rest, pfx) == Rewrite("$$" + rest, pfx) <==> ReplaceAll(rest, pfx) == Rewrite(rest, pfx)
  {
    ReplaceTwo(rest, pfx);
    RewriteEscaped(rest, pfx);
    SameBehind("$$", ReplaceAll(rest, pfx), Rewrite(rest, pfx));
  }

  /** The expression and the automaton make the same of a text, for a prefix that has no special characters, if
      and only if the text is plain, or the prefix empty. */
  lemma {:induction false} AgreeExactly(s: string, pfx: string)
    requires Clean(pfx)
    ensures ReplaceAll(s, pfx) == Rewrite(s, pfx) <==> pfx == "" || Plain(s)
    decreases |s|
  {
    if pfx == "" {
      NoPrefixNoReplacement(s);
      NoPrefixNoChange(s);
    } else if s != "" {
      AgreeFirst(s, pfx);
      AgreeExactly(Next(s), pfx);
    }
  }

  /** Does the text fail to be plain at its very start? */
  predicate Odd(s: string) {
    if "$$" <= s then Matches(s[1..]) else Matches(s) && !Clean(NameIn(s))
  }

  /** Where `Plain` goes on. */
  function Next(s: string): (t: string)
    requires s != ""
    ensures |t| < |s|
    ensures Plain(s) <==> !Odd(s) && Plain(t)
  {
    if "$$" <= s then s[2..] else if Matches(s) then Behind(s) else s[1..]
  }

  lemma AgreeFirst(s: string, pfx: string)
    requires s != "" && Clean(pfx) && pfx != ""
    ensures ReplaceAll(s, pfx) == Rewrite(s, pfx) <==>
              !Odd(s) && ReplaceAll(Next(s), pfx) == Rewrite(Next(s), pfx)
  {
    if "$$" <= s {
      if Odd(s) {
        MatchSplits(s[1..]);
        EscapedDiffers(s, NameIn(s[1..]), Behind(s[1..]), pfx);
      } else {
        assert s == "$$" + s[2..] && s[1..] == "$" + s[2..];
        BothSkipTwo(s[2..], pfx);
      }
    } else if Matches(s) {
      MatchSplits(s);
      if Odd(s) {
        SpecialDiffers(s, NameIn(s), Behind(s), pfx);
      } else {
        BothReplace(s, NameIn(s), Behind(s), pfx);
      }
    } else {
      BothSkip(s, pfx);
    }
  }

  /** An escaped reference stands for itself, and the expression rewrites it all the same. */
  lemma EscapedIsRewritten(name: string, pfx: string)
    requires Clean(name) && name != ""
    ensures Rewrite("$" + Reference(name), pfx) == "$" + Reference(name)
    ensures ReplaceAll("$" + Reference(name), pfx) == "$" + Reference(pfx + name)
  {
    var s := "$" + (Reference(name) + "");
    assert s == "$" + Reference(name);
    assert ")" + "" == ")";
    EscapedText(s, name, "");
    EscapedStays(name, pfx);
    ReplaceSkip(s, '$', Reference(name) + "", pfx);
    ReplaceMatch(Reference(name) + "", name, "", pfx);
  }

  lemma EscapedStays(name: string, pfx: string)
    requires Clean(name)
    ensures var s := "$$" + ("(" + (name + ")")); Rewrite(s, pfx) == s
  {
    RewriteEscaped("(" + (name + ")"), pfx);
    RewriteParen(name + ")", pfx);
    CleanIsCopied(name, ")", pfx);
    assert Rewrite(")", pfx) == ")";
  }
}
