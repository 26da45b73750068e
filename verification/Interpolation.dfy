/** prefixInterpolated of pkg/agentconfig: it prefixes the names in `$(NAME)` expressions. The automaton of
    the source is proved to agree with a grammar that is read with look-ahead. */
module Interpolation {

  predicate IsSpecial(c: char) {
    c == '$' || c == '(' || c == ')'
  }

  predicate Clean(s: string) {
    forall i :: 0 <= i < |s| ==> !IsSpecial(s[i])
  }

  /** How many characters of `s` can belong to a name. */
  function NameLen(s: string): (n: nat)
    ensures n <= |s| && Clean(s[..n]) && (n < |s| ==> IsSpecial(s[n]))
  {
    if s == "" || IsSpecial(s[0]) then 0
    else
      var n := NameLen(s[1..]);
      assert s[..n + 1] == [s[0]] + s[1..][..n];
      n + 1
  }

  /** The grammar: `$$` stands for itself, `$(NAME)` with a non-empty NAME gets the prefix, and everything
      else, in particular an unbalanced `$(`, is left alone. */
  function Rewrite(s: string, pfx: string): string
    decreases |s|
  {
    if s == "" then ""
    else if s[0] != '$' || |s| == 1 then [s[0]] + Rewrite(s[1..], pfx)
    else if s[1] == '$' then "$$" + Rewrite(s[2..], pfx)
    else if s[1] == '(' then
      var n := NameLen(s[2..]);
      var name, rest := s[2..][..n], s[2..][n..];
      if n > 0 && rest != "" && rest[0] == ')' then "$(" + pfx + name + ")" + Rewrite(rest[1..], pfx)
      else "$(" + name + Rewrite(rest, pfx)
    else "$" + Rewrite(s[1..], pfx)
  }

  // ---------- Reading the grammar forwards ----------

  lemma {:induction false} NameLenOf(name: string, rest: string)
    requires Clean(name) && (rest == "" || IsSpecial(rest[0]))
    ensures NameLen(name + rest) == |name|
    decreases |name|
  {
    if name == "" {
      assert name + rest == rest;
    } else {
      assert (name + rest)[1..] == name[1..] + rest;
      NameLenOf(name[1..], rest);
    }
  }

  lemma RewriteEscaped(rest: string, pfx: string)
    ensures Rewrite("$$" + rest, pfx) == "$$" + Rewrite(rest, pfx)
  {
    assert ("$$" + rest)[2..] == rest;
  }

  lemma RewriteDollar(rest: string, pfx: string)
    requires rest == "" || (rest[0] != '$' && rest[0] != '(')
    ensures Rewrite("$" + rest, pfx) == "$" + Rewrite(rest, pfx)
  {
    assert ("$" + rest)[1..] == rest;
  }

  /** A reference is rewritten. */
  lemma RewriteReference(name: string, rest: string, pfx: string)
    requires Clean(name) && name != ""
    ensures Rewrite("$(" + name + ")" + rest, pfx) == "$(" + pfx + name + ")" + Rewrite(rest, pfx)
  {
    var s, after := "$(" + name + ")" + rest, ")" + rest;
    NameLenOf(name, after);
    assert s[2..] == name + after;
    assert (name + after)[..|name|] == name && (name + after)[|name|..] == after;
    assert after[1..] == rest;
  }

  /** What is not a reference is not. */
  lemma RewriteNoReference(name: string, rest: string, pfx: string)
    requires Clean(name) && (rest == "" || IsSpecial(rest[0]))
    requires name == "" || rest == "" || rest[0] != ')'
    ensures Rewrite("$(" + name + rest, pfx) == "$(" + name + Rewrite(rest, pfx)
  {
    var s := "$(" + name + rest;
    NameLenOf(name, rest);
    assert s[2..] == name + rest;
    assert s[2..][..|name|] == name && s[2..][|name|..] == rest;
  }

  // ---------- The automaton ----------

  datatype Seen = Normal | DollarSeen | DollarParenSeen

  /** What the final result is, given what was written, what is buffered and what is still to be read. */
  ghost function Result(st: Seen, bd: string, ev: string, rest: string, pfx: string): string {
    match st
    case Normal => bd + Rewrite(rest, pfx)
    case DollarSeen => (if bd == "" then "" else bd[..|bd| - 1]) + Rewrite("$" + rest, pfx)
    case DollarParenSeen => (if |bd| < 2 then "" else bd[..|bd| - 2]) + Rewrite("$(" + ev + rest, pfx)
  }

  ghost predicate Consistent(st: Seen, bd: string, ev: string) {
    && Clean(ev)
    && (st.Normal? ==> ev == "")
    && (st.DollarSeen? ==> ev == "" && bd != "" && bd[|bd| - 1] == '$')
    && (st.DollarParenSeen? ==> |bd| >= 2 && bd[|bd| - 2..] == "$(")
  }

  /** One character. */
  function Next(st: Seen, bd: string, ev: string, c: char, pfx: string): (Seen, string, string) {
    if c == '$' then
      match st
      case DollarParenSeen => (DollarSeen, bd + ev + "$", "")
      case DollarSeen => (Normal, bd + "$", ev)
      case Normal => (DollarSeen, bd + "$", ev)
    else if c == '(' then
      match st
      case DollarParenSeen => (Normal, bd + ev + "(", "")
      case DollarSeen => (DollarParenSeen, bd + "(", ev)
      case Normal => (Normal, bd + "(", ev)
    else if c == ')' then
      if st.DollarParenSeen? && ev != "" then (Normal, bd + pfx + ev + ")", "") else (Normal, bd + ")", ev)
    else if st.DollarParenSeen? then (st, bd, ev + [c])
    else (Normal, bd + [c], ev)
  }

  ghost predicate Agrees(st: Seen, bd: string, ev: string, c: char, rest: string, pfx: string) {
    var (st', bd', ev') := Next(st, bd, ev, c, pfx);
    Consistent(st', bd', ev') && Result(st', bd', ev', rest, pfx) == Result(st, bd, ev, [c] + rest, pfx)
  }

  lemma ReferenceCloses(bd: string, ev: string, rest: string, pfx: string)
    requires Consistent(DollarParenSeen, bd, ev) && ev != ""
    ensures Agrees(DollarParenSeen, bd, ev, ')', rest, pfx)
  {
    var before := bd[..|bd| - 2];
    assert bd == before + "$(";
    assert "$(" + ev + ([')'] + rest) == "$(" + ev + ")" + rest;
    RewriteReference(ev, rest, pfx);
    assert before + ("$(" + pfx + ev + ")" + Rewrite(rest, pfx)) == bd + pfx + ev + ")" + Rewrite(rest, pfx);
  }

  lemma Regroup(a: string, b: string, c: string, d: string)
    ensures a + (b + c + d) == a + b + c + d
  {
  }

  lemma UnclosedReference(bd: string, ev: string, rest: string, pfx: string)
    requires Consistent(DollarParenSeen, bd, ev) && rest != "" && IsSpecial(rest[0])
    requires rest[0] != ')' || ev == ""
    ensures Result(DollarParenSeen, bd, ev, rest, pfx) == bd + ev + Rewrite(rest, pfx)
  {
    RewriteNoReference(ev, rest, pfx);
    Regroup(bd[..|bd| - 2], "$(", ev, Rewrite(rest, pfx));
    assert bd == bd[..|bd| - 2] + "$(";
  }

  lemma ReferenceBreaksOff(bd: string, ev: string, c: char, rest: string, pfx: string)
    requires Consistent(DollarParenSeen, bd, ev)
    requires c == '$' || c == '(' || (c == ')' && ev == "")
    ensures Agrees(DollarParenSeen, bd, ev, c, rest, pfx)
  {
    UnclosedReference(bd, ev, [c] + rest, pfx);
    var written := bd + ev;
    if c == '$' {
      assert written + "$" == bd + ev + "$" && (written + "$")[..|written|] == written;
    } else {
      assert written + ([c] + Rewrite(rest, pfx)) == written + [c] + Rewrite(rest, pfx);
      assert c == ')' ==> written == bd;
    }
  }

  lemma NextInParen(bd: string, ev: string, c: char, rest: string, pfx: string)
    requires Consistent(DollarParenSeen, bd, ev)
    ensures Agrees(DollarParenSeen, bd, ev, c, rest, pfx)
  {
    if c == ')' && ev != "" {
      ReferenceCloses(bd, ev, rest, pfx);
    } else if IsSpecial(c) {
      ReferenceBreaksOff(bd, ev, c, rest, pfx);
    } else {
      assert "$(" + ev + ([c] + rest) == "$(" + (ev + [c]) + rest;
    }
  }

  lemma NextAfterDollar(bd: string, c: char, rest: string, pfx: string)
    requires Consistent(DollarSeen, bd, "")
    ensures Agrees(DollarSeen, bd, "", c, rest, pfx)
  {
    if c == '$' {
      DollarAfterDollar(bd, rest, pfx);
    } else if c == '(' {
      ParenAfterDollar(bd, rest, pfx);
    } else {
      OtherAfterDollar(bd, c, rest, pfx);
    }
  }

  lemma ParenAfterDollar(bd: string, rest: string, pfx: string)
    requires Consistent(DollarSeen, bd, "")
    ensures Agrees(DollarSeen, bd, "", '(', rest, pfx)
  {
    DollarParen(bd, rest);
  }

  lemma DollarParen(bd: string, rest: string)
    requires bd != "" && bd[|bd| - 1] == '$'
    ensures "$" + (['('] + rest) == "$(" + "" + rest
    ensures (bd + "(")[..|bd| - 1] == bd[..|bd| - 1] && (bd + "(")[|bd| - 1..] == "$("
  {
  }

  lemma DollarAfterDollar(bd: string, rest: string, pfx: string)
    requires Consistent(DollarSeen, bd, "")
    ensures Agrees(DollarSeen, bd, "", '$', rest, pfx)
  {
    RewriteEscaped(rest, pfx);
    DollarDollar(bd, rest, Rewrite(rest, pfx));
  }

  lemma DollarDollar(bd: string, rest: string, t: string)
    requires bd != "" && bd[|bd| - 1] == '$'
    ensures "$" + (['$'] + rest) == "$$" + rest && bd[..|bd| - 1] + ("$$" + t) == bd + "$" + t
  {
    assert bd == bd[..|bd| - 1] + "$";
  }

  lemma OtherAfterDollar(bd: string, c: char, rest: string, pfx: string)
    requires Consistent(DollarSeen, bd, "") && c != '$' && c != '('
    ensures Agrees(DollarSeen, bd, "", c, rest, pfx)
  {
    assert bd == bd[..|bd| - 1] + "$";
    RewriteDollar([c] + rest, pfx);
    var t := Rewrite(rest, pfx);
    assert "$" + ([c] + t) == "$" + [c] + t;
    Regroup(bd[..|bd| - 1], "$", [c], t);
  }

  /** One round of the automaton does not change the result. */
  lemma NextAgrees(st: Seen, bd: string, ev: string, c: char, rest: string, pfx: string)
    requires Consistent(st, bd, ev)
    ensures Agrees(st, bd, ev, c, rest, pfx)
  {
    match st
    case Normal =>
    case DollarSeen => NextAfterDollar(bd, c, rest, pfx);
    case DollarParenSeen => NextInParen(bd, ev, c, rest, pfx);
  }

  /** `prefixInterpolated`. */
  method PrefixInterpolated(str: string, pfx: string) returns (r: string)
    ensures r == Rewrite(str, pfx)
  {
    var st, bd, ev := Normal, "", "";
    AtStart(str, pfx);
    assert str[0..] == str;
    for i := 0 to |str|
      invariant Consistent(st, bd, ev)
      invariant Result(st, bd, ev, str[i..], pfx) == Rewrite(str, pfx)
    {
      assert str[i..] == [str[i]] + str[i + 1..];
      NextAgrees(st, bd, ev, str[i], str[i + 1..], pfx);
      var next := Next(st, bd, ev, str[i], pfx);
      st, bd, ev := next.0, next.1, next.2;
    }
    AtEnd(st, bd, ev, pfx);
    assert str[|str|..] == "";
    r := bd + ev;
  }

  lemma AtStart(str: string, pfx: string)
    ensures Result(Normal, "", "", str, pfx) == Rewrite(str, pfx)
  {
  }

  lemma AtEnd(st: Seen, bd: string, ev: string, pfx: string)
    requires Consistent(st, bd, ev)
    ensures Result(st, bd, ev, "", pfx) == bd + ev
  {
    match st
    case Normal =>
    case DollarSeen => AtEndAfterDollar(bd, pfx);
    case DollarParenSeen => AtEndInParen(bd, ev, pfx);
  }

  lemma AtEndAfterDollar(bd: string, pfx: string)
    requires Consistent(DollarSeen, bd, "")
    ensures Result(DollarSeen, bd, "", "", pfx) == bd + ""
  {
    RewriteDollar("", pfx);
    assert bd[..|bd| - 1] + "$" == bd && "$" + "" == "$";
  }

  lemma AtEndInParen(bd: string, ev: string, pfx: string)
    requires Consistent(DollarParenSeen, bd, ev)
    ensures Result(DollarParenSeen, bd, ev, "", pfx) == bd + ev
  {
    RewriteNoReference(ev, "", pfx);
    ParenAndRest(bd, ev);
  }

  lemma ParenAndRest(bd: string, ev: string)
    requires |bd| >= 2 && bd[|bd| - 2..] == "$("
    ensures bd[..|bd| - 2] + ("$(" + ev + "") == bd + ev
  {
    assert bd == bd[..|bd| - 2] + "$(";
  }

  // ---------- Laws ----------

  /** The different ways in which a text can start. */
  lemma Cases(s: string) returns (name: string, rest: string)
    requires s != ""
    ensures |rest| < |s| && Clean(name)
    ensures
      || (s[0] != '$' && s == [s[0]] + rest)
      || s == "$$" + rest
      || (s == "$" + rest && (rest == "" || (rest[0] != '$' && rest[0] != '(')))
      || (s == "$(" + name + ")" + rest && name != "")
      || (s == "$(" + name + rest && (rest == "" || IsSpecial(rest[0])) && (name == "" || rest == "" || rest[0] != ')'))
  {
    name := "";
    if s[0] != '$' || |s| == 1 || (s[1] != '$' && s[1] != '(') {
      rest := s[1..];
    } else if s[1] == '$' {
      rest := s[2..];
    } else {
      var n := NameLen(s[2..]);
      name, rest := s[2..][..n], s[2..][n..];
      assert s == "$(" + name + rest;
      if n > 0 && rest != "" && rest[0] == ')' {
        rest := rest[1..];
        assert s == "$(" + name + ")" + rest;
      }
    }
  }

  /** Rewriting keeps the first character: what can follow a `$` keeps its role. */
  lemma FirstIsKept(s: string, pfx: string)
    requires s != ""
    ensures Rewrite(s, pfx) != "" && Rewrite(s, pfx)[0] == s[0]
  {
  }

  /** Without a prefix nothing changes. */
  lemma {:induction false} NoPrefixNoChange(s: string)
    ensures Rewrite(s, "") == s
    decreases |s|
  {
    if s != "" {
      var name, rest := Cases(s);
      NoPrefixNoChange(rest);
      if s[0] != '$' {
      } else if s == "$$" + rest {
        RewriteEscaped(rest, "");
      } else if s == "$" + rest && (rest == "" || (rest[0] != '$' && rest[0] != '(')) {
        RewriteDollar(rest, "");
      } else if s == "$(" + name + ")" + rest && name != "" {
        RewriteReference(name, rest, "");
        assert "$(" + "" + name + ")" == "$(" + name + ")";
      } else {
        RewriteNoReference(name, rest, "");
      }
    }
  }

  lemma ComposeEscaped(rest: string, p: string, q: string)
    requires Rewrite(Rewrite(rest, p), q) == Rewrite(rest, q + p)
    ensures Rewrite(Rewrite("$$" + rest, p), q) == Rewrite("$$" + rest, q + p)
  {
    RewriteEscaped(rest, p);
    RewriteEscaped(Rewrite(rest, p), q);
    RewriteEscaped(rest, q + p);
  }

  lemma ComposeDollar(rest: string, p: string, q: string)
    requires rest == "" || (rest[0] != '$' && rest[0] != '(')
    requires Rewrite(Rewrite(rest, p), q) == Rewrite(rest, q + p)
    ensures Rewrite(Rewrite("$" + rest, p), q) == Rewrite("$" + rest, q + p)
  {
    if rest != "" {
      FirstIsKept(rest, p);
    }
    RewriteDollar(rest, p);
    RewriteDollar(Rewrite(rest, p), q);
    RewriteDollar(rest, q + p);
  }

  /** The text of a reference. */
  function Reference(name: string): string {
    "$(" + name + ")"
  }

  lemma RewriteReferenceText(name: string, rest: string, pfx: string)
    requires Clean(name) && name != ""
    ensures Rewrite(Reference(name) + rest, pfx) == Reference(pfx + name) + Rewrite(rest, pfx)
  {
    RewriteReference(name, rest, pfx);
    assert "$(" + (pfx + name) == "$(" + pfx + name;
  }

  lemma ReferenceTwice(name: string, rest: string, p: string, q: string)
    requires Clean(name) && name != "" && Clean(p)
    ensures Rewrite(Rewrite(Reference(name) + rest, p), q) == Reference((q + p) + name) + Rewrite(Rewrite(rest, p), q)
  {
    RewriteReferenceText(name, rest, p);
    RewriteReferenceText(p + name, Rewrite(rest, p), q);
    assert q + (p + name) == (q + p) + name;
  }

  lemma ComposeReference(name: string, rest: string, p: string, q: string)
    requires Clean(name) && name != "" && Clean(p)
    requires Rewrite(Rewrite(rest, p), q) == Rewrite(rest, q + p)
    ensures Rewrite(Rewrite(Reference(name) + rest, p), q) == Rewrite(Reference(name) + rest, q + p)
  {
    ReferenceTwice(name, rest, p, q);
    RewriteReferenceText(name, rest, q + p);
  }

  lemma ComposeNoReference(name: string, rest: string, p: string, q: string)
    requires Clean(name) && (rest == "" || IsSpecial(rest[0]))
    requires name == "" || rest == "" || rest[0] != ')'
    requires Rewrite(Rewrite(rest, p), q) == Rewrite(rest, q + p)
    ensures Rewrite(Rewrite("$(" + name + rest, p), q) == Rewrite("$(" + name + rest, q + p)
  {
    if rest != "" {
      FirstIsKept(rest, p);
    }
    RewriteNoReference(name, rest, p);
    RewriteNoReference(name, Rewrite(rest, p), q);
    RewriteNoReference(name, rest, q + p);
  }

  /** Prefixing twice is prefixing once with both: the names, and nothing else, are prefixed, and the result
      is still a text with the same references. */
  lemma {:induction false} PrefixesCompose(s: string, p: string, q: string)
    requires Clean(p)
    ensures Rewrite(Rewrite(s, p), q) == Rewrite(s, q + p)
    decreases |s|
  {
    if s != "" {
      var name, rest := Cases(s);
      PrefixesCompose(rest, p, q);
      if s[0] != '$' {
      } else if s == "$$" + rest {
        ComposeEscaped(rest, p, q);
      } else if s == "$" + rest && (rest == "" || (rest[0] != '$' && rest[0] != '(')) {
        ComposeDollar(rest, p, q);
      } else if s == "$(" + name + ")" + rest && name != "" {
        ComposeReference(name, rest, p, q);
      } else {
        ComposeNoReference(name, rest, p, q);
      }
    }
  }
}
