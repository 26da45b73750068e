/** What a shell makes of an argument that was quoted: nothing in it is expanded, split or interpreted. */
module ShellInert {
  import opened ShellQuote

  /** The characters that mean something to a shell when they are not quoted, by section 2.2 of the POSIX shell
      command language, and the braces and brackets that shells expand. */
  predicate IsActive(c: char) {
    c in "|&;<>()$`\\\"' \t\r\n*?[]#~{}"
  }

  /** How many characters there are before the first single quote. */
  function UpToQuote(s: string): (n: nat)
    ensures n <= |s|
  {
    if s == "" || s[0] == '\'' then 0 else UpToQuote(s[1..]) + 1
  }

  /** The text consists of escaped single quotes, of texts in single quotes, and of characters that mean
      nothing. */
  predicate Inert(s: string)
    decreases |s|
  {
    if s == "" then true
    else if "\\'" <= s then Inert(s[2..])
    else if s[0] == '\'' then UpToQuote(s[1..]) < |s[1..]| && Inert(s[1..][UpToQuote(s[1..]) + 1..])
    else !IsActive(s[0]) && Inert(s[1..])
  }

  lemma {:induction false} UpToQuoteOf(a: string, t: string)
    requires !HasQuote(a)
    ensures UpToQuote(a + ("'" + t)) == |a|
    decreases |a|
  {
    if a == "" {
      assert a + ("'" + t) == "'" + t;
    } else {
      assert (a + ("'" + t))[1..] == a[1..] + ("'" + t);
      UpToQuoteOf(a[1..], t);
    }
  }

  lemma {:induction false} SafeThen(a: string, t: string)
    requires AllSafe(a) && Inert(t)
    ensures Inert(a + t)
    decreases |a|
  {
    if a == "" {
      assert a + t == t;
    } else {
      assert IsSafe(a[0]) && (a + t)[0] == a[0] && (a + t)[1..] == a[1..] + t;
      SafeThen(a[1..], t);
    }
  }

  lemma QuotedThen(a: string, t: string)
    requires !HasQuote(a) && Inert(t)
    ensures Inert("'" + a + "'" + t)
  {
    var s := "'" + a + "'" + t;
    var rest := a + ("'" + t);
    assert s[0] == '\'' && s[1..] == rest;
    UpToQuoteOf(a, t);
    assert rest[|a| + 1..] == t;
  }

  lemma EscapedThen(t: string)
    requires Inert(t)
    ensures Inert("\\'" + t)
  {
    assert ("\\'" + t)[2..] == t;
  }

  lemma PlainThen(s: string, t: string)
    requires !HasQuote(s) && Inert(t)
    ensures Inert(QuotePlain(s) + t)
  {
    if s != "" && AllSafe(s) {
      SafeThen(s, t);
    } else {
      QuotedThen(s, t);
      assert QuotePlain(s) == "'" + s + "'";
    }
  }

  lemma NonEmptyThen(s: string, t: string)
    requires !HasQuote(s) && Inert(t)
    ensures Inert(QuoteNonEmpty(s) + t)
  {
    if s == "" {
      assert "" + t == t;
    } else {
      PlainThen(s, t);
    }
  }

  lemma {:induction false} PiecesAreInert(run: string, s: string)
    requires !HasQuote(run)
    ensures Inert(QuotePieces(run, s))
    decreases |s|
  {
    if s == "" {
      NonEmptyThen(run, "");
      assert QuoteNonEmpty(run) + "" == QuoteNonEmpty(run);
    } else if s[0] == '\'' {
      var rest := QuotePieces("", s[1..]);
      PiecesAreInert("", s[1..]);
      EscapedThen(rest);
      NonEmptyThen(run, "\\'" + rest);
      assert QuoteNonEmpty(run) + "\\'" + rest == QuoteNonEmpty(run) + ("\\'" + rest);
    } else {
      PiecesAreInert(run + [s[0]], s[1..]);
    }
  }

  /** For all arguments. */
  lemma QuotedIsInert(arg: string)
    ensures Inert(Quoted(arg))
  {
    if HasQuote(arg) {
      PiecesAreInert("", arg);
    } else {
      PlainThen(arg, "");
      assert QuotePlain(arg) + "" == QuotePlain(arg);
    }
  }
}
