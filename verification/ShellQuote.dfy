/** pkg/shellquote for Unix shells. `Split` is proved to refine a one-character-at-a-time lexer, and
    that lexer is proved to undo `ShellArgsString`. Text is a sequence of Unicode scalar values, so
    positions count runes where the source counts bytes of valid UTF-8. */
module ShellQuote {

  // ---------- Quoting ----------

  predicate IsWordChar(c: char) {
    '0' <= c <= '9' || 'A' <= c <= 'Z' || 'a' <= c <= 'z' || c == '_'
  }

  /** The complement of the UnixEscape character class. */
  predicate IsSafe(c: char) {
    IsWordChar(c) || c == '!' || c == '%' || c == '+' || c == ',' || c == '-' || c == '.'
    || c == '/' || c == ':' || c == '=' || c == '@' || c == '^'
  }

  predicate AllSafe(s: string) {
    forall i :: 0 <= i < |s| ==> IsSafe(s[i])
  }

  predicate HasQuote(s: string) {
    '\'' in s
  }

  /** `strings.IndexByte(s, '\'')`. */
  method IndexQuote(s: string) returns (p: int)
    ensures HasQuote(s) ==> 0 <= p < |s| && s[p] == '\'' && !HasQuote(s[..p])
    ensures !HasQuote(s) ==> p == -1
  {
    for i := 0 to |s|
      invariant !HasQuote(s[..i])
    {
      if s[i] == '\'' {
        return i;
      }
    }
    return -1;
  }

  /** Quote text that holds no single quote. */
  function QuotePlain(s: string): string {
    if s == "" then "''" else if AllSafe(s) then s else "'" + s + "'"
  }

  function QuoteNonEmpty(s: string): string {
    if s == "" then "" else QuotePlain(s)
  }

  /** Quote `run + s`, where `run` is the text read since the last single quote: each single quote is
      backslash-escaped and the non-empty pieces between them are quoted separately. */
  function QuotePieces(run: string, s: string): string
    decreases |s|
  {
    if s == "" then QuoteNonEmpty(run)
    else if s[0] == '\'' then QuoteNonEmpty(run) + "\\'" + QuotePieces("", s[1..])
    else QuotePieces(run + [s[0]], s[1..])
  }

  lemma {:induction false} PieceGrows(run: string, s: string, t: string)
    requires !HasQuote(s)
    ensures QuotePieces(run, s + t) == QuotePieces(run + s, t)
    decreases |s|
  {
    if s == "" {
      assert s + t == t && run + s == run;
    } else {
      assert (s + t)[1..] == s[1..] + t && (s + t)[0] == s[0] != '\'';
      PieceGrows(run + [s[0]], s[1..], t);
      assert run + [s[0]] + s[1..] == run + s;
    }
  }

  /** The pieces of a text are its first piece, an escaped quote, and the pieces of the rest. */
  lemma FirstPiece(b: string, s: string, q: nat)
    requires q < |s| && s[q] == '\'' && !HasQuote(s[..q])
    ensures b + QuotePieces("", s) == b + QuoteNonEmpty(s[..q]) + "\\'" + QuotePieces("", s[q + 1..])
  {
    PieceGrows("", s[..q], s[q..]);
    assert s == s[..q] + s[q..] && "" + s[..q] == s[..q];
    assert s[q..][1..] == s[q + 1..];
    Regroup(b, QuoteNonEmpty(s[..q]), "\\'", QuotePieces("", s[q + 1..]));
  }

  lemma Regroup(a: string, b: string, c: string, d: string)
    ensures a + (b + c + d) == a + b + c + d
  {
  }

  lemma OnlyPiece(s: string)
    requires !HasQuote(s)
    ensures QuotePieces("", s) == QuoteNonEmpty(s)
  {
    PieceGrows("", s, "");
    assert s + "" == s && "" + s == s;
  }

  function Quoted(arg: string): string {
    if HasQuote(arg) then QuotePieces("", arg) else QuotePlain(arg)
  }

  /** `Unix`. */
  method Unix(arg: string) returns (b: string)
    ensures b == Quoted(arg)
    decreases HasQuote(arg), 1
  {
    if arg == "" {
      return "''";
    }
    if AllSafe(arg) {
      return arg;
    }
    var qp := IndexQuote(arg);
    if qp < 0 {
      b := "'" + arg + "'";
    } else {
      b := UnixPieces(arg, qp);
    }
  }

  /** The loop of `Unix` over an argument whose first single quote is at `first`. */
  method UnixPieces(arg: string, first: nat) returns (b: string)
    requires first < |arg| && arg[first] == '\'' && !HasQuote(arg[..first])
    ensures b == QuotePieces("", arg)
    decreases true, 0
  {
    b := "";
    var rest, qp := arg, first;
    while true
      invariant 0 <= qp < |rest| && rest[qp] == '\'' && !HasQuote(rest[..qp])
      invariant b + QuotePieces("", rest) == QuotePieces("", arg)
      decreases |rest|
    {
      b := WritePiece(b, rest, qp);
      qp := qp + 1;
      if qp >= |rest| {
        assert b + QuotePieces("", "") == b;
        return;
      }
      rest := rest[qp..];
      var next := IndexQuote(rest);
      if next < 0 {
        OnlyPiece(rest);
        var q := Unix(rest);
        b := b + q;
        return;
      }
      qp := next;
    }
  }

  /** Write the quoted text up to `qp`, if there is any, and then the escaped quote. */
  method WritePiece(b: string, rest: string, qp: nat) returns (r: string)
    requires qp < |rest| && rest[qp] == '\'' && !HasQuote(rest[..qp])
    ensures r + QuotePieces("", rest[qp + 1..]) == b + QuotePieces("", rest)
    decreases false, 2
  {
    FirstPiece(b, rest, qp);
    r := b;
    if qp > 0 {
      var q := Unix(rest[..qp]);
      r := r + q;
    }
    r := r + "\\'";
  }

  function Joined(args: seq<string>): string {
    if args == [] then ""
    else if |args| == 1 then Quoted(args[0])
    else Joined(args[..|args| - 1]) + " " + Quoted(args[|args| - 1])
  }

  /** `ShellArgsString`. */
  method ShellArgsString(args: seq<string>) returns (b: string)
    ensures b == Joined(args)
  {
    b := "";
    for i := 0 to |args|
      invariant b == Joined(args[..i])
    {
      if i > 0 {
        b := b + " ";
      }
      var q := Unix(args[i]);
      b := b + q;
      assert args[..i + 1][..i] == args[..i];
    }
    assert args[..|args|] == args;
  }

  // ---------- The reference lexer ----------

  datatype Mode = Gap | Bare | BareEscape | Single | Double | DoubleEscape

  /** The finished words, the word being read, and where in the grammar the lexer is. */
  datatype Lexer = Lexer(words: seq<string>, word: string, mode: Mode)

  datatype SplitResult = Ok(words: seq<string>) | UnexpectedEOF

  predicate IsBlank(c: char) {
    c == ' ' || c == '\t' || c == '\r' || c == '\n'
  }

  /** A character that starts or continues a word outside quotes. */
  ghost function BareStep(words: seq<string>, word: string, c: char): Lexer {
    if c == '"' then Lexer(words, word, Double)
    else if c == '\'' then Lexer(words, word, Single)
    else if c == '\\' then Lexer(words, word, BareEscape)
    else Lexer(words, word + [c], Bare)
  }

  ghost function Next(l: Lexer, c: char): Lexer {
    match l.mode
    case Gap => if IsBlank(c) then l else BareStep(l.words, "", c)
    case Bare => if IsBlank(c) then Lexer(l.words + [l.word], "", Gap) else BareStep(l.words, l.word, c)
    case BareEscape => Lexer(l.words, if c == '\n' then l.word else l.word + [c], Bare)
    case Single => if c == '\'' then l.(mode := Bare) else l.(word := l.word + [c])
    case Double =>
      if c == '"' then l.(mode := Bare)
      else if c == '\\' then l.(mode := DoubleEscape)
      else l.(word := l.word + [c])
    case DoubleEscape =>
      Lexer(l.words,
            if c == '"' || c == '$' || c == '\\' then l.word + [c]
            else if c == '\n' then l.word
            else l.word + ['\\', c],
            Double)
  }

  ghost function Lex(l: Lexer, s: string): Lexer
    decreases |s|
  {
    if s == "" then l else Lex(Next(l, s[0]), s[1..])
  }

  /** What has been read at the end of the line; an open quotation is an error. */
  ghost function Finish(l: Lexer): SplitResult {
    match l.mode
    case Gap => Ok(l.words)
    case Bare => Ok(l.words + [l.word])
    case BareEscape => Ok(l.words + [l.word])
    case Single => UnexpectedEOF
    case Double => UnexpectedEOF
    case DoubleEscape => UnexpectedEOF
  }

  ghost const START := Lexer([], "", Gap)

  ghost function Words(line: string): SplitResult {
    Finish(Lex(START, line))
  }

  lemma {:induction false} LexAppend(l: Lexer, s: string, t: string)
    ensures Lex(l, s + t) == Lex(Lex(l, s), t)
    decreases |s|
  {
    if s == "" {
      assert s + t == t;
    } else {
      assert (s + t)[1..] == s[1..] + t;
      LexAppend(Next(l, s[0]), s[1..], t);
    }
  }

  lemma LexSnoc(l: Lexer, s: string, i: nat)
    requires i < |s|
    ensures Lex(l, s[..i + 1]) == Next(Lex(l, s[..i]), s[i])
  {
    assert s[..i + 1] == s[..i] + [s[i]];
    LexAppend(l, s[..i], [s[i]]);
    var m := Lex(l, s[..i]);
    assert Lex(m, [s[i]]) == Lex(Next(m, s[i]), []);
  }

  // ---------- Split ----------

  /** `parseDQSegment`: `s` starts after the opening quote; `x` is relative to the quote itself. */
  method ParseDQSegment(s: string, sb: string, ghost words: seq<string>) returns (r: string, x: int)
    ensures x < 0 ==> Finish(Lex(Lexer(words, sb, Double), s)) == UnexpectedEOF
    ensures x >= 0 ==> 2 <= x <= |s| + 1 && Lex(Lexer(words, sb, Double), s[..x - 1]) == Lexer(words, r, Bare)
  {
    r := sb;
    var escaped := false;
    ghost var l := Lexer(words, sb, Double);
    for i := 0 to |s|
      invariant Lex(l, s[..i]) == Lexer(words, r, if escaped then DoubleEscape else Double)
    {
      LexSnoc(l, s, i);
      var c := s[i];
      if escaped {
        escaped := false;
        if c == '"' || c == '$' || c == '\\' {
          r := r + [c];
        } else if c == '\n' {
        } else {
          r := r + ['\\'] + [c];
        }
      } else {
        if c == '"' {
          return r, i + 2;
        }
        if c == '\\' {
          escaped := true;
        } else {
          r := r + [c];
        }
      }
    }
    assert s[..|s|] == s;
    return "", -1;
  }

  /** `parseSQSegment`: positions as in `ParseDQSegment`. */
  method ParseSQSegment(s: string, sb: string, ghost words: seq<string>) returns (r: string, x: int)
    ensures x < 0 ==> Finish(Lex(Lexer(words, sb, Single), s)) == UnexpectedEOF
    ensures x >= 0 ==> 2 <= x <= |s| + 1 && Lex(Lexer(words, sb, Single), s[..x - 1]) == Lexer(words, r, Bare)
  {
    r := sb;
    ghost var l := Lexer(words, sb, Single);
    for i := 0 to |s|
      invariant Lex(l, s[..i]) == Lexer(words, r, Single)
    {
      LexSnoc(l, s, i);
      if s[i] == '\'' {
        return r, i + 2;
      }
      r := r + [s[i]];
    }
    assert s[..|s|] == s;
    return "", -1;
  }

  /** `parseUQSegment`: stops in front of a quote or a blank; a trailing backslash is dropped. */
  method ParseUQSegment(s: string, sb: string, ghost words: seq<string>) returns (r: string, x: nat)
    requires s != "" && !IsBlank(s[0]) && s[0] != '"' && s[0] != '\''
    ensures 1 <= x <= |s|
    ensures var l := Lex(Lexer(words, sb, Bare), s[..x]);
            l == Lexer(words, r, Bare) || (x == |s| && l == Lexer(words, r, BareEscape))
  {
    r := sb;
    var escaped := false;
    ghost var l := Lexer(words, sb, Bare);
    for i := 0 to |s|
      invariant Lex(l, s[..i]) == Lexer(words, r, if escaped then BareEscape else Bare)
    {
      LexSnoc(l, s, i);
      var c := s[i];
      if escaped {
        escaped := false;
        if c != '\n' {
          r := r + [c];
        }
      } else {
        if c == '"' || c == '\'' || IsBlank(c) {
          return r, i;
        }
        if c == '\\' {
          escaped := true;
        } else {
          r := r + [c];
        }
      }
    }
    return r, |s|;
  }

  /** Parse the segment that starts at `i`; `x` is its length, or negative when it has no end. */
  method ParseSegment(line: string, i: nat, sb: string) returns (s: string, x: int)
    requires i < |line| && !IsBlank(line[i])
    requires var l := Lex(START, line[..i]); l.word == sb && (l.mode == Bare || (l.mode == Gap && sb == ""))
    ensures x < 0 ==> Words(line) == UnexpectedEOF
    ensures x >= 0 ==>
              && 1 <= x <= |line| - i
              && var l := Lex(START, line[..i + x]);
                 && l.words == Lex(START, line[..i]).words && l.word == s
                 && (l.mode == Bare || (i + x == |line| && l.mode == BareEscape))
  {
    if OpensQuote(line[i]) {
      s, x := ParseQuoted(line, i, sb);
    } else {
      s, x := ParseUQSegment(line[i..], sb, Lex(START, line[..i]).words);
      ResumeBare(line, i, i + x);
    }
  }

  predicate OpensQuote(c: char) {
    c == '"' || c == '\''
  }

  method ParseQuoted(line: string, i: nat, sb: string) returns (s: string, x: int)
    requires i < |line| && OpensQuote(line[i])
    requires var l := Lex(START, line[..i]); l.word == sb && (l.mode == Bare || (l.mode == Gap && sb == ""))
    ensures x < 0 ==> Words(line) == UnexpectedEOF
    ensures x >= 0 ==>
              && 1 <= x <= |line| - i
              && Lex(START, line[..i + x]) == Lexer(Lex(START, line[..i]).words, s, Bare)
  {
    ghost var words := Lex(START, line[..i]).words;
    if line[i] == '"' {
      s, x := ParseDQSegment(line[i + 1..], sb, words);
    } else {
      s, x := ParseSQSegment(line[i + 1..], sb, words);
    }
    Resume(line, i, if x < 0 then |line| else i + x);
    assert line[..|line|] == line && line[i + 1..][..|line| - i - 1] == line[i + 1..];
  }

  /** The lexer state that the variables of `Split` stand for. */
  ghost predicate Represents(l: Lexer, ss: seq<string>, sb: string, newArg: bool, atEnd: bool) {
    if newArg then l == Lexer(ss, "", Gap) && sb == ""
    else
      && ss != [] && sb == ss[|ss| - 1]
      && l.words == ss[..|ss| - 1] && l.word == sb
      && (l.mode == Bare || (atEnd && l.mode == BareEscape))
  }

  lemma BlankEndsWord(line: string, i: nat, ss: seq<string>, sb: string, newArg: bool)
    requires i < |line| && IsBlank(line[i]) && Represents(Lex(START, line[..i]), ss, sb, newArg, false)
    ensures Lex(START, line[..i + 1]) == Lexer(ss, "", Gap)
  {
    LexSnoc(START, line, i);
    assert ss != [] ==> ss[..|ss| - 1] + [ss[|ss| - 1]] == ss;
  }

  lemma EndOfLine(line: string, ss: seq<string>, sb: string, newArg: bool)
    requires Represents(Lex(START, line[..|line|]), ss, sb, newArg, true)
    ensures Words(line) == Ok(ss)
  {
    assert line[..|line|] == line;
    assert ss != [] ==> ss[..|ss| - 1] + [ss[|ss| - 1]] == ss;
  }

  /** `Split`: parses a whole segment at a time and skips the characters it has consumed. */
  method Split(line: string) returns (r: SplitResult)
    ensures r == Words(line)
  {
    if line == "" {
      return Ok([]);
    }
    var sb := "";
    var ss: seq<string> := [];
    var e := -1;
    var newArg := true;
    ghost var pos := 0;
    for i := 0 to |line|
      invariant pos == (if i < e then e else i) && pos <= |line|
      invariant Represents(Lex(START, line[..pos]), ss, sb, newArg, pos == |line|)
    {
      if i < e {
        continue;
      }
      var c := line[i];
      if IsBlank(c) {
        BlankEndsWord(line, i, ss, sb, newArg);
        sb := "";
        newArg := true;
        pos := i + 1;
        continue;
      }
      var s, x := ParseSegment(line, i, sb);
      if x < 0 {
        return UnexpectedEOF;
      }
      e := i + x;
      sb := s;
      pos := e;
      if newArg {
        ss := ss + [s];
        newArg := false;
      } else {
        ss := ss[|ss| - 1 := s];
      }
    }
    EndOfLine(line, ss, sb, newArg);
    return Ok(ss);
  }

  /** Lexing up to `e` continues from the state just after the character at `i`. */
  lemma Resume(line: string, i: nat, e: nat)
    requires i < e <= |line|
    ensures Lex(START, line[..e]) == Lex(Next(Lex(START, line[..i]), line[i]), line[i + 1..][..e - i - 1])
  {
    assert line[..e] == line[..i + 1] + line[i + 1..][..e - i - 1];
    LexAppend(START, line[..i + 1], line[i + 1..][..e - i - 1]);
    LexSnoc(START, line, i);
  }

  /** Outside quotes, lexing a segment may as well start from an empty bare word as from a gap. */
  lemma ResumeBare(line: string, i: nat, e: nat)
    requires i < e <= |line| && !IsBlank(line[i])
    ensures var l := Lex(START, line[..i]);
            (l.mode == Bare || (l.mode == Gap && l.word == "")) ==>
              Lex(START, line[..e]) == Lex(Lexer(l.words, l.word, Bare), line[i..][..e - i])
  {
    Resume(line, i, e);
    var seg := line[i..][..e - i];
    assert seg[0] == line[i] && seg[1..] == line[i + 1..][..e - i - 1];
  }

  // ---------- The round trip ----------

  lemma {:induction false} SafeIsRead(words: seq<string>, word: string, s: string)
    requires AllSafe(s)
    ensures Lex(Lexer(words, word, Bare), s) == Lexer(words, word + s, Bare)
    decreases |s|
  {
    if s == "" {
      assert word + s == word;
    } else {
      assert word + s == word + [s[0]] + s[1..];
      assert IsSafe(s[0]);
      SafeIsRead(words, word + [s[0]], s[1..]);
    }
  }

  lemma {:induction false} SingleQuotedIsRead(words: seq<string>, word: string, s: string)
    requires !HasQuote(s)
    ensures Lex(Lexer(words, word, Single), s) == Lexer(words, word + s, Single)
    decreases |s|
  {
    if s == "" {
      assert word + s == word;
    } else {
      assert word + s == word + [s[0]] + s[1..];
      SingleQuotedIsRead(words, word + [s[0]], s[1..]);
    }
  }

  lemma PlainIsRead(words: seq<string>, word: string, s: string)
    requires !HasQuote(s)
    ensures Lex(Lexer(words, word, Bare), QuotePlain(s)) == Lexer(words, word + s, Bare)
  {
    if s != "" && AllSafe(s) {
      SafeIsRead(words, word, s);
    } else {
      var l := Lexer(words, word, Bare);
      var q := "'" + s + "'";
      assert q == QuotePlain(s);
      assert q[0] == '\'' && q[1..] == s + "'";
      assert Lex(l, q) == Lex(Lexer(words, word, Single), s + "'");
      SingleQuotedIsRead(words, word, s);
      LexAppend(Lexer(words, word, Single), s, "'");
      var m := Lexer(words, word + s, Single);
      assert Lex(m, "'") == Lex(Next(m, '\''), "");
    }
  }

  lemma EscapedQuoteIsRead(words: seq<string>, word: string)
    ensures Lex(Lexer(words, word, Bare), "\\'") == Lexer(words, word + "'", Bare)
  {
    var l := Lexer(words, word, Bare);
    assert "\\'"[1..] == "'";
    assert Lex(Next(l, '\\'), "'") == Lex(Next(Next(l, '\\'), '\''), "");
  }

  lemma PieceIsRead(words: seq<string>, word: string, s: string)
    requires !HasQuote(s)
    ensures Lex(Lexer(words, word, Bare), QuoteNonEmpty(s)) == Lexer(words, word + s, Bare)
  {
    if s != "" {
      PlainIsRead(words, word, s);
    } else {
      assert word + s == word;
    }
  }

  lemma {:induction false} PiecesAreRead(words: seq<string>, word: string, run: string, s: string)
    requires !HasQuote(run)
    ensures Lex(Lexer(words, word, Bare), QuotePieces(run, s)) == Lexer(words, word + run + s, Bare)
    decreases |s|
  {
    if s == "" {
      PieceIsRead(words, word, run);
      assert word + run + s == word + run;
    } else if s[0] == '\'' {
      QuoteThenPieces(words, word, run, QuotePieces("", s[1..]));
      PiecesAreRead(words, word + run + "'", "", s[1..]);
      assert word + run + "'" + "" + s[1..] == word + run + s;
    } else {
      PiecesAreRead(words, word, run + [s[0]], s[1..]);
      assert word + (run + [s[0]]) + s[1..] == word + run + s;
    }
  }

  lemma QuoteThenPieces(words: seq<string>, word: string, run: string, rest: string)
    requires !HasQuote(run)
    ensures Lex(Lexer(words, word, Bare), QuoteNonEmpty(run) + "\\'" + rest)
         == Lex(Lexer(words, word + run + "'", Bare), rest)
  {
    assert QuoteNonEmpty(run) + "\\'" + rest == QuoteNonEmpty(run) + ("\\'" + rest);
    LexAppend(Lexer(words, word, Bare), QuoteNonEmpty(run), "\\'" + rest);
    PieceIsRead(words, word, run);
    QuoteThenRest(words, word + run, rest);
  }

  lemma QuoteThenRest(words: seq<string>, word: string, rest: string)
    ensures Lex(Lexer(words, word, Bare), "\\'" + rest) == Lex(Lexer(words, word + "'", Bare), rest)
  {
    LexAppend(Lexer(words, word, Bare), "\\'", rest);
    EscapedQuoteIsRead(words, word);
  }

  lemma QuotedIsRead(words: seq<string>, word: string, arg: string)
    ensures Lex(Lexer(words, word, Bare), Quoted(arg)) == Lexer(words, word + arg, Bare)
  {
    if HasQuote(arg) {
      PiecesAreRead(words, word, "", arg);
      assert word + "" + arg == word + arg;
    } else {
      PlainIsRead(words, word, arg);
    }
  }

  /** A quoted argument is never empty and never starts with a blank. */
  lemma QuotedStartsAWord(arg: string)
    ensures Quoted(arg) != "" && !IsBlank(Quoted(arg)[0])
  {
    if HasQuote(arg) {
      PiecesStartAWord("", arg);
    } else {
      PlainStartsAWord(arg);
    }
  }

  lemma PlainStartsAWord(s: string)
    ensures QuotePlain(s) != "" && !IsBlank(QuotePlain(s)[0])
  {
    if s != "" && AllSafe(s) {
      assert IsSafe(s[0]);
    }
  }

  lemma {:induction false} PiecesStartAWord(run: string, s: string)
    requires run != "" || s != ""
    ensures QuotePieces(run, s) != "" && !IsBlank(QuotePieces(run, s)[0])
    decreases |s|
  {
    PlainStartsAWord(run);
    if s != "" && s[0] != '\'' {
      PiecesStartAWord(run + [s[0]], s[1..]);
    }
  }

  lemma QuotedIsReadFromGap(words: seq<string>, arg: string)
    ensures Lex(Lexer(words, "", Gap), Quoted(arg)) == Lexer(words, arg, Bare)
  {
    QuotedStartsAWord(arg);
    QuotedIsRead(words, "", arg);
    var q := Quoted(arg);
    assert Next(Lexer(words, "", Gap), q[0]) == Next(Lexer(words, "", Bare), q[0]);
    assert "" + arg == arg;
  }

  lemma {:induction false} JoinedIsRead(args: seq<string>)
    requires args != []
    ensures Lex(START, Joined(args)) == Lexer(args[..|args| - 1], args[|args| - 1], Bare)
    decreases |args|
  {
    var n := |args| - 1;
    if n == 0 {
      QuotedIsReadFromGap([], args[0]);
      assert args[..n] == [];
    } else {
      var init := args[..n];
      JoinedIsRead(init);
      assert Joined(args) == Joined(init) + (" " + Quoted(args[n]));
      LexAppend(START, Joined(init), " " + Quoted(args[n]));
      assert init[..n - 1] + [init[n - 1]] == init;
      OneMoreIsRead(init[..n - 1], init[n - 1], args[n]);
    }
  }

  /** A space ends a word, and the next argument becomes the next one. */
  lemma OneMoreIsRead(words: seq<string>, word: string, arg: string)
    ensures Lex(Lexer(words, word, Bare), " " + Quoted(arg)) == Lexer(words + [word], arg, Bare)
  {
    var q := Quoted(arg);
    assert (" " + q)[1..] == q && (" " + q)[0] == ' ';
    assert Lex(Lexer(words, word, Bare), " " + q) == Lex(Lexer(words + [word], "", Gap), q);
    QuotedIsReadFromGap(words + [word], arg);
  }

  /** Splitting what `ShellArgsString` produced gives back exactly the arguments. */
  lemma SplitUndoesShellArgsString(args: seq<string>)
    ensures Words(Joined(args)) == Ok(args)
  {
    if args != [] {
      JoinedIsRead(args);
      assert args[..|args| - 1] + [args[|args| - 1]] == args;
    }
  }

  /** The same for the two methods, run one after the other. */
  method RoundTrip(args: seq<string>) returns (r: SplitResult)
    ensures r == Ok(args)
  {
    var line := ShellArgsString(args);
    r := Split(line);
    SplitUndoesShellArgsString(args);
  }
}
