/** How a line is written, independently of how `Split` reads it: a line is a sequence of blanks and pieces, a
    word is what the pieces between two blanks stand for, and every line can be written so. */
module ShellGrammar {
  import opened ShellQuote

  /** A character between double quotes: by itself, or behind a backslash. */
  datatype Atom = Char(c: char) | Escape(c: char)

  datatype Piece =
    | Ordinary(c: char)
    | Backslash(c: char)
    | SingleQuoted(text: string)
    | DoubleQuoted(atoms: seq<Atom>)

  datatype Token = Blank(c: char) | Word(piece: Piece)

  /** How the line ends. A backslash may have nothing behind it, and a quotation may have no end. */
  datatype Tail = Closed | TrailingBackslash | OpenSingle(text: string) | OpenDouble(atoms: seq<Atom>, escaped: bool)

  // ---------- How it is written ----------

  function AtomText(a: Atom): string {
    if a.Char? then [a.c] else ['\\', a.c]
  }

  function AtomsText(atoms: seq<Atom>): string {
    if atoms == [] then "" else AtomsText(atoms[..|atoms| - 1]) + AtomText(atoms[|atoms| - 1])
  }

  function PieceText(p: Piece): string {
    match p
    case Ordinary(c) => [c]
    case Backslash(c) => ['\\', c]
    case SingleQuoted(text) => "'" + text + "'"
    case DoubleQuoted(atoms) => "\"" + AtomsText(atoms) + "\""
  }

  function TokenText(t: Token): string {
    if t.Blank? then [t.c] else PieceText(t.piece)
  }

  function LineText(ts: seq<Token>): string {
    if ts == [] then "" else LineText(ts[..|ts| - 1]) + TokenText(ts[|ts| - 1])
  }

  function TailText(tail: Tail): string {
    match tail
    case Closed => ""
    case TrailingBackslash => "\\"
    case OpenSingle(text) => "'" + text
    case OpenDouble(atoms, escaped) => "\"" + AtomsText(atoms) + (if escaped then "\\" else "")
  }

  predicate GoodAtoms(atoms: seq<Atom>) {
    forall i :: 0 <= i < |atoms| && atoms[i].Char? ==> atoms[i].c != '"' && atoms[i].c != '\\'
  }

  predicate IsBlankChar(c: char) {
    c in " \t\r\n"
  }

  predicate Good(t: Token) {
    match t
    case Blank(c) => IsBlankChar(c)
    case Word(Ordinary(c)) => !IsBlankChar(c) && c !in "\"'\\"
    case Word(Backslash(_)) => true
    case Word(SingleQuoted(text)) => '\'' !in text
    case Word(DoubleQuoted(atoms)) => GoodAtoms(atoms)
  }

  predicate GoodLine(ts: seq<Token>) {
    forall i :: 0 <= i < |ts| ==> Good(ts[i])
  }

  predicate GoodTail(tail: Tail) {
    match tail
    case Closed => true
    case TrailingBackslash => true
    case OpenSingle(text) => '\'' !in text
    case OpenDouble(atoms, _) => GoodAtoms(atoms)
  }

  // ---------- What it stands for ----------

  /** Between double quotes a backslash takes away the meaning of a double quote, a dollar and a backslash, joins
      two lines, and is kept in front of everything else. */
  function AtomMeans(a: Atom): string {
    if a.Char? then [a.c]
    else if a.c in "\"$\\" then [a.c]
    else if a.c == '\n' then ""
    else ['\\', a.c]
  }

  function AtomsMean(atoms: seq<Atom>): string {
    if atoms == [] then "" else AtomsMean(atoms[..|atoms| - 1]) + AtomMeans(atoms[|atoms| - 1])
  }

  function PieceMeans(p: Piece): string {
    match p
    case Ordinary(c) => [c]
    case Backslash(c) => if c == '\n' then "" else [c]
    case SingleQuoted(text) => text
    case DoubleQuoted(atoms) => AtomsMean(atoms)
  }

  predicate EndsInWord(ts: seq<Token>) {
    ts != [] && ts[|ts| - 1].Word?
  }

  /** The words of a line: a piece continues the word in front of it, if there is no blank in between. */
  function WordsOf(ts: seq<Token>): (ws: seq<string>)
    ensures EndsInWord(ts) ==> ws != []
  {
    if ts == [] then []
    else
      var front, last := ts[..|ts| - 1], ts[|ts| - 1];
      var ws := WordsOf(front);
      if last.Blank? then ws
      else if EndsInWord(front) then ws[..|ws| - 1] + [ws[|ws| - 1] + PieceMeans(last.piece)]
      else ws + [PieceMeans(last.piece)]
  }

  /** A backslash with nothing behind it stands for nothing, but it starts a word. */
  function Expected(ts: seq<Token>, tail: Tail): SplitResult {
    match tail
    case Closed => Ok(WordsOf(ts))
    case TrailingBackslash => Ok(WordsOf(ts + [Word(SingleQuoted(""))]))
    case OpenSingle(_) => UnexpectedEOF
    case OpenDouble(_, _) => UnexpectedEOF
  }

  // ---------- What is written is read ----------

  lemma LexOne(l: Lexer, c: char)
    ensures Lex(l, [c]) == Next(l, c)
  {
    assert [c][1..] == "";
    assert Lex(Next(l, c), "") == Next(l, c);
  }

  lemma LexTwo(l: Lexer, c: char, d: char)
    ensures Lex(l, [c, d]) == Next(Next(l, c), d)
  {
    assert [c, d] == [c] + [d];
    LexAppend(l, [c], [d]);
    LexOne(l, c);
    LexOne(Next(l, c), d);
  }

  lemma AtomIsRead(words: seq<string>, word: string, a: Atom)
    requires a.Char? ==> a.c != '"' && a.c != '\\'
    ensures Lex(Lexer(words, word, Double), AtomText(a)) == Lexer(words, word + AtomMeans(a), Double)
  {
    var l := Lexer(words, word, Double);
    if a.Char? {
      LexOne(l, a.c);
    } else {
      LexTwo(l, '\\', a.c);
      assert word + "" == word;
    }
  }

  lemma {:induction false} AtomsAreRead(words: seq<string>, word: string, atoms: seq<Atom>)
    requires GoodAtoms(atoms)
    ensures Lex(Lexer(words, word, Double), AtomsText(atoms)) == Lexer(words, word + AtomsMean(atoms), Double)
    decreases |atoms|
  {
    if atoms == [] {
      assert word + "" == word;
    } else {
      var front, last := atoms[..|atoms| - 1], atoms[|atoms| - 1];
      AtomsAreRead(words, word, front);
      LexAppend(Lexer(words, word, Double), AtomsText(front), AtomText(last));
      AtomIsRead(words, word + AtomsMean(front), last);
      assert word + (AtomsMean(front) + AtomMeans(last)) == word + AtomsMean(front) + AtomMeans(last);
    }
  }

  /** A lexer that is inside a word, or about to start one. */
  ghost predicate Ready(l: Lexer) {
    l.mode == Bare || (l.mode == Gap && l.word == "")
  }

  lemma OpeningIsRead(l: Lexer, quote: char, text: string)
    requires Ready(l) && (quote == '"' || quote == '\'')
    ensures Lex(l, [quote] + text) == Lex(Lexer(l.words, l.word, if quote == '"' then Double else Single), text)
  {
    LexAppend(l, [quote], text);
    LexOne(l, quote);
  }

  lemma DoubleQuotedIsRead(l: Lexer, atoms: seq<Atom>)
    requires Ready(l) && GoodAtoms(atoms)
    ensures Lex(l, PieceText(DoubleQuoted(atoms))) == Lexer(l.words, l.word + AtomsMean(atoms), Bare)
  {
    var open := Lexer(l.words, l.word, Double);
    assert PieceText(DoubleQuoted(atoms)) == ['"'] + (AtomsText(atoms) + "\"");
    OpeningIsRead(l, '"', AtomsText(atoms) + "\"");
    LexAppend(open, AtomsText(atoms), "\"");
    AtomsAreRead(l.words, l.word, atoms);
    LexOne(Lexer(l.words, l.word + AtomsMean(atoms), Double), '"');
  }

  lemma SingleQuotedPieceIsRead(l: Lexer, text: string)
    requires Ready(l) && '\'' !in text
    ensures Lex(l, PieceText(SingleQuoted(text))) == Lexer(l.words, l.word + text, Bare)
  {
    var open := Lexer(l.words, l.word, Single);
    assert PieceText(SingleQuoted(text)) == ['\''] + (text + "'");
    OpeningIsRead(l, '\'', text + "'");
    LexAppend(open, text, "'");
    SingleQuotedIsRead(l.words, l.word, text);
    LexOne(Lexer(l.words, l.word + text, Single), '\'');
  }

  lemma PieceIsRead(l: Lexer, p: Piece)
    requires Ready(l) && Good(Word(p))
    ensures Lex(l, PieceText(p)) == Lexer(l.words, l.word + PieceMeans(p), Bare)
  {
    match p
    case Ordinary(c) => LexOne(l, c);
    case Backslash(c) =>
      LexTwo(l, '\\', c);
      assert l.word + "" == l.word;
    case SingleQuoted(text) => SingleQuotedPieceIsRead(l, text);
    case DoubleQuoted(atoms) => DoubleQuotedIsRead(l, atoms);
  }

  /** Where the lexer is behind the tokens. */
  ghost predicate Behind(l: Lexer, ts: seq<Token>) {
    var ws := WordsOf(ts);
    if EndsInWord(ts) then l == Lexer(ws[..|ws| - 1], ws[|ws| - 1], Bare) else l == Lexer(ws, "", Gap)
  }

  lemma BlankIsRead(l: Lexer, front: seq<Token>, c: char)
    requires Behind(l, front) && IsBlankChar(c)
    ensures Behind(Lex(l, [c]), front + [Blank(c)])
  {
    var ts, ws := front + [Blank(c)], WordsOf(front);
    assert ts[..|ts| - 1] == front;
    LexOne(l, c);
    if EndsInWord(front) {
      assert ws[..|ws| - 1] + [ws[|ws| - 1]] == ws;
    }
  }

  lemma WordIsRead(l: Lexer, front: seq<Token>, p: Piece)
    requires Behind(l, front) && Good(Word(p))
    ensures Behind(Lex(l, PieceText(p)), front + [Word(p)])
  {
    var ts, ws := front + [Word(p)], WordsOf(front);
    assert ts[..|ts| - 1] == front;
    PieceIsRead(l, p);
    if EndsInWord(front) {
      var word := ws[|ws| - 1] + PieceMeans(p);
      assert WordsOf(ts) == ws[..|ws| - 1] + [word];
    } else {
      assert "" + PieceMeans(p) == PieceMeans(p);
    }
  }

  lemma {:induction false} TokensAreRead(ts: seq<Token>)
    requires GoodLine(ts)
    ensures Behind(Lex(START, LineText(ts)), ts)
    decreases |ts|
  {
    if ts != [] {
      var front, last := ts[..|ts| - 1], ts[|ts| - 1];
      TokensAreRead(front);
      LexAppend(START, LineText(front), TokenText(last));
      assert ts == front + [last] && Good(last);
      if last.Blank? {
        BlankIsRead(Lex(START, LineText(front)), front, last.c);
      } else {
        WordIsRead(Lex(START, LineText(front)), front, last.piece);
      }
    }
  }

  lemma OpenIsRead(l: Lexer, tail: Tail)
    requires Ready(l) && GoodTail(tail) && (tail.OpenSingle? || tail.OpenDouble?)
    ensures Finish(Lex(l, TailText(tail))) == UnexpectedEOF
  {
    if tail.OpenSingle? {
      OpeningIsRead(l, '\'', tail.text);
      SingleQuotedIsRead(l.words, l.word, tail.text);
    } else {
      var open, rest := Lexer(l.words, l.word, Double), if tail.escaped then "\\" else "";
      assert TailText(tail) == ['"'] + (AtomsText(tail.atoms) + rest);
      OpeningIsRead(l, '"', AtomsText(tail.atoms) + rest);
      LexAppend(open, AtomsText(tail.atoms), rest);
      AtomsAreRead(l.words, l.word, tail.atoms);
      LexOne(Lexer(l.words, l.word + AtomsMean(tail.atoms), Double), '\\');
    }
  }

  lemma TrailingIsRead(ts: seq<Token>, l: Lexer)
    requires Behind(l, ts)
    ensures Finish(Lex(l, "\\")) == Expected(ts, TrailingBackslash)
  {
    LexOne(l, '\\');
    var more, ws := ts + [Word(SingleQuoted(""))], WordsOf(ts);
    assert more[..|more| - 1] == ts;
    if EndsInWord(ts) {
      assert ws[|ws| - 1] + "" == ws[|ws| - 1];
    }
  }

  lemma ClosedIsRead(ts: seq<Token>, l: Lexer)
    requires Behind(l, ts)
    ensures Finish(l) == Ok(WordsOf(ts))
  {
    var ws := WordsOf(ts);
    assert EndsInWord(ts) ==> ws[..|ws| - 1] + [ws[|ws| - 1]] == ws;
  }

  /** Every line is split into the words that its writing stands for, and it is an error exactly when its last
      quotation has no end. */
  lemma LineIsRead(ts: seq<Token>, tail: Tail)
    requires GoodLine(ts) && GoodTail(tail)
    ensures Words(LineText(ts) + TailText(tail)) == Expected(ts, tail)
  {
    TokensAreRead(ts);
    var l := Lex(START, LineText(ts));
    LexAppend(START, LineText(ts), TailText(tail));
    match tail
    case Closed => ClosedIsRead(ts, l);
    case TrailingBackslash => TrailingIsRead(ts, l);
    case OpenSingle(_) => OpenIsRead(l, tail);
    case OpenDouble(_, _) => OpenIsRead(l, tail);
  }

  // ---------- Every line is written ----------

  /** What one more character does: the tail goes on, or it has become a token. */
  datatype Step = GoesOn(tail: Tail) | Completes(token: Token)

  function Extended(tail: Tail, c: char): Step {
    match tail
    case Closed =>
      if IsBlankChar(c) then Completes(Blank(c))
      else if c == '\'' then GoesOn(OpenSingle(""))
      else if c == '"' then GoesOn(OpenDouble([], false))
      else if c == '\\' then GoesOn(TrailingBackslash)
      else Completes(Word(Ordinary(c)))
    case TrailingBackslash => Completes(Word(Backslash(c)))
    case OpenSingle(text) =>
      if c == '\'' then Completes(Word(SingleQuoted(text))) else GoesOn(OpenSingle(text + [c]))
    case OpenDouble(atoms, escaped) =>
      if escaped then GoesOn(OpenDouble(atoms + [Escape(c)], false))
      else if c == '"' then Completes(Word(DoubleQuoted(atoms)))
      else if c == '\\' then GoesOn(OpenDouble(atoms, true))
      else GoesOn(OpenDouble(atoms + [Char(c)], false))
  }

  function StepText(step: Step): string {
    if step.GoesOn? then TailText(step.tail) else TokenText(step.token)
  }

  lemma ExtendedIsGood(tail: Tail, c: char)
    requires GoodTail(tail)
    ensures var step := Extended(tail, c); if step.GoesOn? then GoodTail(step.tail) else Good(step.token)
  {
  }

  lemma AtomsTextSnoc(atoms: seq<Atom>, a: Atom)
    ensures AtomsText(atoms + [a]) == AtomsText(atoms) + AtomText(a)
  {
    assert (atoms + [a])[..|atoms|] == atoms;
  }

  lemma MoreText(text: string, c: char)
    ensures "\"" + (text + [c]) + "" == "\"" + text + "" + [c]
    ensures "\"" + (text + ['\\', c]) + "" == "\"" + text + "\\" + [c]
  {
  }

  lemma ExtendedInDouble(atoms: seq<Atom>, escaped: bool, c: char)
    ensures StepText(Extended(OpenDouble(atoms, escaped), c)) == TailText(OpenDouble(atoms, escaped)) + [c]
  {
    AtomsTextSnoc(atoms, Escape(c));
    AtomsTextSnoc(atoms, Char(c));
    MoreText(AtomsText(atoms), c);
  }

  lemma ExtendedText(tail: Tail, c: char)
    ensures StepText(Extended(tail, c)) == TailText(tail) + [c]
  {
    match tail
    case Closed =>
    case TrailingBackslash =>
    case OpenSingle(text) =>
    case OpenDouble(atoms, escaped) => ExtendedInDouble(atoms, escaped, c);
  }

  lemma LineTextSnoc(ts: seq<Token>, t: Token)
    ensures LineText(ts + [t]) == LineText(ts) + TokenText(t)
  {
    assert (ts + [t])[..|ts|] == ts;
  }

  lemma OneMore(ts: seq<Token>, tail: Tail, c: char, step: Step)
    requires StepText(step) == TailText(tail) + [c]
    ensures LineText(ts) + TailText(tail) + [c]
         == if step.GoesOn? then LineText(ts) + TailText(step.tail) else LineText(ts + [step.token]) + TailText(Closed)
  {
    assert LineText(ts) + TailText(tail) + [c] == LineText(ts) + StepText(step);
    if step.Completes? {
      LineTextSnoc(ts, step.token);
      assert LineText(ts + [step.token]) + "" == LineText(ts + [step.token]);
    }
  }

  lemma WriteOneMore(ts: seq<Token>, tail: Tail, c: char) returns (ts': seq<Token>, tail': Tail)
    requires GoodLine(ts) && GoodTail(tail)
    ensures GoodLine(ts') && GoodTail(tail') && LineText(ts') + TailText(tail') == LineText(ts) + TailText(tail) + [c]
  {
    var step := Extended(tail, c);
    ExtendedIsGood(tail, c);
    ExtendedText(tail, c);
    OneMore(ts, tail, c, step);
    if step.GoesOn? {
      ts', tail' := ts, step.tail;
    } else {
      ts', tail' := ts + [step.token], Closed;
    }
  }

  /** There is no other line. */
  lemma {:induction false} EveryLineIsWritten(line: string) returns (ts: seq<Token>, tail: Tail)
    ensures GoodLine(ts) && GoodTail(tail) && line == LineText(ts) + TailText(tail)
    decreases |line|
  {
    if line == "" {
      ts, tail := [], Closed;
    } else {
      var front, end := EveryLineIsWritten(line[..|line| - 1]);
      ts, tail := WriteOneMore(front, end, line[|line| - 1]);
      assert line == line[..|line| - 1] + [line[|line| - 1]];
    }
  }

  /** `Split`, for all lines, without the lexer. */
  method SplitAsWritten(line: string, ghost ts: seq<Token>, ghost tail: Tail) returns (r: SplitResult)
    requires GoodLine(ts) && GoodTail(tail) && line == LineText(ts) + TailText(tail)
    ensures r == Expected(ts, tail)
  {
    LineIsRead(ts, tail);
    r := Split(line);
  }

  // ---------- Double quotes ----------

  /** The text between double quotes, with a backslash in front of everything that has a meaning there. */
  function Protected(s: string): seq<Atom> {
    if s == "" then []
    else
      var c := s[|s| - 1];
      Protected(s[..|s| - 1]) + [if c in "\"$\\" then Escape(c) else Char(c)]
  }

  lemma {:induction false} ProtectedMeansItself(s: string)
    ensures GoodAtoms(Protected(s)) && AtomsMean(Protected(s)) == s
    decreases |s|
  {
    if s != "" {
      var atoms := Protected(s);
      ProtectedMeansItself(s[..|s| - 1]);
      assert atoms[..|atoms| - 1] == Protected(s[..|s| - 1]);
      assert s == s[..|s| - 1] + [s[|s| - 1]];
    }
  }

  lemma OnePiece(p: Piece)
    ensures WordsOf([Word(p)]) == [PieceMeans(p)] && LineText([Word(p)]) + "" == PieceText(p)
  {
    assert [Word(p)][..0] == [];
    assert WordsOf([]) == [] && LineText([]) == "";
    assert "" + PieceText(p) == PieceText(p);
  }

  /** Quoting with double quotes is undone, too, for all strings. */
  lemma DoubleQuotingIsUndone(s: string)
    ensures Words("\"" + AtomsText(Protected(s)) + "\"") == Ok([s])
  {
    var p := DoubleQuoted(Protected(s));
    ProtectedMeansItself(s);
    OnePiece(p);
    LineIsRead([Word(p)], Closed);
  }
}
