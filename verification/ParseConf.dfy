/**
 The configuration parser of src/common/parseconf.c as a pure character machine, the
 quoting encoder beside it, and the laws that tie the two together.
 */
module ParseConf {
  import opened CBytes

  datatype State =
    | FindWordStart | FindEol | QuoteCollect | QcLiteral
    | Collect | CollectLiteral | EndOfLine | ParseErr

  /** arg_limit and wordlen_limit; zero means no limit. */
  datatype Limits = Limits(args: nat, wordLen: nat)

  /** The abstract parser context: finished words, the word being built.
      A parse error shows as the state ParseErr; the context's sticky flag is raised with it. */
  datatype Parse = Parse(state: State, words: seq<seq<byte>>, word: seq<byte>)

  const DEFAULTS := Limits(32, 512)
  const FRESH := Parse(FindWordStart, [], [])

  const NEWLINE: byte := 10
  const SPACE: byte := 32
  const QUOTE: byte := 34
  const HASH: byte := 35
  const EQUALS: byte := 61
  const BACKSLASH: byte := 92

  predicate Printable(ch: int) {
    0x20 <= ch <= 0x7f
  }

  predicate AllPrintable(s: seq<byte>) {
    forall i :: 0 <= i < |s| ==> Printable(s[i])
  }

  predicate Done(p: Parse) {
    p.state.EndOfLine? || p.state.ParseErr?
  }

  // ---------------------------------------------------------------- the machine

  function AddChar(l: Limits, p: Parse, ch: int): (q: Parse)
    ensures q == p || (q == p.(word := q.word) && |q.word| == |p.word| + 1 && p.word <= q.word)
    ensures |q.word| <= |p.word| || (Printable(ch) && q.word[|p.word|] == ch)
  {
    if ch < 0x20 || ch > 0x7f then p
    else if l.wordLen != 0 && |p.word| >= l.wordLen then p
    else p.(word := p.word + [ch])
  }

  function EndOfWord(l: Limits, p: Parse): (q: Parse)
    ensures q.word == [] && q.state == p.state
  {
    if l.args != 0 && |p.words| >= l.args then p.(word := [])
    else p.(words := p.words + [p.word], word := [])
  }

  function StepFindWordStart(l: Limits, p: Parse, ch: int): (q: Parse) {
    if ch == 10 then p.(state := EndOfLine)
    else if ch == 35 then p.(state := FindEol)
    else if IsSpace(ch) then p.(state := FindWordStart)
    else if ch == 92 then p.(state := CollectLiteral)
    else if ch == 34 then p.(state := QuoteCollect)
    else
      var q := AddChar(l, p, ch);
      if ch == 61 then EndOfWord(l, q).(state := FindWordStart)
      else q.(state := Collect)
  }

  function StepQuoteCollect(l: Limits, p: Parse, ch: int): (q: Parse) {
    if ch == 35 then EndOfWord(l, p).(state := ParseErr)
    else if ch == 34 then EndOfWord(l, p).(state := FindWordStart)
    else if ch == 92 then p.(state := QcLiteral)
    else AddChar(l, p, ch).(state := QuoteCollect)
  }

  function StepCollect(l: Limits, p: Parse, ch: int): (q: Parse) {
    if ch == 35 then EndOfWord(l, p).(state := FindEol)
    else if ch == 10 then EndOfWord(l, p).(state := EndOfLine)
    else if IsSpace(ch) then EndOfWord(l, p).(state := FindWordStart)
    else if ch == 61 then StepFindWordStart(l, EndOfWord(l, p), ch).(state := FindWordStart)
    else if ch == 92 then p.(state := CollectLiteral)
    else AddChar(l, p, ch).(state := Collect)
  }

  function Step(l: Limits, p: Parse, ch: int): (q: Parse) {
    match p.state
    case FindWordStart => StepFindWordStart(l, p, ch)
    case FindEol => if ch == 10 then p.(state := EndOfLine) else p
    case QuoteCollect => StepQuoteCollect(l, p, ch)
    case QcLiteral => (if ch == 10 then p else AddChar(l, p, ch)).(state := QuoteCollect)
    case Collect => StepCollect(l, p, ch)
    case CollectLiteral => (if ch == 10 then p else AddChar(l, p, ch)).(state := Collect)
    case EndOfLine => p
    case ParseErr => p
  }

  /** Feed characters until a line is finished; the second result is what was not consumed. */
  function Run(l: Limits, p: Parse, input: seq<byte>): (r: (Parse, seq<byte>))
    ensures |r.1| <= |input|
    ensures !Done(r.0) ==> r.1 == []
    ensures Done(r.0) && !Done(p) ==> |r.1| < |input|
    decreases input
  {
    if input == [] then (p, [])
    else
      var q := Step(l, p, input[0]);
      if Done(q) then (q, input[1..]) else Run(l, q, input[1..])
  }

  lemma {:induction false} RunFirst(l: Limits, p: Parse, c: byte, tail: seq<byte>)
    ensures Run(l, p, [c] + tail) ==
            var q := Step(l, p, c); if Done(q) then (q, tail) else Run(l, q, tail)
  {
    assert ([c] + tail)[1..] == tail;
  }

  lemma {:induction false} RunNothing(l: Limits, p: Parse)
    ensures Run(l, p, []) == (p, [])
  {
  }

  lemma {:induction false} RunOn(l: Limits, p: Parse, c: byte, tail: seq<byte>, q: Parse)
    requires Step(l, p, c) == q && !Done(q)
    ensures Run(l, p, [c] + tail) == Run(l, q, tail)
  {
    RunFirst(l, p, c, tail);
  }

  lemma {:induction false} RunDone(l: Limits, p: Parse, c: byte, tail: seq<byte>, q: Parse)
    requires Step(l, p, c) == q && Done(q)
    ensures Run(l, p, [c] + tail) == (q, tail)
  {
    RunFirst(l, p, c, tail);
  }

  /** Text behind an unfinished line goes on from where that stopped. */
  lemma {:induction false} RunAppend(l: Limits, p: Parse, a: seq<byte>, b: seq<byte>)
    requires !Done(Run(l, p, a).0)
    ensures Run(l, p, a + b) == Run(l, Run(l, p, a).0, b)
    decreases a
  {
    hide Step;
    if a == [] {
      assert a + b == b;
    } else {
      assert (a + b)[1..] == a[1..] + b;
      RunAppend(l, Step(l, p, a[0]), a[1..], b);
    }
  }

  /** pconf_line and pconf_file_next both start a line this way; the word buffer is not touched. */
  function Begin(p: Parse): (q: Parse) {
    p.(state := FindWordStart, words := [])
  }

  /** pconf_line: a word left over at the end of the string is tied off. */
  function Line(l: Limits, p: Parse, line: seq<byte>): (q: Parse) {
    var q := Run(l, Begin(p), line).0;
    if !Done(q) && q.word != [] then EndOfWord(l, q) else q
  }

  datatype Next = Next(parse: Parse, rest: seq<byte>, more: bool)

  /** pconf_file_next: at end of file a leftover word is tied off only behind another word. */
  function FileNext(l: Limits, p: Parse, file: seq<byte>): (r: Next)
    ensures |r.rest| <= |file|
    ensures r.more ==> |r.rest| < |file|
    ensures !r.more ==> !Done(r.parse)
  {
    var (q, rest) := Run(l, Begin(p), file);
    if Done(q) then Next(q, rest, true)
    else if q.words == [] then Next(q, rest, false)
    else Next(if q.word != [] then EndOfWord(l, q) else q, rest, true)
  }

  /** pconf_char: a finished line is cleared by the character after it. */
  function CharStep(l: Limits, p: Parse, ch: int): (q: Parse) {
    Step(l, if Done(p) then Begin(p) else p, ch)
  }

  /** Calling pconf_char until it reports a finished line. */
  function Chars(l: Limits, p: Parse, input: seq<byte>): (r: (Parse, seq<byte>))
    decreases input
  {
    if input == [] then (p, [])
    else
      var q := CharStep(l, p, input[0]);
      if Done(q) then (q, input[1..]) else Chars(l, q, input[1..])
  }

  // ------------------------------------------------------- words stay on their line

  /** Outside a word the word buffer is empty. */
  predicate Clean(p: Parse) {
    (p.state.FindWordStart? || p.state.FindEol? || Done(p)) ==> p.word == []
  }

  lemma {:induction false} StepClean(l: Limits, p: Parse, ch: int)
    requires Clean(p)
    ensures Clean(Step(l, p, ch))
  {
  }

  lemma {:induction false} RunClean(l: Limits, p: Parse, input: seq<byte>)
    requires Clean(p)
    ensures Clean(Run(l, p, input).0)
    decreases input
  {
    if input != [] {
      var q := Step(l, p, input[0]);
      StepClean(l, p, input[0]);
      if !Done(q) {
        RunClean(l, q, input[1..]);
      }
    }
  }

  /**
   The same text fed to a context with a leftover word and to one without: until a word ends
   the leftover stands before the word being built, afterwards before the first word.
   */
  predicate Ahead(l: Limits, leftover: seq<byte>, p: Parse, q: Parse) {
    && p.state == q.state
    && (q.words == [] ==> p.words == [] && p.word == Limited(l, leftover + q.word))
    && (q.words != [] ==> p.words == [Limited(l, leftover + q.words[0])] + q.words[1..] && p.word == q.word)
  }

  lemma {:induction false} AheadAddChar(l: Limits, leftover: seq<byte>, p: Parse, q: Parse, ch: int)
    requires Ahead(l, leftover, p, q) && (l.wordLen == 0 || |q.word| <= l.wordLen)
    ensures Ahead(l, leftover, AddChar(l, p, ch), AddChar(l, q, ch))
    ensures l.wordLen == 0 || |AddChar(l, q, ch).word| <= l.wordLen
  {
    if q.words == [] && Printable(ch) {
      var long := leftover + q.word;
      assert leftover + (q.word + [ch]) == long + [ch];
      if l.wordLen != 0 && |long| >= l.wordLen {
        assert (long + [ch])[..l.wordLen] == long[..l.wordLen];
      }
    }
  }

  lemma {:induction false} AheadEndOfWord(l: Limits, leftover: seq<byte>, p: Parse, q: Parse)
    requires Ahead(l, leftover, p, q)
    ensures Ahead(l, leftover, EndOfWord(l, p), EndOfWord(l, q)) && EndOfWord(l, q).words != []
  {
    if q.words == [] {
      assert [Limited(l, leftover + q.word)] + [] == [p.word];
    } else {
      assert (q.words + [q.word])[1..] == q.words[1..] + [q.word];
    }
  }

  lemma {:induction false} AheadWordStart(l: Limits, leftover: seq<byte>, p: Parse, q: Parse, ch: int)
    requires Ahead(l, leftover, p, q) && (l.wordLen == 0 || |q.word| <= l.wordLen)
    ensures Ahead(l, leftover, StepFindWordStart(l, p, ch), StepFindWordStart(l, q, ch))
    ensures l.wordLen == 0 || |StepFindWordStart(l, q, ch).word| <= l.wordLen
  {
    hide AddChar, EndOfWord, Limited;
    AheadAddChar(l, leftover, p, q, ch);
    AheadEndOfWord(l, leftover, AddChar(l, p, ch), AddChar(l, q, ch));
  }

  lemma {:induction false} AheadStep(l: Limits, leftover: seq<byte>, p: Parse, q: Parse, ch: int)
    requires Ahead(l, leftover, p, q) && (l.wordLen == 0 || |q.word| <= l.wordLen)
    ensures Ahead(l, leftover, Step(l, p, ch), Step(l, q, ch))
    ensures l.wordLen == 0 || |Step(l, q, ch).word| <= l.wordLen
  {
    hide AddChar, EndOfWord, Limited, StepFindWordStart;
    AheadAddChar(l, leftover, p, q, ch);
    AheadEndOfWord(l, leftover, p, q);
    AheadWordStart(l, leftover, p, q, ch);
    AheadWordStart(l, leftover, EndOfWord(l, p), EndOfWord(l, q), ch);
  }

  lemma {:induction false} AheadRun(l: Limits, leftover: seq<byte>, p: Parse, q: Parse, input: seq<byte>)
    requires Ahead(l, leftover, p, q) && (l.wordLen == 0 || |q.word| <= l.wordLen)
    ensures Ahead(l, leftover, Run(l, p, input).0, Run(l, q, input).0)
    ensures Run(l, p, input).1 == Run(l, q, input).1
    decreases input
  {
    hide Step, Ahead;
    if input != [] {
      AheadStep(l, leftover, p, q, input[0]);
      AheadStates(l, leftover, Step(l, p, input[0]), Step(l, q, input[0]));
      AheadRun(l, leftover, Step(l, p, input[0]), Step(l, q, input[0]), input[1..]);
    }
  }

  lemma {:induction false} AheadStates(l: Limits, leftover: seq<byte>, p: Parse, q: Parse)
    requires Ahead(l, leftover, p, q)
    ensures p.state == q.state
  {
  }

  /**
   What a line yields depends on what was parsed before only through the characters left in the
   word buffer: they go before the first word of the line, up to the word limit. A line without
   a word yields them as its only word if it is unfinished and otherwise leaves them where they
   were. With an empty word buffer the line alone counts, and the buffer is empty afterwards.
   */
  lemma {:induction false} LeftoverGoesFirst(l: Limits, p: Parse, line: seq<byte>)
    requires Limited(l, p.word) == p.word
    ensures var r, q := Line(l, p, line), Line(l, FRESH, line);
            && r.state == q.state && q.word == []
            && (q.words != [] ==> r == q.(words := [Limited(l, p.word + q.words[0])] + q.words[1..]))
            && (q.words == [] ==> r == if Done(q) || p.word == [] then q.(word := p.word) else q.(words := [p.word]))
    ensures p.word == [] ==> Line(l, p, line) == Line(l, FRESH, line)
  {
    hide Run;
    assert p.word + [] == p.word;
    AheadRun(l, p.word, Begin(p), FRESH, line);
    RunClean(l, FRESH, line);
    var r, q := Run(l, Begin(p), line).0, Run(l, FRESH, line).0;
    if !Done(q) {
      AheadEndOfWord(l, p.word, r, q);
      if q.words == [] {
        assert p.word + [] == p.word;
        assert [q.word][1..] == [];
      }
    }
  }

  // ------------------------------------------------------- the three ways of feeding

  /** char may be signed: bytes above 0x7f then arrive as negative numbers. */
  function CharValue(charIsSigned: bool, b: byte): (v: int) {
    if charIsSigned && b >= 128 then b - 256 else b
  }

  lemma {:induction false} StepIgnoresSign(l: Limits, p: Parse, b: byte, charIsSigned: bool)
    ensures Step(l, p, CharValue(charIsSigned, b)) == Step(l, p, b)
  {
  }

  lemma {:induction false} CharsIsRun(l: Limits, p: Parse, input: seq<byte>)
    requires !Done(p)
    ensures Chars(l, p, input) == Run(l, p, input)
    decreases input
  {
    if input != [] && !Done(Step(l, p, input[0])) {
      CharsIsRun(l, Step(l, p, input[0]), input[1..]);
    }
  }

  /**
   Whenever the text holds a complete logical line, a file, a string and a character feed
   stop after the same prefix with the same words, word buffer, state and error flag.
   */
  lemma {:induction false} FeedsAgree(l: Limits, p: Parse, input: seq<byte>)
    requires Done(p) || p == Begin(p)
    requires Done(Run(l, Begin(p), input).0)
    ensures FileNext(l, p, input).more
    ensures Line(l, p, input) == FileNext(l, p, input).parse
    ensures Chars(l, p, input) == (FileNext(l, p, input).parse, FileNext(l, p, input).rest)
  {
    CharsIsRun(l, Begin(p), input);
    assert input != [];
    assert CharStep(l, p, input[0]) == CharStep(l, Begin(p), input[0]);
  }

  /** A character of a word as it is written: as itself or behind a backslash. */
  datatype Piece = Bare(c: byte) | Escaped(c: byte)

  function Spell(pieces: seq<Piece>): (r: seq<byte>) {
    if pieces == [] then [] else Written(pieces[0]) + Spell(pieces[1..])
  }

  function Written(piece: Piece): (r: seq<byte>) {
    if piece.Bare? then [piece.c] else [BACKSLASH, piece.c]
  }

  /** The characters that end a word, or mean something else, when they stand as themselves. */
  predicate Stops(quoted: bool, c: byte) {
    c == 35 || c == 92 || (if quoted then c == 34 else c == 10 || IsBlank(c) || c == 61)
  }

  /** How a text can go on behind blanks without finishing a word or a line; cut is a final backslash. */
  datatype Open = Nothing | Comment(text: seq<byte>) | Word(quoted: bool, pieces: seq<Piece>, cut: bool)

  function OpenText(o: Open): (r: seq<byte>) {
    match o
    case Nothing => []
    case Comment(text) => [HASH] + text
    case Word(quoted, pieces, cut) =>
      (if quoted then [QUOTE] else []) + (Spell(pieces) + if cut then [BACKSLASH] else [])
  }

  predicate PiecesOk(quoted: bool, pieces: seq<Piece>) {
    forall i :: 0 <= i < |pieces| ==> pieces[i].Escaped? || !Stops(quoted, pieces[i].c)
  }

  predicate OpenOk(o: Open) {
    match o
    case Nothing => true
    case Comment(text) => NEWLINE !in text
    case Word(quoted, pieces, cut) =>
      PiecesOk(quoted, pieces) && (quoted || (pieces == [] && cut) || (pieces != [] && pieces[0] != Bare(QUOTE)))
  }

  predicate SomePrintable(pieces: seq<Piece>) {
    exists i :: 0 <= i < |pieces| && Printable(pieces[i].c)
  }

  predicate Keeps(o: Open) {
    o.Word? && SomePrintable(o.pieces)
  }

  predicate Blanks(s: seq<byte>) {
    forall i :: 0 <= i < |s| ==> IsBlank(s[i])
  }

  /** Tab, vertical tab, form feed, carriage return and space. */
  predicate IsBlank(b: byte) {
    b == 9 || b == 11 || b == 12 || b == 13 || b == 32
  }

  /**
   The text is blanks and then a comment, or a first word, quoted or not, that nothing ends;
   and there is a printable character in that word, or one left over from before.
   */
  ghost predicate Unfinished(text: seq<byte>, leftover: bool) {
    exists blanks, o :: text == blanks + OpenText(o) && Blanks(blanks) && OpenOk(o) && (leftover || Keeps(o))
  }

  function BodyState(quoted: bool): (s: State) {
    if quoted then QuoteCollect else Collect
  }

  /** Words are only ever added. */
  lemma {:induction false} RunKeepsWords(l: Limits, p: Parse, input: seq<byte>)
    ensures |p.words| <= |Run(l, p, input).0.words|
    decreases input
  {
    if input != [] {
      var q := Step(l, p, input[0]);
      assert |p.words| <= |q.words|;
      if !Done(q) {
        RunKeepsWords(l, q, input[1..]);
      }
    }
  }

  lemma {:induction false} AddCharKeeps(l: Limits, p: Parse, c: byte)
    ensures var q := AddChar(l, p, c);
            q.(word := p.word) == p && (q.word != [] <==> p.word != [] || Printable(c))
  {
  }

  /** An unfinished word body runs to the end of the text and ends no word. */
  lemma {:induction false} SpellRuns(l: Limits, p: Parse, quoted: bool, pieces: seq<Piece>, cut: bool)
    requires p.state == BodyState(quoted) && PiecesOk(quoted, pieces)
    ensures var r := Run(l, p, Spell(pieces) + if cut then [BACKSLASH] else []);
            && !Done(r.0) && r.0.words == p.words && r.1 == []
            && (r.0.word != [] <==> p.word != [] || SomePrintable(pieces))
    decreases pieces
  {
    hide Run, AddChar;
    var end: seq<byte> := if cut then [BACKSLASH] else [];
    if pieces == [] {
      assert Spell(pieces) + end == end;
      if cut {
        var literal := p.(state := if quoted then QcLiteral else CollectLiteral);
        assert end == [BACKSLASH] + [];
        RunOn(l, p, BACKSLASH, [], literal);
        RunNothing(l, literal);
      } else {
        RunNothing(l, p);
      }
    } else {
      var tail := Spell(pieces[1..]) + end;
      var q := PieceRuns(l, p, quoted, pieces[0], tail);
      FirstPiece(pieces, end);
      SpellRuns(l, q, quoted, pieces[1..], cut);
    }
  }

  lemma {:induction false} FirstPiece(pieces: seq<Piece>, end: seq<byte>)
    requires pieces != []
    ensures Spell(pieces) + end == Written(pieces[0]) + (Spell(pieces[1..]) + end)
    ensures SomePrintable(pieces) <==> Printable(pieces[0].c) || SomePrintable(pieces[1..])
  {
    hide Written, Printable;
    Grouped(Written(pieces[0]), Spell(pieces[1..]), end);
    if i :| 0 <= i < |pieces| && Printable(pieces[i].c) {
      assert i > 0 ==> Printable(pieces[1..][i - 1].c);
    }
    if i :| 0 <= i < |pieces[1..]| && Printable(pieces[1..][i].c) {
      assert Printable(pieces[i + 1].c);
    }
  }

  /** One piece adds its character, if it is printable. */
  lemma {:induction false} PieceRuns(l: Limits, p: Parse, quoted: bool, piece: Piece, tail: seq<byte>) returns (q: Parse)
    requires p.state == BodyState(quoted) && (piece.Escaped? || !Stops(quoted, piece.c))
    ensures q.state == p.state && q.words == p.words && (q.word != [] <==> p.word != [] || Printable(piece.c))
    ensures Run(l, p, Written(piece) + tail) == Run(l, q, tail)
  {
    hide Run;
    q := if piece.c == NEWLINE then p else AddChar(l, p, piece.c);
    AddCharKeeps(l, p, piece.c);
    if piece.Escaped? {
      BackslashTakesNext(l, p, piece.c, tail);
      assert Written(piece) + tail == [BACKSLASH] + ([piece.c] + tail);
    } else {
      assert AddChar(l, p, NEWLINE) == p;
      RunOn(l, p, piece.c, tail, q);
    }
  }

  lemma {:induction false} BlanksRun(l: Limits, p: Parse, blanks: seq<byte>, tail: seq<byte>)
    requires p.state.FindWordStart? && Blanks(blanks)
    ensures Run(l, p, blanks + tail) == Run(l, p, tail)
    decreases blanks
  {
    hide Run;
    if blanks == [] {
      assert blanks + tail == tail;
    } else {
      assert blanks + tail == [blanks[0]] + (blanks[1..] + tail);
      RunOn(l, p, blanks[0], blanks[1..] + tail, p);
      BlanksRun(l, p, blanks[1..], tail);
    }
  }

  lemma {:induction false} CommentRuns(l: Limits, p: Parse, text: seq<byte>)
    requires p.state.FindEol? && NEWLINE !in text
    ensures Run(l, p, text) == (p, [])
    decreases text
  {
    if text != [] {
      CommentRuns(l, p, text[1..]);
    }
  }

  /** Outside quotes a word starts as it goes on. */
  lemma {:induction false} WordStarts(l: Limits, p: Parse, text: seq<byte>)
    requires p.state.FindWordStart? && text != []
    requires !IsSpace(text[0]) && text[0] != HASH && text[0] != QUOTE && text[0] != EQUALS
    ensures Run(l, p, text) == Run(l, p.(state := Collect), text)
  {
    assert Step(l, p, text[0]) == Step(l, p.(state := Collect), text[0]);
  }

  /** Any such text runs to its end without a word or a line. */
  lemma {:induction false} OpenRuns(l: Limits, p: Parse, blanks: seq<byte>, o: Open)
    requires p.state.FindWordStart? && Blanks(blanks) && OpenOk(o)
    ensures var r := Run(l, p, blanks + OpenText(o));
            && !Done(r.0) && r.0.words == p.words && r.1 == []
            && (r.0.word != [] <==> p.word != [] || Keeps(o))
  {
    hide Run;
    BlanksRun(l, p, blanks, OpenText(o));
    match o
    case Nothing => RunNothing(l, p);
    case Comment(text) =>
      RunOn(l, p, HASH, text, p.(state := FindEol));
      CommentRuns(l, p.(state := FindEol), text);
    case Word(quoted, pieces, cut) =>
      var body := Spell(pieces) + if cut then [BACKSLASH] else [];
      SpellRuns(l, p.(state := BodyState(quoted)), quoted, pieces, cut);
      if quoted {
        RunOn(l, p, QUOTE, body, p.(state := QuoteCollect));
      } else {
        assert OpenText(o) == body && body != [] by {
          assert pieces == [] ==> Spell(pieces) + [BACKSLASH] == [BACKSLASH];
        }
        assert pieces != [] ==> body[0] == if pieces[0].Bare? then pieces[0].c else BACKSLASH;
        WordStarts(l, p, body);
      }
  }

  /** And whatever runs on inside a word is spelled that way. */
  lemma {:induction false} SpelledBody(l: Limits, p: Parse, quoted: bool, text: seq<byte>) returns (pieces: seq<Piece>, cut: bool)
    requires p.state == BodyState(quoted) && p.words == []
    requires !Done(Run(l, p, text).0) && Run(l, p, text).0.words == []
    ensures PiecesOk(quoted, pieces) && text == Spell(pieces) + if cut then [BACKSLASH] else []
    decreases |text|
  {
    hide Run;
    pieces, cut := [], false;
    if text == [] {
      return;
    }
    if text == [BACKSLASH] {
      cut := true;
      return;
    }
    var first, tail := Bare(text[0]), text[1..];
    assert text == [text[0]] + tail;
    if text[0] == BACKSLASH {
      first, tail := Escaped(text[1]), text[2..];
      assert text == Written(first) + tail;
    } else if Stops(quoted, text[0]) {
      RunFirst(l, p, text[0], tail);
      RunKeepsWords(l, Step(l, p, text[0]), tail);
      assert false;
    }
    var q := PieceRuns(l, p, quoted, first, tail);
    var rest: seq<Piece>;
    rest, cut := SpelledBody(l, q, quoted, tail);
    Grouped(Written(first), Spell(rest), if cut then [BACKSLASH] else []);
    pieces := [first] + rest;
    assert pieces[1..] == rest;
  }

  lemma {:induction false} SpelledText(l: Limits, p: Parse, text: seq<byte>) returns (blanks: seq<byte>, o: Open)
    requires p.state.FindWordStart? && p.words == []
    requires !Done(Run(l, p, text).0) && Run(l, p, text).0.words == []
    ensures text == blanks + OpenText(o) && Blanks(blanks) && OpenOk(o)
    decreases |text|
  {
    hide Run, AddChar, OpenText, OpenOk, EndOfWord;
    if text != [] && IsSpace(text[0]) {
      var tail := text[1..];
      assert text == [text[0]] + tail;
      RunFirst(l, p, text[0], tail);
      blanks, o := SpelledText(l, p, tail);
      assert text == ([text[0]] + blanks) + OpenText(o);
      blanks := [text[0]] + blanks;
    } else {
      blanks := [];
      o := SpelledOpen(l, p, text);
      assert text == [] + OpenText(o);
    }
  }

  lemma {:induction false} SpelledOpen(l: Limits, p: Parse, text: seq<byte>) returns (o: Open)
    requires p.state.FindWordStart? && p.words == [] && (text == [] || !IsSpace(text[0]))
    requires !Done(Run(l, p, text).0) && Run(l, p, text).0.words == []
    ensures text == OpenText(o) && OpenOk(o)
  {
    hide Run, AddChar, Spell, PiecesOk;
    if text == [] {
      return Nothing;
    }
    var c, tail := text[0], text[1..];
    assert text == [c] + tail;
    if c == HASH {
      RunFirst(l, p, c, tail);
      NoNewline(l, p.(state := FindEol), tail);
      return Comment(tail);
    }
    if c == EQUALS {
      RunFirst(l, p, c, tail);
      RunKeepsWords(l, Step(l, p, c), tail);
      assert false;
    }
    if c == QUOTE {
      RunFirst(l, p, c, tail);
      var pieces, cut := SpelledBody(l, p.(state := QuoteCollect), true, tail);
      return Word(true, pieces, cut);
    }
    o := SpelledWord(l, p, text);
  }

  lemma {:induction false} SpelledWord(l: Limits, p: Parse, text: seq<byte>) returns (o: Open)
    requires p.state.FindWordStart? && p.words == [] && text != []
    requires !IsSpace(text[0]) && text[0] != HASH && text[0] != EQUALS && text[0] != QUOTE
    requires !Done(Run(l, p, text).0) && Run(l, p, text).0.words == []
    ensures text == OpenText(o) && OpenOk(o)
  {
    hide Run, Spell, PiecesOk;
    WordStarts(l, p, text);
    var pieces, cut := SpelledBody(l, p.(state := Collect), false, text);
    o := Word(false, pieces, cut);
    BareStart(pieces, cut);
  }

  lemma {:induction false} BareStart(pieces: seq<Piece>, cut: bool)
    ensures var body := Spell(pieces) + if cut then [BACKSLASH] else [];
            && [] + ([] + body) == body
            && (pieces == [] ==> body == if cut then [BACKSLASH] else [])
            && (pieces != [] ==> body != [] && body[0] == if pieces[0].Bare? then pieces[0].c else BACKSLASH)
  {
  }

  lemma {:induction false} NoNewline(l: Limits, p: Parse, text: seq<byte>)
    requires p.state.FindEol? && !Done(Run(l, p, text).0)
    ensures NEWLINE !in text
    decreases text
  {
    if text != [] {
      NoNewline(l, p, text[1..]);
    }
  }

  /**
   On any text at all a string and a file reader yield the same words, except exactly when the
   text ends inside its first word with something in it: that word the file reader loses.
   */
  lemma {:induction false} LineAndFileAgreeIff(l: Limits, p: Parse, text: seq<byte>)
    ensures Line(l, p, text).words == FileNext(l, p, text).parse.words <==> !Unfinished(text, p.word != [])
    ensures Unfinished(text, p.word != []) ==> |Line(l, p, text).words| == 1 && FileNext(l, p, text).parse.words == []
  {
    hide Run;
    var q := Run(l, Begin(p), text).0;
    assert Line(l, p, text).words == FileNext(l, p, text).parse.words <==> Done(q) || q.words != [] || q.word == [];
    LostIff(l, p, text);
  }

  lemma {:induction false} LostIff(l: Limits, p: Parse, text: seq<byte>)
    ensures var q := Run(l, Begin(p), text).0;
            !Done(q) && q.words == [] && q.word != [] <==> Unfinished(text, p.word != [])
  {
    hide Run, OpenText, OpenOk, Blanks, Keeps;
    var q := Run(l, Begin(p), text).0;
    if !Done(q) && q.words == [] {
      var blanks, o := SpelledText(l, Begin(p), text);
      OpenRuns(l, Begin(p), blanks, o);
    }
    if Unfinished(text, p.word != []) {
      var blanks, o :| text == blanks + OpenText(o) && Blanks(blanks) && OpenOk(o) && (p.word != [] || Keeps(o));
      OpenRuns(l, Begin(p), blanks, o);
    }
  }

  /** A file read that starts with an empty word buffer leaves characters in it for the next exactly in that case. */
  lemma {:induction false} FileNextLeaksIff(l: Limits, p: Parse, file: seq<byte>)
    requires p.word == []
    ensures FileNext(l, p, file).parse.word != [] <==> Unfinished(file, false)
    ensures Unfinished(file, false) ==> !FileNext(l, p, file).more && FileNext(l, p, file).rest == []
  {
    hide Run;
    RunClean(l, Begin(p), file);
    LostIff(l, p, file);
  }

  /**
   A file holding the single unterminated word "u": the line reader keeps it, the file reader
   does not, and the bytes it left behind start the first word of the next line.
   */
  lemma {:induction false} FileDropsLoneWord()
    ensures Line(DEFAULTS, FRESH, [117]).words == [[117]]
    ensures FileNext(DEFAULTS, FRESH, [117]) == Next(Parse(Collect, [], [117]), [], false)
    ensures Line(DEFAULTS, FileNext(DEFAULTS, FRESH, [117]).parse, [120]).words == [[117, 120]]
  {
    hide Run;
    var p := Parse(Collect, [], [117]);
    assert Step(DEFAULTS, FRESH, 117) == p by {
      assert [] + [117] == p.word;
    }
    RunOn(DEFAULTS, FRESH, 117, [], p);
    RunNothing(DEFAULTS, p);
    var q := Parse(Collect, [], [117, 120]);
    assert Step(DEFAULTS, Begin(p), 120) == q by {
      assert p.word + [120] == q.word;
    }
    RunOn(DEFAULTS, Begin(p), 120, [], q);
    RunNothing(DEFAULTS, q);
    assert [117] == [117] + [] && [120] == [120] + [];
  }

  /** Text without quotes or backslashes stops at its first newline. */
  lemma {:induction false} PlainLineEnds(l: Limits, p: Parse, line: seq<byte>, rest: seq<byte>)
    requires p.state.FindWordStart? || p.state.Collect? || p.state.FindEol?
    requires NEWLINE !in line && QUOTE !in line && BACKSLASH !in line
    ensures var r := Run(l, p, line + [NEWLINE] + rest);
            r.0.state.EndOfLine? && r.1 == rest
    decreases line
  {
    var input := line + [NEWLINE] + rest;
    if line == [] {
      assert input[1..] == rest;
    } else {
      assert input[1..] == line[1..] + [NEWLINE] + rest;
      PlainLineEnds(l, Step(l, p, line[0]), line[1..], rest);
    }
  }

  // ---------------------------------------------------------------- pconf_encode

  predicate NeedsEscape(b: byte) {
    b == HASH || b == BACKSLASH || b == QUOTE
  }

  function EncodeByte(b: byte): (r: seq<byte>)
    ensures 1 <= |r| <= 2
  {
    if NeedsEscape(b) then [BACKSLASH, b] else [b]
  }

  /** The complete encoding, with no regard to buffer size. */
  function Encode(s: seq<byte>): (r: seq<byte>) {
    if s == [] then [] else EncodeByte(s[0]) + Encode(s[1..])
  }

  lemma {:induction false} EncodeAppend(s: seq<byte>, t: seq<byte>)
    ensures Encode(s + t) == Encode(s) + Encode(t)
  {
    if s == [] {
      assert s + t == t;
    } else {
      assert (s + t)[1..] == s[1..] + t;
      EncodeAppend(s[1..], t);
    }
  }

  lemma {:induction false} EncodeSnoc(s: seq<byte>, k: nat)
    requires k < |s|
    ensures Encode(s[..k + 1]) == Encode(s[..k]) + EncodeByte(s[k])
  {
    assert s[..k + 1] == s[..k] + [s[k]];
    EncodeAppend(s[..k], [s[k]]);
    assert Encode([s[k]]) == EncodeByte(s[k]) + Encode([]);
  }

  lemma {:induction false} EncodeNulFree(s: seq<byte>)
    requires NulFree(s)
    ensures NulFree(Encode(s))
    ensures |s| <= |Encode(s)|
  {
    if s != [] {
      assert forall i :: 0 <= i < |s| - 1 ==> s[1..][i] == s[i + 1];
      EncodeNulFree(s[1..]);
    }
  }

  /** k is the length of the longest prefix whose whole encoding fits into room characters. */
  predicate LongestFit(s: seq<byte>, room: nat, k: nat) {
    && k <= |s|
    && |Encode(s[..k])| <= room
    && (k < |s| ==> |Encode(s[..k + 1])| > room)
  }

  /** It really is the longest: longer prefixes never have shorter encodings. */
  lemma {:induction false} LongestFitIsMaximal(s: seq<byte>, room: nat, k: nat, j: nat)
    requires LongestFit(s, room, k) && j <= |s| && |Encode(s[..j])| <= room
    ensures j <= k
  {
    if k < j {
      assert s[..j] == s[..k + 1] + s[k + 1..j];
      EncodeAppend(s[..k + 1], s[k + 1..j]);
    }
  }

  /** size_t is 32 bits wide here, so maxlen - 1 wraps round when maxlen is zero. */
  function SizeMinusOne(n: nat): (r: nat) {
    if n == 0 then 0xFFFF_FFFF else n - 1
  }

  /** The one call shape that leaves the buffer without a terminator. */
  predicate Unterminated(src: seq<byte>, destsize: nat) {
    destsize == 1 && src != [] && NeedsEscape(src[0])
  }

  /** What the buffer holds after the call. */
  ghost predicate Encoded(src: seq<byte>, dest: seq<byte>)
    requires |dest| > 0
  {
    if Unterminated(src, |dest|) then dest == [BACKSLASH]
    else exists k: nat :: LongestFit(src, |dest| - 1, k) && PaddedEncoding(src, k, dest)
  }

  ghost predicate PaddedEncoding(src: seq<byte>, k: nat, dest: seq<byte>)
    requires k <= |src|
  {
    var e := Encode(src[..k]);
    |e| <= |dest| && dest[..|e|] == e && forall j :: |e| <= j < |dest| ==> dest[j] == 0
  }

  method PconfEncode(src: seq<byte>, dest: array<byte>)
    requires NulFree(src)
    modifies dest
    ensures dest.Length > 0 ==> Encoded(src, dest[..])
  {
    if dest.Length < 1 {
      return;
    }
    for z := 0 to dest.Length
      invariant forall i :: 0 <= i < z ==> dest[i] == 0
    {
      dest[z] := 0;
    }
    var maxlen := dest.Length - 1;
    var destlen := 0;
    var i := 0;
    while i < |src|
      invariant i <= |src|
      invariant maxlen == 0 ==> i == 0
      invariant destlen == |Encode(src[..i])| <= maxlen
      invariant PaddedEncoding(src, i, dest[..])
    {
      EncodeSnoc(src, i);
      if NeedsEscape(src[i]) {
        if destlen >= SizeMinusOne(maxlen) {
          assert LongestFit(src, maxlen, i);
          return;
        }
        dest[destlen] := BACKSLASH;
        destlen := destlen + 1;
      }
      if destlen >= maxlen {
        assert NeedsEscape(src[i]) ==> dest[..] == [BACKSLASH];
        assert !NeedsEscape(src[i]) ==> LongestFit(src, maxlen, i);
        return;
      }
      dest[destlen] := src[i];
      destlen := destlen + 1;
      i := i + 1;
    }
    assert src[..i] == src;
    assert LongestFit(src, maxlen, i);
  }

  /** The C string left in a buffer of n bytes: the encoding of the longest prefix that fits. */
  function EncodeInto(src: seq<byte>, n: nat): (r: seq<byte>)
    requires n >= 2
    ensures |r| < n
  {
    Encode(src[..FittingPrefix(src, n - 1)])
  }

  lemma {:induction false} WholeFitsIff(src: seq<byte>, room: nat)
    ensures FittingPrefix(src, room) == |src| <==> |Encode(src)| <= room
  {
    assert src[..|src|] == src;
    if |Encode(src)| <= room {
      LongestFitIsMaximal(src, room, FittingPrefix(src, room), |src|);
    }
  }

  function FittingPrefix(src: seq<byte>, room: nat): (k: nat)
    ensures LongestFit(src, room, k)
  {
    FittingFrom(src, room, 0)
  }

  function FittingFrom(src: seq<byte>, room: nat, k: nat): (r: nat)
    requires k <= |src| && |Encode(src[..k])| <= room
    ensures LongestFit(src, room, r)
    decreases |src| - k
  {
    if k == |src| || |Encode(src[..k + 1])| > room then k else FittingFrom(src, room, k + 1)
  }

  lemma {:induction false} LongestFitUnique(s: seq<byte>, room: nat, j: nat, k: nat)
    requires LongestFit(s, room, j) && LongestFit(s, room, k)
    ensures j == k
  {
    LongestFitIsMaximal(s, room, j, k);
    LongestFitIsMaximal(s, room, k, j);
  }

  /** The buffer can be read back as a C string exactly unless the call is the bad one. */
  lemma {:induction false} BufferHoldsEncodingIff(src: seq<byte>, dest: seq<byte>)
    requires NulFree(src) && |dest| > 0 && Encoded(src, dest)
    ensures Terminated(dest) <==> !Unterminated(src, |dest|)
    ensures |dest| >= 2 ==> CStr(dest) == EncodeInto(src, |dest|)
  {
    if !Unterminated(src, |dest|) {
      var k: nat :| LongestFit(src, |dest| - 1, k) && PaddedEncoding(src, k, dest);
      EncodeNulFree(src[..k]);
      StrLenIs(dest, |Encode(src[..k])|);
      if |dest| >= 2 {
        LongestFitUnique(src, |dest| - 1, k, FittingPrefix(src, |dest| - 1));
      }
    }
  }

  /** A quotation mark encoded into a single byte: the buffer is full and nothing ends it. */
  lemma {:induction false} OneByteIsNotEnough(dest: seq<byte>)
    requires |dest| == 1 && Encoded([QUOTE], dest)
    ensures !Terminated(dest)
  {
    BufferHoldsEncodingIff([QUOTE], dest);
  }

  // ------------------------------------------------------- printing and parsing back

  function Enquote(e: seq<byte>): (r: seq<byte>) {
    [QUOTE] + e + [QUOTE]
  }

  function Quoted(w: seq<byte>): (r: seq<byte>) {
    Enquote(Encode(w))
  }

  function Joined(ws: seq<seq<byte>>): (r: seq<byte>) {
    if ws == [] then [] else if |ws| == 1 then Quoted(ws[0]) else Quoted(ws[0]) + [SPACE] + Joined(ws[1..])
  }

  predicate WordFits(l: Limits, w: seq<byte>) {
    AllPrintable(w) && (l.wordLen == 0 || |w| <= l.wordLen)
  }

  /** The printable characters of a word. */
  function Visible(w: seq<byte>): (v: seq<byte>)
    ensures AllPrintable(v) && |v| <= |w|
  {
    if w == [] then [] else Shown(w[0]) + Visible(w[1..])
  }

  function Limited(l: Limits, w: seq<byte>): (r: seq<byte>)
    ensures r <= w
  {
    if l.wordLen != 0 && |w| > l.wordLen then w[..l.wordLen] else w
  }

  /** What the parser makes of a word: its printable characters, up to the limit. */
  function Surviving(l: Limits, w: seq<byte>): (r: seq<byte>) {
    Limited(l, Visible(w))
  }

  function SurvivingAll(l: Limits, ws: seq<seq<byte>>): (r: seq<seq<byte>>)
    ensures |r| == |ws| && forall i :: 0 <= i < |ws| ==> r[i] == Surviving(l, ws[i])
  {
    seq(|ws|, i requires 0 <= i < |ws| => Surviving(l, ws[i]))
  }

  /** The words up to the argument limit. */
  function Capped(l: Limits, ws: seq<seq<byte>>): (r: seq<seq<byte>>)
    ensures r <= ws
  {
    if l.args != 0 && |ws| > l.args then ws[..l.args] else ws
  }

  lemma {:induction false} VisibleIff(w: seq<byte>)
    ensures Visible(w) == w <==> AllPrintable(w)
  {
    if w != [] {
      VisibleIff(w[1..]);
      assert w == [w[0]] + w[1..];
      if Visible(w) == w {
        assert AllPrintable(Visible(w));
      }
    }
  }

  lemma {:induction false} SurvivingIff(l: Limits, w: seq<byte>)
    ensures Surviving(l, w) == w <==> WordFits(l, w)
  {
    VisibleIff(w);
  }

  /** One more character, printable or not, limit reached or not. */
  lemma {:induction false} AddVisible(l: Limits, p: Parse, v: seq<byte>, c: byte)
    requires p.word == Limited(l, v)
    ensures AddChar(l, p, c) == p.(word := Limited(l, v + Shown(c)))
  {
    if !Printable(c) {
      assert v + [] == v;
    } else if l.wordLen != 0 && |v| >= l.wordLen {
      assert (v + [c])[..l.wordLen] == v[..l.wordLen];
    }
  }

  function Shown(c: byte): (r: seq<byte>) {
    if Printable(c) then [c] else []
  }

  lemma {:induction false} FirstOfWord(v: seq<byte>, w: seq<byte>, rest: seq<byte>)
    ensures w == [] ==> Encode(w) + rest == rest && v + Visible(w) == v
    ensures w != [] ==> Encode(w) + rest == EncodeByte(w[0]) + (Encode(w[1..]) + rest)
    ensures w != [] ==> v + Visible(w) == v + Shown(w[0]) + Visible(w[1..])
  {
    hide EncodeByte, Shown;
    if w == [] {
      assert Encode(w) == [] && Visible(w) == [];
    } else {
      Grouped(EncodeByte(w[0]), Encode(w[1..]), rest);
      Grouped(v, Shown(w[0]), Visible(w[1..]));
    }
  }

  lemma {:induction false} CollectEncoded(l: Limits, p: Parse, v: seq<byte>, w: seq<byte>, rest: seq<byte>)
    requires p.state.QuoteCollect? && p.word == Limited(l, v)
    ensures Run(l, p, Encode(w) + rest) == Run(l, p.(word := Limited(l, v + Visible(w))), rest)
    decreases w
  {
    hide *;
    FirstOfWord(v, w, rest);
    if w != [] {
      var q := p.(word := Limited(l, v + Shown(w[0])));
      AddVisible(l, p, v, w[0]);
      CollectOne(l, p, w[0], Encode(w[1..]) + rest, q);
      CollectEncoded(l, q, v + Shown(w[0]), w[1..], rest);
    }
  }

  /** The encoding of one character inside quotes adds that character. */
  lemma {:induction false} CollectOne(l: Limits, p: Parse, c: byte, tail: seq<byte>, q: Parse)
    requires p.state.QuoteCollect? && q == AddChar(l, p, c)
    ensures Run(l, p, EncodeByte(c) + tail) == Run(l, q, tail)
  {
    hide Run;
    if NeedsEscape(c) {
      assert EncodeByte(c) + tail == [BACKSLASH] + ([c] + tail);
      RunOn(l, p, BACKSLASH, [c] + tail, p.(state := QcLiteral));
      RunOn(l, p.(state := QcLiteral), c, tail, q);
    } else {
      RunOn(l, p, c, tail, q);
    }
  }

  /** Any quoted word is read as one word, its surviving characters, and stored or dropped at the limit. */
  lemma {:induction false} ReadAnyQuoted(l: Limits, p: Parse, w: seq<byte>, rest: seq<byte>)
    requires p.state.FindWordStart? && p.word == []
    ensures Run(l, p, Quoted(w) + rest) == Run(l, EndOfWord(l, p.(word := Surviving(l, w))), rest)
  {
    hide Run, Limited;
    var tail := [QUOTE] + rest;
    var body := Encode(w) + tail;
    assert Quoted(w) + rest == [QUOTE] + body;
    var q := p.(state := QuoteCollect);
    RunOn(l, p, QUOTE, body, q);
    assert Limited(l, []) <= [];
    CollectEncoded(l, q, [], w, tail);
    assert [] + Visible(w) == Visible(w);
    var full := q.(word := Surviving(l, w));
    RunOn(l, full, QUOTE, rest, EndOfWord(l, p.(word := Surviving(l, w))));
  }

  /** One quoted word within the limits is read back as one word. */
  lemma {:induction false} ReadQuoted(l: Limits, p: Parse, w: seq<byte>, rest: seq<byte>)
    requires p.state.FindWordStart? && p.word == [] && WordFits(l, w)
    requires l.args == 0 || |p.words| < l.args
    ensures Run(l, p, Quoted(w) + rest) == Run(l, p.(words := p.words + [w]), rest)
  {
    ReadAnyQuoted(l, p, w, rest);
    SurvivingIff(l, w);
  }

  lemma {:induction false} Regroup(a: seq<byte>, b: seq<byte>, c: seq<byte>, d: seq<byte>)
    ensures a + b + c + d == a + (b + (c + d))
  {
  }

  lemma {:induction false} CapMore(l: Limits, p: Parse, us: seq<seq<byte>>, w: seq<byte>)
    requires p.words == Capped(l, us)
    ensures EndOfWord(l, p.(word := w)) == p.(words := Capped(l, us + [w]), word := [])
  {
    if l.args != 0 && |us| >= l.args {
      assert (us + [w])[..l.args] == us[..l.args];
    }
  }

  lemma {:induction false} ReadJoined(l: Limits, p: Parse, us: seq<seq<byte>>, ws: seq<seq<byte>>, rest: seq<byte>)
    requires p.state.FindWordStart? && p.word == [] && p.words == Capped(l, us)
    ensures Run(l, p, Joined(ws) + rest) == Run(l, p.(words := Capped(l, us + SurvivingAll(l, ws))), rest)
    decreases ws
  {
    hide Run, Capped, EndOfWord, Quoted, Surviving;
    if ws == [] {
      assert Joined(ws) + rest == rest && us + SurvivingAll(l, ws) == us;
    } else {
      var w := Surviving(l, ws[0]);
      var q := p.(words := Capped(l, us + [w]));
      CapMore(l, p, us, w);
      assert us + [w] + SurvivingAll(l, ws[1..]) == us + SurvivingAll(l, ws);
      if |ws| == 1 {
        ReadAnyQuoted(l, p, ws[0], rest);
        assert us + [w] + [] == us + [w];
      } else {
        var tail := Joined(ws[1..]) + rest;
        Regroup(Quoted(ws[0]), [SPACE], Joined(ws[1..]), rest);
        ReadAnyQuoted(l, p, ws[0], [SPACE] + tail);
        RunOn(l, q, SPACE, tail, q);
        ReadJoined(l, q, us + [w], ws[1..], rest);
      }
    }
  }

  /**
   Encoding, quoting, joining and parsing any list of byte strings whatever: every word comes
   back as its printable characters up to the word limit, in order, up to the argument limit.
   */
  lemma {:induction false} AnyLineRoundTrip(l: Limits, p: Parse, ws: seq<seq<byte>>)
    requires p.word == []
    ensures Line(l, p, Joined(ws)) == Parse(FindWordStart, Capped(l, SurvivingAll(l, ws)), [])
    ensures Line(l, p, Joined(ws) + [NEWLINE]) == Parse(EndOfLine, Capped(l, SurvivingAll(l, ws)), [])
  {
    hide Run, SurvivingAll;
    var words := Capped(l, SurvivingAll(l, ws));
    ReadJoined(l, Begin(p), [], ws, []);
    assert Joined(ws) + [] == Joined(ws) && [] + SurvivingAll(l, ws) == SurvivingAll(l, ws);
    RunNothing(l, Begin(p).(words := words));
    ReadJoined(l, Begin(p), [], ws, [NEWLINE]);
    RunDone(l, Begin(p).(words := words), NEWLINE, [], Parse(EndOfLine, words, []));
    assert [NEWLINE] == [NEWLINE] + [];
  }

  /** A list of words survives unchanged exactly when every word is printable and within the limits. */
  lemma {:induction false} LineRoundTripIff(l: Limits, p: Parse, ws: seq<seq<byte>>)
    requires p.word == []
    ensures Line(l, p, Joined(ws)).words == ws <==>
            (forall i :: 0 <= i < |ws| ==> WordFits(l, ws[i])) && (l.args == 0 || |ws| <= l.args)
  {
    hide Surviving, WordFits, Line, Joined;
    AnyLineRoundTrip(l, p, ws);
    forall i | 0 <= i < |ws| ensures Surviving(l, ws[i]) == ws[i] <==> WordFits(l, ws[i]) {
      SurvivingIff(l, ws[i]);
    }
  }

  // ---------------------------------------------------------------- comments, escapes, continuation

  /** A number sign outside quotes hides the rest of the line. */
  lemma {:induction false} CommentHidden(l: Limits, p: Parse, comment: seq<byte>, rest: seq<byte>)
    requires p.state.FindWordStart? && NEWLINE !in comment
    ensures Run(l, p, [HASH] + (comment + ([NEWLINE] + rest))) == (p.(state := EndOfLine), rest)
  {
    hide Run;
    RunOn(l, p, HASH, comment + ([NEWLINE] + rest), p.(state := FindEol));
    SkipToEol(l, p.(state := FindEol), comment, rest);
  }

  /** Behind a word it ends the word first. */
  lemma {:induction false} CommentEndsWord(l: Limits, p: Parse, comment: seq<byte>, rest: seq<byte>)
    requires p.state.Collect? && NEWLINE !in comment
    ensures Run(l, p, [HASH] + (comment + ([NEWLINE] + rest))) == (EndOfWord(l, p).(state := EndOfLine), rest)
  {
    hide Run, EndOfWord;
    var q := EndOfWord(l, p).(state := FindEol);
    RunOn(l, p, HASH, comment + ([NEWLINE] + rest), q);
    SkipToEol(l, q, comment, rest);
  }

  lemma {:induction false} SkipToEol(l: Limits, p: Parse, comment: seq<byte>, rest: seq<byte>)
    requires p.state.FindEol? && NEWLINE !in comment
    ensures Run(l, p, comment + ([NEWLINE] + rest)) == (p.(state := EndOfLine), rest)
    decreases comment
  {
    hide Run;
    if comment == [] {
      assert comment + ([NEWLINE] + rest) == [NEWLINE] + rest;
      RunDone(l, p, NEWLINE, rest, p.(state := EndOfLine));
    } else {
      var tail := comment[1..] + ([NEWLINE] + rest);
      assert comment + ([NEWLINE] + rest) == [comment[0]] + tail;
      RunOn(l, p, comment[0], tail, p);
      SkipToEol(l, p, comment[1..], rest);
    }
  }

  /** Inside quotes an unescaped number sign is the one parse error. */
  lemma {:induction false} HashInQuotesFails(l: Limits, p: Parse, c: byte)
    requires !Done(p)
    ensures Step(l, p, c).state.ParseErr? <==> p.state.QuoteCollect? && c == HASH
  {
  }

  /** A backslash takes the next character as it is, in words and in quotes; before a newline both vanish. */
  lemma {:induction false} BackslashTakesNext(l: Limits, p: Parse, c: byte, rest: seq<byte>)
    requires p.state.Collect? || p.state.QuoteCollect?
    ensures Run(l, p, [BACKSLASH] + ([c] + rest)) == Run(l, if c == NEWLINE then p else AddChar(l, p, c), rest)
  {
    hide Run;
    var literal := p.(state := if p.state.Collect? then CollectLiteral else QcLiteral);
    RunOn(l, p, BACKSLASH, [c] + rest, literal);
    RunOn(l, literal, c, rest, if c == NEWLINE then p else AddChar(l, p, c));
  }

  /** Only printable words within the length limit are ever produced, and no more than allowed. */
  predicate WordsFit(l: Limits, p: Parse) {
    && WordFits(l, p.word) && (forall i :: 0 <= i < |p.words| ==> WordFits(l, p.words[i]))
    && (l.args == 0 || |p.words| <= l.args)
  }

  lemma {:induction false} StepWordsFit(l: Limits, p: Parse, ch: int)
    requires WordsFit(l, p)
    ensures WordsFit(l, Step(l, p, ch))
  {
    EndOfWordFits(l, p);
    AddCharFits(l, p, ch);
    AddCharFits(l, EndOfWord(l, p), ch);
    EndOfWordFits(l, AddChar(l, p, ch));
    EndOfWordFits(l, AddChar(l, EndOfWord(l, p), ch));
  }

  lemma {:induction false} AddCharFits(l: Limits, p: Parse, ch: int)
    requires WordsFit(l, p)
    ensures WordsFit(l, AddChar(l, p, ch))
  {
  }

  lemma {:induction false} EndOfWordFits(l: Limits, p: Parse)
    requires WordsFit(l, p)
    ensures WordsFit(l, EndOfWord(l, p))
  {
  }

  lemma {:induction false} RunWordsFit(l: Limits, p: Parse, input: seq<byte>)
    requires WordsFit(l, p)
    ensures WordsFit(l, Run(l, p, input).0)
    decreases input
  {
    if input != [] {
      StepWordsFit(l, p, input[0]);
      RunWordsFit(l, Step(l, p, input[0]), input[1..]);
    }
  }

  /** The words read back from a line holding one quoted encoded value. */
  function ReadBack(l: Limits, encoded: seq<byte>): (words: seq<seq<byte>>) {
    Line(l, FRESH, Enquote(encoded)).words
  }

  /**
   A value encoded into a buffer of n bytes, quoted and parsed, comes back exactly when it is
   printable, within the word limit, and its whole encoding fits.
   */
  lemma {:induction false} StoredValueRoundTripIff(l: Limits, raw: seq<byte>, n: nat)
    requires n >= 2
    ensures ReadBack(l, EncodeInto(raw, n)) == [raw] <==> WordFits(l, raw) && |Encode(raw)| < n
  {
    WholeFitsIff(raw, n - 1);
    QuotedPrefixIff(l, raw, FittingPrefix(raw, n - 1));
  }

  lemma {:induction false} QuotedPrefixIff(l: Limits, raw: seq<byte>, k: nat)
    requires k <= |raw|
    ensures ReadBack(l, Encode(raw[..k])) == [raw] <==> WordFits(l, raw) && k == |raw|
  {
    var words := Line(l, FRESH, Quoted(raw[..k])).words;
    if WordFits(l, raw) {
      LineRoundTripIff(l, FRESH, [raw[..k]]);
      assert Joined([raw[..k]]) == Quoted(raw[..k]);
      assert words == [raw[..k]];
      assert words == [raw] ==> words[0] == raw;
      assert k == |raw| ==> raw[..k] == raw;
    } else {
      LineWordsFit(l, Quoted(raw[..k]));
      assert forall i :: 0 <= i < |words| ==> WordFits(l, words[i]);
      assert |[raw]| == 1 && [raw][0] == raw;
    }
  }

  lemma {:induction false} LineWordsFit(l: Limits, line: seq<byte>)
    ensures WordsFit(l, Line(l, FRESH, line))
  {
    RunWordsFit(l, FRESH, line);
    EndOfWordFits(l, Run(l, FRESH, line).0);
  }
}
