/**
 Configuration lines as people write them: words, quoted or not, and equals signs, with blanks
 between them, ended by a newline, a comment or the end of the text. What the parser of
 src/common/parseconf.c makes of such a line is said without the parser's own functions.
 */
module ConfTokens {
  import opened CBytes
  import opened ParseConf

  /** The characters that the pieces of a word stand for. */
  function Letters(pieces: seq<Piece>): (r: seq<byte>) {
    if pieces == [] then [] else [pieces[0].c] + Letters(pieces[1..])
  }

  datatype Token = Sign | Term(quoted: bool, pieces: seq<Piece>)

  function TokenText(t: Token): (r: seq<byte>) {
    match t
    case Sign => [EQUALS]
    case Term(quoted, pieces) => if quoted then [QUOTE] + (Spell(pieces) + [QUOTE]) else Spell(pieces)
  }

  /** A word outside quotes has a first character, which is not a bare quotation mark. */
  predicate TokenOk(t: Token) {
    t.Term? ==> PiecesOk(t.quoted, t.pieces) && (t.quoted || (t.pieces != [] && t.pieces[0] != Bare(QUOTE)))
  }

  /** The word a token stands for: its printable characters, up to the word limit. */
  function TokenWord(l: Limits, t: Token): (w: seq<byte>) {
    if t.Sign? then [EQUALS] else Surviving(l, Letters(t.pieces))
  }

  predicate Unquoted(t: Token) {
    t.Term? && !t.quoted
  }

  datatype Item = Item(blanks: seq<byte>, token: Token)

  function ItemText(i: Item): (r: seq<byte>) {
    i.blanks + TokenText(i.token)
  }

  function ItemsText(items: seq<Item>): (r: seq<byte>) {
    if items == [] then [] else ItemText(items[0]) + ItemsText(items[1..])
  }

  /** Behind a word outside quotes another word needs a blank; nothing else does. */
  predicate ItemsOk(items: seq<Item>, behindWord: bool)
    decreases items
  {
    items == [] ||
    (&& Blanks(items[0].blanks) && TokenOk(items[0].token)
     && (behindWord && items[0].token.Term? ==> items[0].blanks != [])
     && ItemsOk(items[1..], Unquoted(items[0].token)))
  }

  function TokenWords(l: Limits, items: seq<Item>): (ws: seq<seq<byte>>)
    ensures |ws| == |items| && forall i :: 0 <= i < |items| ==> ws[i] == TokenWord(l, items[i].token)
  {
    seq(|items|, i requires 0 <= i < |items| => TokenWord(l, items[i].token))
  }

  lemma {:induction false} ItemsTextSnoc(items: seq<Item>, item: Item)
    ensures ItemsText(items + [item]) == ItemsText(items) + ItemText(item)
    decreases items
  {
    hide ItemText;
    if items == [] {
      assert items + [item] == [item] && [item][1..] == [];
    } else {
      assert (items + [item])[1..] == items[1..] + [item];
      ItemsTextSnoc(items[1..], item);
      Grouped(ItemText(items[0]), ItemsText(items[1..]), ItemText(item));
    }
  }

  predicate EndsInWord(items: seq<Item>) {
    items != [] && Unquoted(items[|items| - 1].token)
  }

  // ---------------------------------------------------------------- how the parser gets there

  /** The context behind some words, the last of which may still be open. */
  function Behind(l: Limits, us: seq<seq<byte>>, held: Option<seq<byte>>): (p: Parse) {
    if held.None? then Parse(FindWordStart, Capped(l, us), []) else Parse(Collect, Capped(l, us), held.value)
  }

  function All(us: seq<seq<byte>>, held: Option<seq<byte>>): (r: seq<seq<byte>>) {
    if held.None? then us else us + [held.value]
  }

  lemma {:induction false} SpellReads(l: Limits, p: Parse, v: seq<byte>, quoted: bool, pieces: seq<Piece>, tail: seq<byte>)
    requires p.state == BodyState(quoted) && PiecesOk(quoted, pieces) && p.word == Limited(l, v)
    ensures Run(l, p, Spell(pieces) + tail) == Run(l, p.(word := Limited(l, v + Visible(Letters(pieces)))), tail)
    decreases pieces
  {
    hide Run, Limited, Spell, AddChar, Stops, Shown;
    NextPiece(v, pieces, tail);
    if pieces != [] {
      var q := p.(word := Limited(l, v + Shown(pieces[0].c)));
      AddVisible(l, p, v, pieces[0].c);
      PieceReads(l, p, quoted, pieces[0], Spell(pieces[1..]) + tail);
      SpellReads(l, q, v + Shown(pieces[0].c), quoted, pieces[1..], tail);
    }
  }

  lemma {:induction false} NextPiece(v: seq<byte>, pieces: seq<Piece>, tail: seq<byte>)
    ensures pieces == [] ==> Spell(pieces) + tail == tail && v + Visible(Letters(pieces)) == v
    ensures pieces != [] ==> Spell(pieces) + tail == Written(pieces[0]) + (Spell(pieces[1..]) + tail)
    ensures pieces != [] ==> v + Visible(Letters(pieces)) == v + Shown(pieces[0].c) + Visible(Letters(pieces[1..]))
  {
    hide Written, Shown;
    if pieces == [] {
      assert Spell(pieces) == [] && Letters(pieces) == [] && Visible([]) == [];
    } else {
      Grouped(Written(pieces[0]), Spell(pieces[1..]), tail);
      assert Letters(pieces)[1..] == Letters(pieces[1..]) && Letters(pieces)[0] == pieces[0].c;
      Grouped(v, Shown(pieces[0].c), Visible(Letters(pieces[1..])));
    }
  }

  lemma {:induction false} PieceReads(l: Limits, p: Parse, quoted: bool, piece: Piece, tail: seq<byte>)
    requires p.state == BodyState(quoted) && (piece.Escaped? || !Stops(quoted, piece.c))
    ensures Run(l, p, Written(piece) + tail) == Run(l, AddChar(l, p, piece.c), tail)
  {
    hide Run;
    if piece.Escaped? {
      BackslashTakesNext(l, p, piece.c, tail);
      assert Written(piece) + tail == [BACKSLASH] + ([piece.c] + tail);
      assert AddChar(l, p, NEWLINE) == p;
    } else {
      RunOn(l, p, piece.c, tail, AddChar(l, p, piece.c));
    }
  }

  /** A blank ends a word outside quotes. */
  lemma {:induction false} BlanksSettle(l: Limits, us: seq<seq<byte>>, held: Option<seq<byte>>, blanks: seq<byte>, tail: seq<byte>)
    requires Blanks(blanks) && (held.Some? ==> blanks != [])
    ensures Run(l, Behind(l, us, held), blanks + tail) == Run(l, Behind(l, All(us, held), None), tail)
  {
    hide Run, Capped;
    if held.Some? {
      assert blanks + tail == [blanks[0]] + (blanks[1..] + tail);
      CapMore(l, Behind(l, us, held), us, held.value);
      RunOn(l, Behind(l, us, held), blanks[0], blanks[1..] + tail, Behind(l, All(us, held), None));
      BlanksRun(l, Behind(l, All(us, held), None), blanks[1..], tail);
    } else {
      BlanksRun(l, Behind(l, us, None), blanks, tail);
    }
  }

  /** An equals sign is a word of its own and ends the one before it. */
  lemma {:induction false} SignReads(l: Limits, us: seq<seq<byte>>, held: Option<seq<byte>>, tail: seq<byte>)
    ensures Run(l, Behind(l, us, held), [EQUALS] + tail) == Run(l, Behind(l, All(us, held) + [[EQUALS]], None), tail)
  {
    hide Run, Capped;
    var p := Behind(l, us, held);
    if held.Some? {
      CapMore(l, p, us, held.value);
    }
    var q := Behind(l, All(us, held), None);
    assert [] + [EQUALS] == [EQUALS];
    assert AddChar(l, q, EQUALS) == q.(word := [EQUALS]);
    CapMore(l, q, All(us, held), [EQUALS]);
    RunOn(l, p, EQUALS, tail, Behind(l, All(us, held) + [[EQUALS]], None));
  }

  lemma {:induction false} QuotedReads(l: Limits, us: seq<seq<byte>>, pieces: seq<Piece>, tail: seq<byte>)
    requires PiecesOk(true, pieces)
    ensures Run(l, Behind(l, us, None), [QUOTE] + (Spell(pieces) + [QUOTE]) + tail) ==
            Run(l, Behind(l, us + [Surviving(l, Letters(pieces))], None), tail)
  {
    hide Run, Capped, Limited, Spell;
    var p, word := Behind(l, us, None), Surviving(l, Letters(pieces));
    Grouped([QUOTE], Spell(pieces) + [QUOTE], tail);
    Grouped(Spell(pieces), [QUOTE], tail);
    var q := p.(state := QuoteCollect);
    RunOn(l, p, QUOTE, Spell(pieces) + ([QUOTE] + tail), q);
    assert Limited(l, []) <= [] && [] + Visible(Letters(pieces)) == Visible(Letters(pieces));
    SpellReads(l, q, [], true, pieces, [QUOTE] + tail);
    CapMore(l, p, us, word);
    RunOn(l, q.(word := word), QUOTE, tail, Behind(l, us + [word], None));
  }

  lemma {:induction false} UnquotedReads(l: Limits, us: seq<seq<byte>>, pieces: seq<Piece>, tail: seq<byte>)
    requires TokenOk(Term(false, pieces))
    ensures Run(l, Behind(l, us, None), Spell(pieces) + tail) ==
            Run(l, Behind(l, us, Some(Surviving(l, Letters(pieces)))), tail)
  {
    hide Run, Capped, Limited;
    var p, text := Behind(l, us, None), Spell(pieces) + tail;
    assert text != [] && text[0] == if pieces[0].Bare? then pieces[0].c else BACKSLASH;
    WordStarts(l, p, text);
    assert Limited(l, []) <= [] && [] + Visible(Letters(pieces)) == Visible(Letters(pieces));
    SpellReads(l, p.(state := Collect), [], false, pieces, tail);
  }

  lemma {:induction false} ItemReads(l: Limits, us: seq<seq<byte>>, held: Option<seq<byte>>, item: Item, tail: seq<byte>)
    requires Blanks(item.blanks) && TokenOk(item.token) && (held.Some? && item.token.Term? ==> item.blanks != [])
    ensures var w := TokenWord(l, item.token);
            Run(l, Behind(l, us, held), ItemText(item) + tail) ==
            if Unquoted(item.token) then Run(l, Behind(l, All(us, held), Some(w)), tail)
            else Run(l, Behind(l, All(us, held) + [w], None), tail)
  {
    hide Run, Behind, Spell, Surviving;
    var text := TokenText(item.token) + tail;
    Grouped(item.blanks, TokenText(item.token), tail);
    if item.blanks == [] {
      assert item.blanks + text == text;
    } else {
      BlanksSettle(l, us, held, item.blanks, text);
    }
    match item.token
    case Sign =>
      SignReads(l, us, held, tail);
      SignReads(l, All(us, held), None, tail);
    case Term(quoted, pieces) =>
      if quoted {
        QuotedReads(l, All(us, held), pieces, tail);
      } else {
        UnquotedReads(l, All(us, held), pieces, tail);
      }
  }

  lemma {:induction false} ItemsRead(l: Limits, us: seq<seq<byte>>, held: Option<seq<byte>>, items: seq<Item>, tail: seq<byte>)
    returns (us': seq<seq<byte>>, held': Option<seq<byte>>)
    requires ItemsOk(items, held.Some?)
    ensures Run(l, Behind(l, us, held), ItemsText(items) + tail) == Run(l, Behind(l, us', held'), tail)
    ensures All(us', held') == All(us, held) + TokenWords(l, items)
    ensures held'.Some? <==> if items == [] then held.Some? else EndsInWord(items)
    decreases items
  {
    hide Run, Behind, ItemText, TokenWord, TokenOk, Blanks;
    if items == [] {
      us', held' := us, held;
      assert ItemsText(items) + tail == tail && All(us, held) + TokenWords(l, items) == All(us, held);
    } else {
      var rest, w := items[1..], TokenWord(l, items[0].token);
      Grouped(ItemText(items[0]), ItemsText(rest), tail);
      ItemReads(l, us, held, items[0], ItemsText(rest) + tail);
      if Unquoted(items[0].token) {
        us', held' := ItemsRead(l, All(us, held), Some(w), rest, tail);
      } else {
        us', held' := ItemsRead(l, All(us, held) + [w], None, rest, tail);
      }
      assert All(us, held) + [w] + TokenWords(l, rest) == All(us, held) + TokenWords(l, items);
      assert rest != [] ==> rest[|rest| - 1] == items[|items| - 1];
    }
  }

  // ---------------------------------------------------------------- lines

  /** A newline, behind a comment or not, with whatever follows it. */
  function LineEnd(comment: Option<seq<byte>>, rest: seq<byte>): (r: seq<byte>) {
    (if comment.Some? then [HASH] + comment.value else []) + ([NEWLINE] + rest)
  }

  function LineText(items: seq<Item>, blanks: seq<byte>, end: seq<byte>): (r: seq<byte>) {
    ItemsText(items) + (blanks + end)
  }

  lemma {:induction false} EndReads(l: Limits, us: seq<seq<byte>>, held: Option<seq<byte>>, comment: Option<seq<byte>>, rest: seq<byte>)
    requires comment.Some? ==> NEWLINE !in comment.value
    ensures Run(l, Behind(l, us, held), LineEnd(comment, rest)) == (Parse(EndOfLine, Capped(l, All(us, held)), []), rest)
  {
    hide Run, Capped;
    var p := Behind(l, us, held);
    if held.Some? {
      CapMore(l, p, us, held.value);
    }
    match comment
    case None =>
      assert LineEnd(comment, rest) == [NEWLINE] + rest;
      RunDone(l, p, NEWLINE, rest, Parse(EndOfLine, Capped(l, All(us, held)), []));
    case Some(text) =>
      Grouped([HASH], text, [NEWLINE] + rest);
      if held.Some? {
        CommentEndsWord(l, p, text, rest);
      } else {
        CommentHidden(l, p, text, rest);
      }
  }

  lemma {:induction false} LineRuns(l: Limits, items: seq<Item>, blanks: seq<byte>, comment: Option<seq<byte>>, rest: seq<byte>)
    requires ItemsOk(items, false) && Blanks(blanks) && (comment.Some? ==> NEWLINE !in comment.value)
    ensures Run(l, FRESH, LineText(items, blanks, LineEnd(comment, rest))) ==
            (Parse(EndOfLine, Capped(l, TokenWords(l, items)), []), rest)
  {
    hide Run, ItemsText, TokenWords, LineEnd;
    var end := LineEnd(comment, rest);
    assert Behind(l, [], None) == FRESH;
    var us, held := ItemsRead(l, [], None, items, blanks + end);
    assert [] + TokenWords(l, items) == TokenWords(l, items);
    if blanks == [] {
      assert blanks + end == end;
      EndReads(l, us, held, comment, rest);
    } else {
      BlanksSettle(l, us, held, blanks, end);
      EndReads(l, All(us, held), None, comment, rest);
    }
  }

  /**
   A line of tokens that a newline ends, behind a comment or not: every reader yields exactly
   the words the tokens stand for, in order, up to the argument limit, and stops behind the newline.
   */
  lemma {:induction false} LineOfTokens(l: Limits, p: Parse, items: seq<Item>, blanks: seq<byte>, comment: Option<seq<byte>>,
                                        rest: seq<byte>)
    requires p.word == [] && ItemsOk(items, false) && Blanks(blanks) && (comment.Some? ==> NEWLINE !in comment.value)
    ensures var text, words := LineText(items, blanks, LineEnd(comment, rest)), Capped(l, TokenWords(l, items));
            && Line(l, p, text) == Parse(EndOfLine, words, [])
            && FileNext(l, p, text) == Next(Parse(EndOfLine, words, []), rest, true)
            && Chars(l, FRESH, text) == (Parse(EndOfLine, words, []), rest)
  {
    hide Run, LineText, TokenWords, LineEnd, Chars;
    LineRuns(l, items, blanks, comment, rest);
    CharsIsRun(l, FRESH, LineText(items, blanks, LineEnd(comment, rest)));
  }

  /** What an unfinished end adds: its word, unless nothing in it is printable. */
  function OpenWord(l: Limits, o: Open): (ws: seq<seq<byte>>) {
    if !o.Word? || Visible(Letters(o.pieces)) == [] then [] else [Surviving(l, Letters(o.pieces))]
  }

  lemma {:induction false} OpenReads(l: Limits, us: seq<seq<byte>>, o: Open)
    requires OpenOk(o)
    ensures var r := Run(l, Behind(l, us, None), OpenText(o));
            && !Done(r.0) && r.0.words == Capped(l, us) && r.1 == []
            && (r.0.word == [] <==> OpenWord(l, o) == []) && (r.0.word != [] ==> OpenWord(l, o) == [r.0.word])
  {
    hide Run, Capped, Spell;
    var p := Behind(l, us, None);
    match o
    case Nothing => RunNothing(l, p);
    case Comment(text) =>
      RunOn(l, p, HASH, text, p.(state := FindEol));
      CommentRuns(l, p.(state := FindEol), text);
    case Word(quoted, pieces, cut) =>
      OpenWordReads(l, us, quoted, pieces, cut);
  }

  lemma {:induction false} OpenWordReads(l: Limits, us: seq<seq<byte>>, quoted: bool, pieces: seq<Piece>, cut: bool)
    requires OpenOk(Word(quoted, pieces, cut))
    ensures var r := Run(l, Behind(l, us, None), OpenText(Word(quoted, pieces, cut)));
            !Done(r.0) && r.0.words == Capped(l, us) && r.1 == [] && r.0.word == Surviving(l, Letters(pieces))
  {
    hide Run, Capped, Surviving, Spell;
    var p, end := Behind(l, us, None), if cut then [BACKSLASH] else [];
    var body, text := p.(state := BodyState(quoted)), Spell(pieces) + end;
    BareStart(pieces, cut);
    if quoted {
      assert OpenText(Word(quoted, pieces, cut)) == [QUOTE] + text;
      RunOn(l, p, QUOTE, text, body);
    } else {
      assert OpenText(Word(quoted, pieces, cut)) == text;
      WordStarts(l, p, text);
    }
    NothingYet(l, pieces);
    SpellReads(l, body, [], quoted, pieces, end);
    CutReads(l, body.(word := Surviving(l, Letters(pieces))), quoted, cut);
  }

  lemma {:induction false} CutReads(l: Limits, p: Parse, quoted: bool, cut: bool)
    requires p.state == BodyState(quoted)
    ensures var r := Run(l, p, if cut then [BACKSLASH] else []);
            !Done(r.0) && r.0.words == p.words && r.1 == [] && r.0.word == p.word
  {
    hide Run;
    if cut {
      var literal := p.(state := if quoted then QcLiteral else CollectLiteral);
      RunOn(l, p, BACKSLASH, [], literal);
      assert [BACKSLASH] + [] == [BACKSLASH];
      RunNothing(l, literal);
    } else {
      RunNothing(l, p);
    }
  }

  lemma {:induction false} NothingYet(l: Limits, pieces: seq<Piece>)
    ensures Limited(l, []) == [] && Limited(l, [] + Visible(Letters(pieces))) == Surviving(l, Letters(pieces))
  {
    assert [] + Visible(Letters(pieces)) == Visible(Letters(pieces));
  }

  lemma {:induction false} TextRuns(l: Limits, items: seq<Item>, blanks: seq<byte>, o: Open)
    requires ItemsOk(items, false) && Blanks(blanks) && OpenOk(o)
    requires EndsInWord(items) && !o.Comment? ==> blanks != []
    ensures var r := Run(l, FRESH, LineText(items, blanks, OpenText(o)));
            && !Done(r.0) && r.0.words == Capped(l, TokenWords(l, items)) && r.1 == []
            && (r.0.word == [] <==> OpenWord(l, o) == []) && (r.0.word != [] ==> OpenWord(l, o) == [r.0.word])
  {
    hide Run, ItemsText, TokenWords, OpenText, Capped, OpenWord, Done;
    Fresh(l);
    var end, words := OpenText(o), TokenWords(l, items);
    var us, held := ItemsRead(l, [], None, items, blanks + end);
    assert [] + words == words;
    if held.Some? && blanks == [] {
      assert blanks + end == end;
      CommentBehindWord(l, us, held.value, o);
    } else {
      if blanks == [] {
        assert blanks + end == end;
      } else {
        BlanksSettle(l, us, held, blanks, end);
      }
      OpenReads(l, All(us, held), o);
    }
  }

  /**
   Tokens that nothing ends but the end of the text, with an unfinished word or comment behind
   them or not: the string reader yields all their words, the file reader the same, except that
   it yields nothing when the unfinished word would be the only one.
   */
  lemma {:induction false} TextOfTokens(l: Limits, p: Parse, items: seq<Item>, blanks: seq<byte>, o: Open)
    requires p.word == [] && ItemsOk(items, false) && Blanks(blanks) && OpenOk(o)
    requires EndsInWord(items) && !o.Comment? ==> blanks != []
    ensures var text, words := LineText(items, blanks, OpenText(o)), TokenWords(l, items);
            && Line(l, p, text).words == Capped(l, words + OpenWord(l, o))
            && FileNext(l, p, text).parse.words == (if words == [] then [] else Capped(l, words + OpenWord(l, o)))
            && FileNext(l, p, text).rest == [] && (FileNext(l, p, text).more <==> words != [])
            && !FileNext(l, p, text).parse.state.ParseErr?
  {
    hide Run, LineText, TokenWords, OpenText, Capped, OpenWord, ItemsOk, OpenOk, EndsInWord;
    var words := TokenWords(l, items);
    TextRuns(l, items, blanks, o);
    var q := Run(l, FRESH, LineText(items, blanks, OpenText(o))).0;
    assert Begin(p) == FRESH;
    CappedEmpty(l, words);
    CapMore(l, q, words, q.word);
    assert words + [] == words;
  }

  lemma {:induction false} Fresh(l: Limits)
    ensures Behind(l, [], None) == FRESH
  {
  }

  lemma {:induction false} CappedEmpty(l: Limits, words: seq<seq<byte>>)
    ensures Capped(l, words) == [] <==> words == []
  {
  }

  lemma {:induction false} CommentBehindWord(l: Limits, us: seq<seq<byte>>, w: seq<byte>, o: Open)
    requires OpenOk(o) && o.Comment?
    ensures var r := Run(l, Behind(l, us, Some(w)), OpenText(o));
            !Done(r.0) && r.0.words == Capped(l, us + [w]) && r.0.word == [] && r.1 == []
    ensures OpenWord(l, o) == []
  {
    hide Run, Capped;
    var p := Behind(l, us, Some(w));
    CapMore(l, p, us, w);
    var q := Parse(FindEol, Capped(l, us + [w]), []);
    RunOn(l, p, HASH, o.text, q);
    CommentRuns(l, q, o.text);
  }

  // ---------------------------------------------------------------- words as tokens

  /** Bytes 0x21 to 0x7f without number sign, backslash and equals sign, not beginning with a quotation mark. */
  predicate Plain(w: seq<byte>) {
    && w != [] && w[0] != 34
    && forall i :: 0 <= i < |w| ==> 0x21 <= w[i] <= 0x7f && w[i] != 35 && w[i] != 92 && w[i] != 61
  }

  function BareWord(w: seq<byte>): (t: Token) {
    Term(false, seq(|w|, i requires 0 <= i < |w| => Bare(w[i])))
  }

  /** A plain word needs no quotes. */
  lemma {:induction false} PlainReads(l: Limits, w: seq<byte>)
    requires Plain(w) && (l.wordLen == 0 || |w| <= l.wordLen)
    ensures var t := BareWord(w); TokenOk(t) && Unquoted(t) && TokenText(t) == w && TokenWord(l, t) == w
  {
    SpellBare(w, BareWord(w).pieces);
    LettersAre(w, BareWord(w).pieces);
    SurvivesWhole(l, w);
  }

  lemma {:induction false} SurvivesWhole(l: Limits, w: seq<byte>)
    requires WordFits(l, w)
    ensures Visible(w) == w && Surviving(l, w) == w
  {
    VisibleIff(w);
  }

  lemma {:induction false} SpellBare(w: seq<byte>, pieces: seq<Piece>)
    requires |pieces| == |w| && forall i :: 0 <= i < |w| ==> pieces[i] == Bare(w[i])
    ensures Spell(pieces) == w
    decreases w
  {
    if w != [] {
      SpellBare(w[1..], pieces[1..]);
      assert w == [w[0]] + w[1..];
    }
  }

  lemma {:induction false} LettersAre(w: seq<byte>, pieces: seq<Piece>)
    requires |pieces| == |w| && forall i :: 0 <= i < |w| ==> pieces[i].c == w[i]
    ensures Letters(pieces) == w
    decreases w
  {
    if w != [] {
      LettersAre(w[1..], pieces[1..]);
      assert w == [w[0]] + w[1..];
    }
  }

  lemma {:induction false} PlainIsOpen(l: Limits, w: seq<byte>)
    requires Plain(w) && (l.wordLen == 0 || |w| <= l.wordLen)
    ensures var o := Word(false, BareWord(w).pieces, false);
            OpenOk(o) && OpenText(o) == w && OpenWord(l, o) == [w]
  {
    hide Spell, Letters, Visible, Surviving;
    var pieces := BareWord(w).pieces;
    SpellBare(w, pieces);
    LettersAre(w, pieces);
    SurvivesWhole(l, w);
    assert [] + (w + []) == w;
  }

  /** Number sign, backslash and quotation mark behind a backslash, the rest as it is. */
  function QuotedWord(w: seq<byte>): (t: Token) {
    Term(true, seq(|w|, i requires 0 <= i < |w| =>
                          if w[i] == 35 || w[i] == 92 || w[i] == 34 then Escaped(w[i]) else Bare(w[i])))
  }

  /** The encoder's output between quotes is a quoted word of the grammar. */
  lemma {:induction false} QuotedIsToken(l: Limits, w: seq<byte>)
    ensures var t := QuotedWord(w); TokenOk(t) && TokenText(t) == Quoted(w) && TokenWord(l, t) == Surviving(l, w)
  {
    SpellEncoded(w, QuotedWord(w).pieces);
    LettersAre(w, QuotedWord(w).pieces);
    Grouped([QUOTE], Encode(w), [QUOTE]);
  }

  lemma {:induction false} SpellEncoded(w: seq<byte>, pieces: seq<Piece>)
    requires |pieces| == |w|
    requires forall i :: 0 <= i < |w| ==>
                           pieces[i] == if w[i] == 35 || w[i] == 92 || w[i] == 34 then Escaped(w[i]) else Bare(w[i])
    ensures Spell(pieces) == Encode(w)
    decreases w
  {
    if w != [] {
      SpellEncoded(w[1..], pieces[1..]);
    }
  }
}
