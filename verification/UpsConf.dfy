/** The ups.conf reader of src/common/upsconf.c, layered on the parser context. */
module UpsConf {
  import opened CBytes
  import opened ConfTokens
  import opened ParseConf
  import opened PconfContext

  const OPEN: byte := 91
  const CLOSE: byte := 93

  /** One call of do_upsconf_args; a flag has no value. */
  datatype Call = Call(section: Option<seq<byte>>, name: seq<byte>, value: Option<seq<byte>>)

  predicate IsHeader(w: seq<byte>) {
    w != [] && w[0] == OPEN && w[|w| - 1] == CLOSE
  }

  function HeaderName(w: seq<byte>): (name: seq<byte>)
    requires IsHeader(w)
  {
    w[1..|w| - 1]
  }

  function SectionAfter(section: Option<seq<byte>>, words: seq<seq<byte>>): (s: Option<seq<byte>>) {
    if words != [] && IsHeader(words[0]) then Some(HeaderName(words[0])) else section
  }

  function CallsOf(section: Option<seq<byte>>, words: seq<seq<byte>>): (calls: seq<Call>) {
    if words == [] || IsHeader(words[0]) then []
    else if |words| == 1 then [Call(section, words[0], None)]
    else if |words| >= 3 && words[1] == [EQUALS] then [Call(section, words[0], Some(words[2]))]
    else []
  }

  /** All calls made while reading the rest of a file; behind a parse error reading goes on where it stopped. */
  function Read(l: Limits, p: Parse, file: seq<byte>, section: Option<seq<byte>>): (calls: seq<Call>)
    decreases |file|
  {
    var r := FileNext(l, p, file);
    if !r.more then []
    else if r.parse.state.ParseErr? then Read(l, r.parse, r.rest, section)
    else CallsOf(section, r.parse.words) + Read(l, r.parse, r.rest, SectionAfter(section, r.parse.words))
  }

  lemma {:induction false} ReadOne(l: Limits, p: Parse, file: seq<byte>, section: Option<seq<byte>>, q: Parse)
    requires var r := FileNext(l, p, file); r.more && r.parse.word == q.word
    ensures Read(l, p, file, section) ==
            var r := FileNext(l, p, file);
            if r.parse.state.ParseErr? then Read(l, q, r.rest, section)
            else CallsOf(section, r.parse.words) + Read(l, q, r.rest, SectionAfter(section, r.parse.words))
  {
    var r := FileNext(l, p, file);
    ReadFrom(l, r.parse, q, r.rest, section);
    ReadFrom(l, r.parse, q, r.rest, SectionAfter(section, r.parse.words));
  }

  lemma {:induction false} ReadNone(l: Limits, p: Parse, file: seq<byte>, section: Option<seq<byte>>)
    requires !FileNext(l, p, file).more
    ensures Read(l, p, file, section) == []
  {
  }

  /** What was parsed before only matters through the word buffer. */
  lemma {:induction false} ReadFrom(l: Limits, p: Parse, q: Parse, file: seq<byte>, section: Option<seq<byte>>)
    requires p.word == q.word
    ensures Read(l, p, file, section) == Read(l, q, file, section)
  {
    assert Begin(p) == Begin(q);
  }

  /** The header branch: the closing bracket is overwritten and the name copied from behind the opening one. */
  method TakeHeader(ctx: Context) returns (name: seq<byte>)
    requires ctx.Valid() && ctx.words != [] && IsHeader(ctx.words[0])
    modifies ctx`words, ctx.arglist
    ensures ctx.Valid() && name == HeaderName(old(ctx.words[0]))
  {
    ghost var w := ctx.words[0];
    ctx.ChopFirstArgument();
    var chopped := ctx.Argument(0);
    name := chopped[1..];
    assert chopped == w[..|w| - 1];
  }

  method ConfArgs(ctx: Context, section: Option<seq<byte>>) returns (section': Option<seq<byte>>, calls: seq<Call>)
    requires ctx.Valid()
    modifies ctx`words, ctx.arglist
    ensures ctx.Valid()
    ensures section' == SectionAfter(section, old(ctx.words))
    ensures calls == CallsOf(section, old(ctx.words))
  {
    section', calls := section, [];
    if ctx.numargs < 1 {
      return;
    }
    var first := ctx.Argument(0);
    if first != [] && first[0] == OPEN && first[|first| - 1] == CLOSE {
      var name := TakeHeader(ctx);
      section' := Some(name);
      return;
    }
    if ctx.numargs == 1 {
      calls := [Call(section, first, None)];
      return;
    }
    if ctx.numargs < 3 {
      return;
    }
    var second := ctx.Argument(1);
    if second == [EQUALS] {
      var third := ctx.Argument(2);
      calls := [Call(section, first, Some(third))];
    }
  }

  /** One turn of the reading loop. */
  method ReadLine(ctx: Context, section: Option<seq<byte>>)
    returns (more: bool, section': Option<seq<byte>>, calls: seq<Call>)
    requires ctx.Valid() && !ctx.error
    modifies ctx, ctx.wordbuf, ctx.arglist
    ensures ctx.Valid() && !ctx.error && ctx.FreshGrowth() && ctx.Limits() == old(ctx.Limits())
    ensures more ==> |ctx.file| < |old(ctx.file)|
    ensures old(Read(ctx.Limits(), ctx.View(), ctx.file, section)) ==
            calls + if more then Read(ctx.Limits(), ctx.View(), ctx.file, section') else []
  {
    hide FileNext, Read, CallsOf, SectionAfter;
    section', calls := section, [];
    ghost var p, rest := ctx.View(), ctx.file;
    more := ctx.PconfFileNext();
    if more {
      var failed := ctx.PconfParseError();
      if !failed {
        section', calls := ConfArgs(ctx, section);
      }
      ReadOne(ctx.Limits(), p, rest, section, ctx.View());
    } else {
      ReadNone(ctx.Limits(), p, rest, section);
    }
  }

  method ReadUpsconf(file: seq<byte>) returns (calls: seq<Call>)
    ensures calls == Read(DEFAULTS, FRESH, file, None)
  {
    hide Read;
    calls := [];
    var ctx := new Context(file);
    var more, section, made := true, None, [];
    while more
      invariant fresh(ctx) && ctx.Valid() && fresh(ctx.wordbuf) && !ctx.error
      invariant forall i :: 0 <= i < |ctx.arglist| ==> fresh(ctx.arglist[i])
      invariant ctx.Limits() == DEFAULTS
      invariant Read(DEFAULTS, FRESH, file, None) ==
                calls + if more then Read(DEFAULTS, ctx.View(), ctx.file, section) else []
      decreases more, |ctx.file|
    {
      more, section, made := ReadLine(ctx, section);
      calls := calls + made;
    }
  }

  // ---------------------------------------------------------------- one line

  /**
   A line of tokens that a newline ends: in the words its tokens stand for, the first alone is a
   flag, a bracketed first one names the section whatever follows it, an equals sign in second
   place gives the first word the third as its value whatever follows that, and anything else
   is ignored. Reading goes on behind the newline.
   */
  lemma {:induction false} TokenLineRead(p: Parse, items: seq<Item>, blanks: seq<byte>, comment: Option<seq<byte>>,
                                         rest: seq<byte>, section: Option<seq<byte>>)
    requires p.word == [] && ItemsOk(items, false) && Blanks(blanks) && (comment.Some? ==> NEWLINE !in comment.value)
    ensures var words := TokenWords(DEFAULTS, items);
            Read(DEFAULTS, p, LineText(items, blanks, LineEnd(comment, rest)), section) ==
            if items == [] then Read(DEFAULTS, FRESH, rest, section)
            else if Bracketed(words[0]) then Read(DEFAULTS, FRESH, rest, Some(words[0][1..|words[0]| - 1]))
            else if |items| == 1 then [Call(section, words[0], None)] + Read(DEFAULTS, FRESH, rest, section)
            else if |items| >= 3 && words[1] == [61] then
              [Call(section, words[0], Some(words[2]))] + Read(DEFAULTS, FRESH, rest, section)
            else Read(DEFAULTS, FRESH, rest, section)
  {
    hide Read, LineText, LineEnd, ItemsOk, TokenWords, FileNext;
    var words := TokenWords(DEFAULTS, items);
    LineOfTokens(DEFAULTS, p, items, blanks, comment, rest);
    var q := Parse(EndOfLine, Capped(DEFAULTS, words), []);
    ReadOne(DEFAULTS, p, LineText(items, blanks, LineEnd(comment, rest)), section, FRESH);
    NothingMore(Read(DEFAULTS, FRESH, rest, SectionAfter(section, q.words)));
  }

  lemma {:induction false} NothingMore(calls: seq<Call>)
    ensures [] + calls == calls
  {
  }

  predicate Bracketed(w: seq<byte>) {
    w != [] && w[0] == 91 && w[|w| - 1] == 93
  }

  // ------------------------------------------------------- printing and reading back

  /** Blanks before and behind what a line says, and a comment if it has one. */
  datatype Layout = Layout(lead: seq<byte>, trail: seq<byte>, comment: Option<seq<byte>>)

  /**
   A line as a person writes it. A pair's value is a bare word or stands in quotes, with any
   blanks round the equals sign and any further tokens behind it.
   */
  datatype Setting =
    | Remark(layout: Layout)
    | Flag(name: seq<byte>, layout: Layout)
    | Pair(name: seq<byte>, before: seq<byte>, after: seq<byte>, quoted: bool, value: seq<byte>, extra: seq<Item>,
           layout: Layout)

  datatype Section = Section(name: seq<byte>, extra: seq<Item>, layout: Layout, settings: seq<Setting>)

  predicate LayoutOk(y: Layout) {
    Blanks(y.lead) && Blanks(y.trail) && (y.comment.Some? ==> NEWLINE !in y.comment.value)
  }

  predicate NameOk(w: seq<byte>) {
    Plain(w) && |w| <= 512
  }

  predicate ValueOk(quoted: bool, w: seq<byte>) {
    |w| <= 512 && if quoted then forall i :: 0 <= i < |w| ==> 0x20 <= w[i] <= 0x7f else Plain(w)
  }

  predicate SettingOk(s: Setting) {
    && LayoutOk(s.layout)
    && (!s.Remark? ==> NameOk(s.name) && !Bracketed(s.name))
    && (s.Pair? ==> Blanks(s.before) && Blanks(s.after) && ValueOk(s.quoted, s.value) && ItemsOk(s.extra, !s.quoted))
  }

  predicate SectionOk(s: Section) {
    && NameOk([OPEN] + s.name + [CLOSE]) && ItemsOk(s.extra, true) && LayoutOk(s.layout)
    && forall i :: 0 <= i < |s.settings| ==> SettingOk(s.settings[i])
  }

  function ValueToken(quoted: bool, value: seq<byte>): (t: Token) {
    if quoted then QuotedWord(value) else BareWord(value)
  }

  function SettingItems(s: Setting): (items: seq<Item>) {
    match s
    case Remark(_) => []
    case Flag(name, layout) => [Item(layout.lead, BareWord(name))]
    case Pair(name, before, after, quoted, value, extra, layout) =>
      [Item(layout.lead, BareWord(name)), Item(before, Sign), Item(after, ValueToken(quoted, value))] + extra
  }

  function HeaderItems(s: Section): (items: seq<Item>) {
    [Item(s.layout.lead, BareWord([OPEN] + s.name + [CLOSE]))] + s.extra
  }

  function PrintLine(items: seq<Item>, y: Layout): (r: seq<byte>) {
    LineText(items, y.trail, LineEnd(y.comment, []))
  }

  function PrintSetting(s: Setting): (r: seq<byte>) {
    PrintLine(SettingItems(s), s.layout)
  }

  function PrintSettings(ss: seq<Setting>): (r: seq<byte>) {
    if ss == [] then [] else PrintSetting(ss[0]) + PrintSettings(ss[1..])
  }

  function PrintSections(cs: seq<Section>): (r: seq<byte>) {
    if cs == [] then []
    else PrintLine(HeaderItems(cs[0]), cs[0].layout) + (PrintSettings(cs[0].settings) + PrintSections(cs[1..]))
  }

  /** A bare pair is its name, equals sign and value with the blanks between them, and nothing else. */
  lemma {:induction false} BarePairText(name: seq<byte>, before: seq<byte>, after: seq<byte>, value: seq<byte>)
    requires NameOk(name) && ValueOk(false, value)
    ensures PrintSetting(Pair(name, before, after, false, value, [], Layout([], [], None))) ==
            name + (before + [61]) + (after + value) + [10]
  {
    hide BareWord, ItemsText, Plain;
    PlainFits(value);
    PairText([], name, before);
    var pair, last := [Item([], BareWord(name)), Item(before, Sign)], Item(after, BareWord(value));
    ItemsTextSnoc(pair, last);
    assert SettingItems(Pair(name, before, after, false, value, [], Layout([], [], None))) == pair + [last];
    assert [] + name == name && [] + ([] + ([10] + [])) == [10];
  }

  lemma {:induction false} PlainFits(w: seq<byte>)
    requires NameOk(w)
    ensures var t := BareWord(w); TokenOk(t) && Unquoted(t) && TokenText(t) == w && TokenWord(DEFAULTS, t) == w
  {
    PlainReads(DEFAULTS, w);
  }

  lemma {:induction false} ValueFits(quoted: bool, w: seq<byte>)
    requires ValueOk(quoted, w)
    ensures var t := ValueToken(quoted, w); TokenOk(t) && Unquoted(t) == !quoted && TokenWord(DEFAULTS, t) == w
  {
    if quoted {
      QuotedIsToken(DEFAULTS, w);
      SurvivesWhole(DEFAULTS, w);
    } else {
      PlainReads(DEFAULTS, w);
    }
  }

  function SettingCalls(section: Option<seq<byte>>, s: Setting): (r: seq<Call>) {
    match s
    case Remark(_) => []
    case Flag(name, _) => [Call(section, name, None)]
    case Pair(name, _, _, _, value, _, _) => [Call(section, name, Some(value))]
  }

  function SettingsCalls(section: Option<seq<byte>>, ss: seq<Setting>): (r: seq<Call>) {
    if ss == [] then [] else SettingCalls(section, ss[0]) + SettingsCalls(section, ss[1..])
  }

  function SectionCalls(cs: seq<Section>): (r: seq<Call>) {
    if cs == [] then []
    else SettingsCalls(Some(cs[0].name), cs[0].settings) + SectionCalls(cs[1..])
  }

  lemma {:induction false} SettingTokens(s: Setting)
    requires SettingOk(s)
    ensures ItemsOk(SettingItems(s), false)
    ensures s.Flag? ==> TokenWord(DEFAULTS, SettingItems(s)[0].token) == s.name
    ensures s.Pair? ==> var i := SettingItems(s);
                        && TokenWord(DEFAULTS, i[0].token) == s.name && TokenWord(DEFAULTS, i[1].token) == [61]
                        && TokenWord(DEFAULTS, i[2].token) == s.value
  {
    hide BareWord, ValueToken, Plain, TokenOk;
    match s
    case Remark(_) =>
    case Flag(name, _) =>
      PlainFits(name);
      assert SettingItems(s)[1..] == [];
    case Pair(name, before, after, quoted, value, extra, layout) =>
      PairTokens(name, before, after, quoted, value, extra, layout);
  }

  lemma {:induction false} PairTokens(name: seq<byte>, before: seq<byte>, after: seq<byte>, quoted: bool, value: seq<byte>,
                                      extra: seq<Item>, y: Layout)
    requires SettingOk(Pair(name, before, after, quoted, value, extra, y))
    ensures var i := SettingItems(Pair(name, before, after, quoted, value, extra, y));
            && ItemsOk(i, false)
            && TokenWord(DEFAULTS, i[0].token) == name && TokenWord(DEFAULTS, i[1].token) == [61]
            && TokenWord(DEFAULTS, i[2].token) == value
  {
    hide BareWord, ValueToken, Plain, TokenOk, TokenWord, Unquoted, Bracketed, Blanks, ValueOk;
    var first, sign, last := Item(y.lead, BareWord(name)), Item(before, Sign), Item(after, ValueToken(quoted, value));
    PlainFits(name);
    ValueFits(quoted, value);
    SignOk();
    OneMore(last, extra, false);
    OneMore(sign, [last] + extra, true);
    OneMore(first, [sign] + ([last] + extra), false);
    assert [first, sign, last] + extra == [first] + ([sign] + ([last] + extra));
  }

  lemma {:induction false} OneMore(item: Item, items: seq<Item>, behindWord: bool)
    requires Blanks(item.blanks) && TokenOk(item.token) && (behindWord && item.token.Term? ==> item.blanks != [])
    requires ItemsOk(items, Unquoted(item.token))
    ensures ItemsOk([item] + items, behindWord)
  {
    assert ([item] + items)[1..] == items;
  }

  lemma {:induction false} SignOk()
    ensures TokenOk(Sign) && !Unquoted(Sign) && TokenWord(DEFAULTS, Sign) == [61]
  {
  }

  lemma {:induction false} PrintedLine(items: seq<Item>, y: Layout, rest: seq<byte>)
    ensures PrintLine(items, y) + rest == LineText(items, y.trail, LineEnd(y.comment, rest))
  {
    hide ItemsText;
    var start := if y.comment.Some? then [HASH] + y.comment.value else [];
    assert [NEWLINE] + [] + rest == [NEWLINE] + rest;
    Grouped(start, [NEWLINE] + [], rest);
    Grouped(y.trail, LineEnd(y.comment, []), rest);
    Grouped(ItemsText(items), y.trail + LineEnd(y.comment, []), rest);
  }

  /** A printed line makes its call, if it is not just a remark, in the current section, and reading goes on behind it. */
  lemma {:induction false} ReadsSetting(s: Setting, rest: seq<byte>, p: Parse, section: Option<seq<byte>>)
    requires SettingOk(s) && p.word == []
    ensures Read(DEFAULTS, p, PrintSetting(s) + rest, section) ==
            SettingCalls(section, s) + Read(DEFAULTS, FRESH, rest, section)
  {
    hide Read, LineText, LineEnd, ItemsOk, TokenWord, BareWord, ValueToken, PrintLine, Plain;
    SettingTokens(s);
    PrintedLine(SettingItems(s), s.layout, rest);
    TokenLineRead(p, SettingItems(s), s.layout.trail, s.layout.comment, rest, section);
    NothingMore(Read(DEFAULTS, FRESH, rest, section));
  }

  lemma {:induction false} ReadsSettings(ss: seq<Setting>, rest: seq<byte>, p: Parse, section: Option<seq<byte>>)
    requires p.word == [] && forall i :: 0 <= i < |ss| ==> SettingOk(ss[i])
    ensures Read(DEFAULTS, p, PrintSettings(ss) + rest, section) ==
            SettingsCalls(section, ss) + Read(DEFAULTS, FRESH, rest, section)
    decreases ss
  {
    hide Read, PrintSetting, SettingOk, SettingCalls;
    if ss == [] {
      assert PrintSettings(ss) + rest == rest;
      ReadFrom(DEFAULTS, p, FRESH, rest, section);
    } else {
      var tail := PrintSettings(ss[1..]) + rest;
      Grouped(PrintSetting(ss[0]), PrintSettings(ss[1..]), rest);
      ReadsSetting(ss[0], tail, p, section);
      ReadsSettings(ss[1..], rest, FRESH, section);
      assert SettingsCalls(section, ss) + Read(DEFAULTS, FRESH, rest, section) ==
             SettingCalls(section, ss[0]) + (SettingsCalls(section, ss[1..]) + Read(DEFAULTS, FRESH, rest, section));
    }
  }

  /** A printed header makes no call and switches the section, whatever follows it on its line. */
  lemma {:induction false} ReadsHeader(s: Section, rest: seq<byte>, section: Option<seq<byte>>)
    requires SectionOk(s)
    ensures Read(DEFAULTS, FRESH, PrintLine(HeaderItems(s), s.layout) + rest, section) ==
            Read(DEFAULTS, FRESH, rest, Some(s.name))
  {
    hide Read, LineText, LineEnd, TokenWord, BareWord, PrintLine, TokenOk, Plain;
    var w, items := [OPEN] + s.name + [CLOSE], HeaderItems(s);
    PlainFits(w);
    assert items[1..] == s.extra;
    assert w[1..|w| - 1] == s.name;
    PrintedLine(items, s.layout, rest);
    TokenLineRead(FRESH, items, s.layout.trail, s.layout.comment, rest, section);
  }

  /** The section in force behind a list of sections. */
  function LastSection(cs: seq<Section>, section: Option<seq<byte>>): (s: Option<seq<byte>>) {
    if cs == [] then section else Some(cs[|cs| - 1].name)
  }

  lemma {:induction false} ReadsSections(cs: seq<Section>, rest: seq<byte>, section: Option<seq<byte>>)
    requires forall i :: 0 <= i < |cs| ==> SectionOk(cs[i])
    ensures Read(DEFAULTS, FRESH, PrintSections(cs) + rest, section) ==
            SectionCalls(cs) + Read(DEFAULTS, FRESH, rest, LastSection(cs, section))
    decreases cs
  {
    hide Read, PrintSettings, PrintSections, PrintLine, HeaderItems, SettingOk, SettingsCalls, SectionCalls, LastSection;
    var more := Read(DEFAULTS, FRESH, rest, LastSection(cs, section));
    if cs == [] {
      NoSections(rest, section, more);
    } else {
      HeaderFirst(cs, rest);
      CallsFirst(cs, section, more);
      var tail := PrintSections(cs[1..]) + rest;
      ReadsHeader(cs[0], PrintSettings(cs[0].settings) + tail, section);
      ReadsSettings(cs[0].settings, tail, FRESH, Some(cs[0].name));
      ReadsSections(cs[1..], rest, Some(cs[0].name));
    }
  }

  lemma {:induction false} NoSections(rest: seq<byte>, section: Option<seq<byte>>, more: seq<Call>)
    ensures PrintSections([]) + rest == rest && LastSection([], section) == section && SectionCalls([]) + more == more
  {
  }

  lemma {:induction false} CallsFirst(cs: seq<Section>, section: Option<seq<byte>>, more: seq<Call>)
    requires cs != []
    ensures LastSection(cs, section) == LastSection(cs[1..], Some(cs[0].name))
    ensures SectionCalls(cs) + more ==
            SettingsCalls(Some(cs[0].name), cs[0].settings) + (SectionCalls(cs[1..]) + more)
  {
    hide SettingsCalls;
    assert |cs| > 1 ==> cs[1..][|cs| - 2] == cs[|cs| - 1];
  }

  lemma {:induction false} HeaderFirst(cs: seq<Section>, rest: seq<byte>)
    requires cs != []
    ensures PrintSections(cs) + rest ==
            PrintLine(HeaderItems(cs[0]), cs[0].layout) +
            (PrintSettings(cs[0].settings) + (PrintSections(cs[1..]) + rest))
  {
    hide PrintSettings, PrintLine, HeaderItems;
    var header, body, more := PrintLine(HeaderItems(cs[0]), cs[0].layout), PrintSettings(cs[0].settings), PrintSections(cs[1..]);
    Grouped(body, more, rest);
    Grouped(header, body + more, rest);
  }

  /**
   Global settings followed by any list of sections, printed and read back, make exactly the
   calls they stand for, each in the right section and in order, and then those of whatever
   text follows, read in the last section.
   */
  lemma {:induction false} ConfRoundTrip(globals: seq<Setting>, cs: seq<Section>, text: seq<byte>)
    requires forall i :: 0 <= i < |globals| ==> SettingOk(globals[i])
    requires forall i :: 0 <= i < |cs| ==> SectionOk(cs[i])
    ensures Read(DEFAULTS, FRESH, PrintSettings(globals) + (PrintSections(cs) + text), None) ==
            SettingsCalls(None, globals) + (SectionCalls(cs) + Read(DEFAULTS, FRESH, text, LastSection(cs, None)))
    ensures Read(DEFAULTS, FRESH, [], LastSection(cs, None)) == []
  {
    ReadsSettings(globals, PrintSections(cs) + text, FRESH, None);
    ReadsSections(cs, text, None);
  }

  // ---------------------------------------------------------------- the end of a file

  /**
   A last line that no newline ends makes the calls of its words, except exactly when it is one
   unfinished word: that makes none.
   */
  lemma {:induction false} LastLineRead(l: Limits, p: Parse, text: seq<byte>, section: Option<seq<byte>>)
    requires p.word == [] && !Done(Run(l, Begin(p), text).0)
    ensures Read(l, p, text, section) ==
            if Unfinished(text, false) then [] else CallsOf(section, Line(l, p, text).words)
    ensures Unfinished(text, false) ==> |Line(l, p, text).words| == 1
  {
    hide Run, Unfinished, CallsOf;
    LineAndFileAgreeIff(l, p, text);
    var r := FileNext(l, p, text);
    if r.more {
      assert r.rest == [];
      RunNothing(l, Begin(r.parse));
      ReadNone(l, r.parse, [], SectionAfter(section, r.parse.words));
      LostIff(l, p, text);
    } else {
      assert CallsOf(section, []) == [] by {
        NoCalls(section);
      }
    }
  }

  lemma {:induction false} NoCalls(section: Option<seq<byte>>)
    ensures CallsOf(section, []) == []
  {
  }

  /** So a flag at the very end of a file, without its newline, is lost, whatever stands before it. */
  lemma {:induction false} UnterminatedFlagIsLost(globals: seq<Setting>, cs: seq<Section>, lead: seq<byte>, name: seq<byte>)
    requires forall i :: 0 <= i < |globals| ==> SettingOk(globals[i])
    requires forall i :: 0 <= i < |cs| ==> SectionOk(cs[i])
    requires Blanks(lead) && NameOk(name)
    ensures Read(DEFAULTS, FRESH, PrintSettings(globals) + (PrintSections(cs) + (lead + name)), None) ==
            SettingsCalls(None, globals) + SectionCalls(cs)
  {
    hide Read, FileNext, SettingOk, SectionOk;
    ConfRoundTrip(globals, cs, lead + name);
    var o := Word(false, BareWord(name).pieces, false);
    PlainIsOpen(DEFAULTS, name);
    assert LineText([], lead, OpenText(o)) == lead + name;
    TextOfTokens(DEFAULTS, FRESH, [], lead, o);
    ReadNone(DEFAULTS, FRESH, lead + name, LastSection(cs, None));
    assert SectionCalls(cs) + [] == SectionCalls(cs);
  }

  /** A pair there is not. */
  lemma {:induction false} UnterminatedPairIsRead(globals: seq<Setting>, cs: seq<Section>, lead: seq<byte>, name: seq<byte>,
                                                  before: seq<byte>, after: seq<byte>, value: seq<byte>)
    requires forall i :: 0 <= i < |globals| ==> SettingOk(globals[i])
    requires forall i :: 0 <= i < |cs| ==> SectionOk(cs[i])
    requires Blanks(lead) && Blanks(before) && Blanks(after) && NameOk(name) && !Bracketed(name) && NameOk(value)
    ensures Read(DEFAULTS, FRESH,
                 PrintSettings(globals) + (PrintSections(cs) + (lead + name + (before + [61]) + (after + value))), None) ==
            SettingsCalls(None, globals) + (SectionCalls(cs) + [Call(LastSection(cs, None), name, Some(value))])
  {
    hide Read, SettingOk, SectionOk, PrintSettings, PrintSections, SettingsCalls, SectionCalls, LastSection;
    var text := lead + name + (before + [61]) + (after + value);
    ConfRoundTrip(globals, cs, text);
    LastPairRead(lead, name, before, after, value, LastSection(cs, None));
  }

  lemma {:induction false} LastPairRead(lead: seq<byte>, name: seq<byte>, before: seq<byte>, after: seq<byte>, value: seq<byte>,
                                        section: Option<seq<byte>>)
    requires Blanks(lead) && Blanks(before) && Blanks(after) && NameOk(name) && !Bracketed(name) && NameOk(value)
    ensures Read(DEFAULTS, FRESH, lead + name + (before + [61]) + (after + value), section) ==
            [Call(section, name, Some(value))]
  {
    hide Read, FileNext, Line, Run, OpenText, OpenOk, OpenWord, Plain, ItemsText, ItemsOk, EndsInWord, TokenWord;
    var text := lead + name + (before + [61]) + (after + value);
    var items, o := [Item(lead, BareWord(name)), Item(before, Sign)], Word(false, BareWord(value).pieces, false);
    PlainFits(name);
    PlainIsOpen(DEFAULTS, value);
    PairItems(lead, name, before);
    PairText(lead, name, before);
    Grouped(lead + name, before + [61], after + value);
    TextOfTokens(DEFAULTS, FRESH, items, after, o);
    SignOk();
    var words := TokenWords(DEFAULTS, items) + OpenWord(DEFAULTS, o);
    assert words == [name, [61], value];
    ReadsLast(text, section);
  }

  lemma {:induction false} PairItems(lead: seq<byte>, name: seq<byte>, before: seq<byte>)
    requires Blanks(lead) && Blanks(before) && NameOk(name)
    ensures var items := [Item(lead, BareWord(name)), Item(before, Sign)]; ItemsOk(items, false) && !EndsInWord(items)
  {
    hide BareWord, Plain;
    var items := [Item(lead, BareWord(name)), Item(before, Sign)];
    PlainFits(name);
    assert items[1..] == [Item(before, Sign)] && items[1..][1..] == [];
    assert ItemsOk(items[1..], true);
  }

  lemma {:induction false} PairText(lead: seq<byte>, name: seq<byte>, before: seq<byte>)
    requires NameOk(name)
    ensures ItemsText([Item(lead, BareWord(name)), Item(before, Sign)]) == lead + name + (before + [61])
  {
    hide BareWord, Plain;
    PlainFits(name);
    var first, second := Item(lead, BareWord(name)), Item(before, Sign);
    ItemsTextSnoc([], first);
    ItemsTextSnoc([first], second);
    assert [] + [first] == [first] && [first] + [second] == [first, second];
    assert [] + (lead + name) == lead + name;
  }

  /** The last line of a file is read once. */
  lemma {:induction false} ReadsLast(text: seq<byte>, section: Option<seq<byte>>)
    requires var r := FileNext(DEFAULTS, FRESH, text); r.more && r.rest == [] && !r.parse.state.ParseErr?
    ensures Read(DEFAULTS, FRESH, text, section) == CallsOf(section, FileNext(DEFAULTS, FRESH, text).parse.words)
  {
    hide CallsOf, Run;
    var r := FileNext(DEFAULTS, FRESH, text);
    RunNothing(DEFAULTS, Begin(r.parse));
    ReadNone(DEFAULTS, r.parse, [], SectionAfter(section, r.parse.words));
  }

  // ---------------------------------------------------------------- parse errors

  /**
   A number sign inside open quotes is an error. What was read up to and including it has no
   effect; everything behind it, on the same line of the file, is read as if it were a new line.
   */
  lemma {:induction false} ErrorTailIsRead(l: Limits, p: Parse, text: seq<byte>, tail: seq<byte>, section: Option<seq<byte>>)
    requires p.word == [] && Run(l, Begin(p), text).0.state.QuoteCollect?
    ensures Read(l, p, text + ([HASH] + tail), section) == Read(l, FRESH, tail, section)
  {
    hide Run;
    var q := Run(l, Begin(p), text).0;
    var failed := EndOfWord(l, q).(state := ParseErr);
    RunAppend(l, Begin(p), text, [HASH] + tail);
    RunDone(l, q, HASH, tail, failed);
    ReadFrom(l, failed, FRESH, tail, section);
  }

  /** And that is the only way a line fails: the reader stops right behind such a number sign. */
  lemma {:induction false} ErrorStopsBehindHash(l: Limits, p: Parse, file: seq<byte>, section: Option<seq<byte>>)
    returns (k: nat)
    requires p.word == [] && FileNext(l, p, file).parse.state.ParseErr?
    ensures k < |file| && file[k] == HASH && Run(l, Begin(p), file[..k]).0.state.QuoteCollect?
    ensures FileNext(l, p, file).rest == file[k + 1..]
    ensures Read(l, p, file, section) == Read(l, FRESH, file[k + 1..], section)
  {
    k := FailsAt(l, Begin(p), file);
    assert file == file[..k] + ([HASH] + file[k + 1..]);
    ErrorTailIsRead(l, p, file[..k], file[k + 1..], section);
  }

  lemma {:induction false} FailsAt(l: Limits, p: Parse, file: seq<byte>) returns (k: nat)
    requires !Done(p) && Run(l, p, file).0.state.ParseErr?
    ensures k < |file| && file[k] == HASH && Run(l, p, file[..k]).0.state.QuoteCollect?
    ensures Run(l, p, file).1 == file[k + 1..]
    decreases file
  {
    hide Step;
    var q := Step(l, p, file[0]);
    HashInQuotesFails(l, p, file[0]);
    if q.state.ParseErr? {
      k := 0;
      RunNothing(l, p);
    } else {
      k := FailsAt(l, q, file[1..]);
      assert file[..k + 1][1..] == file[1..][..k];
      k := k + 1;
    }
  }

  /** Words that make no call and leave the section as it is. */
  predicate Silent(section: Option<seq<byte>>, words: seq<seq<byte>>) {
    || words == []
    || (if IsHeader(words[0]) then section == Some(HeaderName(words[0]))
        else |words| == 2 || (|words| > 2 && words[1] != [EQUALS]))
  }

  /**
   A line with an error is therefore without effect exactly when the words behind the number
   sign are: they make their call and switch the section like any others.
   */
  lemma {:induction false} ErrorLineSilentIff(l: Limits, p: Parse, text: seq<byte>, tail: seq<byte>, section: Option<seq<byte>>)
    requires p.word == [] && Run(l, Begin(p), text).0.state.QuoteCollect?
    requires FileNext(l, FRESH, tail).more && !FileNext(l, FRESH, tail).parse.state.ParseErr?
    ensures var r := FileNext(l, FRESH, tail);
            && Read(l, p, text + ([HASH] + tail), section) ==
               CallsOf(section, r.parse.words) + Read(l, r.parse, r.rest, SectionAfter(section, r.parse.words))
            && (CallsOf(section, r.parse.words) == [] && SectionAfter(section, r.parse.words) == section
                <==> Silent(section, r.parse.words))
  {
    hide Run, FileNext;
    ErrorTailIsRead(l, p, text, tail, section);
  }

  /** The line x="a#b" makes a call, for a flag named b" that nobody wrote. */
  lemma {:induction false} ErrorLineMakesCall()
    ensures Read(DEFAULTS, FRESH, [120, EQUALS, QUOTE, 97] + ([HASH] + [98, QUOTE, NEWLINE]), None) ==
            [Call(None, [98, QUOTE], None)]
  {
    hide Read, Run, BareWord, ItemsText;
    OpenQuote();
    ErrorTailIsRead(DEFAULTS, FRESH, [120, EQUALS, QUOTE, 97], [98, QUOTE, NEWLINE], None);
    TailOfError();
  }

  lemma {:induction false} OpenQuote()
    ensures Run(DEFAULTS, FRESH, [120, EQUALS, QUOTE, 97]).0.state.QuoteCollect?
  {
    hide Run, BareWord, ItemsText;
    var text := [120, EQUALS] + ([QUOTE] + ([97] + []));
    assert text == [120, EQUALS, QUOTE, 97];
    PairItems([], [120], []);
    PairText([], [120], []);
    assert [] + [120] + ([] + [EQUALS]) == [120, EQUALS];
    Fresh(DEFAULTS);
    var us, held := ItemsRead(DEFAULTS, [], None, [Item([], BareWord([120])), Item([], Sign)], [QUOTE] + ([97] + []));
    var p := Behind(DEFAULTS, us, None);
    RunOn(DEFAULTS, p, QUOTE, [97] + [], p.(state := QuoteCollect));
    var q := AddChar(DEFAULTS, p.(state := QuoteCollect), 97);
    RunOn(DEFAULTS, p.(state := QuoteCollect), 97, [], q);
    RunNothing(DEFAULTS, q);
  }

  lemma {:induction false} TailOfError()
    ensures Read(DEFAULTS, FRESH, [98, QUOTE, NEWLINE], None) == [Call(None, [98, QUOTE], None)]
  {
    hide Read, Run, BareWord;
    var s := Flag([98, QUOTE], Layout([], [], None));
    PlainFits([98, QUOTE]);
    var items := SettingItems(s);
    assert items[1..] == [];
    assert ItemsText(items) == [98, QUOTE];
    assert PrintSetting(s) + [] == [98, QUOTE, NEWLINE];
    ReadsSetting(s, [], FRESH, None);
    RunNothing(DEFAULTS, FRESH);
    ReadNone(DEFAULTS, FRESH, [], None);
  }
}
